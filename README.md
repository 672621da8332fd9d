# Threads scraper: crawl-and-collect core

This project models the logic of `ThreadsScraper` that decides what a crawl collects, and
proves properties of that model. The browser is treated as an oracle that answers questions
about the page.

What is modelled:

- **Image list of a post.** The model classifies every `<img>` as a profile picture, an icon
  or a content image. It then builds the post's image list: accepted `src` values in
  first-seen order, with no repeats.
- **Record of an element.** Text, timestamp, non-empty stats, images and permalink.
  A missing part becomes `""` or `[]`.
- **Save gate.** `_should_save_post` and `_save_post` act on the two append-only collections
  `posts` and `replies` of a `ThreadsScraper` object. Together they keep an invariant: every
  record has text or images, and no two records share the same text and timestamp.
- **Crawl loop.** Each attempt extracts from the elements of the first article selector that
  finds any, then scrolls and checks for a stall; the loop stops at a stall or after
  `2 * max_scrolls` attempts. The stall check always compares against the height read once
  before the loop, as the code does. The consequence is proved: a page that grows once and
  then stops growing is never seen as finished, so the loop runs to its cap.
- **Content-ready gate.** A loop over polls. Within one poll, the ready test comes before the
  login/block test.
- **Paragraph escaping (`_clean_text`).** The replace chain is proved equal to escaping each
  character on its own.
- **PDF layout.** Abstract blocks: page breaks after every third record, and a page break
  between the two sections.

The browser's answers are parameters:

- the sequence of `document.body.scrollHeight` readings (the first is the one taken before the
  loop);
- for each extracting visit, the elements each CSS selector finds;
- for the content gate, one snapshot per poll: the selectors that matched, the page length and
  the URL (or an error raised by the driver).

Modules: `Seqs` and `Strings` (shared vocabulary), `Images`, `Records`, `Crawl`,
`ContentGate`, `Scraper` (the `ThreadsScraper` class), `PdfText`, `PdfLayout`.

## Model

| member | source | states |
|---|---|---|
| Strings.ContainsIff | threads_scraper.py:171 | The substring scan succeeds iff the needle occurs at some position. |
| Strings.ContainsOccurs | threads_scraper.py:171 | When the scan succeeds, there is a position where the needle occurs. |
| Strings.OccursContains | threads_scraper.py:171 | An occurrence of the needle at any position makes the scan succeed. |
| Strings.ContainsAnyIff | threads_scraper.py:493-494 | `any(indicator in s ...)` holds iff some indicator is contained in `s`. |
| Seqs.DedupNoDuplicates | threads_scraper.py:472-474 | First-seen de-duplication yields no repeated element. |
| Seqs.DedupElements | threads_scraper.py:472-474 | De-duplication keeps exactly the input's elements. |
| Seqs.DedupSubsequence | threads_scraper.py:472-474 | De-duplication keeps input order. |
| Seqs.DedupFirstSeen | threads_scraper.py:472-474 | The kept elements are ordered by their first occurrence in the input. |
| Images.IsProfilePictureIff | threads_scraper.py:481-496 | An indicator in the lower-cased src or in alt makes a profile picture. With the fixed indicator list, that is exactly when an image is one: the `"profile"` and `"avatar"` alt tests add nothing. Dimensions play no part. |
| Images.SmallImageRule | threads_scraper.py:498-516 | A width or height that fails to parse means not small. Both dimensions absent, non-positive or ≥ 50 means not small. A parsed dimension in 1..49 means small when the other one parses (absent counts as 0). |
| Images.AcceptsIff | threads_scraper.py:457-474 | A candidate is kept iff its src is present and non-empty, no profile indicator occurs in its lower-cased src or lower-cased alt, and it is not small. |
| Images.ExcludedAltIsProfile | threads_scraper.py:454 | The profile test would reject anyway any image the query drops (alt `"Profile picture"`). |
| Images.SelectImagesIrrelevant | threads_scraper.py:454 | The `img:not([alt='Profile picture'])` query does not change which URLs are accepted. |
| Images.ImageUrlsIsDedup | threads_scraper.py:457-476 | The list built by the loop equals the first-seen de-duplication of the accepted src values, in document order. |
| Images.AcceptedSourcesMembers | threads_scraper.py:457-476 | A URL is accepted iff some candidate with that src is accepted. |
| Images.AcceptedSourcesSubsequence | threads_scraper.py:457-476 | Accepted URLs keep document order among all present src values. |
| Images.ImageUrlsFacts | threads_scraper.py:436-479 | A post's image list has no duplicates. It holds a URL iff some candidate with that src is accepted. It is a subsequence of the candidates' src values, and lists each URL in the order of its first acceptance. |
| Images.ExtractImages | threads_scraper.py:436-479 | The loop's result is the image list of the post's candidates, with the properties of `ImageUrlsFacts`. |
| Images.AbsentDimensionNotSmall | threads_scraper.py:508-510 | A missing dimension reads as 0: with the other dimension ≥ 50 and no profile match, the image is kept. |
| Records.ExtractStatsFacts | threads_scraper.py:428-434 | A text is kept iff it is non-empty and among the inputs. Each non-empty text is kept as often as it occurs, repeats included, and the kept texts are in input order. |
| Records.ExtractPostData | threads_scraper.py:388-410 | The method returns the record of the element (`RecordOf`). |
| Records.RecordOfFacts | threads_scraper.py:388-410 | A missing text, timestamp or permalink gives `""`. The stats are the non-empty stat texts, each as often as it occurs, in order. The images have no duplicates. |
| Records.DuplicateFromIff | threads_scraper.py:318-323 | The scan from a position finds a duplicate iff some record at or after it has the same text and timestamp. |
| Records.IsDuplicateIff | threads_scraper.py:318-323 | The front-to-back scan reports a duplicate iff some record has the same text and timestamp. |
| Records.AdmissibleIff | threads_scraper.py:303-325 | A record is admitted iff it has text or images and no record in the collection has equal text and timestamp. |
| Records.AdmissibleAppend | threads_scraper.py:303-338 | Appending an admitted record keeps the collection invariant. |
| Records.SaveAllKeepsPrefix | threads_scraper.py:229-240 | Saving the records of a visit keeps the existing records as a prefix and keeps the invariant. |
| Records.SaveAllSubsequence | threads_scraper.py:229-240 | The appended records are a subsequence of the readable elements' records, in element order. |
| Records.SaveAllComplete | threads_scraper.py:229-240 | Nothing worth keeping is lost: for every extracted record with content, the collection after saving holds a record with its text and timestamp (the record itself, or the one that made it a duplicate). |
| Records.HarvestComplete | threads_scraper.py:229-240 | After one visit, every readable element whose record has content is represented by a record with the same text and timestamp. |
| Records.SaveAllFirstWins | threads_scraper.py:229-240 | The first one wins: every record that saving appends is an extracted record with content whose key is absent from the collection, and no earlier extracted record with content has that key. |
| Records.HarvestFirstWins | threads_scraper.py:229-240 | After one visit, every appended record is the record of a readable element that is the first element with content of its text/timestamp key, and that key was not in the collection before. |
| Records.SaveAllKeepsFirst | threads_scraper.py:314-325 | Of three records with one text/timestamp key, only the first is saved. |
| Records.SameKeyKeepsFirst | threads_scraper.py:229-240 | Three elements with one text/timestamp key yield one record, the first element's. |
| Crawl.FirstNonEmptyFirst | threads_scraper.py:278-289 | Trying selectors from a position gives nothing iff none of them finds anything. Otherwise it gives the result of the first selector that finds something. |
| Crawl.FindArticleElementsFirst | threads_scraper.py:271-291 | The result is empty iff every article selector finds nothing. Otherwise it is the result of the first selector that finds something. |
| Crawl.ScrollPage | threads_scraper.py:340-368 | Stops (false) iff the first reading equals `last_height` and the second reading also equals it. The second reading is consumed only when the first is equal. |
| Crawl.ScrollsBounds | threads_scraper.py:222-249 | From a given attempt, the loop makes between that attempt and the budget scroll calls, with at most two readings per scroll. If it stops before the cap, the last two readings both equal the initial height. |
| Crawl.ScrollsFirstStall | threads_scraper.py:222-249 | The loop makes one scroll call more than the index of the first attempt whose stall check reads the initial height twice. No earlier check stalls. It reaches the `2 * max_scrolls` cap only when no check before the last one stalls. |
| Crawl.VisitPageOnlyAppends | threads_scraper.py:228-242 | One extracting visit keeps the existing records as a prefix and keeps the invariant. |
| Crawl.VisitsKeepPrefix | threads_scraper.py:227-249 | A run of visits that each only append keeps the starting collection as a prefix and keeps the invariant. |
| Crawl.CollectedKeepsPrefix | threads_scraper.py:227-249 | The visits of a crawl keep the collection prefix and invariant. |
| Crawl.CrawlPass | threads_scraper.py:209-252 | A pass makes at most `2 * max_scrolls` scroll calls. With `max_scrolls <= 0` it collects nothing. It keeps the prefix and the invariant. |
| Crawl.FlatPageStopsAtFirstScroll | threads_scraper.py:222-249 | A page whose height never changes stops after one extraction and one scroll call. |
| Crawl.NeverStallsAfterGrowth | threads_scraper.py:222-249 | When every later reading differs from the initial height, the loop never stops early. |
| Crawl.GrownPageRunsToCap | threads_scraper.py:222-249 | A page whose later heights all differ from the initial one (it grew once and then stayed put) always gets `2 * max_scrolls` scroll calls. |
| ContentGate.IsBlockedPage | threads_scraper.py:163-171 | Blocked iff `"login"` or `"blocked"` occurs in the lower-cased URL. |
| ContentGate.Gate | threads_scraper.py:143-161 | Ready at the first poll that is ready. Blocked at the first poll that is not ready but blocked. Timed out iff no poll is ready or blocked. |
| ContentGate.WaitForContent | threads_scraper.py:121-161 | Returns true iff some poll is ready (a selector matched and the page is longer than 1000) and no earlier poll is ready or blocked. |
| Scraper.ThreadsScraper.constructor | threads_scraper.py:38-52 | Both collections start empty and valid. |
| Scraper.ThreadsScraper.ShouldSavePost | threads_scraper.py:303-325 | Save iff the record has content and no record of the collection chosen by `is_replies` has the same key. |
| Scraper.ThreadsScraper.SavePost | threads_scraper.py:327-338 | Appends exactly the record to the chosen collection and leaves the other unchanged. An admitted record keeps the object valid. |
| Scraper.ThreadsScraper.ExtractAll | threads_scraper.py:229-242 | The per-element loop leaves the collection equal to `Harvest` of the elements. It counts the records saved, leaves the other collection alone and keeps validity. |
| Scraper.ThreadsScraper.Visit | threads_scraper.py:228-242 | One attempt's extraction advances the collection by one visit of the page and counts the records saved. |
| Scraper.ThreadsScraper.CrawlLoop | threads_scraper.py:222-249 | The `while` loop makes the number of scroll calls that `Scrolls` predicts, at most `2 * max_scrolls`. It leaves the collection equal to one visit per scroll call. `posts_count` is the number of records appended. The other collection is unchanged. |
| Scraper.ThreadsScraper.ScrollAndExtract | threads_scraper.py:209-252 | The loop's collection and scroll count are those of `CrawlPass`, with at most `2 * max_scrolls` scrolls. `posts_count` is the number of records appended. The no-content handler runs iff that count is 0. The other collection is unchanged and validity is kept. |
| Scraper.ThreadsScraper.Scrape | threads_scraper.py:173-200 | Collects iff the content gate reports ready. A failed gate leaves the collection as it was. Validity is kept. |
| PdfText.CleanTextIsCharMap | threads_scraper.py:756-776 | The replace chain followed by control blanking equals escaping each character independently. |
| PdfText.CleanTextSafe | threads_scraper.py:756-776 | Cleaned text contains no `<`, `>`, `"`, `'` and no control character other than `\n`, `\r`, `\t`. |
| PdfText.CleanTextIdentity | threads_scraper.py:756-776 | Text with no special character comes back unchanged (the empty text included). |
| PdfLayout.EntriesEnds | threads_scraper.py:642-648 | A section's records run from the first to the last, and there are none iff the section is empty. |
| PdfLayout.EntriesKinds | threads_scraper.py:642-648 | A section holds only its own records, numbered in range, and page breaks. |
| PdfLayout.BreakRulePrepend | threads_scraper.py:645-648 | Putting record `i`, with a break exactly when the rule asks for one, in front of a rule-abiding tail keeps the rule. |
| PdfLayout.EntriesBreakRule | threads_scraper.py:642-648 | In a section, a page break follows record `i` iff `i % 3 == 0` and `i` is not the last record. |
| PdfLayout.EntriesBreakFollows | threads_scraper.py:642-648 | Every page break comes right after a record. |
| PdfLayout.SectionLayout | threads_scraper.py:635-652 | A section starts with its heading and holds only records and breaks after it. |
| PdfLayout.SectionSeparator | threads_scraper.py:605-624 | A page break comes right before the replies heading iff there are both posts and replies. |

## Left out

- Driver setup, chromedriver lookup, the troubleshooting printout and `sys.exit` (lines 54-119): process and filesystem I/O.
- `time.sleep` and the wall-clock timeout of `_wait_for_content`: the model replaces them with a finite sequence of polls, so "timed out" means "out of polls".
- JavaScript execution (`_trigger_initial_load`, the scrolls, `scrollIntoView`): browser side effects. Only the height readings they lead to are modelled.
- `_scroll_page`'s `current_attempt` and `max_attempts` parameters: they are only printed.
- `_save_debug_info` and the screenshot in `_handle_no_content`: file I/O. `_handle_no_content` is modelled as the `noContent` flag.
- `download_image`, `_process_image`, the markdown image downloads: network I/O, PIL and floating-point scaling.
- Building the reportlab document, its styles, the fallback formats, `_save_as_text` and its unescaping, the JSON dump and the markdown writer: foreign-library and file writes. The PDF layout is kept only as abstract blocks, with each record's paragraphs and images folded into one entry.
- Timestamp formatting with `datetime`, and the `__main__` argument parsing.
- Strings.Lower: lower-cases ASCII letters only, because Unicode case mapping is not modelled.
- Images.IsSmallImage: Python's `int()` parsing is abstracted into the `Attr` values Missing, Parsed and Bad.
- Images.ExtractImages: does not model the outer `try` that turns an exception raised while reading an image into an empty list.
- Records.ExtractPostData: an exception other than a missing element, raised while reading an element, is modelled as a `Broken` element that the crawl skips.
- Scraper.ThreadsScraper.ScrollAndExtract: requires that the oracle holds enough readings and element maps for a full budget (`Crawl.Supplied`). This is a modelling artefact, not a demand of the source.
- Scraper.ThreadsScraper.ScrollAndExtract: its contract covers only a pass in which the driver raises nowhere outside the per-element `try`. The model cannot express a failure of these calls: the initial height read (line 222), `_find_article_elements` (line 228, its `find_elements` at line 287), the scripts of `_scroll_page` (lines 353-364), `_save_debug_info` (line 220) and the screenshot of `_handle_no_content` (line 385). Such an exception leaves `_scroll_and_extract` unhandled, and nothing up to `__main__` catches it. The rest of the pass is abandoned (the no-content handler does not run when the failure comes earlier), the replies pass is skipped and no output is written. The height readings and element maps are always answers.
- Scraper.ThreadsScraper.Scrape: has the same `Crawl.Supplied` requirement, passed on to `ScrollAndExtract`.
- Scraper.ThreadsScraper.Scrape: its contract covers only a run in which navigation returns: `driver.get` (lines 176 and 192) and the `execute_script` of `_trigger_initial_load` (lines 182 and 195, script at 204-207) lie outside any `try`. The model starts after both calls. When either raises, for example on a page-load timeout or a network error, nothing catches it: `__main__` has only `try`/`finally` (lines 1007-1102). Both passes stop and no output is written.
- Crawl.CrawlPass: has the same `Crawl.Supplied` requirement.
- Scraper.ThreadsScraper.CrawlLoop: has the same `Crawl.Supplied` requirement. Its contract is stated over a ghost visit function that must agree with `Crawl.VisitPage` on every input; `ScrollAndExtract` passes `VisitPage` itself. `_scroll_and_extract` is split into this loop and the wrapper that runs the no-content handler, which is a proof layout and not a change of behaviour.
- Crawl.FindArticleElementsFirst: the five CSS selectors are an enumeration, and what each finds on the page is an oracle map; CSS matching itself is not modelled.
- PdfLayout.Entries: the per-record `try`/`except` of `_create_posts_section` and `_create_replies_section` (lines 643-650 and 662-669) is not modelled. When building a record's paragraphs raises, for example because reportlab rejects the markup of the unescaped `URL:` paragraph, the source emits neither that record's blocks nor the page break after it. The model always emits an entry for every record, so its break rule and layout lemmas describe the case where no record fails.
- PdfText.CleanTextIsCharMap: the `isinstance`/`str()` conversion of non-string input is not modelled, because every input here is a string.
