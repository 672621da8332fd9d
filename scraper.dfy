/** The crawl session: the `ThreadsScraper` object with its two append-only
    collections, the save gate, and one collection pass. */
module Scraper {
  import opened Seqs
  import opened Records
  import opened Crawl
  import opened ContentGate

  class ThreadsScraper {
    const username: string
    const maxScrolls: int
    var posts: seq<Record>
    var replies: seq<Record>

    /** Both collections keep the save invariant: content in every record, no repeated key. */
    ghost predicate Valid()
      reads this
    {
      Consistent(posts) && Consistent(replies)
    }

    /** The driver set-up of `__init__` is not part of this model. */
    constructor (username: string, maxScrolls: int)
      ensures this.username == username && this.maxScrolls == maxScrolls
      ensures posts == [] && replies == []
      ensures Valid()
    {
      this.username := username;
      this.maxScrolls := maxScrolls;
      posts := [];
      replies := [];
    }

    /** `self.replies if is_replies else self.posts`. */
    function Collection(isReplies: bool): seq<Record>
      reads this
    {
      if isReplies then replies else posts
    }

    /** `_should_save_post`: a record needs text or images, and no record of the chosen
        collection may have the same text and timestamp. */
    function ShouldSavePost(rec: Record, isReplies: bool): (r: bool)
      reads this
      ensures r <==> HasContent(rec) &&
                     forall i :: 0 <= i < |Collection(isReplies)| ==> !SameKey(Collection(isReplies)[i], rec)
    {
      AdmissibleIff(Collection(isReplies), rec);
      Admissible(Collection(isReplies), rec)
    }

    /** `_save_post`: appends to the chosen collection only. */
    method SavePost(rec: Record, isReplies: bool)
      modifies this
      ensures Collection(isReplies) == old(Collection(isReplies)) + [rec]
      ensures Collection(!isReplies) == old(Collection(!isReplies))
      ensures old(Valid()) && old(ShouldSavePost(rec, isReplies)) ==> Valid()
    {
      if ShouldSavePost(rec, isReplies) {
        AdmissibleAppend(Collection(isReplies), rec);
      }
      if isReplies {
        replies := replies + [rec];
      } else {
        posts := posts + [rec];
      }
    }

    /** The `for article in articles` loop of `_scroll_and_extract`: extract each element,
        save it if the gate admits it, skip an element that raises. */
    method ExtractAll(isReplies: bool, articles: seq<Element>) returns (saved: nat)
      modifies this
      ensures Collection(isReplies) == Harvest(old(Collection(isReplies)), articles)
      ensures |Collection(isReplies)| == |old(Collection(isReplies))| + saved
      ensures Collection(!isReplies) == old(Collection(!isReplies))
      ensures old(Valid()) ==> Valid()
    {
      ghost var before := Collection(isReplies);
      ghost var other := Collection(!isReplies);
      ghost var recs := Extracted(articles);
      saved := 0;
      var j := 0;
      while j < |articles|
        invariant 0 <= j <= |articles|
        invariant Collection(isReplies) == SaveAll(before, recs[..j])
        invariant |Collection(isReplies)| == |before| + saved
        invariant Collection(!isReplies) == other
      {
        assert recs[..j + 1][..j] == recs[..j];
        assert recs[..j + 1][j] == Extract(articles[j]);
        match articles[j] {
          case Broken =>
          case Live(a) =>
            var rec := ExtractPostData(a);
            if ShouldSavePost(rec, isReplies) {
              SavePost(rec, isReplies);
              saved := saved + 1;
            }
        }
        j := j + 1;
      }
      assert recs[..j] == recs;
      SaveAllKeepsPrefix(before, recs);
      if old(Valid()) {
        assert Consistent(before) && Consistent(other);
        ValidAfterPass(isReplies, before, other);
      }
    }

    /** One attempt's extraction: query the first matching selector on the page as it
        is at visit `n`, then harvest the elements it returned. */
    method Visit(isReplies: bool, ghost start: seq<Record>, passes: seq<Found>, n: nat,
                 ghost visit: (seq<Record>, Found) -> seq<Record>)
      returns (saved: nat)
      requires IsPageVisit(visit)
      requires n < |passes| && Collection(isReplies) == Visits(start, passes, n, visit)
      modifies this
      ensures Collection(isReplies) == Visits(start, passes, n + 1, visit)
      ensures |Collection(isReplies)| == |old(Collection(isReplies))| + saved
      ensures Collection(!isReplies) == old(Collection(!isReplies))
    {
      var articles := FindArticleElements(passes[n]);
      saved := ExtractAll(isReplies, articles);
      assert Collection(isReplies) == VisitPage(old(Collection(isReplies)), passes[n]);
    }

    /** The other collection untouched and the chosen one grown consistently keep `Valid`. */
    lemma ValidAfterPass(isReplies: bool, start: seq<Record>, other: seq<Record>)
      requires Collection(!isReplies) == other
      requires Consistent(start) && Consistent(other)
      requires Consistent(start) ==> Consistent(Collection(isReplies))
      ensures Valid()
    {
    }

    /** The `while` loop of `_scroll_and_extract`: extract from the elements of the first
        matching selector, then `_scroll_page` against the height read before the loop;
        stop at a stall or after `2 * maxScrolls` attempts. Returns the number of records
        saved and the number of `_scroll_page` calls. The loop is stated for any `visit`
        that agrees with `VisitPage`. */
    method CrawlLoop(isReplies: bool, readings: seq<int>, passes: seq<Found>,
                     ghost visit: (seq<Record>, Found) -> seq<Record>)
      returns (postsCount: nat, scrolls: nat)
      requires Supplied(readings, passes, Budget(maxScrolls)) && IsPageVisit(visit)
      modifies this
      ensures scrolls <= Budget(maxScrolls)
      ensures scrolls == Scrolls(readings, Budget(maxScrolls), 0, 1).scrolls
      ensures Collection(isReplies) == Visits(old(Collection(isReplies)), passes, scrolls, visit)
      ensures Collection(!isReplies) == old(Collection(!isReplies))
      ensures |Collection(isReplies)| == |old(Collection(isReplies))| + postsCount
    {
      ghost var start := Collection(isReplies);
      ghost var other := Collection(!isReplies);
      ghost var budget := Budget(maxScrolls);
      ghost var stop := Scrolls(readings, budget, 0, 1);
      var lastHeight := readings[0];
      postsCount := 0;
      var scrollAttempts := 0;
      var maxScrollAttempts := maxScrolls * 2;
      var k := 1;
      scrolls := 0;
      while scrollAttempts < maxScrollAttempts
        invariant 0 <= scrollAttempts <= budget && scrolls == scrollAttempts
        invariant 1 <= k <= 1 + 2 * scrollAttempts
        invariant stop == Scrolls(readings, budget, scrollAttempts, k)
        invariant Collection(isReplies) == Visits(start, passes, scrollAttempts, visit)
        invariant Collection(!isReplies) == other
        invariant |Collection(isReplies)| == |start| + postsCount
      {
        var saved := Visit(isReplies, start, passes, scrollAttempts, visit);
        postsCount := postsCount + saved;
        var keepGoing, next := ScrollPage(lastHeight, readings, k);
        scrolls := scrolls + 1;
        if !keepGoing {
          ScrollsStops(readings, budget, scrollAttempts, k);
          return;
        }
        ScrollsContinues(readings, budget, scrollAttempts, k);
        k := next;
        scrollAttempts := scrollAttempts + 1;
      }
    }

    /** `_scroll_and_extract`: the crawl loop, then the no-content handler when nothing was
        saved. Returns the number of records saved, the number of `_scroll_page` calls, and
        whether the no-content handler ran. */
    method ScrollAndExtract(isReplies: bool, readings: seq<int>, passes: seq<Found>)
      returns (postsCount: nat, scrolls: nat, noContent: bool)
      requires Supplied(readings, passes, Budget(maxScrolls))
      modifies this
      ensures Collection(isReplies) == CrawlPass(old(Collection(isReplies)), readings, passes, maxScrolls).collection
      ensures scrolls == CrawlPass(old(Collection(isReplies)), readings, passes, maxScrolls).scrolls
      ensures scrolls <= Budget(maxScrolls)
      ensures Collection(!isReplies) == old(Collection(!isReplies))
      ensures |Collection(isReplies)| == |old(Collection(isReplies))| + postsCount
      ensures Collection(isReplies)[..|old(Collection(isReplies))|] == old(Collection(isReplies))
      ensures noContent <==> postsCount == 0
      ensures old(Valid()) ==> Valid()
    {
      ghost var start := Collection(isReplies);
      ghost var other := Collection(!isReplies);
      postsCount, scrolls := CrawlLoop(isReplies, readings, passes, VisitPage);
      CollectedKeepsPrefix(start, passes, scrolls);
      if old(Valid()) {
        assert Consistent(start) && Consistent(other);
        ValidAfterPass(isReplies, start, other);
      }
      noContent := postsCount == 0;
    }

    /** `scrape_posts` / `scrape_replies` after `driver.get` and `_trigger_initial_load`
        have returned: run the content-ready gate and, only if it passes, one collection
        pass. A failed gate leaves the collection as it was. */
    method Scrape(isReplies: bool, polls: seq<Poll>, readings: seq<int>, passes: seq<Found>)
      returns (loaded: bool, postsCount: nat)
      requires Supplied(readings, passes, Budget(maxScrolls))
      modifies this
      ensures loaded <==> Gate(polls, 0).ReadyAt?
      ensures loaded ==> Collection(isReplies) == CrawlPass(old(Collection(isReplies)), readings, passes, maxScrolls).collection
      ensures !loaded ==> Collection(isReplies) == old(Collection(isReplies))
      ensures |Collection(isReplies)| == |old(Collection(isReplies))| + postsCount
      ensures Collection(!isReplies) == old(Collection(!isReplies))
      ensures old(Valid()) ==> Valid()
    {
      loaded := WaitForContent(polls);
      postsCount := 0;
      if loaded {
        var scrolls, noContent;
        postsCount, scrolls, noContent := ScrollAndExtract(isReplies, readings, passes);
      }
    }
  }
}
