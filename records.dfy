/** Records, their extraction from one content element, and the
    de-duplication gate (`_extract_post_data`, `_extract_stats`,
    `_should_save_post`). */
module Records {
  import opened Seqs
  import opened Images

  /** One scraped post or reply. */
  datatype Record = Record(text: string, timestamp: string, stats: seq<string>, images: seq<string>, url: string)

  /** What the browser reports about one content element: the text of its first
      `span[dir='auto']`, the `datetime` of its first `time` element, the texts of its
      `span.x193iq5w` elements, its `<img>` elements and the `href` of its first
      `a[href*='/t/']`. A `None` is an absent element or attribute. */
  datatype Article = Article(
    textSpan: Option<string>,
    datetime: Option<string>,
    statTexts: seq<string>,
    imgs: seq<ImageCandidate>,
    permalink: Option<string>)

  /** A content element: one the browser can read, or one whose processing raises
      (a stale element, a failing scroll into view), which the crawl skips. */
  datatype Element = Live(article: Article) | Broken

  /** `_extract_stats`: the stat texts, empty ones dropped. */
  function ExtractStats(texts: seq<string>): seq<string>
    decreases |texts|
  {
    if texts == [] then []
    else
      var rest := ExtractStats(texts[..|texts| - 1]);
      if texts[|texts| - 1] != "" then rest + [texts[|texts| - 1]] else rest
  }

  /** The kept stats are exactly the non-empty texts, repeats included, in input order. */
  lemma {:induction false} ExtractStatsFacts(texts: seq<string>)
    ensures forall t :: t in ExtractStats(texts) <==> t in texts && t != ""
    ensures forall t :: multiset(ExtractStats(texts))[t] == if t == "" then 0 else multiset(texts)[t]
    ensures IsSubsequence(ExtractStats(texts), texts)
    decreases |texts|
  {
    if texts != [] {
      var p := texts[..|texts| - 1];
      var t := texts[|texts| - 1];
      ExtractStatsFacts(p);
      assert texts == p + [t];
      ExtractStatsCountStep(p, t);
      SubsequenceExtend(ExtractStats(p), p, t);
    }
  }

  /** Counting one more text: a non-empty one adds one occurrence to both sides. */
  lemma ExtractStatsCountStep(p: seq<string>, t: string)
    requires forall u :: multiset(ExtractStats(p))[u] == if u == "" then 0 else multiset(p)[u]
    ensures forall u :: multiset(ExtractStats(p + [t]))[u] == if u == "" then 0 else multiset(p + [t])[u]
  {
    var texts := p + [t];
    assert texts[..|texts| - 1] == p;
    assert multiset(texts) == multiset(p) + multiset{t};
    if t != "" {
      assert multiset(ExtractStats(texts)) == multiset(ExtractStats(p)) + multiset{t};
    }
  }

  /** The record `_extract_post_data` builds from an element: each field independently,
      an absent part giving "" or []. */
  function RecordOf(a: Article): Record {
    Record(a.textSpan.GetOr(""), a.datetime.GetOr(""), ExtractStats(a.statTexts),
           ImageUrls(a.imgs), a.permalink.GetOr(""))
  }

  /** `_extract_post_data`. */
  method ExtractPostData(a: Article) returns (r: Record)
    ensures r == RecordOf(a)
  {
    var images := ExtractImages(a.imgs);
    r := Record(a.textSpan.GetOr(""), a.datetime.GetOr(""), ExtractStats(a.statTexts),
                images, a.permalink.GetOr(""));
  }

  /** An absent part gives an empty field, the stats are exactly the non-empty stat
      texts (each as often as it occurs, in order), and the image list has no repeats. */
  lemma RecordOfFacts(a: Article)
    ensures a.textSpan == None ==> RecordOf(a).text == ""
    ensures a.datetime == None ==> RecordOf(a).timestamp == ""
    ensures a.permalink == None ==> RecordOf(a).url == ""
    ensures forall t :: t in RecordOf(a).stats <==> t in a.statTexts && t != ""
    ensures forall t :: multiset(RecordOf(a).stats)[t] == if t == "" then 0 else multiset(a.statTexts)[t]
    ensures IsSubsequence(RecordOf(a).stats, a.statTexts)
    ensures NoDuplicates(RecordOf(a).images)
  {
    ExtractStatsFacts(a.statTexts);
    ImageUrlsFacts(a.imgs);
  }

  /** A record worth keeping has text or at least one image. */
  predicate HasContent(r: Record) {
    r.text != "" || r.images != []
  }

  /** Two records are the same logical entity when text and timestamp agree. */
  predicate SameKey(a: Record, b: Record) {
    a.text == b.text && a.timestamp == b.timestamp
  }

  /** The collection invariant: every record has content and no two share a key. */
  ghost predicate Consistent(coll: seq<Record>) {
    (forall i :: 0 <= i < |coll| ==> HasContent(coll[i])) &&
    (forall i, j :: 0 <= i < j < |coll| ==> !SameKey(coll[i], coll[j]))
  }

  /** The duplicate scan of `_should_save_post` from position `from` on: walks the
      collection front to back and stops at the first record with the same key. */
  function DuplicateFrom(coll: seq<Record>, rec: Record, from: nat): bool
    requires from <= |coll|
    decreases |coll| - from
  {
    if from == |coll| then false
    else if SameKey(coll[from], rec) then true
    else DuplicateFrom(coll, rec, from + 1)
  }

  /** The whole scan. */
  function IsDuplicate(coll: seq<Record>, rec: Record): bool {
    DuplicateFrom(coll, rec, 0)
  }

  /** The scan from `from` finds a duplicate exactly when a record at or after `from`
      has the same key. */
  lemma {:induction false} DuplicateFromIff(coll: seq<Record>, rec: Record, from: nat)
    requires from <= |coll|
    ensures DuplicateFrom(coll, rec, from) <==> exists i :: from <= i < |coll| && SameKey(coll[i], rec)
    decreases |coll| - from
  {
    if from < |coll| && !SameKey(coll[from], rec) {
      DuplicateFromIff(coll, rec, from + 1);
    }
  }

  /** The scan reports a duplicate exactly when some record has the same key. */
  lemma IsDuplicateIff(coll: seq<Record>, rec: Record)
    ensures IsDuplicate(coll, rec) <==> exists i :: 0 <= i < |coll| && SameKey(coll[i], rec)
  {
    DuplicateFromIff(coll, rec, 0);
  }

  /** `_should_save_post` against a given collection: refuse a record with neither text
      nor images, and a record whose key is already present. */
  function Admissible(coll: seq<Record>, rec: Record): bool {
    HasContent(rec) && !IsDuplicate(coll, rec)
  }

  /** A record is admitted exactly when it has text or images and no record of the
      collection has the same text and timestamp. */
  lemma AdmissibleIff(coll: seq<Record>, rec: Record)
    ensures Admissible(coll, rec) <==>
              (rec.text != "" || rec.images != []) &&
              forall i :: 0 <= i < |coll| ==> !(coll[i].text == rec.text && coll[i].timestamp == rec.timestamp)
  {
    IsDuplicateIff(coll, rec);
  }

  /** Appending an admissible record keeps the collection invariant. */
  lemma AdmissibleAppend(coll: seq<Record>, rec: Record)
    requires Admissible(coll, rec)
    ensures Consistent(coll) ==> Consistent(coll + [rec])
  {
    AdmissibleIff(coll, rec);
    if Consistent(coll) {
      var c := coll + [rec];
      forall i, j | 0 <= i < j < |c| ensures !SameKey(c[i], c[j]) {
        if j == |coll| {
          assert c[i] == coll[i];
        } else {
          assert c[i] == coll[i] && c[j] == coll[j];
        }
      }
    }
  }

  /** The record extracted from one element; a broken element yields none. */
  function Extract(e: Element): Option<Record> {
    match e
    case Live(a) => Some(RecordOf(a))
    case Broken => None
  }

  /** The extraction outcome of every element, in element order. */
  function Extracted(elems: seq<Element>): (r: seq<Option<Record>>)
    ensures |r| == |elems|
  {
    seq(|elems|, i requires 0 <= i < |elems| => Extract(elems[i]))
  }

  /** The records that were extracted, in order. */
  function Somes(recs: seq<Option<Record>>): seq<Record>
    decreases |recs|
  {
    if recs == [] then []
    else
      var rest := Somes(recs[..|recs| - 1]);
      match recs[|recs| - 1]
      case None => rest
      case Some(rec) => rest + [rec]
  }

  /** The save loop over extraction outcomes: each extracted record is appended when the
      gate admits it against the collection so far; a failed extraction is skipped. */
  function SaveAll(coll: seq<Record>, recs: seq<Option<Record>>): seq<Record>
    decreases |recs|
  {
    if recs == [] then coll
    else
      var prev := SaveAll(coll, recs[..|recs| - 1]);
      match recs[|recs| - 1]
      case None => prev
      case Some(rec) => if Admissible(prev, rec) then prev + [rec] else prev
  }

  /** One EXTRACTING visit of the crawl: for each element in order, extract its record
      and save it when the gate admits it; a broken element is skipped. */
  function Harvest(coll: seq<Record>, elems: seq<Element>): seq<Record> {
    SaveAll(coll, Extracted(elems))
  }

  /** Saving keeps the records already collected as a prefix and keeps the collection
      invariant. */
  lemma {:induction false} SaveAllKeepsPrefix(coll: seq<Record>, recs: seq<Option<Record>>)
    ensures |coll| <= |SaveAll(coll, recs)| && SaveAll(coll, recs)[..|coll|] == coll
    ensures Consistent(coll) ==> Consistent(SaveAll(coll, recs))
    decreases |recs|
  {
    if recs != [] {
      var p := recs[..|recs| - 1];
      SaveAllKeepsPrefix(coll, p);
      var prev := SaveAll(coll, p);
      match recs[|recs| - 1]
      case None =>
      case Some(rec) =>
        if Admissible(prev, rec) {
          AdmissibleAppend(prev, rec);
          assert (prev + [rec])[..|coll|] == prev[..|coll|];
        }
    }
  }

  /** The records saving appends are some of the extracted records, in order. */
  lemma {:induction false} SaveAllSubsequence(coll: seq<Record>, recs: seq<Option<Record>>)
    ensures |coll| <= |SaveAll(coll, recs)|
    ensures IsSubsequence(SaveAll(coll, recs)[|coll|..], Somes(recs))
    decreases |recs|
  {
    if recs == [] {
      assert coll[|coll|..] == [];
    } else {
      var p := recs[..|recs| - 1];
      SaveAllSubsequence(coll, p);
      var prev := SaveAll(coll, p);
      match recs[|recs| - 1]
      case None =>
      case Some(rec) =>
        SubsequenceExtend(prev[|coll|..], Somes(p), rec);
        if Admissible(prev, rec) {
          SuffixAppend(prev, rec, |coll|);
        }
    }
  }

  /** Dropping a prefix commutes with appending one record. */
  lemma SuffixAppend(s: seq<Record>, x: Record, n: nat)
    requires n <= |s|
    ensures (s + [x])[n..] == s[n..] + [x]
  {
  }

  /** Every extracted record with content has a record with its key in `out`. */
  ghost predicate Covers(out: seq<Record>, recs: seq<Option<Record>>) {
    forall i :: 0 <= i < |recs| && recs[i].Some? && HasContent(recs[i].value) ==>
      exists j :: 0 <= j < |out| && SameKey(out[j], recs[i].value)
  }

  /** Nothing worth keeping is lost: every extracted record with content is either saved
      or was refused because a record with its key is already there. */
  lemma {:induction false} SaveAllComplete(coll: seq<Record>, recs: seq<Option<Record>>)
    ensures Covers(SaveAll(coll, recs), recs)
    decreases |recs|
  {
    if recs != [] {
      var p := recs[..|recs| - 1];
      SaveAllComplete(coll, p);
      var prev := SaveAll(coll, p);
      var out := SaveAll(coll, recs);
      assert |prev| <= |out| && out[..|prev|] == prev;
      forall i | 0 <= i < |recs| && recs[i].Some? && HasContent(recs[i].value)
        ensures exists j :: 0 <= j < |out| && SameKey(out[j], recs[i].value)
      {
        var rec := recs[i].value;
        if i < |p| {
          assert p[i] == recs[i];
          var j :| 0 <= j < |prev| && SameKey(prev[j], rec);
          assert out[j] == prev[j];
        } else if Admissible(prev, rec) {
          assert out[|prev|] == rec;
        } else {
          IsDuplicateIff(prev, rec);
          var j :| 0 <= j < |prev| && SameKey(prev[j], rec);
          assert out[j] == prev[j];
        }
      }
    }
  }

  /** One visit saves, for every readable element with content, its record or an
      earlier record with the same text and timestamp. */
  lemma HarvestComplete(coll: seq<Record>, elems: seq<Element>)
    ensures forall i :: 0 <= i < |elems| && elems[i].Live? && HasContent(RecordOf(elems[i].article)) ==>
              exists j :: 0 <= j < |Harvest(coll, elems)| &&
                          SameKey(Harvest(coll, elems)[j], RecordOf(elems[i].article))
  {
    var recs := Extracted(elems);
    var out := Harvest(coll, elems);
    assert out == SaveAll(coll, recs);
    SaveAllComplete(coll, recs);
    forall i | 0 <= i < |elems| && elems[i].Live? && HasContent(RecordOf(elems[i].article))
      ensures exists j :: 0 <= j < |Harvest(coll, elems)| &&
                          SameKey(Harvest(coll, elems)[j], RecordOf(elems[i].article))
    {
      assert recs[i] == Some(RecordOf(elems[i].article));
      assert recs[i].Some? && HasContent(recs[i].value);
    }
  }

  /** `recs[i]` is the first extracted record of its key worth keeping: it has content,
      no record of `coll` has its key, and no earlier extracted record with content does. */
  ghost predicate FirstOfKey(coll: seq<Record>, recs: seq<Option<Record>>, i: int)
    requires 0 <= i < |recs|
  {
    recs[i].Some? && HasContent(recs[i].value) &&
    (forall c :: 0 <= c < |coll| ==> !SameKey(coll[c], recs[i].value)) &&
    (forall k :: 0 <= k < i && recs[k].Some? && HasContent(recs[k].value) ==>
       !SameKey(recs[k].value, recs[i].value))
  }

  /** `out[j]` is the record of some `recs[i]` that is the first of its key worth keeping. */
  ghost predicate SavedFirst(coll: seq<Record>, recs: seq<Option<Record>>, out: seq<Record>, j: int)
    requires 0 <= j < |out|
  {
    exists i :: 0 <= i < |recs| && recs[i] == Some(out[j]) && FirstOfKey(coll, recs, i)
  }

  /** Every record of `out` past the prefix `coll` is the first of its key worth keeping. */
  ghost predicate FirstWins(coll: seq<Record>, recs: seq<Option<Record>>, out: seq<Record>) {
    |coll| <= |out| && forall j :: |coll| <= j < |out| ==> SavedFirst(coll, recs, out, j)
  }

  /** The first one wins: every record saving appends is the first extracted record of
      its key worth keeping. */
  lemma {:induction false} SaveAllFirstWins(coll: seq<Record>, recs: seq<Option<Record>>)
    ensures FirstWins(coll, recs, SaveAll(coll, recs))
    decreases |recs|
  {
    SaveAllKeepsPrefix(coll, recs);
    if recs != [] {
      var p := recs[..|recs| - 1];
      SaveAllFirstWins(coll, p);
      SaveAllKeepsPrefix(coll, p);
      SaveAllComplete(coll, p);
      var prev := SaveAll(coll, p);
      assert recs == p + [recs[|recs| - 1]];
      FirstWinsStep(coll, p, recs[|recs| - 1], prev, SaveAll(coll, recs));
    }
  }

  /** One more extraction outcome keeps `FirstWins`, given that the records so far all
      have a same-key record in the collection. */
  lemma FirstWinsStep(coll: seq<Record>, p: seq<Option<Record>>, x: Option<Record>,
                      prev: seq<Record>, out: seq<Record>)
    requires |coll| <= |prev| && prev[..|coll|] == coll
    requires FirstWins(coll, p, prev) && Covers(prev, p)
    requires out == match x
                    case None => prev
                    case Some(rec) => if Admissible(prev, rec) then prev + [rec] else prev
    ensures FirstWins(coll, p + [x], out)
  {
    var recs := p + [x];
    assert |prev| <= |out| by {
      match x
      case None =>
      case Some(rec) =>
    }
    forall j | |coll| <= j < |out|
      ensures SavedFirst(coll, recs, out, j)
    {
      var i := FirstWinsWitness(coll, p, x, prev, out, j);
    }
  }

  /** The extraction outcome that put `out[j]` there. */
  lemma FirstWinsWitness(coll: seq<Record>, p: seq<Option<Record>>, x: Option<Record>,
                         prev: seq<Record>, out: seq<Record>, j: int) returns (i: int)
    requires |coll| <= |prev| && prev[..|coll|] == coll
    requires FirstWins(coll, p, prev) && Covers(prev, p)
    requires out == match x
                    case None => prev
                    case Some(rec) => if Admissible(prev, rec) then prev + [rec] else prev
    requires |coll| <= j < |out|
    ensures 0 <= i < |p + [x]| && (p + [x])[i] == Some(out[j]) && FirstOfKey(coll, p + [x], i)
  {
    var recs := p + [x];
    if j < |prev| {
      assert out[j] == prev[j];
      assert SavedFirst(coll, p, prev, j);
      i :| 0 <= i < |p| && p[i] == Some(prev[j]) && FirstOfKey(coll, p, i);
      assert forall k :: 0 <= k <= i ==> recs[k] == p[k];
      assert FirstOfKey(coll, recs, i);
    } else {
      i := |p|;
      var rec := x.value;
      assert recs[i] == x && Admissible(prev, rec) && out[j] == rec;
      AdmissibleIff(prev, rec);
      forall c | 0 <= c < |coll| ensures !SameKey(coll[c], rec) {
        assert coll[c] == prev[c];
      }
      forall k | 0 <= k < i && recs[k].Some? && HasContent(recs[k].value)
        ensures !SameKey(recs[k].value, rec)
      {
        assert p[k] == recs[k];
        var m :| 0 <= m < |prev| && SameKey(prev[m], p[k].value);
      }
      assert FirstOfKey(coll, recs, i);
    }
  }

  /** `out[j]` is the record of a readable element that is the first element with content
      of its text/timestamp key, a key `coll` lacks. */
  ghost predicate HarvestedFirst(coll: seq<Record>, elems: seq<Element>, out: seq<Record>, j: int)
    requires 0 <= j < |out|
  {
    exists i :: 0 <= i < |elems| && elems[i].Live? && out[j] == RecordOf(elems[i].article) &&
                FirstOfKey(coll, Extracted(elems), i)
  }

  /** One visit keeps, of each text/timestamp key, the record of the first readable
      element with that key and content, and only when the collection lacks the key. */
  lemma HarvestFirstWins(coll: seq<Record>, elems: seq<Element>)
    ensures |coll| <= |Harvest(coll, elems)|
    ensures forall j :: |coll| <= j < |Harvest(coll, elems)| ==> HarvestedFirst(coll, elems, Harvest(coll, elems), j)
  {
    var recs := Extracted(elems);
    var out := Harvest(coll, elems);
    assert out == SaveAll(coll, recs);
    SaveAllFirstWins(coll, recs);
    forall j | |coll| <= j < |out|
      ensures HarvestedFirst(coll, elems, out, j)
    {
      assert SavedFirst(coll, recs, out, j);
      var i :| 0 <= i < |recs| && recs[i] == Some(out[j]) && FirstOfKey(coll, recs, i);
      assert recs[i] == Extract(elems[i]);
      assert elems[i].Live? && out[j] == RecordOf(elems[i].article);
    }
  }

  /** Records that repeat the key of an earlier admitted record add nothing. */
  lemma SaveAllKeepsFirst(coll: seq<Record>, r1: Record, r2: Record, r3: Record)
    requires Admissible(coll, r1) && SameKey(r1, r2) && SameKey(r1, r3)
    ensures SaveAll(coll, [Some(r1), Some(r2), Some(r3)]) == coll + [r1]
  {
    var e := [Some(r1), Some(r2), Some(r3)];
    assert e[..0] == [] && e[..1] == [Some(r1)] && e[..2] == [Some(r1), Some(r2)];
    var c1 := coll + [r1];
    assert SaveAll(coll, e[..1]) == c1;
    assert c1[|coll|] == r1;
    AdmissibleIff(c1, r2);
    assert !Admissible(c1, r2);
    assert SaveAll(coll, e[..2]) == c1;
    AdmissibleIff(c1, r3);
    assert !Admissible(c1, r3);
  }

  /** Elements that repeat the key of an earlier admitted element add nothing: three
      elements with one key yield exactly one record, the first one's. */
  lemma SameKeyKeepsFirst(coll: seq<Record>, a1: Article, a2: Article, a3: Article)
    requires Admissible(coll, RecordOf(a1))
    requires SameKey(RecordOf(a1), RecordOf(a2)) && SameKey(RecordOf(a1), RecordOf(a3))
    ensures Harvest(coll, [Live(a1), Live(a2), Live(a3)]) == coll + [RecordOf(a1)]
  {
    assert Extracted([Live(a1), Live(a2), Live(a3)]) == [Some(RecordOf(a1)), Some(RecordOf(a2)), Some(RecordOf(a3))];
    SaveAllKeepsFirst(coll, RecordOf(a1), RecordOf(a2), RecordOf(a3));
  }
}
