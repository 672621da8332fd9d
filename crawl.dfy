/** The scroll-and-extract crawl as a state machine over browser observations
    (`_find_article_elements`, `_scroll_page`, the loop of `_scroll_and_extract`).

    The browser is an oracle:
    - `readings` are the successive answers to "return document.body.scrollHeight";
      `readings[0]` is the one taken before the loop, and each stall check takes
      one or two more;
    - `passes[a]` says, for the EXTRACTING visit of attempt `a`, which elements each
      selector finds (a selector absent from the map finds none). */
module Crawl {
  import opened Seqs
  import opened Records

  /** The CSS selectors `_find_article_elements` tries for content elements:
      `article`, `div[role='article']`, `div[data-pressable-container='true']`,
      `div._aabd._aa8k._al3l` and `div[style*='flex-direction: column']`. */
  datatype Selector = ArticleTag | RoleArticle | PressableContainer | AabdClasses | FlexColumn

  /** The selectors in priority order. */
  const ArticleSelectors: seq<Selector> := [ArticleTag, RoleArticle, PressableContainer, AabdClasses, FlexColumn]

  /** What the selectors find at one visit; a selector absent from the map finds none. */
  type Found = map<Selector, seq<Element>>

  /** `find_elements(selector)` at one visit. */
  function Query(found: Found, selector: Selector): seq<Element> {
    if selector in found then found[selector] else []
  }

  /** The result of the first selector of `selectors`, from position `from` on, that
      finds something. */
  function FirstNonEmpty(selectors: seq<Selector>, found: Found, from: nat): seq<Element>
    requires from <= |selectors|
    decreases |selectors| - from
  {
    if from == |selectors| then []
    else if Query(found, selectors[from]) != [] then Query(found, selectors[from])
    else FirstNonEmpty(selectors, found, from + 1)
  }

  /** From `from` on, nothing is found iff no selector finds anything; otherwise the
      result is that of the first selector that finds something. */
  lemma {:induction false} FirstNonEmptyFirst(selectors: seq<Selector>, found: Found, from: nat)
    requires from <= |selectors|
    ensures var r := FirstNonEmpty(selectors, found, from);
            (r == [] <==> forall i :: from <= i < |selectors| ==> Query(found, selectors[i]) == []) &&
            (r != [] ==> exists i :: from <= i < |selectors| && r == Query(found, selectors[i]) &&
                                     forall j :: from <= j < i ==> Query(found, selectors[j]) == [])
    decreases |selectors| - from
  {
    if from < |selectors| && Query(found, selectors[from]) == [] {
      FirstNonEmptyFirst(selectors, found, from + 1);
      var r := FirstNonEmpty(selectors, found, from);
      if r != [] {
        var i :| from + 1 <= i < |selectors| && r == Query(found, selectors[i]) &&
                 forall j :: from + 1 <= j < i ==> Query(found, selectors[j]) == [];
        assert forall j :: from <= j < i ==> Query(found, selectors[j]) == [];
      }
    }
  }

  /** `_find_article_elements`. */
  function FindArticleElements(found: Found): seq<Element> {
    FirstNonEmpty(ArticleSelectors, found, 0)
  }

  /** The elements come from the first article selector that finds any, and are empty
      only when none does. */
  lemma FindArticleElementsFirst(found: Found)
    ensures var r := FindArticleElements(found);
            (r == [] <==> forall i :: 0 <= i < |ArticleSelectors| ==> Query(found, ArticleSelectors[i]) == []) &&
            (r != [] ==> exists i :: 0 <= i < |ArticleSelectors| && r == Query(found, ArticleSelectors[i]) &&
                                     forall j :: 0 <= j < i ==> Query(found, ArticleSelectors[j]) == [])
  {
    FirstNonEmptyFirst(ArticleSelectors, found, 0);
  }

  /** `_scroll_page`: scroll, read the height at `readings[k]`; only if it equals
      `lastHeight`, nudge and read once more. Stop (false) only if both readings equal
      `lastHeight`. Returns where the next reading is. */
  method ScrollPage(lastHeight: int, readings: seq<int>, k: nat) returns (keepGoing: bool, next: nat)
    requires k < |readings| && (readings[k] == lastHeight ==> k + 1 < |readings|)
    ensures next == if readings[k] == lastHeight then k + 2 else k + 1
    ensures !keepGoing <==> readings[k] == lastHeight && readings[k + 1] == lastHeight
  {
    var newHeight := readings[k];
    next := k + 1;
    if newHeight == lastHeight {
      newHeight := readings[next];
      next := next + 1;
      if newHeight == lastHeight {
        return false, next;
      }
    }
    return true, next;
  }

  /** `max_scroll_attempts = max_scrolls * 2` bounds the loop; a negative value
      means no iteration at all. */
  function Budget(maxScrolls: int): nat {
    if maxScrolls * 2 > 0 then maxScrolls * 2 else 0
  }

  /** The oracle has enough answers for a full budget: one initial reading and at most
      two per scroll, one element map per pass. */
  predicate Supplied(readings: seq<int>, passes: seq<Found>, budget: nat) {
    1 + 2 * budget <= |readings| && budget <= |passes|
  }

  /** Where the loop's control stops: how many times `_scroll_page` ran, and the index
      of the first height reading left unused. */
  datatype Stop = Stop(scrolls: nat, nextReading: nat)

  /** The loop's control from attempt `attempt` on, with the next height reading at `k`.
      It depends on the height readings only: every stall check compares against
      `readings[0]`, the height read before the loop. */
  function Scrolls(readings: seq<int>, budget: nat, attempt: nat, k: nat): Stop
    requires 1 + 2 * budget <= |readings|
    requires attempt <= budget && 1 <= k <= 1 + 2 * attempt
    decreases budget - attempt
  {
    if attempt == budget then Stop(attempt, k)
    else if readings[k] == readings[0] && readings[k + 1] == readings[0] then Stop(attempt + 1, k + 2)
    else Scrolls(readings, budget, attempt + 1, if readings[k] == readings[0] then k + 2 else k + 1)
  }

  /** The loop makes between `attempt` and `budget` scroll calls, consuming one or two
      readings per call; when it stops before the cap, the two readings of its last stall
      check both equal the initial height. */
  lemma {:induction false} ScrollsBounds(readings: seq<int>, budget: nat, attempt: nat, k: nat)
    requires 1 + 2 * budget <= |readings|
    requires attempt <= budget && 1 <= k <= 1 + 2 * attempt
    ensures var r := Scrolls(readings, budget, attempt, k);
            attempt <= r.scrolls <= budget && 1 <= r.nextReading <= 1 + 2 * r.scrolls &&
            (r.scrolls < budget ==>
               3 <= r.nextReading && readings[r.nextReading - 2] == readings[0] &&
               readings[r.nextReading - 1] == readings[0])
    decreases budget - attempt
  {
    if attempt < budget && !(readings[k] == readings[0] && readings[k + 1] == readings[0]) {
      ScrollsBounds(readings, budget, attempt + 1, if readings[k] == readings[0] then k + 2 else k + 1);
    }
  }

  /** An attempt whose two stall readings both equal the initial height ends the loop. */
  lemma ScrollsStops(readings: seq<int>, budget: nat, attempt: nat, k: nat)
    requires 1 + 2 * budget <= |readings|
    requires attempt < budget && 1 <= k <= 1 + 2 * attempt
    requires readings[k] == readings[0] && readings[k + 1] == readings[0]
    ensures Scrolls(readings, budget, attempt, k) == Stop(attempt + 1, k + 2)
  {
  }

  /** Any other attempt goes on with the reading after the one or two its check consumed. */
  lemma ScrollsContinues(readings: seq<int>, budget: nat, attempt: nat, k: nat)
    requires 1 + 2 * budget <= |readings|
    requires attempt < budget && 1 <= k <= 1 + 2 * attempt
    requires !(readings[k] == readings[0] && readings[k + 1] == readings[0])
    ensures Scrolls(readings, budget, attempt, k) ==
            Scrolls(readings, budget, attempt + 1, if readings[k] == readings[0] then k + 2 else k + 1)
  {
  }

  /** The stall check whose first reading is `readings[k]` reads the initial height twice. */
  predicate Stalled(readings: seq<int>, k: nat)
    requires k + 1 < |readings|
  {
    readings[k] == readings[0] && readings[k + 1] == readings[0]
  }

  /** The index of the first reading taken by the stall check of attempt `t`, counted
      as if no earlier check had stopped the loop: each check takes a second reading
      only after a first one equal to the initial height. */
  function CheckStart(readings: seq<int>, t: nat): (k: nat)
    requires 1 + 2 * t <= |readings|
    ensures 1 <= k <= 1 + 2 * t
  {
    if t == 0 then 1
    else
      var k := CheckStart(readings, t - 1);
      if readings[k] == readings[0] then k + 2 else k + 1
  }

  /** From an attempt that no earlier check stopped, the loop ends right after the first
      stalled check, or at the cap when no check up to it stalls. */
  lemma {:induction false} ScrollsFirstStallFrom(readings: seq<int>, budget: nat, attempt: nat)
    requires 1 + 2 * budget <= |readings| && attempt <= budget
    requires forall t :: 0 <= t < attempt ==> !Stalled(readings, CheckStart(readings, t))
    ensures var r := Scrolls(readings, budget, attempt, CheckStart(readings, attempt));
            attempt <= r.scrolls <= budget &&
            (forall t :: 0 <= t < r.scrolls - 1 ==> !Stalled(readings, CheckStart(readings, t))) &&
            (r.scrolls < budget ==> 1 <= r.scrolls && Stalled(readings, CheckStart(readings, r.scrolls - 1)))
    decreases budget - attempt
  {
    if attempt < budget {
      var k := CheckStart(readings, attempt);
      if Stalled(readings, k) {
        assert Scrolls(readings, budget, attempt, k) == Stop(attempt + 1, k + 2);
      } else {
        var k' := CheckStart(readings, attempt + 1);
        assert k' == if readings[k] == readings[0] then k + 2 else k + 1;
        assert Scrolls(readings, budget, attempt, k) == Scrolls(readings, budget, attempt + 1, k');
        ScrollsFirstStallFrom(readings, budget, attempt + 1);
      }
    }
  }

  /** The number of scroll calls is one more than the index of the first attempt whose
      check reads the initial height twice, and no earlier check stalls; it is the cap
      only when no check before the last one stalls. */
  lemma ScrollsFirstStall(readings: seq<int>, budget: nat)
    requires 1 + 2 * budget <= |readings|
    ensures var r := Scrolls(readings, budget, 0, 1);
            r.scrolls <= budget && (budget > 0 ==> 1 <= r.scrolls) &&
            (forall t :: 0 <= t < r.scrolls - 1 ==> !Stalled(readings, CheckStart(readings, t))) &&
            (r.scrolls < budget ==> 1 <= r.scrolls && Stalled(readings, CheckStart(readings, r.scrolls - 1)))
  {
    ScrollsFirstStallFrom(readings, budget, 0);
  }

  /** One extracting visit: harvest the elements of the first matching selector. */
  function VisitPage(coll: seq<Record>, found: Found): seq<Record> {
    Harvest(coll, FindArticleElements(found))
  }

  /** The collection after `n` visits, each applying `visit` to the next element map. */
  function Visits(coll: seq<Record>, passes: seq<Found>, n: nat,
                  visit: (seq<Record>, Found) -> seq<Record>): seq<Record>
    requires n <= |passes|
  {
    if n == 0 then coll else visit(Visits(coll, passes, n - 1, visit), passes[n - 1])
  }

  /** `visit` agrees with `VisitPage` everywhere. A loop stated over such a `visit` needs
      nothing of what a visit does. */
  ghost predicate IsPageVisit(visit: (seq<Record>, Found) -> seq<Record>) {
    forall coll, found {:trigger VisitPage(coll, found)} :: visit(coll, found) == VisitPage(coll, found)
  }

  /** The collection after `n` extracting visits, one per attempt. */
  function Collected(coll: seq<Record>, passes: seq<Found>, n: nat): seq<Record>
    requires n <= |passes|
  {
    Visits(coll, passes, n, VisitPage)
  }

  /** `visit` only appends to a collection, and keeps the collection invariant. */
  ghost predicate OnlyAppends(visit: (seq<Record>, Found) -> seq<Record>) {
    forall coll, found {:trigger visit(coll, found)} ::
      |coll| <= |visit(coll, found)| && visit(coll, found)[..|coll|] == coll &&
      (Consistent(coll) ==> Consistent(visit(coll, found)))
  }

  /** An extracting visit appends to the collection and keeps its invariant. */
  lemma VisitPageOnlyAppends()
    ensures OnlyAppends(VisitPage)
  {
    forall coll, found {
      SaveAllKeepsPrefix(coll, Extracted(FindArticleElements(found)));
    }
  }

  /** Visits that only append keep the starting collection as a prefix and keep its
      invariant. */
  lemma {:induction false} VisitsKeepPrefix(coll: seq<Record>, passes: seq<Found>, n: nat,
                                            visit: (seq<Record>, Found) -> seq<Record>)
    requires n <= |passes| && OnlyAppends(visit)
    ensures |coll| <= |Visits(coll, passes, n, visit)| && Visits(coll, passes, n, visit)[..|coll|] == coll
    ensures Consistent(coll) ==> Consistent(Visits(coll, passes, n, visit))
  {
    if n > 0 {
      var prev := Visits(coll, passes, n - 1, visit);
      VisitsKeepPrefix(coll, passes, n - 1, visit);
      var next := visit(prev, passes[n - 1]);
      assert next[..|prev|][..|coll|] == next[..|coll|];
    }
  }

  /** Successive extracting visits keep the starting collection as a prefix and keep its
      invariant. */
  lemma CollectedKeepsPrefix(coll: seq<Record>, passes: seq<Found>, n: nat)
    requires n <= |passes|
    ensures |coll| <= |Collected(coll, passes, n)| && Collected(coll, passes, n)[..|coll|] == coll
    ensures Consistent(coll) ==> Consistent(Collected(coll, passes, n))
  {
    VisitPageOnlyAppends();
    VisitsKeepPrefix(coll, passes, n, VisitPage);
  }

  /** Outcome of a pass: the grown collection, how many times `_scroll_page` ran, and
      the index of the first height reading left unused. */
  datatype PassResult = PassResult(collection: seq<Record>, scrolls: nat, nextReading: nat)

  /** One whole pass of `_scroll_and_extract` after the gate: each attempt extracts once
      before its stall check, so the collection has seen one visit per scroll call. */
  function CrawlPass(coll: seq<Record>, readings: seq<int>, passes: seq<Found>,
                     maxScrolls: int): (r: PassResult)
    requires Supplied(readings, passes, Budget(maxScrolls))
    ensures r.scrolls <= Budget(maxScrolls)
    ensures maxScrolls <= 0 ==> r.collection == coll && r.scrolls == 0
    ensures |coll| <= |r.collection| && r.collection[..|coll|] == coll
    ensures Consistent(coll) ==> Consistent(r.collection)
  {
    var stop := Scrolls(readings, Budget(maxScrolls), 0, 1);
    ScrollsBounds(readings, Budget(maxScrolls), 0, 1);
    CollectedKeepsPrefix(coll, passes, stop.scrolls);
    PassResult(Collected(coll, passes, stop.scrolls), stop.scrolls, stop.nextReading)
  }

  /** A page whose height never changes from the first reading stops after the first
      `_scroll_page`, having extracted once. */
  lemma FlatPageStopsAtFirstScroll(coll: seq<Record>, readings: seq<int>,
                                   passes: seq<Found>, maxScrolls: int)
    requires maxScrolls >= 1 && Supplied(readings, passes, Budget(maxScrolls))
    requires readings[1] == readings[0] && readings[2] == readings[0]
    ensures CrawlPass(coll, readings, passes, maxScrolls) ==
            PassResult(Harvest(coll, FindArticleElements(passes[0])), 1, 3)
  {
    assert Scrolls(readings, Budget(maxScrolls), 0, 1) == Stop(1, 3);
    assert Collected(coll, passes, 1) == VisitPage(Visits(coll, passes, 0, VisitPage), passes[0]);
  }

  /** Because the reference height is never refreshed, a page that grew once and then
      stopped growing is never recognised as finished: the loop runs to its cap. */
  lemma {:induction false} NeverStallsAfterGrowth(readings: seq<int>, budget: nat, attempt: nat, k: nat)
    requires 1 + 2 * budget <= |readings|
    requires attempt <= budget && 1 <= k <= 1 + 2 * attempt
    requires forall j :: 1 <= j < |readings| ==> readings[j] != readings[0]
    ensures Scrolls(readings, budget, attempt, k) == Stop(budget, k + budget - attempt)
    decreases budget - attempt
  {
    if attempt < budget {
      assert readings[k] != readings[0];
      NeverStallsAfterGrowth(readings, budget, attempt + 1, k + 1);
    }
  }

  /** `CrawlPass` on a page whose later heights all differ from the initial one
      (for instance a page that grew once and then stayed put) always makes
      `2 * maxScrolls` scroll calls, each reading the height once. */
  lemma GrownPageRunsToCap(coll: seq<Record>, readings: seq<int>,
                           passes: seq<Found>, maxScrolls: int)
    requires Supplied(readings, passes, Budget(maxScrolls))
    requires forall j :: 1 <= j < |readings| ==> readings[j] != readings[0]
    ensures CrawlPass(coll, readings, passes, maxScrolls).scrolls == Budget(maxScrolls)
    ensures CrawlPass(coll, readings, passes, maxScrolls).nextReading == 1 + Budget(maxScrolls)
  {
    NeverStallsAfterGrowth(readings, Budget(maxScrolls), 0, 1);
  }
}
