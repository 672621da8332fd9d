/** The content-ready gate (`_wait_for_content`, `_is_blocked_page`).
    The wall-clock timeout is replaced by a finite sequence of polls: one
    observation of the page per pass of the polling loop. */
module ContentGate {
  import opened Strings

  /** Content-bearing selectors, in the order they are tried. */
  const WaitSelectors: seq<string> := [
    "article",
    "div[role='article']",
    "div[data-pressable-container='true']",
    "div._aabd._aa8k._al3l",
    "div[style*='flex-direction: column']",
    "span[dir='auto']",
    "img:not([alt='Profile picture'])"
  ]

  /** The page markup must be longer than this to count as loaded. */
  const MinPageLength: int := 1000

  /** One poll: which selectors found elements, the length of the page markup and the
      current URL; or a poll during which the driver raised. */
  datatype Poll = Snapshot(matched: set<string>, pageLength: nat, url: string) | DriverError

  /** Some content selector matched and the page is past the size floor. */
  predicate IsReady(p: Poll) {
    p.Snapshot? && p.pageLength > MinPageLength &&
    exists i :: 0 <= i < |WaitSelectors| && WaitSelectors[i] in p.matched
  }

  /** `_is_blocked_page`: the lower-cased URL contains "login" or "blocked". */
  function IsBlockedPage(url: string): (r: bool)
    ensures r <==> (exists i :: OccursAt(Lower(url), "login", i)) ||
                   (exists i :: OccursAt(Lower(url), "blocked", i))
  {
    ContainsIff(Lower(url), "login");
    ContainsIff(Lower(url), "blocked");
    Contains(Lower(url), "login") || Contains(Lower(url), "blocked")
  }

  /** A poll whose URL shows a login wall or a block page. */
  predicate Blocks(p: Poll) {
    p.Snapshot? && IsBlockedPage(p.url)
  }

  /** How the polling ends: ready at a poll, blocked at a poll, or out of polls. */
  datatype GateOutcome = ReadyAt(poll: nat) | BlockedAt(poll: nat) | TimedOut

  /** The outcome of polling from poll `i` on: within one poll the ready test comes
      before the blocked test. */
  function Gate(polls: seq<Poll>, i: nat): (r: GateOutcome)
    requires i <= |polls|
    ensures r.ReadyAt? ==> i <= r.poll < |polls| && IsReady(polls[r.poll])
    ensures r.BlockedAt? ==> i <= r.poll < |polls| && !IsReady(polls[r.poll]) && Blocks(polls[r.poll])
    ensures r.ReadyAt? || r.BlockedAt? ==>
              forall j :: i <= j < r.poll ==> !IsReady(polls[j]) && !Blocks(polls[j])
    ensures r.TimedOut? <==> forall j :: i <= j < |polls| ==> !IsReady(polls[j]) && !Blocks(polls[j])
    decreases |polls| - i
  {
    if i == |polls| then TimedOut
    else if IsReady(polls[i]) then ReadyAt(i)
    else if Blocks(polls[i]) then BlockedAt(i)
    else Gate(polls, i + 1)
  }

  /** `_wait_for_content`: each poll tries the selectors in order and succeeds at the first
      one that matched on a page longer than 1000 characters; otherwise a blocked URL ends
      the wait with failure; a poll where the driver raised is skipped. */
  method WaitForContent(polls: seq<Poll>) returns (ready: bool)
    ensures ready <==> Gate(polls, 0).ReadyAt?
    ensures ready <==> exists i :: 0 <= i < |polls| && IsReady(polls[i]) &&
                                   forall j :: 0 <= j < i ==> !IsReady(polls[j]) && !Blocks(polls[j])
  {
    var n := 0;
    while n < |polls|
      invariant 0 <= n <= |polls|
      invariant Gate(polls, 0) == Gate(polls, n)
      invariant forall j :: 0 <= j < n ==> !IsReady(polls[j]) && !Blocks(polls[j])
    {
      match polls[n] {
        case DriverError =>
        case Snapshot(matched, pageLength, url) =>
          var s := 0;
          while s < |WaitSelectors|
            invariant 0 <= s <= |WaitSelectors|
            invariant !(pageLength > MinPageLength && exists t :: 0 <= t < s && WaitSelectors[t] in matched)
          {
            if WaitSelectors[s] in matched {
              if pageLength > MinPageLength {
                return true;
              }
            }
            s := s + 1;
          }
          if IsBlockedPage(url) {
            return false;
          }
      }
      n := n + 1;
    }
    return false;
  }
}
