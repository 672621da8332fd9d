/** The block layout of the PDF (`_create_pdf_elements`, `_create_posts_section`,
    `_create_replies_section`), with each record's paragraphs abstracted to one
    `Entry` block and the styling, spacers and images left out. */
module PdfLayout {

  datatype Section = Posts | Replies

  datatype Block = Title | Heading(section: Section) | Entry(section: Section, index: nat) | PageBreak

  /** Records `i..n` of a section (numbered from 1): after record `i` comes a page break
      when `i` is a multiple of 3 and not the last record. */
  function Entries(section: Section, i: nat, n: nat): seq<Block>
    requires 1 <= i <= n + 1
    decreases n + 1 - i
  {
    if i == n + 1 then []
    else [Entry(section, i)] + (if i % 3 == 0 && i < n then [PageBreak] else []) + Entries(section, i + 1, n)
  }

  /** A section: its heading, then its records. */
  function SectionBlocks(section: Section, n: nat): seq<Block> {
    [Heading(section)] + Entries(section, 1, n)
  }

  /** The document: title, the posts section if there are posts, a page break if there
      are both posts and replies, the replies section if there are replies. */
  function DocumentBlocks(nPosts: nat, nReplies: nat): seq<Block> {
    [Title] +
    (if nPosts > 0 then SectionBlocks(Posts, nPosts) else []) +
    (if nPosts > 0 && nReplies > 0 then [PageBreak] else []) +
    (if nReplies > 0 then SectionBlocks(Replies, nReplies) else [])
  }

  /** Every block is a record of `section` numbered from `lo` to `hi`, or a page break. */
  predicate EntriesOnly(e: seq<Block>, section: Section, lo: nat, hi: nat) {
    forall p :: 0 <= p < |e| ==>
      (e[p].Entry? && e[p].section == section && lo <= e[p].index <= hi) || e[p] == PageBreak
  }

  /** A page break follows record `j` exactly when `j % 3 == 0` and `j < n`. */
  predicate BreakAfterEveryThird(e: seq<Block>, n: nat) {
    forall p {:trigger e[p]} :: 0 <= p < |e| && e[p].Entry? ==>
      ((p + 1 < |e| && e[p + 1] == PageBreak) <==> (e[p].index % 3 == 0 && e[p].index < n))
  }

  /** Every page break comes right after a record. */
  predicate BreaksFollowEntries(e: seq<Block>) {
    forall p :: 0 <= p < |e| && e[p] == PageBreak ==> 0 < p && e[p - 1].Entry?
  }

  /** Records `i..n` with their breaks: the first block is record `i`, the last is record `n`. */
  lemma {:induction false} EntriesEnds(section: Section, i: nat, n: nat)
    requires 1 <= i <= n + 1
    ensures Entries(section, i, n) == [] <==> i == n + 1
    ensures Entries(section, i, n) != [] ==>
              Entries(section, i, n)[0] == Entry(section, i) &&
              Entries(section, i, n)[|Entries(section, i, n)| - 1] == Entry(section, n)
    decreases n + 1 - i
  {
    if i <= n {
      EntriesEnds(section, i + 1, n);
    }
  }

  /** Every block is a record of the section numbered from `i` to `n`, or a page break. */
  lemma {:induction false} EntriesKinds(section: Section, i: nat, n: nat)
    requires 1 <= i <= n + 1
    ensures EntriesOnly(Entries(section, i, n), section, i, n)
    decreases n + 1 - i
  {
    if i <= n {
      EntriesKinds(section, i + 1, n);
      var rest := Entries(section, i + 1, n);
      var brk: seq<Block> := if i % 3 == 0 && i < n then [PageBreak] else [];
      var e := [Entry(section, i)] + brk + rest;
      assert Entries(section, i, n) == e;
      forall p | 0 <= p < |e|
        ensures (e[p].Entry? && e[p].section == section && i <= e[p].index <= n) || e[p] == PageBreak
      {
        if p >= 1 + |brk| {
          assert e[p] == rest[p - 1 - |brk|];
        }
      }
    }
  }

  /** Record `i`, followed by a page break exactly when the rule asks for one, in front
      of blocks that keep the rule and do not start with a page break. */
  lemma BreakRulePrepend(head: seq<Block>, rest: seq<Block>, section: Section, i: nat, n: nat)
    requires head == [Entry(section, i)] || head == [Entry(section, i), PageBreak]
    requires |head| == 2 <==> i % 3 == 0 && i < n
    requires rest != [] ==> rest[0].Entry?
    requires BreakAfterEveryThird(rest, n)
    ensures BreakAfterEveryThird(head + rest, n)
  {
    var e := head + rest;
    forall p | 0 <= p < |e| && e[p].Entry?
      ensures (p + 1 < |e| && e[p + 1] == PageBreak) <==> (e[p].index % 3 == 0 && e[p].index < n)
    {
      if p == 0 {
        assert e[0] == Entry(section, i);
        if |head| == 2 {
          assert e[1] == PageBreak;
        } else if rest != [] {
          assert e[1] == rest[0];
        }
      } else {
        assert |head| <= p;
        var q := p - |head|;
        assert e[p] == rest[q] && rest[q].Entry?;
        if p + 1 < |e| {
          assert e[p + 1] == rest[q + 1];
        }
      }
    }
  }

  /** A page break follows record `j` exactly when `j % 3 == 0` and `j` is not the last. */
  lemma {:induction false} EntriesBreakRule(section: Section, i: nat, n: nat)
    requires 1 <= i <= n + 1
    ensures BreakAfterEveryThird(Entries(section, i, n), n)
    decreases n + 1 - i
  {
    if i <= n {
      EntriesBreakRule(section, i + 1, n);
      EntriesEnds(section, i + 1, n);
      var rest := Entries(section, i + 1, n);
      var head: seq<Block> := if i % 3 == 0 && i < n then [Entry(section, i), PageBreak] else [Entry(section, i)];
      assert Entries(section, i, n) == head + rest;
      BreakRulePrepend(head, rest, section, i, n);
    }
  }

  /** Every page break comes right after a record. */
  lemma {:induction false} EntriesBreakFollows(section: Section, i: nat, n: nat)
    requires 1 <= i <= n + 1
    ensures BreaksFollowEntries(Entries(section, i, n))
    decreases n + 1 - i
  {
    if i <= n {
      EntriesBreakFollows(section, i + 1, n);
      EntriesEnds(section, i + 1, n);
      var rest := Entries(section, i + 1, n);
      var brk: seq<Block> := if i % 3 == 0 && i < n then [PageBreak] else [];
      var e := [Entry(section, i)] + brk + rest;
      assert Entries(section, i, n) == e;
      var off := 1 + |brk|;
      forall p | 0 <= p < |e| && e[p] == PageBreak
        ensures 0 < p && e[p - 1].Entry?
      {
        if p >= off {
          assert e[p] == rest[p - off];
          if p > off { assert e[p - 1] == rest[p - 1 - off]; }
        }
      }
    }
  }

  /** A section opens with its heading, holds only entries and page breaks after it, and
      ends with its last record. */
  lemma SectionLayout(section: Section, n: nat)
    ensures SectionBlocks(section, n)[0] == Heading(section)
    ensures forall p :: 0 < p < |SectionBlocks(section, n)| ==>
              SectionBlocks(section, n)[p].Entry? || SectionBlocks(section, n)[p] == PageBreak
    ensures n > 0 ==> SectionBlocks(section, n)[|SectionBlocks(section, n)| - 1] == Entry(section, n)
  {
    EntriesKinds(section, 1, n);
    EntriesEnds(section, 1, n);
    var s := SectionBlocks(section, n);
    var e := Entries(section, 1, n);
    forall p | 0 < p < |s| ensures s[p].Entry? || s[p] == PageBreak {
      assert s[p] == e[p - 1];
    }
    if n > 0 {
      assert s[|s| - 1] == e[|e| - 1];
    }
  }

  /** The page break between the sections is there exactly when both sections are. */
  lemma SectionSeparator(nPosts: nat, nReplies: nat)
    ensures (exists p :: 0 < p < |DocumentBlocks(nPosts, nReplies)| &&
               DocumentBlocks(nPosts, nReplies)[p] == Heading(Replies) &&
               DocumentBlocks(nPosts, nReplies)[p - 1] == PageBreak) <==>
            (nPosts > 0 && nReplies > 0)
  {
    var d := DocumentBlocks(nPosts, nReplies);
    var posts := if nPosts > 0 then SectionBlocks(Posts, nPosts) else [];
    var sep: seq<Block> := if nPosts > 0 && nReplies > 0 then [PageBreak] else [];
    var replies := if nReplies > 0 then SectionBlocks(Replies, nReplies) else [];
    assert d == [Title] + posts + sep + replies;
    if nPosts > 0 && nReplies > 0 {
      var hp := 1 + |posts| + 1;
      assert d[hp] == replies[0] && d[hp - 1] == PageBreak;
    } else if nPosts > 0 {
      SectionLayout(Posts, nPosts);
      forall p | 0 < p < |d| ensures d[p] != Heading(Replies) {
        assert d[p] == posts[p - 1];
      }
    } else {
      SectionLayout(Replies, nReplies);
      forall p | 0 < p < |d| && d[p] == Heading(Replies) ensures d[p - 1] != PageBreak {
        assert d[p] == replies[p - 1];
        assert d[0] == Title;
      }
    }
  }
}
