/** `_clean_text`: the escaping applied to each record's header, text and stats
    paragraphs in the PDF (the title, date, section headings and `URL:` line are
    built without it).
    The source writes it as a chain of `str.replace` calls followed by a
    character-wise join; because `&` is replaced first, the chain is the same as
    escaping each character on its own, which is what the lemmas establish. */
module PdfText {

  const LineSeparator: char := '\U{2028}'
  const ParagraphSeparator: char := '\U{2029}'

  /** `s.replace(c, rep)` for a one-character pattern: every occurrence of `c` becomes `rep`. */
  function Replace(s: string, c: char, rep: string): string
    decreases |s|
  {
    if s == [] then []
    else (if s[0] == c then rep else [s[0]]) + Replace(s[1..], c, rep)
  }

  /** A character below 32 other than newline, carriage return and tab. */
  predicate IsControl(c: char) {
    c as int < 32 && c != '\n' && c != '\r' && c != '\t'
  }

  /** `''.join(c if ord(c) >= 32 or c in '\n\r\t' else ' ' for c in text)`. */
  function BlankControls(s: string): (r: string)
    ensures |r| == |s|
  {
    seq(|s|, i requires 0 <= i < |s| => if IsControl(s[i]) then ' ' else s[i])
  }

  /** The `replace` chain in source order. */
  function ReplaceChain(s: string): string {
    var t := Replace(s, LineSeparator, " ");
    var t := Replace(t, ParagraphSeparator, " ");
    var t := Replace(t, '&', "&amp;");
    var t := Replace(t, '<', "&lt;");
    var t := Replace(t, '>', "&gt;");
    var t := Replace(t, '"', "&quot;");
    Replace(t, '\'', "&#39;")
  }

  /** `_clean_text` as written. */
  function CleanText(text: string): string {
    if text == "" then "" else BlankControls(ReplaceChain(text))
  }

  /** The reference definition: each character escaped independently. */
  function EscapeChar(c: char): string {
    if c == '&' then "&amp;"
    else if c == '<' then "&lt;"
    else if c == '>' then "&gt;"
    else if c == '"' then "&quot;"
    else if c == '\'' then "&#39;"
    else if c == LineSeparator || c == ParagraphSeparator || IsControl(c) then " "
    else [c]
  }

  function EscapeAll(s: string): string
    decreases |s|
  {
    if s == [] then [] else EscapeChar(s[0]) + EscapeAll(s[1..])
  }

  /** A character `_clean_text` changes. */
  predicate IsSpecial(c: char) {
    c == '&' || c == '<' || c == '>' || c == '"' || c == '\'' ||
    c == LineSeparator || c == ParagraphSeparator || IsControl(c)
  }

  /** A character that may appear in cleaned text: no markup delimiter, no control. */
  predicate IsSafe(c: char) {
    c != '<' && c != '>' && c != '"' && c != '\'' && !IsControl(c)
  }

  lemma {:induction false} ReplaceAppend(a: string, b: string, c: char, rep: string)
    ensures Replace(a + b, c, rep) == Replace(a, c, rep) + Replace(b, c, rep)
    decreases |a|
  {
    if a == [] {
      assert a + b == b;
    } else {
      assert (a + b)[0] == a[0];
      assert (a + b)[1..] == a[1..] + b;
      ReplaceAppend(a[1..], b, c, rep);
    }
  }

  lemma {:induction false} ReplaceAbsent(s: string, c: char, rep: string)
    requires c !in s
    ensures Replace(s, c, rep) == s
    decreases |s|
  {
    if s != [] {
      ReplaceAbsent(s[1..], c, rep);
    }
  }

  lemma ReplaceSingle(x: char, c: char, rep: string)
    ensures Replace([x], c, rep) == if x == c then rep else [x]
  {
    assert [x][1..] == [];
  }

  lemma ReplaceChainAppend(a: string, b: string)
    ensures ReplaceChain(a + b) == ReplaceChain(a) + ReplaceChain(b)
  {
    var t1a, t1b := Replace(a, LineSeparator, " "), Replace(b, LineSeparator, " ");
    ReplaceAppend(a, b, LineSeparator, " ");
    var t2a, t2b := Replace(t1a, ParagraphSeparator, " "), Replace(t1b, ParagraphSeparator, " ");
    ReplaceAppend(t1a, t1b, ParagraphSeparator, " ");
    var t3a, t3b := Replace(t2a, '&', "&amp;"), Replace(t2b, '&', "&amp;");
    ReplaceAppend(t2a, t2b, '&', "&amp;");
    var t4a, t4b := Replace(t3a, '<', "&lt;"), Replace(t3b, '<', "&lt;");
    ReplaceAppend(t3a, t3b, '<', "&lt;");
    var t5a, t5b := Replace(t4a, '>', "&gt;"), Replace(t4b, '>', "&gt;");
    ReplaceAppend(t4a, t4b, '>', "&gt;");
    var t6a, t6b := Replace(t5a, '"', "&quot;"), Replace(t5b, '"', "&quot;");
    ReplaceAppend(t5a, t5b, '"', "&quot;");
    ReplaceAppend(t6a, t6b, '\'', "&#39;");
  }

  /** The chain on a character it does not target leaves it alone. */
  lemma ReplaceChainPlain(c: char)
    requires c != LineSeparator && c != ParagraphSeparator
    requires c != '&' && c != '<' && c != '>' && c != '"' && c != '\''
    ensures ReplaceChain([c]) == [c]
  {
    ReplaceSingle(c, LineSeparator, " ");
    ReplaceSingle(c, ParagraphSeparator, " ");
    ReplaceSingle(c, '&', "&amp;");
    ReplaceSingle(c, '<', "&lt;");
    ReplaceSingle(c, '>', "&gt;");
    ReplaceSingle(c, '"', "&quot;");
    ReplaceSingle(c, '\'', "&#39;");
  }

  /** The last stages leave `s` alone when it holds none of their characters. */
  lemma ReplaceRest(s: string)
    requires '<' !in s && '>' !in s && '"' !in s && '\'' !in s
    ensures Replace(Replace(Replace(Replace(s, '<', "&lt;"), '>', "&gt;"), '"', "&quot;"), '\'', "&#39;") == s
  {
    ReplaceAbsent(s, '<', "&lt;");
    ReplaceAbsent(s, '>', "&gt;");
    ReplaceAbsent(s, '"', "&quot;");
    ReplaceAbsent(s, '\'', "&#39;");
  }

  lemma ReplaceChainSeparator(c: char)
    requires c == LineSeparator || c == ParagraphSeparator
    ensures ReplaceChain([c]) == " "
  {
    ReplaceSingle(c, LineSeparator, " ");
    ReplaceSingle(c, ParagraphSeparator, " ");
    ReplaceSingle(' ', ParagraphSeparator, " ");
    ReplaceSingle(' ', '&', "&amp;");
    ReplaceRest(" ");
  }

  lemma ReplaceChainAmp()
    ensures ReplaceChain("&") == "&amp;"
  {
    ReplaceSingle('&', LineSeparator, " ");
    ReplaceSingle('&', ParagraphSeparator, " ");
    ReplaceSingle('&', '&', "&amp;");
    ReplaceRest("&amp;");
  }

  lemma ReplaceChainLt()
    ensures ReplaceChain("<") == "&lt;"
  {
    ReplaceSingle('<', LineSeparator, " ");
    ReplaceSingle('<', ParagraphSeparator, " ");
    ReplaceSingle('<', '&', "&amp;");
    ReplaceSingle('<', '<', "&lt;");
    var e := "&lt;";
    assert '>' !in e && '"' !in e && '\'' !in e;
    ReplaceAbsent(e, '>', "&gt;");
    ReplaceAbsent(e, '"', "&quot;");
    ReplaceAbsent(e, '\'', "&#39;");
  }

  lemma ReplaceChainGt()
    ensures ReplaceChain(">") == "&gt;"
  {
    ReplaceSingle('>', LineSeparator, " ");
    ReplaceSingle('>', ParagraphSeparator, " ");
    ReplaceSingle('>', '&', "&amp;");
    ReplaceSingle('>', '<', "&lt;");
    ReplaceSingle('>', '>', "&gt;");
    var e := "&gt;";
    assert '"' !in e && '\'' !in e;
    ReplaceAbsent(e, '"', "&quot;");
    ReplaceAbsent(e, '\'', "&#39;");
  }

  lemma ReplaceChainQuote()
    ensures ReplaceChain("\"") == "&quot;"
  {
    ReplaceSingle('"', LineSeparator, " ");
    ReplaceSingle('"', ParagraphSeparator, " ");
    ReplaceSingle('"', '&', "&amp;");
    ReplaceSingle('"', '<', "&lt;");
    ReplaceSingle('"', '>', "&gt;");
    ReplaceSingle('"', '"', "&quot;");
    ReplaceAbsent("&quot;", '\'', "&#39;");
  }

  lemma ReplaceChainApostrophe()
    ensures ReplaceChain("'") == "&#39;"
  {
    ReplaceSingle('\'', LineSeparator, " ");
    ReplaceSingle('\'', ParagraphSeparator, " ");
    ReplaceSingle('\'', '&', "&amp;");
    ReplaceSingle('\'', '<', "&lt;");
    ReplaceSingle('\'', '>', "&gt;");
    ReplaceSingle('\'', '"', "&quot;");
    ReplaceSingle('\'', '\'', "&#39;");
  }

  /** On one character the chain followed by the blanking gives that character's escape. */
  lemma ReplaceChainChar(c: char)
    ensures BlankControls(ReplaceChain([c])) == EscapeChar(c)
  {
    if c == LineSeparator || c == ParagraphSeparator {
      ReplaceChainSeparator(c);
    } else if c == '&' {
      ReplaceChainAmp();
    } else if c == '<' {
      ReplaceChainLt();
    } else if c == '>' {
      ReplaceChainGt();
    } else if c == '"' {
      ReplaceChainQuote();
    } else if c == '\'' {
      ReplaceChainApostrophe();
    } else {
      ReplaceChainPlain(c);
    }
  }

  lemma BlankControlsAppend(a: string, b: string)
    ensures BlankControls(a + b) == BlankControls(a) + BlankControls(b)
  {
  }

  /** The chain of replacements equals escaping character by character. */
  lemma {:induction false} CleanTextIsCharMap(s: string)
    ensures CleanText(s) == EscapeAll(s)
    decreases |s|
  {
    if s != [] {
      CleanTextIsCharMap(s[1..]);
      assert s == [s[0]] + s[1..];
      ReplaceChainAppend([s[0]], s[1..]);
      BlankControlsAppend(ReplaceChain([s[0]]), ReplaceChain(s[1..]));
      ReplaceChainChar(s[0]);
      if s[1..] == [] {
        assert ReplaceChain([]) == [];
      }
    }
  }

  lemma {:induction false} EscapeAllSafe(s: string)
    ensures forall i :: 0 <= i < |EscapeAll(s)| ==> IsSafe(EscapeAll(s)[i])
    decreases |s|
  {
    if s != [] {
      EscapeAllSafe(s[1..]);
      var e := EscapeChar(s[0]);
      assert forall i :: 0 <= i < |e| ==> IsSafe(e[i]);
    }
  }

  lemma {:induction false} EscapeAllIdentity(s: string)
    requires forall i :: 0 <= i < |s| ==> !IsSpecial(s[i])
    ensures EscapeAll(s) == s
    decreases |s|
  {
    if s != [] {
      EscapeAllIdentity(s[1..]);
    }
  }

  /** Cleaned text holds no `<`, `>`, `"`, `'` and no control character other than
      newline, carriage return and tab. */
  lemma CleanTextSafe(s: string)
    ensures forall i :: 0 <= i < |CleanText(s)| ==> IsSafe(CleanText(s)[i])
  {
    CleanTextIsCharMap(s);
    EscapeAllSafe(s);
  }

  /** Text without special characters passes through unchanged. */
  lemma CleanTextIdentity(s: string)
    requires forall i :: 0 <= i < |s| ==> !IsSpecial(s[i])
    ensures CleanText(s) == s
  {
    CleanTextIsCharMap(s);
    EscapeAllIdentity(s);
  }
}
