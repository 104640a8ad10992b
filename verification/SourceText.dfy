/** Lines, spaces and tokens of 4s source. Text is a sequence of code points. */
module SourceText {
  import opened Outcomes

  // ---- lines ----

  /** The text cut at its line breaks. */
  function Lines(s: string): (r: seq<string>)
    ensures |r| >= 1
  {
    if s == "" then [""]
    else if s[0] == '\n' then [""] + Lines(s[1..])
    else var r := Lines(s[1..]); [[s[0]] + r[0]] + r[1..]
  }

  function Joined(lines: seq<string>): string {
    if lines == [] then "" else if |lines| == 1 then lines[0] else lines[0] + "\n" + Joined(lines[1..])
  }

  predicate OneLine(s: string) {
    '\n' !in s
  }

  lemma {:induction false} LinesOfOneLine(s: string)
    requires OneLine(s)
    ensures Lines(s) == [s]
  {
    if s != "" {
      LinesOfOneLine(s[1..]);
      assert s == [s[0]] + s[1..];
    }
  }

  lemma {:induction false} LinesAreLines(s: string)
    ensures forall k :: 0 <= k < |Lines(s)| ==> OneLine(Lines(s)[k])
  {
    if s != "" {
      LinesAreLines(s[1..]);
    }
  }

  /** A line break between two texts is a cut between their lines. */
  lemma {:induction false} LinesOfBoth(a: string, b: string)
    ensures Lines(a + "\n" + b) == Lines(a) + Lines(b)
  {
    hide Lines;
    var c := a + "\n" + b;
    LinesStep(a);
    LinesStep(c);
    if a == "" {
      assert c[0] == '\n' && c[1..] == b;
    } else {
      var r := Lines(a[1..]);
      LinesOfBoth(a[1..], b);
      assert c[0] == a[0] && c[1..] == a[1..] + "\n" + b;
      if a[0] == '\n' {
        assert [""] + (r + Lines(b)) == [""] + r + Lines(b);
      } else {
        HeadGrows(a[0], r, Lines(b));
      }
    }
  }

  lemma LinesStep(s: string)
    ensures Lines(s) ==
            if s == "" then [""]
            else var r := Lines(s[1..]); if s[0] == '\n' then [""] + r else [[s[0]] + r[0]] + r[1..]
  {
  }

  lemma HeadGrows(c: char, r: seq<string>, more: seq<string>)
    requires r != []
    ensures [[c] + (r + more)[0]] + (r + more)[1..] == [[c] + r[0]] + r[1..] + more
  {
  }

  /** A prefix without a line break goes in front of the first line. */
  lemma {:induction false} LinesOfPrefixed(p: string, s: string)
    requires OneLine(p)
    ensures Lines(p + s) == [p + Lines(s)[0]] + Lines(s)[1..]
  {
    if p == "" {
      assert p + s == s;
      assert p + Lines(s)[0] == Lines(s)[0];
    } else {
      LinesOfPrefixed(p[1..], s);
      assert (p + s)[0] == p[0] && (p + s)[1..] == p[1..] + s;
      assert [p[0]] + (p[1..] + Lines(s)[0]) == p + Lines(s)[0];
    }
  }

  lemma {:induction false} JoinedLines(s: string)
    ensures Joined(Lines(s)) == s
  {
    if s != "" {
      var r := Lines(s[1..]);
      JoinedLines(s[1..]);
      assert s == [s[0]] + s[1..];
      if s[0] == '\n' {
        assert ([""] + r)[1..] == r;
      } else {
        var t := [[s[0]] + r[0]] + r[1..];
        assert t[1..] == r[1..];
      }
    }
  }

  lemma {:induction false} LinesOfJoined(lines: seq<string>)
    requires lines != [] && forall k :: 0 <= k < |lines| ==> OneLine(lines[k])
    ensures Lines(Joined(lines)) == lines
  {
    LinesOfOneLine(lines[0]);
    if |lines| > 1 {
      LinesOfJoined(lines[1..]);
      LinesOfBoth(lines[0], Joined(lines[1..]));
    }
  }

  lemma {:induction false} JoinedBoth(a: seq<string>, b: seq<string>)
    requires a != [] && b != []
    ensures Joined(a + b) == Joined(a) + "\n" + Joined(b)
  {
    assert (a + b)[1..] == a[1..] + b;
    if |a| > 1 {
      JoinedBoth(a[1..], b);
    }
  }

  // ---- spaces ----

  /** White space in the sense of Unicode. */
  predicate IsSpace(c: char) {
    || '\t' <= c <= '\r' || c == ' ' || c == '\U{85}' || c == '\U{A0}' || c == '\U{1680}'
    || '\U{2000}' <= c <= '\U{200A}' || c == '\U{2028}' || c == '\U{2029}' || c == '\U{202F}'
    || c == '\U{205F}' || c == '\U{3000}'
  }

  /** What a regular expression means by white space. */
  predicate IsAsciiSpace(c: char) {
    c == '\t' || c == '\n' || c == '\U{0C}' || c == '\r' || c == ' '
  }

  /** What is cut off the ends of a value. */
  predicate IsPadding(c: char) {
    c == ' ' || c == '\U{A0}' || c == '\n'
  }

  function WithoutLeft(s: string): (r: string)
    ensures |r| <= |s|
  {
    if s != "" && IsPadding(s[0]) then WithoutLeft(s[1..]) else s
  }

  function WithoutRight(s: string): (r: string)
    ensures |r| <= |s|
  {
    if s != "" && IsPadding(s[|s| - 1]) then WithoutRight(s[..|s| - 1]) else s
  }

  function SpaceRun(s: string): (n: nat)
    ensures n <= |s| && (s != "" && IsAsciiSpace(s[0]) ==> n > 0)
    ensures forall k :: 0 <= k < n ==> IsAsciiSpace(s[k])
  {
    if s != "" && IsAsciiSpace(s[0]) then 1 + SpaceRun(s[1..]) else 0
  }

  predicate InnerBreak(run: string) {
    exists k :: 0 < k < |run| - 1 && run[k] == '\n'
  }

  /** Every run of white space with a line break inside it becomes one line break. */
  function NarrowBreaks(s: string): string {
    if s == "" then ""
    else
      var n := SpaceRun(s);
      if n == 0 then [s[0]] + NarrowBreaks(s[1..])
      else (if InnerBreak(s[..n]) then "\n" else s[..n]) + NarrowBreaks(s[n..])
  }

  /** The ends trimmed and the spaces around line breaks dropped. */
  function Rew(s: string): string {
    NarrowBreaks(WithoutRight(WithoutLeft(s)))
  }

  // ---- tidy lines ----

  /** A line that neither begins nor ends in white space, and is not empty. */
  predicate Tidy(s: string) {
    s != "" && OneLine(s) && !IsSpace(s[0]) && !IsSpace(s[|s| - 1])
  }

  predicate AllTidy(lines: seq<string>) {
    lines != [] && forall k :: 0 <= k < |lines| ==> Tidy(lines[k])
  }

  /** No line break has a space before it. */
  predicate Tight(s: string) {
    |s| <= 1 || (!(s[1] == '\n' && IsSpace(s[0])) && Tight(s[1..]))
  }

  lemma {:induction false} TightAt(s: string, k: nat)
    requires Tight(s) && 0 < k < |s| && s[k] == '\n'
    ensures !IsSpace(s[k - 1])
  {
    if k > 1 {
      TightAt(s[1..], k - 1);
    }
  }

  lemma {:induction false} TightFrom(s: string, n: nat)
    requires Tight(s) && n <= |s|
    ensures Tight(s[n..])
  {
    if n > 0 && |s| > 1 {
      TightFrom(s[1..], n - 1);
      assert s[n..] == s[1..][n - 1..];
    }
  }

  lemma TightRun(s: string)
    requires Tight(s)
    ensures !InnerBreak(s[..SpaceRun(s)])
  {
    var run := s[..SpaceRun(s)];
    if InnerBreak(run) {
      var k :| 0 < k < |run| - 1 && run[k] == '\n';
      TightAt(s, k);
      assert false;
    }
  }

  lemma {:induction false} TightStays(s: string)
    requires Tight(s)
    ensures NarrowBreaks(s) == s
  {
    if s != "" {
      var n := SpaceRun(s);
      if n == 0 {
        TightFrom(s, 1);
        TightStays(s[1..]);
      } else {
        TightFrom(s, n);
        TightStays(s[n..]);
        TightRun(s);
        assert s[..n] + s[n..] == s;
      }
    }
  }

  lemma {:induction false} OneLineIsTight(s: string)
    requires OneLine(s)
    ensures Tight(s)
  {
    if s != "" {
      OneLineIsTight(s[1..]);
    }
  }

  /** After a text that ends in no space a line break may come. */
  lemma {:induction false} TightTogether(a: string, b: string)
    requires OneLine(a) && a != "" && !IsSpace(a[|a| - 1]) && Tight(b) && (b != "" ==> b[0] != '\n')
    ensures Tight(a + "\n" + b)
  {
    var c := a + "\n" + b;
    if |a| == 1 {
      assert c[1..] == "\n" + b;
      assert ("\n" + b)[1..] == b;
    } else {
      TightTogether(a[1..], b);
      assert c[1..] == a[1..] + "\n" + b;
      assert c[1] == a[1];
    }
  }

  lemma {:induction false} TidyIsTight(lines: seq<string>)
    requires AllTidy(lines)
    ensures var s := Joined(lines); Tight(s) && s != "" && !IsSpace(s[0]) && !IsSpace(s[|s| - 1])
  {
    if |lines| == 1 {
      OneLineIsTight(lines[0]);
    } else {
      TidyIsTight(lines[1..]);
      TightTogether(lines[0], Joined(lines[1..]));
    }
  }

  /** Tidy lines are left as they are, also after a blank. */
  lemma TidyStays(lines: seq<string>)
    requires AllTidy(lines)
    ensures Rew(Joined(lines)) == Joined(lines) && Rew(" " + Joined(lines)) == Joined(lines)
  {
    var s := Joined(lines);
    TidyIsTight(lines);
    TightStays(s);
    assert (" " + s)[1..] == s;
  }

  lemma TidyLineStays(s: string)
    requires Tidy(s)
    ensures Rew(s) == s && Rew(" " + s) == s
  {
    TidyStays([s]);
  }

  // ---- ragged text ----

  /** White space with a line break inside it. */
  predicate IsGap(g: string) {
    InnerBreak(g) && forall k :: 0 <= k < |g| ==> IsAsciiSpace(g[k])
  }

  /** The lines with such gaps between them. */
  function Ragged(lines: seq<string>, gaps: seq<string>): string
    requires |gaps| + 1 == |lines|
  {
    if |lines| == 1 then lines[0] else lines[0] + gaps[0] + Ragged(lines[1..], gaps[1..])
  }

  predicate IsPaddingOnly(p: string) {
    forall k :: 0 <= k < |p| ==> IsPadding(p[k])
  }

  lemma {:induction false} LeftIsCut(p: string, t: string)
    requires IsPaddingOnly(p) && t != "" && !IsSpace(t[0])
    ensures WithoutLeft(p + t) == t
  {
    if p == "" {
      assert p + t == t;
    } else {
      assert (p + t)[1..] == p[1..] + t;
      LeftIsCut(p[1..], t);
    }
  }

  lemma {:induction false} RightIsCut(t: string, q: string)
    requires IsPaddingOnly(q) && t != "" && !IsSpace(t[|t| - 1])
    ensures WithoutRight(t + q) == t
  {
    if q == "" {
      assert t + q == t;
    } else {
      assert (t + q)[..|t + q| - 1] == t + q[..|q| - 1];
      RightIsCut(t, q[..|q| - 1]);
    }
  }

  lemma {:induction false} RunEnds(g: string, rest: string)
    requires (forall k :: 0 <= k < |g| ==> IsAsciiSpace(g[k])) && (rest == "" || !IsAsciiSpace(rest[0]))
    ensures SpaceRun(g + rest) == |g|
  {
    if g == "" {
      assert g + rest == rest;
    } else {
      assert (g + rest)[1..] == g[1..] + rest;
      RunEnds(g[1..], rest);
    }
  }

  lemma {:induction false} RunWithin(l: string, rest: string)
    requires l != "" && !IsAsciiSpace(l[|l| - 1])
    ensures SpaceRun(l + rest) < |l|
  {
    if IsAsciiSpace(l[0]) {
      assert (l + rest)[1..] == l[1..] + rest;
      RunWithin(l[1..], rest);
    }
  }

  /** The first character, or the first run of white space, when it holds no inner break. */
  lemma NarrowStep(s: string)
    requires s != "" && !InnerBreak(s[..SpaceRun(s)])
    ensures var m := if SpaceRun(s) == 0 then 1 else SpaceRun(s); NarrowBreaks(s) == s[..m] + NarrowBreaks(s[m..])
  {
    hide InnerBreak, SpaceRun;
    assert s[..1] == [s[0]];
  }

  /** A line that ends in no space is left as it is. */
  lemma {:induction false} LineStays(l: string, rest: string)
    requires OneLine(l) && (l != "" ==> !IsAsciiSpace(l[|l| - 1]))
    ensures NarrowBreaks(l + rest) == l + NarrowBreaks(rest)
    decreases |l|
  {
    hide NarrowBreaks, SpaceRun, IsAsciiSpace;
    if l == "" {
      assert l + rest == rest;
    } else {
      var s := l + rest;
      RunWithin(l, rest);
      var n := SpaceRun(s);
      var m := if n == 0 then 1 else n;
      assert s[m..] == l[m..] + rest && s[..m] == l[..m] && s[..n] == l[..n];
      NoBreakIn(l, n);
      NarrowStep(s);
      LineStays(l[m..], rest);
      assert l == l[..m] + l[m..];
      assert l[..m] + (l[m..] + NarrowBreaks(rest)) == l[..m] + l[m..] + NarrowBreaks(rest);
    }
  }

  lemma NoBreakIn(l: string, n: nat)
    requires OneLine(l) && n <= |l|
    ensures !InnerBreak(l[..n])
  {
  }

  lemma GapNarrows(g: string, rest: string)
    requires IsGap(g) && rest != "" && !IsAsciiSpace(rest[0])
    ensures NarrowBreaks(g + rest) == "\n" + NarrowBreaks(rest)
  {
    RunEnds(g, rest);
    assert (g + rest)[..|g|] == g && (g + rest)[|g|..] == rest;
  }

  lemma {:induction false} RaggedIsNarrowed(lines: seq<string>, gaps: seq<string>)
    requires |gaps| + 1 == |lines| && AllTidy(lines) && forall k :: 0 <= k < |gaps| ==> IsGap(gaps[k])
    ensures var s := Ragged(lines, gaps);
            && NarrowBreaks(s) == Joined(lines)
            && s != "" && !IsSpace(s[0]) && !IsSpace(s[|s| - 1])
  {
    hide NarrowBreaks;
    if |lines| == 1 {
      LineStays(lines[0], "");
      assert lines[0] + "" == lines[0] && NarrowBreaks("") == "" by {
        NothingNarrows();
      }
    } else {
      var rest := Ragged(lines[1..], gaps[1..]);
      RaggedIsNarrowed(lines[1..], gaps[1..]);
      assert Ragged(lines, gaps) == lines[0] + (gaps[0] + rest);
      LineStays(lines[0], gaps[0] + rest);
      GapNarrows(gaps[0], rest);
      assert lines[0] + ("\n" + Joined(lines[1..])) == Joined(lines);
    }
  }

  lemma NothingNarrows()
    ensures NarrowBreaks("") == ""
  {
  }

  /** Lines with white space around them and around the breaks between them are trimmed to the lines. */
  lemma RaggedIsTidied(p: string, lines: seq<string>, gaps: seq<string>, q: string)
    requires |gaps| + 1 == |lines| && AllTidy(lines) && forall k :: 0 <= k < |gaps| ==> IsGap(gaps[k])
    requires IsPaddingOnly(p) && IsPaddingOnly(q)
    ensures Rew(p + Ragged(lines, gaps) + q) == Joined(lines)
  {
    hide NarrowBreaks, Ragged, Joined;
    var s := Ragged(lines, gaps);
    RaggedIsNarrowed(lines, gaps);
    assert p + s + q == p + (s + q);
    LeftIsCut(p, s + q);
    RightIsCut(s, q);
  }

  // ---- tokens ----

  function Indent(s: string): (n: nat)
    ensures n <= |s| && (n < |s| ==> !IsSpace(s[n]))
    ensures forall k :: 0 <= k < n ==> IsSpace(s[k])
  {
    if s != "" && IsSpace(s[0]) then 1 + Indent(s[1..]) else 0
  }

  function TokenLength(s: string): (n: nat)
    ensures n <= |s| && (n < |s| ==> IsSpace(s[n]))
    ensures forall k :: 0 <= k < n ==> !IsSpace(s[k])
  {
    if s != "" && !IsSpace(s[0]) then 1 + TokenLength(s[1..]) else 0
  }

  /** The first token of the line, if it has any. */
  function FirstField(line: string): (r: Option<string>)
    ensures r.Some? ==> r.value != "" && !IsSpace(r.value[0]) && |r.value| <= |line|
  {
    var t := line[Indent(line)..];
    if t == "" then None else Some(t[..TokenLength(t)])
  }

  predicate SpaceFree(s: string) {
    s != "" && forall k :: 0 <= k < |s| ==> !IsSpace(s[k])
  }

  lemma {:induction false} TokenBeforeSpace(t: string, rest: string)
    requires SpaceFree(t) && (rest == "" || IsSpace(rest[0]))
    ensures TokenLength(t + rest) == |t|
  {
    if |t| == 1 {
      assert (t + rest)[1..] == rest;
    } else {
      TokenBeforeSpace(t[1..], rest);
      assert (t + rest)[1..] == t[1..] + rest;
    }
  }

  /** A token at the head of a line, with a space or nothing after it, is its first field. */
  lemma FirstFieldIs(t: string, rest: string)
    requires SpaceFree(t) && (rest == "" || IsSpace(rest[0]))
    ensures FirstField(t + rest) == Some(t)
  {
    TokenBeforeSpace(t, rest);
    assert (t + rest)[0] == t[0];
    assert (t + rest)[0..] == t + rest;
  }
}
