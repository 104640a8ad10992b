/** Breaking a slide's paragraph into lines: greedy, and no other breaking needs fewer lines. */
module LineWrapping {
  import opened Sequences
  import opened Outcomes

  /** A piece of an explicit line: `id` stands for its run and text, `width` is None when no font measures it. */
  datatype Token = Token(id: nat, breakable: bool, width: Option<real>)

  ghost predicate Measured(ts: seq<Token>) {
    forall k :: 0 <= k < |ts| ==> ts[k].width.Some? && ts[k].width.value >= 0.0
  }

  /** Widths are measurements, so never negative. */
  ghost predicate Sane(ts: seq<Token>) {
    forall k :: 0 <= k < |ts| ==> ts[k].width.Some? ==> ts[k].width.value >= 0.0
  }

  function Width(ts: seq<Token>): real {
    if ts == [] then 0.0
    else Width(ts[..|ts| - 1]) + match ts[|ts| - 1].width case Some(w) => w case None => 0.0
  }

  lemma {:induction false} WidthConcat(a: seq<Token>, b: seq<Token>)
    ensures Width(a + b) == Width(a) + Width(b)
  {
    if b == [] {
      assert a + b == a;
    } else {
      assert (a + b)[..|a + b| - 1] == a + b[..|b| - 1];
      WidthConcat(a, b[..|b| - 1]);
    }
  }

  lemma {:induction false} WidthIsNonNegative(ts: seq<Token>)
    requires Sane(ts)
    ensures Width(ts) >= 0.0
  {
    if ts != [] {
      WidthIsNonNegative(ts[..|ts| - 1]);
    }
  }

  // ---- an explicit line as words and the spaces before them ----

  /** A token that cannot be broken, with the breakable ones before it. */
  datatype Word = Word(gap: seq<Token>, token: Token)

  datatype Parsed = Parsed(words: seq<Word>, pending: seq<Token>)

  function Parse(ts: seq<Token>): Parsed {
    if ts == [] then Parsed([], [])
    else
      var before, t := Parse(ts[..|ts| - 1]), ts[|ts| - 1];
      if t.breakable then Parsed(before.words, before.pending + [t])
      else Parsed(before.words + [Word(before.pending, t)], [])
  }

  /** The tokens of one line that holds words a to b - 1: the gap before its first word is kept only at the
      start of the explicit line. */
  function Line(words: seq<Word>, a: nat, b: nat): seq<Token>
    requires a < b <= |words|
    decreases b
  {
    if b == a + 1 then (if a == 0 then words[a].gap else []) + [words[a].token]
    else Line(words, a, b - 1) + words[b - 1].gap + [words[b - 1].token]
  }

  // ---- ways to cut an explicit line ----

  /** A line may hold a single word of any width, or several that fit. */
  ghost predicate LineOk(words: seq<Word>, a: nat, b: nat, max: real) {
    a < b <= |words| && (b == a + 1 || Width(Line(words, a, b)) <= max)
  }

  /** Where the k-th line starts when `ends` are the ends of the lines. */
  function LineStart(ends: seq<nat>, k: nat): nat
    requires k <= |ends|
  {
    if k == 0 then 0 else ends[k - 1]
  }

  lemma LineStarts(ends: seq<nat>, k: nat)
    requires k <= |ends|
    ensures LineStart(ends, k) == if k == 0 then 0 else ends[k - 1]
  {
  }

  ghost predicate LinesOk(words: seq<Word>, ends: seq<nat>, max: real) {
    forall k :: 0 <= k < |ends| ==> LineOk(words, LineStart(ends, k), ends[k], max)
  }

  /** `ends` cuts all the words into lines, each ending before the word it names. */
  ghost predicate Cut(words: seq<Word>, ends: seq<nat>, max: real) {
    && LinesOk(words, ends, max)
    && LineStart(ends, |ends|) == |words|
  }

  ghost predicate LineFull(words: seq<Word>, a: nat, b: nat, max: real) {
    a < b < |words| && Width(Line(words, a, b + 1)) > max
  }

  /** Every line but the last is full: the next word would not fit. */
  ghost predicate Full(words: seq<Word>, ends: seq<nat>, max: real) {
    forall k :: 0 <= k < |ends| - 1 ==> LineFull(words, LineStart(ends, k), ends[k], max)
  }

  // ---- greedy is optimal ----

  ghost predicate SaneWords(words: seq<Word>) {
    forall k :: 0 <= k < |words| ==> Sane(words[k].gap) && Sane([words[k].token])
  }

  lemma WordIsSane(words: seq<Word>, k: nat)
    requires SaneWords(words) && k < |words|
    ensures 0.0 <= Width(words[k].gap) && 0.0 <= Width([words[k].token])
  {
    WidthIsNonNegative(words[k].gap);
    WidthIsNonNegative([words[k].token]);
  }

  lemma OneWordLine(words: seq<Word>, a: nat)
    requires SaneWords(words) && a < |words|
    ensures Width([words[a].token]) <= Width(Line(words, a, a + 1))
    ensures a > 0 ==> Line(words, a, a + 1) == [words[a].token]
  {
    WordIsSane(words, a);
    WidthConcat(words[a].gap, [words[a].token]);
  }

  lemma {:induction false} LineFromZero(words: seq<Word>, a: nat, b: nat)
    requires SaneWords(words) && a < b <= |words|
    ensures 0.0 <= Width(Line(words, a, b))
    ensures a + 1 < b ==> Width(Line(words, a + 1, b)) <= Width(Line(words, a, b))
    decreases b
  {
    hide Width, Line, SaneWords;
    WordIsSane(words, b - 1);
    if b == a + 1 {
      OneWordLine(words, a);
    } else {
      LineFromZero(words, a, b - 1);
      LineGrows(words, a, b);
      if b == a + 2 {
        OneWordLine(words, a + 1);
      } else {
        LineGrows(words, a + 1, b);
      }
    }
  }

  lemma LineGrows(words: seq<Word>, a: nat, b: nat)
    requires a + 1 < b <= |words|
    ensures Width(Line(words, a, b)) == Width(Line(words, a, b - 1)) + Width(words[b - 1].gap) + Width([words[b - 1].token])
  {
    WidthConcat(Line(words, a, b - 1) + words[b - 1].gap, [words[b - 1].token]);
    WidthConcat(Line(words, a, b - 1), words[b - 1].gap);
  }

  /** Part of a line is no wider than the line. */
  lemma {:induction false} PartIsNarrower(words: seq<Word>, a: nat, b: nat, c: nat, d: nat)
    requires SaneWords(words) && a <= c < d <= b <= |words|
    ensures Width(Line(words, c, d)) <= Width(Line(words, a, b))
    decreases b - a
  {
    hide Width, Line, SaneWords;
    if d < b {
      PartIsNarrower(words, a, b - 1, c, d);
      LineGrows(words, a, b);
      WordIsSane(words, b - 1);
    } else if a < c {
      LineFromZero(words, a, b);
      PartIsNarrower(words, a + 1, b, c, d);
    }
  }

  lemma NoLineGetsFurther(words: seq<Word>, start: nat, end: nat, other: nat, otherEnd: nat, max: real)
    requires SaneWords(words) && other <= start && LineFull(words, start, end, max)
    requires LineOk(words, other, otherEnd, max)
    ensures otherEnd <= end
  {
    hide Width, Line;
    if otherEnd > end {
      PartIsNarrower(words, other, otherEnd, start, end + 1);
    }
  }

  /** No other cutting is ever further on than full lines are. */
  lemma {:induction false} FullStaysAhead(words: seq<Word>, full: seq<nat>, ends: seq<nat>, max: real, k: nat)
    requires SaneWords(words) && Full(words, full, max) && LinesOk(words, ends, max)
    requires k < |full| && k <= |ends|
    ensures LineStart(ends, k) <= LineStart(full, k)
  {
    hide Width, Line, LineStart;
    LineStarts(ends, k);
    LineStarts(full, k);
    if k > 0 {
      FullStaysAhead(words, full, ends, max, k - 1);
      assert LineFull(words, LineStart(full, k - 1), full[k - 1], max);
      assert LineOk(words, LineStart(ends, k - 1), ends[k - 1], max);
      NoLineGetsFurther(words, LineStart(full, k - 1), full[k - 1], LineStart(ends, k - 1), ends[k - 1], max);
    }
  }

  /** Full lines are as few as any cutting has. */
  lemma GreedyIsOptimal(words: seq<Word>, full: seq<nat>, ends: seq<nat>, max: real)
    requires SaneWords(words) && Cut(words, full, max) && Full(words, full, max) && Cut(words, ends, max)
    ensures |full| <= |ends|
  {
    hide Width, Line;
    var n := |ends|;
    if n < |full| {
      FullStaysAhead(words, full, ends, max, n);
    }
  }

  // ---- the lines of a cutting ----

  /** Every line ends behind its start. */
  predicate Ascending(words: seq<Word>, ends: seq<nat>) {
    forall k :: 0 <= k < |ends| ==> LineStart(ends, k) < ends[k] <= |words|
  }

  lemma LinesAscend(words: seq<Word>, ends: seq<nat>, max: real)
    requires LinesOk(words, ends, max)
    ensures Ascending(words, ends)
  {
    hide Line, Width, LineStart;
    forall k | 0 <= k < |ends|
      ensures LineStart(ends, k) < ends[k] <= |words|
    {
      assert LineOk(words, LineStart(ends, k), ends[k], max);
    }
  }

  function LinesOf(words: seq<Word>, ends: seq<nat>): seq<seq<Token>>
    requires Ascending(words, ends)
  {
    seq(|ends|, k requires 0 <= k < |ends| => Line(words, LineStart(ends, k), ends[k]))
  }

  lemma {:induction false} LineOfPrefix(words: seq<Word>, w: Word, a: nat, b: nat)
    requires a < b <= |words|
    ensures Line(words + [w], a, b) == Line(words, a, b)
    decreases b
  {
    if b > a + 1 {
      LineOfPrefix(words, w, a, b - 1);
    }
  }

  // ---- the loop ----

  /** What breaking one explicit line must come to: no words, one empty line; otherwise full lines. */
  ghost predicate Broken(ts: seq<Token>, lines: seq<seq<Token>>, ends: seq<nat>, max: real) {
    var words := Parse(ts).words;
    if words == [] then lines == [[]] && ends == []
    else
      && ends != [] && Cut(words, ends, max) && Full(words, ends, max)
      && lines == LinesOf(words, ends)
  }

  ghost predicate AllMeasured(ts: seq<Token>) {
    forall k :: 0 <= k < |ts| ==> ts[k].width.Some?
  }

  method TokenWidth(ts: seq<Token>) returns (ok: bool, total: real)
    ensures ok <==> AllMeasured(ts)
    ensures ok ==> total == Width(ts)
  {
    total := 0.0;
    for k := 0 to |ts|
      invariant AllMeasured(ts[..k]) && total == Width(ts[..k])
    {
      assert ts[..k + 1][..k] == ts[..k];
      match ts[k].width {
        case None => return false, 0.0;
        case Some(w) => total := total + w;
      }
    }
    ok := true;
    assert ts[..|ts|] == ts;
  }

  function Widest(ts: seq<Token>, from: real): real {
    if ts == [] then from
    else
      var w, t := Widest(ts[..|ts| - 1], from), ts[|ts| - 1];
      if t.breakable || t.width.None? || t.width.value <= w then w else t.width.value
  }

  method BreakLine(explicit: seq<Token>, maxWidth: real, widestSoFar: real)
      returns (ok: bool, lines: seq<seq<Token>>, widest: real, ghost ends: seq<nat>)
    ensures ok <==> AllMeasured(explicit)
    ensures ok ==> Broken(explicit, lines, ends, maxWidth) && widest == Widest(explicit, widestSoFar)
  {
    hide Line, Cut, Full;
    lines, widest, ends := [], widestSoFar, [];
    var current, currentWidth, pending, hasContent := [], 0.0, [], false;
    for i := 0 to |explicit|
      invariant AllMeasured(explicit[..i]) && AllMeasured(pending)
      invariant widest == Widest(explicit[..i], widestSoFar)
      invariant pending == Parse(explicit[..i]).pending
      invariant hasContent <==> Parse(explicit[..i]).words != []
      invariant currentWidth == Width(current)
      invariant !hasContent ==> current == [] && lines == [] && ends == []
      invariant hasContent ==> Breaking(Parse(explicit[..i]).words, lines, current, ends, maxWidth)
    {
      var t := explicit[i];
      ghost var words := Parse(explicit[..i]).words;
      assert explicit[..i + 1][..i] == explicit[..i];
      var measured, tokenWidth := TokenWidth([t]);
      if !measured {
        assert ![t][0].width.Some?;
        return false, [], 0.0, [];
      }
      assert [t][0].width.Some?;
      if t.breakable {
        pending := pending + [t];
        continue;
      }
      var spaceWidth;
      measured, spaceWidth := TokenWidth(pending);
      var candidate := currentWidth + spaceWidth + tokenWidth;
      WidthOfOne(t);
      widest := if widest >= tokenWidth then widest else tokenWidth;
      WidthConcat(current + pending, [t]);
      WidthConcat(current, pending);
      BreakStep(words, lines, current, ends, Word(pending, t), maxWidth, hasContent);
      if hasContent && candidate > maxWidth {
        lines := lines + [current];
        ends := ends + [|words|];
        current := [t];
        currentWidth := tokenWidth;
      } else {
        current := current + pending;
        current := current + [t];
        currentWidth := candidate;
      }
      pending := [];
      hasContent := true;
    }
    assert explicit[..|explicit|] == explicit;
    lines := lines + [current];
    if hasContent {
      ends := ends + [|Parse(explicit).words|];
      LastLine(Parse(explicit).words, lines[..|lines| - 1], current, ends[..|ends| - 1], maxWidth);
    }
    ok := true;
  }

  lemma WidthOfOne(t: Token)
    requires t.width.Some?
    ensures Width([t]) == t.width.value
  {
    assert [t][..0] == [];
  }

  ghost predicate AllFull(words: seq<Word>, ends: seq<nat>, max: real) {
    forall k :: 0 <= k < |ends| ==> LineFull(words, LineStart(ends, k), ends[k], max)
  }

  /** Between words: `lines` are finished and full, and `current` holds the words after them. */
  ghost predicate Breaking(words: seq<Word>, lines: seq<seq<Token>>, current: seq<Token>, ends: seq<nat>, max: real) {
    var s := LineStart(ends, |ends|);
    && LinesOk(words, ends, max)
    && AllFull(words, ends, max)
    && lines == LinesOf(words, ends)
    && LineOk(words, s, |words|, max) && current == Line(words, s, |words|)
  }

  lemma PrefixKeepsLines(words: seq<Word>, ends: seq<nat>, w: Word, max: real)
    requires LinesOk(words, ends, max) && AllFull(words, ends, max)
    ensures LinesOk(words + [w], ends, max) && AllFull(words + [w], ends, max)
    ensures LinesOf(words + [w], ends) == LinesOf(words, ends)
  {
    hide Width, Line;
    forall k | 0 <= k < |ends|
      ensures LineOk(words + [w], LineStart(ends, k), ends[k], max)
      ensures LineFull(words + [w], LineStart(ends, k), ends[k], max)
      ensures Line(words + [w], LineStart(ends, k), ends[k]) == Line(words, LineStart(ends, k), ends[k])
    {
      assert LineOk(words, LineStart(ends, k), ends[k], max) && LineFull(words, LineStart(ends, k), ends[k], max);
      LineOfPrefix(words, w, LineStart(ends, k), ends[k]);
      LineOfPrefix(words, w, LineStart(ends, k), ends[k] + 1);
    }
  }

  lemma AppendFull(words: seq<Word>, ends: seq<nat>, m: nat, max: real)
    ensures AllFull(words, ends, max) ==> Full(words, ends + [m], max)
    ensures AllFull(words, ends, max) && LineFull(words, LineStart(ends, |ends|), m, max) ==> AllFull(words, ends + [m], max)
  {
    hide Width, Line, LineStart, LineFull;
    var more := ends + [m];
    forall k | 0 <= k < |more|
      ensures LineStart(more, k) == LineStart(ends, k)
    {
      LineStarts(more, k);
      LineStarts(ends, k);
    }
    assert forall k :: 0 <= k < |ends| ==> more[k] == ends[k];
  }

  lemma AppendLine(words: seq<Word>, ends: seq<nat>, m: nat)
    requires Ascending(words, ends) && Ascending(words, ends + [m]) && LineStart(ends, |ends|) < m <= |words|
    ensures LinesOf(words, ends + [m]) == LinesOf(words, ends) + [Line(words, LineStart(ends, |ends|), m)]
  {
    hide Line;
    var more := ends + [m];
    assert forall k :: 0 <= k < |ends| ==> more[k] == ends[k] && LineStart(more, k) == LineStart(ends, k);
    assert LineStart(more, |ends|) == LineStart(ends, |ends|);
  }

  lemma AppendEnd(words: seq<Word>, ends: seq<nat>, m: nat, max: real)
    requires LinesOk(words, ends, max) && LineOk(words, LineStart(ends, |ends|), m, max)
    ensures LinesOk(words, ends + [m], max) && LineStart(ends + [m], |ends| + 1) == m
  {
    hide Width, Line, LineStart, LineFull, LineOk, LinesOf;
    var more := ends + [m];
    forall k | 0 <= k < |more|
      ensures LineOk(words, LineStart(more, k), more[k], max)
    {
      LineStarts(more, k);
      LineStarts(ends, k);
      if k < |ends| {
        assert LineOk(words, LineStart(ends, k), ends[k], max) && more[k] == ends[k];
      }
    }
    LineStarts(more, |more|);
  }

  lemma AppendLines(words: seq<Word>, ends: seq<nat>, m: nat, max: real)
    requires LinesOk(words, ends, max) && LineOk(words, LineStart(ends, |ends|), m, max)
    ensures Ascending(words, ends) && Ascending(words, ends + [m]) && LineStart(ends, |ends|) <= m <= |words|
    ensures LinesOf(words, ends + [m]) == LinesOf(words, ends) + [Line(words, LineStart(ends, |ends|), m)]
  {
    hide Width, Line, LinesOf, Ascending;
    AppendEnd(words, ends, m, max);
    LinesAscend(words, ends, max);
    LinesAscend(words, ends + [m], max);
    AppendLine(words, ends, m);
  }

  lemma FirstWord(w: Word, max: real)
    ensures Breaking([w], [], w.gap + [w.token], [], max)
  {
    assert Line([w], 0, 1) == w.gap + [w.token];
  }

  lemma SameLine(words: seq<Word>, lines: seq<seq<Token>>, current: seq<Token>, ends: seq<nat>, w: Word, max: real)
    requires Breaking(words, lines, current, ends, max) && Width(current + w.gap + [w.token]) <= max
    ensures Breaking(words + [w], lines, current + w.gap + [w.token], ends, max)
  {
    hide Width, AllFull, LinesOf, LinesOk, Line;
    var all, m, s := words + [w], |words|, LineStart(ends, |ends|);
    PrefixKeepsLines(words, ends, w, max);
    LineOfPrefix(words, w, s, m);
    LineStep(all, s, m);
  }

  lemma LineStep(words: seq<Word>, a: nat, b: nat)
    requires a < b < |words|
    ensures Line(words, a, b + 1) == Line(words, a, b) + words[b].gap + [words[b].token]
  {
  }

  lemma NextLine(words: seq<Word>, lines: seq<seq<Token>>, current: seq<Token>, ends: seq<nat>, w: Word, max: real)
    requires Breaking(words, lines, current, ends, max) && Width(current + w.gap + [w.token]) > max
    ensures Breaking(words + [w], lines + [current], [w.token], ends + [|words|], max)
  {
    hide Width, AllFull, LinesOf;
    var all, m, s := words + [w], |words|, LineStart(ends, |ends|);
    PrefixKeepsLines(words, ends, w, max);
    LineOfPrefix(words, w, s, m);
    assert Line(all, m, m + 1) == [] + [w.token] == [w.token];
    AppendEnd(all, ends, m, max);
    AppendFull(all, ends, m, max);
    AppendLines(all, ends, m, max);
  }

  /** One more word goes on the last line, or on a line of its own when the last one is full. */
  lemma BreakStep(words: seq<Word>, lines: seq<seq<Token>>, current: seq<Token>, ends: seq<nat>, w: Word, max: real, hasContent: bool)
    requires if hasContent then Breaking(words, lines, current, ends, max)
             else words == [] && lines == [] && current == [] && ends == []
    ensures var all := words + [w];
            if hasContent && Width(current + w.gap + [w.token]) > max then
              Breaking(all, lines + [current], [w.token], ends + [|words|], max)
            else Breaking(all, lines, current + w.gap + [w.token], ends, max)
  {
    hide Width, Breaking;
    if !hasContent {
      FirstWord(w, max);
      assert [] + [w] == [w] && [] + w.gap == w.gap;
    } else if Width(current + w.gap + [w.token]) > max {
      NextLine(words, lines, current, ends, w, max);
    } else {
      SameLine(words, lines, current, ends, w, max);
    }
  }

  lemma LastLine(words: seq<Word>, lines: seq<seq<Token>>, current: seq<Token>, ends: seq<nat>, max: real)
    requires Breaking(words, lines, current, ends, max)
    ensures Cut(words, ends + [|words|], max) && Full(words, ends + [|words|], max)
    ensures LinesOf(words, ends + [|words|]) == lines + [current]
  {
    hide Width, Line, AllFull, LinesOf, LinesOk;
    AppendEnd(words, ends, |words|, max);
    AppendFull(words, ends, |words|, max);
    AppendLines(words, ends, |words|, max);
  }

  // ---- what the lines hold ----

  function Unbreakable(ts: seq<Token>): seq<Token> {
    if ts == [] then []
    else Unbreakable(ts[..|ts| - 1]) + if ts[|ts| - 1].breakable then [] else [ts[|ts| - 1]]
  }

  function Tokens(words: seq<Word>, n: nat): seq<Token>
    requires n <= |words|
  {
    if n == 0 then [] else Tokens(words, n - 1) + [words[n - 1].token]
  }

  ghost predicate Separated(words: seq<Word>) {
    forall k :: 0 <= k < |words| ==> !words[k].token.breakable && Unbreakable(words[k].gap) == []
  }

  lemma {:induction false} UnbreakableConcat(a: seq<Token>, b: seq<Token>)
    ensures Unbreakable(a + b) == Unbreakable(a) + Unbreakable(b)
  {
    if b == [] {
      assert a + b == a;
    } else {
      assert (a + b)[..|a + b| - 1] == a + b[..|b| - 1];
      UnbreakableConcat(a, b[..|b| - 1]);
    }
  }

  lemma {:induction false} ParseSeparates(ts: seq<Token>)
    ensures Separated(Parse(ts).words) && Unbreakable(Parse(ts).pending) == []
    ensures Tokens(Parse(ts).words, |Parse(ts).words|) == Unbreakable(ts)
  {
    if ts != [] {
      var init, t := ts[..|ts| - 1], ts[|ts| - 1];
      ParseSeparates(init);
      var before := Parse(init);
      if t.breakable {
        UnbreakableConcat(before.pending, [t]);
        assert [t][..0] == [];
      } else {
        TokensOfPrefix(before.words, Word(before.pending, t), |before.words|);
      }
    }
  }

  lemma {:induction false} TokensOfPrefix(words: seq<Word>, w: Word, n: nat)
    requires n <= |words|
    ensures Tokens(words + [w], n) == Tokens(words, n)
  {
    if n > 0 {
      TokensOfPrefix(words, w, n - 1);
    }
  }

  lemma {:induction false} LineHolds(words: seq<Word>, a: nat, b: nat)
    requires Separated(words) && a < b <= |words|
    ensures Tokens(words, a) + Unbreakable(Line(words, a, b)) == Tokens(words, b)
    decreases b
  {
    hide Unbreakable, Separated, Tokens;
    WordHolds(words, b - 1);
    TokensGrow(words, b);
    if b == a + 1 {
      UnbreakableConcat(if a == 0 then words[a].gap else [], [words[a].token]);
      NothingHeld();
      FirstTokens(words, a);
    } else {
      LineHolds(words, a, b - 1);
      UnbreakableConcat(Line(words, a, b - 1) + words[b - 1].gap, [words[b - 1].token]);
      UnbreakableConcat(Line(words, a, b - 1), words[b - 1].gap);
    }
  }

  lemma FirstTokens(words: seq<Word>, a: nat)
    requires a < |words|
    ensures a == 0 ==> Tokens(words, a) == []
  {
  }

  lemma TokensGrow(words: seq<Word>, b: nat)
    requires 0 < b <= |words|
    ensures Tokens(words, b) == Tokens(words, b - 1) + [words[b - 1].token]
  {
  }

  lemma WordHolds(words: seq<Word>, k: nat)
    requires Separated(words) && k < |words|
    ensures Unbreakable([words[k].token]) == [words[k].token] && Unbreakable(words[k].gap) == []
  {
    assert [words[k].token][..0] == [];
  }

  lemma NothingHeld()
    ensures Unbreakable([]) == []
  {
  }

  lemma {:induction false} LinesHold(words: seq<Word>, ends: seq<nat>, max: real, n: nat)
    requires Separated(words) && LinesOk(words, ends, max) && n <= |ends|
    ensures Unbreakable(Flattened(LinesOf(words, ends)[..n])) == Tokens(words, LineStart(ends, n))
  {
    hide Line, Unbreakable, Width, Separated, LineStart;
    LineStarts(ends, n);
    var lines := LinesOf(words, ends);
    if n == 0 {
      NothingHeld();
      assert lines[..0] == [];
    } else {
      LinesHold(words, ends, max, n - 1);
      assert lines[..n][..n - 1] == lines[..n - 1];
      UnbreakableConcat(Flattened(lines[..n - 1]), lines[n - 1]);
      assert LineOk(words, LineStart(ends, n - 1), ends[n - 1], max);
      LineHolds(words, LineStart(ends, n - 1), ends[n - 1]);
    }
  }

  /** Breaking keeps every unbreakable token once and in order; a line that is too wide holds just one of them;
      and no cutting with that property has fewer lines. */
  lemma BrokenLinesAreBest(ts: seq<Token>, lines: seq<seq<Token>>, ends: seq<nat>, max: real)
    requires Sane(ts) && Broken(ts, lines, ends, max)
    ensures Unbreakable(Flattened(lines)) == Unbreakable(ts)
    ensures forall k :: 0 <= k < |lines| && Width(lines[k]) > max && Parse(ts).words != [] ==> |Unbreakable(lines[k])| == 1
    ensures forall other :: Cut(Parse(ts).words, other, max) && Parse(ts).words != [] ==> |lines| <= |other|
  {
    hide Width, Line, Full;
    var words := Parse(ts).words;
    ParseSeparates(ts);
    if words == [] {
      assert Flattened(lines) == [];
    } else {
      LinesHold(words, ends, max, |ends|);
      assert lines[..|ends|] == lines;
      ParsedIsSane(ts);
      forall k | 0 <= k < |lines| && Width(lines[k]) > max
        ensures |Unbreakable(lines[k])| == 1
      {
        assert LineOk(words, LineStart(ends, k), ends[k], max);
        LineHolds(words, LineStart(ends, k), ends[k]);
        TokensLength(words, LineStart(ends, k));
        TokensLength(words, ends[k]);
      }
      forall other | Cut(words, other, max)
        ensures |lines| <= |other|
      {
        GreedyIsOptimal(words, ends, other, max);
      }
    }
  }

  lemma {:induction false} TokensLength(words: seq<Word>, n: nat)
    requires n <= |words|
    ensures |Tokens(words, n)| == n
  {
    if n > 0 {
      TokensLength(words, n - 1);
    }
  }

  lemma {:induction false} ParsedIsSane(ts: seq<Token>)
    requires Sane(ts)
    ensures SaneWords(Parse(ts).words) && Sane(Parse(ts).pending)
  {
    if ts != [] {
      ParsedIsSane(ts[..|ts| - 1]);
    }
  }

  // ---- a whole paragraph ----

  function WidestOf(explicits: seq<seq<Token>>): real {
    if explicits == [] then 0.0 else Widest(explicits[|explicits| - 1], WidestOf(explicits[..|explicits| - 1]))
  }

  lemma {:induction false} WidestOfLine(ts: seq<Token>, from: real)
    ensures var w := Widest(ts, from);
            && w >= from && (forall k :: 0 <= k < |ts| && !ts[k].breakable && ts[k].width.Some? ==> ts[k].width.value <= w)
            && (w == from || exists k :: 0 <= k < |ts| && !ts[k].breakable && ts[k].width == Some(w))
  {
    if ts != [] {
      var front := ts[..|ts| - 1];
      WidestOfLine(front, from);
      assert forall k :: 0 <= k < |front| ==> front[k] == ts[k];
    }
  }

  /** A word of the paragraph of this width. */
  ghost predicate HasWord(explicits: seq<seq<Token>>, w: real) {
    exists i, k :: 0 <= i < |explicits| && 0 <= k < |explicits[i]| && !explicits[i][k].breakable && explicits[i][k].width == Some(w)
  }

  /** The widest is the largest width of a token that cannot be broken, or 0 when none is wider. */
  lemma {:induction false} WidestIsLargest(explicits: seq<seq<Token>>)
    ensures WidestOf(explicits) >= 0.0 && forall w :: HasWord(explicits, w) ==> w <= WidestOf(explicits)
    ensures WidestOf(explicits) == 0.0 || HasWord(explicits, WidestOf(explicits))
  {
    hide Widest, HasWord;
    if explicits == [] {
      NoWord();
    } else {
      var n := |explicits| - 1;
      var front, last := explicits[..n], explicits[n];
      WidestIsLargest(front);
      WidestOfLine(last, WidestOf(front));
      assert explicits == front + [last];
      forall w
        ensures HasWord(explicits, w) <==> HasWord(front, w) || HasWord([last], w)
      {
        WordsApart(front, last, w);
      }
      OneLineWords(last);
    }
  }

  lemma NoWord()
    ensures forall w :: !HasWord([], w)
  {
  }

  lemma OneLineWords(ts: seq<Token>)
    ensures forall w :: HasWord([ts], w) <==> exists k :: 0 <= k < |ts| && !ts[k].breakable && ts[k].width == Some(w)
  {
    assert [ts][0] == ts;
  }

  lemma WordsApart(front: seq<seq<Token>>, last: seq<Token>, w: real)
    ensures HasWord(front + [last], w) <==> HasWord(front, w) || HasWord([last], w)
  {
    var all := front + [last];
    assert all[|front|] == last && [last][0] == last;
    assert forall i :: 0 <= i < |front| ==> all[i] == front[i];
  }

  /** Break every explicit line; an empty one stays an empty line. */
  method LayoutLines(explicits: seq<seq<Token>>, maxWidth: real)
      returns (ok: bool, lines: seq<seq<Token>>, widest: real, ghost parts: seq<seq<seq<Token>>>, ghost cuts: seq<seq<nat>>)
    ensures ok <==> forall k :: 0 <= k < |explicits| ==> AllMeasured(explicits[k])
    ensures ok ==> lines == Flattened(parts) && |parts| == |cuts| == |explicits| && widest == WidestOf(explicits)
    ensures ok ==> forall k :: 0 <= k < |explicits| ==> Broken(explicits[k], parts[k], cuts[k], maxWidth)
    ensures ok && AllSane(explicits) ==> IsBest(explicits, lines, maxWidth)
  {
    hide Broken, IsBest;
    lines, widest, parts, cuts := [], 0.0, [], [];
    for k := 0 to |explicits|
      invariant forall i :: 0 <= i < k ==> AllMeasured(explicits[i])
      invariant lines == Flattened(parts) && |parts| == |cuts| == k && widest == WidestOf(explicits[..k])
      invariant forall i :: 0 <= i < k ==> Broken(explicits[i], parts[i], cuts[i], maxWidth)
    {
      assert explicits[..k + 1][..k] == explicits[..k];
      ghost var before := parts;
      if |explicits[k]| == 0 {
        lines := lines + [[]];
        parts, cuts := parts + [[[]]], cuts + [[]];
        EmptyIsBroken(explicits[k], maxWidth);
      } else {
        var broken;
        ghost var ends;
        ok, broken, widest, ends := BreakLine(explicits[k], maxWidth, widest);
        if !ok {
          return;
        }
        lines := lines + broken;
        parts, cuts := parts + [broken], cuts + [ends];
      }
      assert parts[..k] == before;
    }
    assert explicits[..|explicits|] == explicits;
    ok := true;
    if AllSane(explicits) {
      ParagraphIsBest(explicits, parts, cuts, maxWidth);
    }
  }

  ghost predicate AllSane(explicits: seq<seq<Token>>) {
    forall k :: 0 <= k < |explicits| ==> Sane(explicits[k])
  }

  /** Ways to cut the explicit lines that hold words. */
  ghost predicate CutsAll(explicits: seq<seq<Token>>, others: seq<seq<nat>>, max: real) {
    |others| == |explicits| &&
    forall k :: 0 <= k < |explicits| && Parse(explicits[k]).words != [] ==> Cut(Parse(explicits[k]).words, others[k], max)
  }

  /** The lines such cuttings make; an explicit line without words makes one. */
  function LineCount(explicits: seq<seq<Token>>, others: seq<seq<nat>>): nat
    requires |others| == |explicits|
  {
    if explicits == [] then 0
    else
      var n := |explicits| - 1;
      LineCount(explicits[..n], others[..n]) + if Parse(explicits[n]).words == [] then 1 else |others[n]|
  }

  ghost predicate NarrowOrSingle(lines: seq<seq<Token>>, max: real) {
    forall k :: 0 <= k < |lines| ==> Width(lines[k]) <= max || |Unbreakable(lines[k])| <= 1
  }

  /** Every unbreakable token of the paragraph once and in order, no line too wide but those of a single one, and no
      way of cutting with fewer lines. */
  ghost predicate IsBest(explicits: seq<seq<Token>>, lines: seq<seq<Token>>, max: real) {
    && Unbreakable(Flattened(lines)) == Unbreakable(Flattened(explicits))
    && NarrowOrSingle(lines, max)
    && forall others :: CutsAll(explicits, others, max) ==> |lines| <= LineCount(explicits, others)
  }

  lemma ExplicitIsBest(ts: seq<Token>, lines: seq<seq<Token>>, ends: seq<nat>, max: real)
    requires Sane(ts) && Broken(ts, lines, ends, max)
    ensures Unbreakable(Flattened(lines)) == Unbreakable(ts) && NarrowOrSingle(lines, max)
    ensures Parse(ts).words == [] ==> |lines| == 1
    ensures forall other :: Cut(Parse(ts).words, other, max) && Parse(ts).words != [] ==> |lines| <= |other|
  {
    hide Width, Line, Full, Cut, Parse, Sane;
    BrokenLinesAreBest(ts, lines, ends, max);
    NothingHeld();
  }

  lemma NoLines()
    ensures Flattened<seq<Token>>([]) == [] && Flattened<Token>([]) == []
  {
  }

  lemma LastPart<T>(parts: seq<seq<T>>)
    requires parts != []
    ensures Flattened(parts) == Flattened(parts[..|parts| - 1]) + parts[|parts| - 1]
  {
  }

  lemma CutFront(explicits: seq<seq<Token>>, others: seq<seq<nat>>, max: real)
    requires CutsAll(explicits, others, max) && explicits != []
    ensures var n := |explicits| - 1;
            && CutsAll(explicits[..n], others[..n], max)
            && (Parse(explicits[n]).words != [] ==> Cut(Parse(explicits[n]).words, others[n], max))
            && LineCount(explicits, others) ==
                 LineCount(explicits[..n], others[..n]) + if Parse(explicits[n]).words == [] then 1 else |others[n]|
  {
    hide Parse, Cut;
  }

  lemma {:induction false} ParagraphIsBest(explicits: seq<seq<Token>>, parts: seq<seq<seq<Token>>>, cuts: seq<seq<nat>>, max: real)
    requires AllSane(explicits) && |parts| == |cuts| == |explicits|
    requires forall k :: 0 <= k < |explicits| ==> Broken(explicits[k], parts[k], cuts[k], max)
    ensures IsBest(explicits, Flattened(parts), max)
    decreases |explicits|
  {
    hide Broken, Unbreakable, Parse, Cut, Sane, Width, NarrowOrSingle, LineCount, Flattened;
    if explicits == [] {
      NoneTooWide(max);
      NoLines();
    } else {
      var n := |explicits| - 1;
      var front, lines := Flattened(parts[..n]), parts[n];
      ParagraphIsBest(explicits[..n], parts[..n], cuts[..n], max);
      ExplicitIsBest(explicits[n], lines, cuts[n], max);
      LastPart(parts);
      LastPart(explicits);
      FlattenedBoth(front, lines);
      UnbreakableConcat(Flattened(front), Flattened(lines));
      UnbreakableConcat(Flattened(explicits[..n]), explicits[n]);
      BothNarrow(front, lines, max);
      forall others | CutsAll(explicits, others, max)
        ensures |front + lines| <= LineCount(explicits, others)
      {
        CutFront(explicits, others, max);
      }
    }
  }

  lemma NoneTooWide(max: real)
    ensures NarrowOrSingle([], max)
  {
  }

  lemma BothNarrow(a: seq<seq<Token>>, b: seq<seq<Token>>, max: real)
    requires NarrowOrSingle(a, max) && NarrowOrSingle(b, max)
    ensures NarrowOrSingle(a + b, max)
  {
    hide Width, Unbreakable;
  }

  lemma EmptyIsBroken(ts: seq<Token>, max: real)
    requires ts == []
    ensures Broken(ts, [[]], [], max)
  {
  }
}
