/** A field whose mark is given several times: what is kept of its pieces, and in which order. */
module SourceMerge {
  import opened Sequences
  import opened Outcomes
  import opened SourceText
  import opened SourceMarkers
  import opened SourceCounters
  import opened SourceParser
  import opened SourceComposer
  import opened SourceValues
  import opened SourceRoundTrip
  import opened SourceReparse
  import opened SourceKeeps

  // ---- a value in pieces ----

  ghost predicate AllNormal(parts: seq<Value>) {
    forall i :: 0 <= i < |parts| ==> NormalValue(parts[i])
  }

  predicate AllTexts(parts: seq<Value>) {
    forall i :: 0 <= i < |parts| ==> parts[i].Text?
  }

  predicate AllIntros(parts: seq<Value>) {
    forall i :: 0 <= i < |parts| ==> parts[i].Intro?
  }

  /** The texts the pieces begin with. */
  function Heads(parts: seq<Value>): (r: seq<string>)
    ensures |r| == |parts| && forall i :: 0 <= i < |r| ==> r[i] == HeadOf(parts[i])
  {
    seq(|parts|, i requires 0 <= i < |parts| => HeadOf(parts[i]))
  }

  function ItemLists(parts: seq<Value>): (r: seq<seq<string>>)
    requires AllIntros(parts)
    ensures |r| == |parts| && forall i :: 0 <= i < |r| ==> r[i] == parts[i].items
  {
    seq(|parts|, i requires 0 <= i < |parts| => parts[i].items)
  }

  /** The pieces are the value: its text, or its introduction, cut at line breaks, and its list cut between items. */
  ghost predicate CutInto(whole: Value, parts: seq<Value>) {
    parts != [] && AllNormal(parts) &&
    (|| (AllTexts(parts) && whole == Text(Joined(Heads(parts))))
     || (AllIntros(parts) && whole == Intro(Joined(Heads(parts)), Flattened(ItemLists(parts)))))
  }

  /** Every piece behind a mark of its own. */
  function PieceLines(m: string, parts: seq<Value>): seq<string> {
    if parts == [] then [] else ValueLines(m, parts[0]) + PieceLines(m, parts[1..])
  }

  function PieceRaws(k: Kind, parts: seq<Value>): seq<Raw> {
    if parts == [] then [] else [RawOf(k, parts[0])] + PieceRaws(k, parts[1..])
  }

  lemma {:induction false} PiecesAreRead(raws: seq<Raw>, m: string, k: Kind, parts: seq<Value>)
    requires KindOf(m) == Some(k) && AllNormal(parts)
    ensures AddLines(raws, PieceLines(m, parts)) == raws + PieceRaws(k, parts)
    decreases |parts|
  {
    hide AddLines, ValueLines, KindOf, NormalValue, RawLines, Joined;
    if parts == [] {
      NoLines(raws);
    } else {
      ValueIsRead(raws, m, k, parts[0]);
      AddLinesBoth(raws, ValueLines(m, parts[0]), PieceLines(m, parts[1..]));
      PiecesAreRead(raws + [RawOf(k, parts[0])], m, k, parts[1..]);
      assert raws + [RawOf(k, parts[0])] + PieceRaws(k, parts[1..]) == raws + ([RawOf(k, parts[0])] + PieceRaws(k, parts[1..]));
    }
  }

  // ---- putting pieces together ----

  /** A field of this kind goes into the question that has been begun, or begins one. */
  predicate Taken(st: State, k: Kind) {
    IsLabel(k) && (st.current.keys != [] || k in {Question, Answer, Number, SetCounter})
  }

  lemma StepPiece(st: State, k: Kind, v: Value, game: string)
    requires NormalValue(v) && Taken(st, k)
    ensures var cur := st.current;
            Step(st, RawOf(k, v), game) ==
            st.(current := SetField(cur, k, if k in cur.vals then Merged(cur.vals[k], v) else v))
    ensures (k in st.current.vals ==> st.current.keys != []) ==> Step(st, RawOf(k, v), game).current.keys != []
  {
    hide Listed, NormalValue, RawLines, Joined, Merged;
    ListedReadsBack(v);
  }

  lemma SetTwice(f: Fields, k: Kind, a: Value, b: Value)
    ensures SetField(SetField(f, k, a), k, b) == SetField(f, k, b)
  {
  }

  lemma TextsTogether(v: Value, a: string, b: string)
    ensures Merged(Merged(v, Text(a)), Text(b)) == Merged(v, Text(a + "\n" + b))
  {
    match v {
      case Text(s) => assert s + "\n" + (a + "\n" + b) == s + "\n" + a + "\n" + b;
      case Items(items) =>
        if items != [] {
          assert items[0] + "\n" + (a + "\n" + b) == items[0] + "\n" + a + "\n" + b;
          assert ([items[0] + "\n" + a] + items[1..])[1..] == items[1..];
        }
      case Intro(s, _) => assert s + "\n" + (a + "\n" + b) == s + "\n" + a + "\n" + b;
      case Whole(_) =>
    }
  }

  lemma IntrosTogether(v: Value, a: string, xs: seq<string>, b: string, ys: seq<string>)
    requires v.Intro?
    ensures Merged(Merged(v, Intro(a, xs)), Intro(b, ys)) == Merged(v, Intro(a + "\n" + b, xs + ys))
  {
    assert v.intro + "\n" + (a + "\n" + b) == v.intro + "\n" + a + "\n" + b;
    assert v.items + xs + ys == v.items + (xs + ys);
  }

  /** The first piece, and the value of the others. */
  lemma CutStep(whole: Value, parts: seq<Value>)
    requires CutInto(whole, parts) && |parts| > 1
    ensures parts[0].Text? || parts[0].Intro?
    ensures parts[0].Text? ==> exists rest: string ::
              CutInto(Text(rest), parts[1..]) && whole == Text(parts[0].text + "\n" + rest)
    ensures parts[0].Intro? ==> exists rest: string, more: seq<string> ::
              CutInto(Intro(rest, more), parts[1..]) && whole == Intro(parts[0].intro + "\n" + rest, parts[0].items + more)
  {
    hide NormalValue, Joined, Heads, ItemLists;
    var more := parts[1..];
    HeadsStep(parts);
    assert AllNormal(more);
    if AllTexts(parts) {
      assert AllTexts(more);
      assert CutInto(Text(Joined(Heads(more))), more);
    } else {
      ItemsStep(parts);
      assert AllIntros(more);
      assert CutInto(Intro(Joined(Heads(more)), Flattened(ItemLists(more))), more);
    }
  }

  lemma HeadsStep(parts: seq<Value>)
    requires |parts| > 1
    ensures Joined(Heads(parts)) == HeadOf(parts[0]) + "\n" + Joined(Heads(parts[1..]))
  {
    assert Heads(parts)[1..] == Heads(parts[1..]);
  }

  lemma ItemsStep(parts: seq<Value>)
    requires |parts| > 1 && AllIntros(parts)
    ensures Flattened(ItemLists(parts)) == parts[0].items + Flattened(ItemLists(parts[1..]))
  {
    assert ItemLists(parts) == [parts[0].items] + ItemLists(parts[1..]);
    FlattenedBoth([parts[0].items], ItemLists(parts[1..]));
    assert [parts[0].items][..0] == [] && Flattened([parts[0].items]) == [] + parts[0].items;
  }

  lemma CutAlone(whole: Value, parts: seq<Value>)
    requires CutInto(whole, parts) && |parts| == 1
    ensures whole == parts[0]
  {
    hide NormalValue;
    if !AllTexts(parts) {
      var lists := ItemLists(parts);
      assert lists[..0] == [] && Flattened(lists) == [] + lists[0];
    }
  }

  /** Pieces after a piece of the same kind: one after the other they do what the whole does. */
  lemma {:induction false} RunMore(st: State, k: Kind, whole: Value, parts: seq<Value>, game: string)
    requires CutInto(whole, parts) && Taken(st, k) && st.current.keys != [] && k in st.current.vals
    requires if parts[0].Text? then true else st.current.vals[k].Intro?
    ensures Run(st, PieceRaws(k, parts), game) ==
            st.(current := SetField(st.current, k, Merged(st.current.vals[k], whole)))
    decreases |parts|
  {
    hide Step, NormalValue, RawOf, Merged, CutInto;
    CutIsNormal(whole, parts);
    var v, p, raws := st.current.vals[k], parts[0], PieceRaws(k, parts);
    StepPiece(st, k, p, game);
    var next := Step(st, RawOf(k, p), game);
    assert raws[0] == RawOf(k, p) && raws[1..] == PieceRaws(k, parts[1..]);
    if |parts| == 1 {
      CutAlone(whole, parts);
    } else {
      CutStep(whole, parts);
      MergedKeeps(v, p);
      if p.Text? {
        var rest: string :| CutInto(Text(rest), parts[1..]) && whole == Text(p.text + "\n" + rest);
        CutHead(Text(rest), parts[1..]);
        RunMore(next, k, Text(rest), parts[1..], game);
        TextsTogether(v, p.text, rest);
        SetTwice(st.current, k, Merged(v, p), Merged(v, whole));
      } else {
        var rest: string, more: seq<string> :|
          CutInto(Intro(rest, more), parts[1..]) && whole == Intro(p.intro + "\n" + rest, p.items + more);
        RunMore(next, k, Intro(rest, more), parts[1..], game);
        IntrosTogether(v, p.intro, p.items, rest, more);
        SetTwice(st.current, k, Merged(v, p), Merged(v, whole));
      }
    }
  }

  lemma CutHead(whole: Value, parts: seq<Value>)
    requires CutInto(whole, parts)
    ensures parts != [] && (whole.Text? <==> parts[0].Text?)
  {
  }

  lemma CutIsNormal(whole: Value, parts: seq<Value>)
    requires CutInto(whole, parts)
    ensures parts != [] && NormalValue(parts[0])
  {
  }

  lemma MergedKeeps(v: Value, w: Value)
    ensures v.Intro? && w.Intro? ==> Merged(v, w).Intro?
  {
  }

  /** A field that is given in pieces is the field that is given at once. */
  lemma RunPieces(st: State, k: Kind, whole: Value, parts: seq<Value>, game: string)
    requires CutInto(whole, parts) && Taken(st, k) && (st.current.keys == [] ==> st.current == NO_FIELDS)
    requires parts[0].Intro? && k in st.current.vals ==> st.current.vals[k].Intro?
    ensures Run(st, PieceRaws(k, parts), game) ==
            st.(current := SetField(st.current, k, if k in st.current.vals then Merged(st.current.vals[k], whole) else whole))
  {
    hide Step, NormalValue, RawOf, Merged, CutInto;
    CutIsNormal(whole, parts);
    var p, raws := parts[0], PieceRaws(k, parts);
    if k in st.current.vals {
      CutHead(whole, parts);
      CutKinds(whole, parts);
      RunMore(st, k, whole, parts, game);
    } else {
      StepPiece(st, k, p, game);
      assert raws[0] == RawOf(k, p) && raws[1..] == PieceRaws(k, parts[1..]);
      if |parts| == 1 {
        CutAlone(whole, parts);
      } else {
        var next := Step(st, RawOf(k, p), game);
        CutStep(whole, parts);
        if p.Text? {
          var rest: string :| CutInto(Text(rest), parts[1..]) && whole == Text(p.text + "\n" + rest);
          CutHead(Text(rest), parts[1..]);
          RunMore(next, k, Text(rest), parts[1..], game);
          MergedTexts(p.text, rest);
        } else {
          var rest: string, more: seq<string> :|
            CutInto(Intro(rest, more), parts[1..]) && whole == Intro(p.intro + "\n" + rest, p.items + more);
          RunMore(next, k, Intro(rest, more), parts[1..], game);
          MergedIntros(p.intro, p.items, rest, more);
        }
        SetTwice(st.current, k, p, whole);
      }
    }
  }

  lemma CutKinds(whole: Value, parts: seq<Value>)
    requires CutInto(whole, parts)
    ensures parts[0].Text? || parts[0].Intro?
  {
  }

  lemma MergedTexts(a: string, b: string)
    ensures Merged(Text(a), Text(b)) == Text(a + "\n" + b)
  {
  }

  lemma MergedIntros(a: string, xs: seq<string>, b: string, ys: seq<string>)
    ensures Merged(Intro(a, xs), Intro(b, ys)) == Intro(a + "\n" + b, xs + ys)
  {
  }

  // ---- anywhere in a source ----

  /** The line begins an element, or is blank. */
  predicate Begins(line: string) {
    Rew(line) == "" || FirstField(line).None? || KindOf(FirstField(line).value).Some?
  }

  lemma BeginsAlone(raws: seq<Raw>, line: string)
    requires Begins(line)
    ensures |AddLine([], line)| == 1 && AddLine(raws, line) == raws + AddLine([], line)
  {
  }

  lemma LineBehind(raws: seq<Raw>, tail: seq<Raw>, line: string)
    requires tail != []
    ensures AddLine(raws + tail, line) == raws + AddLine(tail, line) && AddLine(tail, line) != []
  {
    hide Rew, KindOf, UnescapeLine;
    var all := raws + tail;
    assert all[..|all| - 1] == raws + tail[..|tail| - 1] && all[|all| - 1] == tail[|tail| - 1];
  }

  lemma {:induction false} LinesBehind(raws: seq<Raw>, tail: seq<Raw>, lines: seq<string>)
    requires tail != []
    ensures AddLines(raws + tail, lines) == raws + AddLines(tail, lines)
    decreases |lines|
  {
    hide AddLine;
    if lines != [] {
      LineBehind(raws, tail, lines[0]);
      LinesBehind(raws, AddLine(tail, lines[0]), lines[1..]);
    }
  }

  /** What begins anew is read the same behind anything. */
  lemma AfterIsApart(raws: seq<Raw>, after: seq<string>)
    requires after == [] || Begins(after[0])
    ensures AddLines(raws, after) == raws + AddLines([], after)
  {
    hide AddLine;
    if after == [] {
      NoLines(raws);
      NoLines([]);
    } else {
      BeginsAlone(raws, after[0]);
      BeginsAlone([], after[0]);
      LinesBehind(raws, AddLine([], after[0]), after[1..]);
    }
  }

  /** Lines that nothing is expanded in, and that do not begin with a byte order mark. */
  ghost predicate Source4s(lines: seq<string>) {
    && lines != [] && !("\U{FEFF}" <= lines[0])
    && forall i :: 0 <= i < |lines| ==> OneLine(lines[i]) && NoCounter(lines[i])
  }

  lemma JoinedHead(lines: seq<string>)
    requires lines != []
    ensures Joined(lines) != "" ==> Joined(lines)[0] == if lines[0] == "" then '\n' else lines[0][0]
  {
  }

  lemma ParsedLines(lines: seq<string>, game: string)
    requires Source4s(lines)
    ensures Parsed(Joined(lines), game) == Overridden(Finished(Run(START, AddLines([], lines), game)))
  {
    hide NoCounter, Run, AddLines, OverrideElement, ReplaceFrom, Joined, Lines;
    var s := Joined(lines);
    JoinedHead(lines);
    assert WithoutMark(s) == s;
    JoinedIsQuiet(lines);
    NoCounterStays(s);
    LinesOfJoined(lines);
  }

  /** Before a field is begun, there is no question, or one with fields. */
  lemma {:induction false} RunBegins(st: State, raws: seq<Raw>, game: string)
    requires st.current.keys == [] ==> st.current == NO_FIELDS
    ensures var out := Run(st, raws, game); out.current.keys == [] ==> out.current == NO_FIELDS
    decreases |raws|
  {
    hide Listed, Merged, IsLabel, Emitted;
    if raws != [] {
      EmittedOrNot(st);
      RunBegins(Step(st, raws[0], game), raws[1..], game);
    }
  }

  /** A text, or a list with an introduction, may be cut into pieces with a mark each, anywhere in a source: what is
      parsed is the same. */
  lemma PiecesAreWhole(before: seq<string>, after: seq<string>, k: Kind, parts: seq<Value>, whole: Value, game: string)
    requires k in LABELS && Prefix(k).Some? && CutInto(whole, parts) && NormalValue(whole)
    requires after == [] || Begins(after[0])
    requires var m := Prefix(k).value; Source4s(before + PieceLines(m, parts) + after) && Source4s(before + ValueLines(m, whole) + after)
    requires var st := Run(START, AddLines([], before), game); Taken(st, k) && (whole.Intro? ==> k !in st.current.vals)
    ensures var m := Prefix(k).value;
            Parsed(Joined(before + PieceLines(m, parts) + after), game) ==
            Parsed(Joined(before + ValueLines(m, whole) + after), game)
  {
    hide NormalValue, AddLines, Run, Parsed, CutInto, PieceLines, ValueLines, PieceRaws, Joined, Source4s, Prefix, Merged, Taken;
    hide Begins, LABELS;
    var m := Prefix(k).value;
    var raws := AddLines([], before);
    var st := Run(START, raws, game);
    ParsedLines(before + PieceLines(m, parts) + after, game);
    ParsedLines(before + ValueLines(m, whole) + after, game);
    CutKindsAre(whole, parts);
    PieceByPiece(before, after, k, parts, whole);
    RunBegins(START, raws, game);
    RunPieces(st, k, whole, parts, game);
    StepPiece(st, k, whole, game);
    StepRun(st, RawOf(k, whole), game);
    var rest := AddLines([], after);
    RunBoth(START, raws + PieceRaws(k, parts), rest, game);
    RunBoth(START, raws, PieceRaws(k, parts), game);
    RunBoth(START, raws + [RawOf(k, whole)], rest, game);
    RunBoth(START, raws, [RawOf(k, whole)], game);
  }

  lemma CutKindsAre(whole: Value, parts: seq<Value>)
    requires CutInto(whole, parts)
    ensures parts != [] && (parts[0].Intro? <==> whole.Intro?) && AllNormal(parts)
  {
  }

  lemma StepRun(st: State, raw: Raw, game: string)
    ensures Run(st, [raw], game) == Step(st, raw, game)
  {
    hide Step;
    assert [raw][1..] == [];
  }

  lemma PieceByPiece(before: seq<string>, after: seq<string>, k: Kind, parts: seq<Value>, whole: Value)
    requires k in LABELS && Prefix(k).Some? && AllNormal(parts) && NormalValue(whole)
    requires after == [] || Begins(after[0])
    ensures var m, raws, rest := Prefix(k).value, AddLines([], before), AddLines([], after);
            && AddLines([], before + PieceLines(m, parts) + after) == raws + PieceRaws(k, parts) + rest
            && AddLines([], before + ValueLines(m, whole) + after) == raws + [RawOf(k, whole)] + rest
  {
    hide NormalValue, AddLines, PieceLines, ValueLines, PieceRaws, Joined, Prefix, Begins, RawLines;
    var m, raws := Prefix(k).value, AddLines([], before);
    LabelKinds(k);
    LabelIsRead(k);
    PiecesAreRead(raws, m, k, parts);
    ValueIsRead(raws, m, k, whole);
    AddLinesBoth([], before + PieceLines(m, parts), after);
    AddLinesBoth([], before, PieceLines(m, parts));
    AddLinesBoth([], before + ValueLines(m, whole), after);
    AddLinesBoth([], before, ValueLines(m, whole));
    AfterIsApart(raws + PieceRaws(k, parts), after);
    AfterIsApart(raws + [RawOf(k, whole)], after);
  }

  // ---- a printed question with a field in pieces ----

  /** A printed question, its k-th field in the order of printing in pieces. */
  function SplitLines(f: Fields, i: nat, parts: seq<Value>): seq<string>
    requires i < |ORDER| && Prefix(ORDER[i]).Some?
  {
    NumberLines(f, All, true) + FieldLines(f, ORDER[..i]) + PieceLines(Prefix(ORDER[i]).value, parts)
    + (FieldLines(f, ORDER[i + 1..]) + ["", ""])
  }

  lemma {:induction false} FieldLinesBoth(f: Fields, a: seq<Kind>, b: seq<Kind>)
    ensures FieldLines(f, a + b) == FieldLines(f, a) + FieldLines(f, b)
    decreases |a|
  {
    hide Prefix, ValueLines, Shown;
    if a == [] {
      assert a + b == b;
    } else {
      assert (a + b)[1..] == a[1..] + b;
      FieldLinesBoth(f, a[1..], b);
    }
  }

  lemma FieldLinesAround(f: Fields, i: nat)
    requires i < |ORDER| && ORDER[i] in f.vals && Prefix(ORDER[i]).Some?
    ensures FieldLines(f, ORDER) ==
            FieldLines(f, ORDER[..i]) + ValueLines(Prefix(ORDER[i]).value, Shown(f, ORDER[i])) + FieldLines(f, ORDER[i + 1..])
  {
    hide Prefix, ValueLines, Shown, ORDER;
    assert ORDER == ORDER[..i] + ([ORDER[i]] + ORDER[i + 1..]);
    FieldLinesBoth(f, ORDER[..i], [ORDER[i]] + ORDER[i + 1..]);
    assert ([ORDER[i]] + ORDER[i + 1..])[1..] == ORDER[i + 1..];
  }

  lemma {:induction false} FieldsBegin(f: Fields, order: seq<Kind>, more: seq<string>)
    requires NormalFields(f) && more != [] && Begins(more[0])
    ensures Begins((FieldLines(f, order) + more)[0])
    decreases |order|
  {
    hide Prefix, NormalFields, RawLines, Begins, Shown;
    if order != [] {
      var k := order[0];
      if Prefix(k).None? || k !in f.vals {
        FieldsBegin(f, order[1..], more);
        assert FieldLines(f, order) == FieldLines(f, order[1..]);
      } else {
        FieldBegins(f, k);
      }
    }
  }

  lemma FieldBegins(f: Fields, k: Kind)
    requires NormalFields(f) && k in f.vals && Prefix(k).Some?
    ensures Begins(ValueLines(Prefix(k).value, Shown(f, k))[0])
  {
    hide Prefix, NormalField, KindOf, RawLines, NormalFields, Rew, Shown;
    FieldOf(f, k);
    FieldIsLabel(f, k);
    LabelIsRead(k);
    var m, h := Prefix(k).value, RawLines(Shown(f, k))[0];
    MarkersArePlain(m);
    FirstFieldIs(m, " " + h);
    assert m + (" " + h) == m + " " + h;
  }

  /** What stands before the field has begun the question, and holds no field of this kind. */
  lemma BeforeField(f: Fields, i: nat, game: string)
    requires NormalFields(f) && i < |ORDER| && ORDER[i] in LABELS
    ensures var st := Run(START, AddLines([], NumberLines(f, All, true) + FieldLines(f, ORDER[..i])), game);
            Taken(st, ORDER[i]) && ORDER[i] !in st.current.vals
  {
    hide NumberLines, NumberRaws, FieldLines, FieldRaws, AddLines, Run, NormalFields, Placed, Shown, Prefix, ORDER;
    var a, b := NumberLines(f, All, true), FieldLines(f, ORDER[..i]);
    NumberIsWritten(f);
    NumberIsRead([], f, All, true);
    FieldsAreRead([] + NumberRaws(f, All, true), f, ORDER[..i]);
    AddLinesBoth([], a, b);
    RunBoth(START, NumberRaws(f, All, true), FieldRaws(f, ORDER[..i]), game);
    assert [] + NumberRaws(f, All, true) == NumberRaws(f, All, true);
    StepNumber(START, f, All, true, game);
    var base := BaseOf(f, All, true);
    BaseIsUnset(f, All, true);
    OrderIsDistinct();
    var front := ORDER[..i];
    assert forall j :: 0 <= j < i ==> front[j] == ORDER[j];
    RunFields(START.(current := base), f, front, game);
    PlacedIs(base, f, front);
    OrderHolds(ORDER[i]);
    assert ORDER[i] !in front;
  }

  lemma NumberIsWritten(f: Fields)
    requires NormalFields(f)
    ensures WrittenAs(f, All, true) == Some(Number)
    ensures forall k :: k in LABELS ==> IsLabel(k)
  {
  }

  lemma {:induction false} PiecesAreSolid(k: Kind, parts: seq<Value>)
    requires Prefix(k).Some? && AllNormal(parts)
    ensures Solid(PieceLines(Prefix(k).value, parts))
  {
    hide Prefix, ValueLines, NormalValue, NoCounter;
    if parts != [] {
      ValueLinesAreSolid(k, parts[0]);
      PiecesAreSolid(k, parts[1..]);
    }
  }

  lemma SolidSource(f: Fields, a: seq<string>, b: seq<string>, c: seq<string>)
    requires NormalFields(f) && Solid(a) && Solid(b) && Solid(c)
    ensures Source4s(NumberLines(f, All, true) + a + b + (c + ["", ""]))
  {
    hide NoCounter, NormalFields, NumberLine;
    ShortHasNoCounter("");
    NumberLineIs(f, All, true);
    NumberIsWritten(f);
    NumberLineIsOne(f, All, true);
  }

  /** A question whose field is printed in pieces, each behind its own mark, comes back whole. */
  lemma SplitQuestionComesBack(f: Fields, i: nat, parts: seq<Value>, game: string)
    requires NormalFields(f) && i < |ORDER| && ORDER[i] in LABELS && ORDER[i] in f.vals && Prefix(ORDER[i]).Some?
    requires CutInto(Shown(f, ORDER[i]), parts)
    ensures SameDoc([Asked(f)], Parsed(Joined(SplitLines(f, i, parts)), game))
  {
    hide NormalFields, SameDoc, Parsed, Joined, CutInto, FieldLines, PieceLines, ValueLines, NumberLines, Source4s, Shown;
    hide Prefix, ORDER, LABELS, Composed, AddLines, Run, Begins, Taken, NormalField, NormalValue, Lines, Solid;
    var k := ORDER[i];
    var m, whole := Prefix(k).value, Shown(f, k);
    var before, after := NumberLines(f, All, true) + FieldLines(f, ORDER[..i]), FieldLines(f, ORDER[i + 1..]) + ["", ""];
    FieldOf(f, k);
    ShownIsNormal(f, k);
    CutKindsAre(whole, parts);
    FieldLinesAreSolid(f, ORDER[..i]);
    FieldLinesAreSolid(f, ORDER[i + 1..]);
    PiecesAreSolid(k, parts);
    ValueLinesAreSolid(k, whole);
    SolidSource(f, FieldLines(f, ORDER[..i]), PieceLines(m, parts), FieldLines(f, ORDER[i + 1..]));
    SolidSource(f, FieldLines(f, ORDER[..i]), ValueLines(m, whole), FieldLines(f, ORDER[i + 1..]));
    BlankBegins();
    FieldsBegin(f, ORDER[i + 1..], ["", ""]);
    BeforeField(f, i, game);
    PiecesAreWhole(before, after, k, parts, whole, game);
    FieldLinesAround(f, i);
    PrintedLines(f);
    RoundTripWithNumbers([Asked(f)], game);
    assert before + ValueLines(m, whole) + after == NumberLines(f, All, true) + FieldLines(f, ORDER) + ["", ""];
  }

  lemma BlankBegins()
    ensures Begins("")
  {
    RewOfBlank();
  }

  lemma PrintedLines(f: Fields)
    requires NormalFields(f)
    ensures NormalDoc([Asked(f)])
    ensures Joined(NumberLines(f, All, true) + FieldLines(f, ORDER) + ["", ""]) == Composed([Asked(f)], All, true)
  {
    hide NormalFields, Composed, Lines, FieldLines, NumberLines, ORDER, Joined;
    var doc := [Asked(f)];
    DocTextLines(doc, All, true);
    JoinedLines(Composed(doc, All, true));
    assert doc[1..] == [];
    assert DocLines(doc, All, true) == NumberLines(f, All, true) + FieldLines(f, ORDER) + [""];
    assert NumberLines(f, All, true) + FieldLines(f, ORDER) + [""] + [""] == NumberLines(f, All, true) + FieldLines(f, ORDER) + ["", ""];
  }

  // ---- two pieces of any kinds ----

  /** The field that two pieces give. */
  function Both(st: State, k: Kind, v: Value, w: Value, game: string): Option<Value> {
    var out := Run(st, [RawOf(k, v), RawOf(k, w)], game).current;
    if k in out.vals then Some(out.vals[k]) else None
  }

  lemma BothIs(st: State, k: Kind, v: Value, w: Value, game: string)
    requires NormalValue(v) && NormalValue(w) && Taken(st, k) && k !in st.current.vals
    ensures Both(st, k, v, w, game) == Some(Merged(v, w))
  {
    hide Step, NormalValue, RawOf, Merged;
    var raws := [RawOf(k, v), RawOf(k, w)];
    StepPiece(st, k, v, game);
    var next := Step(st, RawOf(k, v), game);
    StepPiece(next, k, w, game);
    assert raws[1..] == [RawOf(k, w)];
    StepRun(next, RawOf(k, w), game);
  }

  /** What two pieces of a field give, kind by kind. A list without an introduction joins its first item to the
      text beside it. */
  lemma PairsOfPieces(st: State, k: Kind, a: string, b: string, xs: seq<string>, ys: seq<string>, game: string)
    requires Taken(st, k) && k !in st.current.vals
    requires CleanText(a) && CleanText(b) && |xs| >= 2 && |ys| >= 2 && CleanItems(xs) && CleanItems(ys)
    ensures Both(st, k, Text(a), Text(b), game) == Some(Text(a + "\n" + b))
    ensures Both(st, k, Intro(a, xs), Intro(b, ys), game) == Some(Intro(a + "\n" + b, xs + ys))
    ensures Both(st, k, Intro(a, xs), Text(b), game) == Some(Intro(a + "\n" + b, xs))
    ensures Both(st, k, Text(a), Intro(b, ys), game) == Some(Intro(b + "\n" + a, ys))
    ensures Both(st, k, Items(xs), Text(b), game) == Some(Items(xs[0 := xs[0] + "\n" + b]))
    ensures Both(st, k, Text(a), Items(ys), game) == Some(Items([ys[0] + "\n" + a, ys[1]]))
    ensures Both(st, k, Items(xs), Items(ys), game) == Some(Items(xs[0 := xs[0] + "\n" + ys[0]]))
    ensures Both(st, k, Items(xs), Intro(b, ys), game) == Some(Items(xs[0 := xs[0] + "\n" + b]))
    ensures Both(st, k, Intro(a, xs), Items(ys), game) == Some(Intro(a + "\n" + ys[0], xs))
  {
    hide Both, CleanText, CleanItems;
    BothIs(st, k, Text(a), Text(b), game);
    BothIs(st, k, Intro(a, xs), Intro(b, ys), game);
    BothIs(st, k, Intro(a, xs), Text(b), game);
    BothIs(st, k, Text(a), Intro(b, ys), game);
    BothIs(st, k, Items(xs), Text(b), game);
    BothIs(st, k, Text(a), Items(ys), game);
    BothIs(st, k, Items(xs), Items(ys), game);
    BothIs(st, k, Items(xs), Intro(b, ys), game);
    BothIs(st, k, Intro(a, xs), Items(ys), game);
    assert [xs[0] + "\n" + b] + xs[1..] == xs[0 := xs[0] + "\n" + b];
    assert [xs[0] + "\n" + ys[0]] + xs[1..] == xs[0 := xs[0] + "\n" + ys[0]];
  }

  // ---- nothing is lost, or items are ----

  /** The characters of a value but for line breaks. */
  function Weight(s: string): nat {
    if s == "" then 0 else Weight(s[1..]) + if s[0] == '\n' then 0 else 1
  }

  function WeightOf(items: seq<string>): nat {
    if items == [] then 0 else Weight(items[0]) + WeightOf(items[1..])
  }

  function ValueWeight(v: Value): nat {
    match v
    case Text(s) => Weight(s)
    case Items(items) => WeightOf(items)
    case Intro(s, items) => Weight(s) + WeightOf(items)
    case Whole(_) => 0
  }

  lemma {:induction false} WeightBoth(a: string, b: string)
    ensures Weight(a + "\n" + b) == Weight(a) + Weight(b)
  {
    if a == "" {
      assert (a + "\n" + b)[1..] == b;
    } else {
      assert (a + "\n" + b)[1..] == a[1..] + "\n" + b;
      WeightBoth(a[1..], b);
    }
  }

  lemma {:induction false} WeightOfBoth(xs: seq<string>, ys: seq<string>)
    ensures WeightOf(xs + ys) == WeightOf(xs) + WeightOf(ys)
  {
    hide Weight;
    if xs == [] {
      assert xs + ys == ys;
    } else {
      assert (xs + ys)[1..] == xs[1..] + ys;
      WeightOfBoth(xs[1..], ys);
    }
  }

  lemma ItemWeighs(s: string)
    requires CleanItem(s)
    ensures Weight(s) > 0
  {
    assert Tidy(Lines(s)[0]);
    assert s != "" && s[0] != '\n';
  }

  lemma {:induction false} ItemsWeigh(items: seq<string>)
    requires CleanItems(items)
    ensures WeightOf(items) >= |items|
  {
    hide CleanItem, Weight;
    if items != [] {
      assert CleanItem(items[0]);
      ItemWeighs(items[0]);
      ItemsWeigh(items[1..]);
    }
  }

  /** The items behind the first of a list that has no introduction to stand under, or none to come to. */
  predicate LosesItems(v: Value, w: Value) {
    || (w.Items? && if v.Text? then |w.items| > 2 else true)
    || (v.Items? && w.Intro?)
  }

  /** Two pieces of a field lose nothing if and only if no list stands without an introduction beside another list,
      or behind a text with more than two items. */
  lemma PiecesAreKept(st: State, k: Kind, v: Value, w: Value, game: string)
    requires NormalValue(v) && NormalValue(w) && Taken(st, k) && k !in st.current.vals
    ensures var both := Both(st, k, v, w, game);
            both.Some? && (ValueWeight(both.value) == ValueWeight(v) + ValueWeight(w) <==> !LosesItems(v, w))
  {
    hide Both, CleanText, CleanItem, Weight;
    BothIs(st, k, v, w, game);
    WeightBoth(HeadOf(v), HeadOf(w));
    WeightBoth(HeadOf(w), HeadOf(v));
    if v.Intro? && w.Intro? {
      WeightOfBoth(v.items, w.items);
    }
    if w.Items? {
      ItemsWeigh(w.items[1..]);
      ItemsWeigh(w.items[2..]);
      TwoItems(w.items);
    } else if w.Intro? {
      ItemsWeigh(w.items);
    }
  }

  lemma TwoItems(items: seq<string>)
    requires |items| >= 2
    ensures WeightOf(items) == Weight(items[0]) + WeightOf(items[1..])
    ensures WeightOf(items) == Weight(items[0]) + Weight(items[1]) + WeightOf(items[2..])
    ensures forall a, b :: WeightOf([a, b]) == Weight(a) + Weight(b)
  {
    hide Weight;
    assert items[1..][1..] == items[2..];
    forall a, b
      ensures WeightOf([a, b]) == Weight(a) + Weight(b)
    {
      assert [a, b][1..] == [b] && [b][1..] == [];
    }
  }
}
