/** Parsing what was printed: exactly which documents come back, under each way of writing the numbers. */
module SourceReparse {
  import opened Sequences
  import opened Outcomes
  import opened SourceText
  import opened SourceMarkers
  import opened SourceCounters
  import opened SourceParser
  import opened SourceComposer
  import opened SourceValues
  import opened SourceRoundTrip

  // ---- the text of a document and its lines ----

  lemma {:induction false} FieldLinesAreSolid(f: Fields, order: seq<Kind>)
    requires NormalFields(f)
    ensures Solid(FieldLines(f, order))
    decreases |order|
  {
    hide Prefix, ValueLines, Shown, NormalField, NoCounter;
    if order != [] {
      var k := order[0];
      FieldLinesAreSolid(f, order[1..]);
      if Prefix(k).Some? && k in f.vals {
        NumberHasNoPrefix();
        ShownIsNormal(f, k);
        ValueLinesAreSolid(k, Shown(f, k));
      }
    }
  }

  lemma NumberLinesAreSolid(f: Fields, numbers: Numbers, first: bool)
    requires NormalFields(f)
    ensures Solid(NumberLines(f, numbers, first))
  {
    hide NumberLine, NoCounter;
    NumberLineIsOne(f, numbers, first);
  }

  /** A question has no empty line, so that squeezing its text changes nothing. */
  lemma QuestionIsSqueezed(f: Fields, numbers: Numbers, first: bool)
    requires NormalFields(f)
    ensures Squeezed(QuestionText(f, numbers, first)) == QuestionText(f, numbers, first)
  {
    hide NumberLines, FieldLines, Lines, QuestionText, Squeezed, NoCounter;
    var text := QuestionText(f, numbers, first);
    QuestionTextLines(f, numbers, first, "");
    LinesOfOneLine("");
    assert text + "" == text;
    NumberLinesAreSolid(f, numbers, first);
    FieldLinesAreSolid(f, ORDER);
    NothingToSqueeze(text);
  }

  lemma ElementTextLines(e: Element, numbers: Numbers, first: bool, rest: string)
    requires NormalElement(e)
    ensures Lines(ElementText(e, numbers, first) + rest) == ElementLines(e, numbers, first) + Lines(rest)
  {
    hide QuestionText, Squeezed, Lines, FormatElement, Prefix, NumberLines, FieldLines, RawLines, EscapeLine, NormalFields, NormalValue;
    match e {
      case Plain(k, v) =>
        LooseHasPrefix(k);
        PlainLines(k, v);
        var head := Prefix(k).value + " " + FormatElement(v);
        LinesPlus(head, "\n" + rest);
        LinesPlus("", rest);
        assert ElementText(e, numbers, first) + rest == head + "\n" + ("\n" + rest);
      case Asked(f) =>
        QuestionIsSqueezed(f, numbers, first);
        QuestionTextLines(f, numbers, first, "\n" + rest);
        LinesPlus("", rest);
        assert ElementText(e, numbers, first) + rest == QuestionText(f, numbers, first) + ("\n" + rest);
    }
  }

  lemma PlainLines(k: Kind, v: Value)
    requires Prefix(k).Some? && NormalValue(v)
    ensures Lines(Prefix(k).value + " " + FormatElement(v)) == ValueLines(Prefix(k).value, v)
  {
    hide Prefix, RawLines, FormatElement, EscapeLine, NormalValue, Lines;
    PrefixIsPlain(k);
    FormatLines(v);
    LinesOfPrefixed(Prefix(k).value + " ", FormatElement(v));
    EscapeTailIs(RawLines(v));
  }

  lemma {:induction false} DocTextLines(doc: seq<Element>, numbers: Numbers, first: bool)
    requires NormalDoc(doc)
    ensures Lines(Composed(doc, numbers, first)) == DocLines(doc, numbers, first) + [""]
    decreases |doc|
  {
    hide ElementText, ElementLines, Lines, NormalElement, FirstAfter;
    if doc == [] {
      LinesOfOneLine("");
    } else {
      var next := FirstAfter(doc[0], first);
      ElementTextLines(doc[0], numbers, first, Composed(doc[1..], numbers, next));
      DocTextLines(doc[1..], numbers, next);
    }
  }

  // ---- nothing to strip or expand ----

  ghost predicate Quiet(lines: seq<string>) {
    forall k :: 0 <= k < |lines| ==> NoCounter(lines[k])
  }

  lemma {:induction false} JoinedIsQuiet(lines: seq<string>)
    requires Quiet(lines)
    ensures NoCounter(Joined(lines))
  {
    hide NoCounter;
    if lines == [] {
      ShortHasNoCounter("");
    } else if |lines| > 1 {
      JoinedIsQuiet(lines[1..]);
      NoCounterTogether(lines[0], '\n', Joined(lines[1..]));
      assert lines[0] + ['\n'] + Joined(lines[1..]) == Joined(lines);
    }
  }

  lemma ElementIsQuiet(e: Element, numbers: Numbers, first: bool)
    requires NormalElement(e)
    ensures Quiet(ElementLines(e, numbers, first))
  {
    hide NoCounter, NumberLines, FieldLines, ValueLines, Prefix, NormalFields, NormalValue;
    ShortHasNoCounter("");
    match e {
      case Plain(k, v) =>
        LooseHasPrefix(k);
        ValueLinesAreSolid(k, v);
      case Asked(f) =>
        NumberLinesAreSolid(f, numbers, first);
        FieldLinesAreSolid(f, ORDER);
    }
  }

  lemma {:induction false} DocIsQuiet(doc: seq<Element>, numbers: Numbers, first: bool)
    requires NormalDoc(doc)
    ensures Quiet(DocLines(doc, numbers, first))
    decreases |doc|
  {
    hide NoCounter, ElementLines, NormalElement, FirstAfter;
    if doc != [] {
      ElementIsQuiet(doc[0], numbers, first);
      DocIsQuiet(doc[1..], numbers, FirstAfter(doc[0], first));
    }
  }

  lemma QuestionIsPrinted()
    ensures Question in ORDER && Prefix(Question).Some?
  {
    assert ORDER[1] == Question;
  }

  lemma NumberHeads(f: Fields, numbers: Numbers, first: bool)
    requires NormalFields(f)
    ensures QuestionText(f, numbers, first) != "" && QuestionText(f, numbers, first)[0] != '\U{FEFF}'
  {
    hide NumberLine, FieldTexts, NoCounter, NormalField, Prefix, ORDER;
    NumberLineIsOne(f, numbers, first);
    FieldHeads(f, ORDER);
    QuestionIsPrinted();
  }

  lemma {:induction false} FieldHeads(f: Fields, order: seq<Kind>)
    ensures FieldTexts(f, order) != "" ==> FieldTexts(f, order)[0] != '\U{FEFF}'
    ensures (exists k :: k in order && k in f.vals && Prefix(k).Some?) ==> FieldTexts(f, order) != ""
    decreases |order|
  {
    hide FormatElement, OverrideText, Prefix, NoCounter;
    if order != [] {
      FieldHeads(f, order[1..]);
      if Prefix(order[0]).Some? {
        PrefixIsPlain(order[0]);
      }
    }
  }

  /** The printed text does not begin with a byte order mark. */
  lemma NothingToStrip(doc: seq<Element>, numbers: Numbers)
    requires NormalDoc(doc)
    ensures WithoutMark(Composed(doc, numbers, true)) == Composed(doc, numbers, true)
  {
    hide FormatElement, QuestionText, Squeezed, NormalFields, NormalValue, NoCounter, Prefix;
    if doc != [] {
      match doc[0] {
        case Plain(k, v) =>
          assert NormalElement(doc[0]);
          LooseHasPrefix(k);
          PrefixIsPlain(k);
        case Asked(f) =>
          assert NormalElement(doc[0]);
          QuestionIsSqueezed(f, numbers, true);
          NumberHeads(f, numbers, true);
      }
    }
  }

  /** Before questions are put together, a printed document is read as the raw elements of its own elements. */
  lemma PrintedIsRead(doc: seq<Element>, numbers: Numbers)
    requires NormalDoc(doc)
    ensures var s := ReplaceFrom(WithoutMark(Composed(doc, numbers, true)), map[]);
            AddLines([], Lines(s)) == DocRaws(doc, numbers, true) + [Raw(Blank, "")]
  {
    hide NoCounter, Composed, WithoutMark, AddLines, DocLines, DocRaws, Lines, ReplaceFrom, NormalElement;
    var text := Composed(doc, numbers, true);
    NothingToStrip(doc, numbers);
    DocTextLines(doc, numbers, true);
    DocIsQuiet(doc, numbers, true);
    ShortHasNoCounter("");
    JoinedLines(text);
    JoinedIsQuiet(Lines(text));
    NoCounterStays(text);
    DocIsRead([], doc, numbers, true);
    AddLinesBoth([], DocLines(doc, numbers, true), [""]);
    BlankLine(DocRaws(doc, numbers, true));
    assert [] + DocRaws(doc, numbers, true) == DocRaws(doc, numbers, true);
  }

  // ---- putting questions together ----

  lemma {:induction false} RunBoth(st: State, a: seq<Raw>, b: seq<Raw>, game: string)
    ensures Run(st, a + b, game) == Run(Run(st, a, game), b, game)
    decreases |a|
  {
    hide Step;
    if a == [] {
      assert a + b == b;
    } else {
      assert (a + b)[1..] == a[1..] + b;
      RunBoth(Step(st, a[0], game), a[1..], b, game);
    }
  }

  /** The fields of f, as shown, set one after the other. */
  function Placed(cur: Fields, f: Fields, order: seq<Kind>): Fields
    decreases |order|
  {
    if order == [] then cur
    else
      Placed(if Prefix(order[0]).None? || order[0] !in f.vals then cur else SetField(cur, order[0], Shown(f, order[0])),
             f, order[1..])
  }

  predicate Unset(cur: Fields, order: seq<Kind>) {
    forall k :: k in order && Prefix(k).Some? ==> k !in cur.vals
  }

  /** A field read into a question that has begun. */
  lemma StepField(st: State, f: Fields, k: Kind, game: string)
    requires NormalField(f, k) && k !in st.current.vals && (st.current.keys != [] || k == Question)
    ensures Step(st, RawOf(k, Shown(f, k)), game) == st.(current := SetField(st.current, k, Shown(f, k)))
  {
    hide Listed, Shown, RawLines, Joined, NormalValue, SetField;
    ShownIsNormal(f, k);
    ListedReadsBack(Shown(f, k));
  }

  lemma {:induction false} RunFields(st: State, f: Fields, order: seq<Kind>, game: string)
    requires NormalFields(f) && st.current.keys != [] && Distinct(order) && Unset(st.current, order)
    ensures Run(st, FieldRaws(f, order), game) == st.(current := Placed(st.current, f, order))
    decreases |order|
  {
    hide Step, Shown, NormalField, RawOf, Prefix, NormalFields;
    if order != [] {
      var k, more := order[0], order[1..];
      assert forall j :: 0 <= j < |more| ==> more[j] == order[j + 1];
      if Prefix(k).None? || k !in f.vals {
        assert FieldRaws(f, order) == FieldRaws(f, more);
        RunFields(st, f, more, game);
      } else {
        FieldOf(f, k);
        StepField(st, f, k, game);
        assert FieldRaws(f, order)[1..] == FieldRaws(f, more);
        RunFields(st.(current := SetField(st.current, k, Shown(f, k))), f, more, game);
      }
    }
  }

  /** What the placed fields are. */
  lemma {:induction false} PlacedIs(cur: Fields, f: Fields, order: seq<Kind>)
    requires Distinct(order)
    ensures var g := Placed(cur, f, order);
            && g.overrides == cur.overrides && (cur.keys != [] ==> g.keys != [])
            && (forall k :: k in g.vals <==> k in cur.vals || (k in order && k in f.vals && Prefix(k).Some?))
            && (forall k :: k in g.vals ==>
                  g.vals[k] == if k in order && k in f.vals && Prefix(k).Some? then Shown(f, k) else cur.vals[k])
    decreases |order|
  {
    hide Shown, Prefix;
    if order != [] {
      var k, more := order[0], order[1..];
      assert forall j :: 0 <= j < |more| ==> more[j] == order[j + 1];
      assert order == [k] + more;
      PlacedIs(if Prefix(k).None? || k !in f.vals then cur else SetField(cur, k, Shown(f, k)), f, more);
    }
  }

  /** The fields after the number line. */
  function BaseOf(f: Fields, numbers: Numbers, first: bool): Fields {
    var w := WrittenAs(f, numbers, first);
    if w.None? || Number !in f.vals then NO_FIELDS else SetField(NO_FIELDS, w.value, Text(Plainly(f.vals[Number])))
  }

  /** A handout at the head of a question without a number line falls out of it. */
  predicate HandoutFalls(f: Fields, numbers: Numbers, first: bool) {
    WrittenAs(f, numbers, first).None? && Handout in f.vals
  }

  function ReadFields(f: Fields, numbers: Numbers, first: bool): Fields {
    if WrittenAs(f, numbers, first).None? then Placed(NO_FIELDS, f, ORDER[1..])
    else Placed(BaseOf(f, numbers, first), f, ORDER)
  }

  function ReadElement(e: Element, numbers: Numbers, first: bool, c: int): seq<Element> {
    match e
    case Plain(_, _) => [e]
    case Asked(f) =>
      var g := ReadFields(f, numbers, first);
      (if HandoutFalls(f, numbers, first) then [Plain(Handout, Shown(f, Handout))] else [])
      + [Asked(Numbered(g, CounterSet(g, c)))]
  }

  function CounterPast(e: Element, numbers: Numbers, first: bool, game: string, c: int): int {
    match e
    case Plain(k, _) => CounterAfter(k, game, c)
    case Asked(f) =>
      var g := ReadFields(f, numbers, first);
      if Number in g.vals then CounterSet(g, c) else Wrapped(CounterSet(g, c) + 1)
  }

  /** The document that comes back, before overrides. */
  function Reread(doc: seq<Element>, numbers: Numbers, first: bool, c: int, game: string): seq<Element>
    decreases |doc|
  {
    if doc == [] then []
    else
      ReadElement(doc[0], numbers, first, c)
      + Reread(doc[1..], numbers, FirstAfter(doc[0], first), CounterPast(doc[0], numbers, first, game, c), game)
  }

  lemma OrderIsDistinct()
    ensures Distinct(ORDER) && Distinct(ORDER[1..]) && Distinct(ORDER[2..])
  {
  }

  lemma OrderHolds(k: Kind)
    ensures k in ORDER && Prefix(k).Some? <==> k in LABELS
  {
    assert ORDER[0] == Handout && ORDER[1] == Question && ORDER[2] == Answer && ORDER[3] == Zachet;
    assert ORDER[4] == Nezachet && ORDER[5] == Comment && ORDER[6] == Source && ORDER[7] == Author;
  }

  lemma OrderBegins()
    ensures ORDER == [Handout, Question] + ORDER[2..] && ORDER == [Handout] + ORDER[1..]
    ensures ORDER[1..] == [Question] + ORDER[2..] && Handout !in ORDER[1..] && Question !in ORDER[2..]
  {
  }

  lemma OrderIsLabels()
    ensures forall k :: k in ORDER && Prefix(k).Some? <==> k in LABELS
    ensures forall k :: k in ORDER[1..] && Prefix(k).Some? <==> k in LABELS && k != Handout
  {
    hide Prefix, ORDER, LABELS;
    OrderBegins();
    forall k
      ensures k in ORDER && Prefix(k).Some? <==> k in LABELS
      ensures k in ORDER[1..] && Prefix(k).Some? <==> k in LABELS && k != Handout
    {
      OrderHolds(k);
    }
  }

  lemma NumberListed(s: string)
    requires Tidy(s) && NoCounter(s) && !IsDash(s)
    ensures Listed(s) == Text(s)
  {
    hide Listed, NoCounter;
    LinesOfOneLine(s);
    ListedReadsBack(Text(s));
  }

  lemma StepNumber(st: State, f: Fields, numbers: Numbers, first: bool, game: string)
    requires NormalFields(f) && WrittenAs(f, numbers, first).Some? && st.current == NO_FIELDS
    ensures Run(st, NumberRaws(f, numbers, first), game) == st.(current := BaseOf(f, numbers, first))
  {
    hide Listed, NoCounter, NormalField, IsZero, AsNumber, Plainly;
    NumberLineIs(f, numbers, first);
    NumberListed(Plainly(f.vals[Number]));
  }

  lemma StepLoose(st: State, k: Kind, v: Value, game: string)
    requires NormalValue(v) && k in LOOSE && st.current == NO_FIELDS
    ensures Step(st, RawOf(k, v), game) == State(st.final + [Plain(k, v)], NO_FIELDS, CounterAfter(k, game, st.counter))
  {
    hide Listed, NormalValue, RawLines, Joined;
    ListedReadsBack(v);
  }

  lemma StepBlank(st: State, game: string)
    ensures Run(st, [Raw(Blank, "")], game) ==
            if st.current.keys != [] && st.current.keys != [SetCounter] then Emitted(st) else st
  {
    hide Listed, Emitted;
    assert [Raw(Blank, "")][1..] == [];
  }

  lemma NormalHas(f: Fields)
    requires NormalFields(f)
    ensures Question in f.vals && Answer in f.vals && NormalField(f, Question)
    ensures Handout in f.vals ==> NormalField(f, Handout) && NormalValue(Shown(f, Handout)) && Handout in LOOSE
  {
    if Handout in f.vals {
      ShownIsNormal(f, Handout);
    }
  }

  /** Without a number line the handout falls out, and the question begins with its text. */
  lemma RunUnnumbered(st: State, f: Fields, game: string)
    requires NormalFields(f) && st.current == NO_FIELDS
    ensures Run(st, FieldRaws(f, ORDER), game) ==
            State(st.final + if Handout in f.vals then [Plain(Handout, Shown(f, Handout))] else [],
                  Placed(NO_FIELDS, f, ORDER[1..]), st.counter)
  {
    hide Run, FieldRaws, NormalFields, Placed, ORDER;
    OrderIsDistinct();
    OrderBegins();
    var after := ORDER[2..];
    var s1 := State(st.final + if Handout in f.vals then [Plain(Handout, Shown(f, Handout))] else [], NO_FIELDS, st.counter);
    RunHandout(st, f, [Question] + after, game);
    RunQuestion(s1, f, after, game);
  }

  lemma RunHandout(st: State, f: Fields, more: seq<Kind>, game: string)
    requires NormalFields(f) && st.current == NO_FIELDS
    ensures Run(st, FieldRaws(f, [Handout] + more), game) ==
            Run(State(st.final + if Handout in f.vals then [Plain(Handout, Shown(f, Handout))] else [], NO_FIELDS, st.counter),
                FieldRaws(f, more), game)
  {
    hide Step, Shown, NormalField, RawOf, Prefix, NormalFields, Run, NormalValue;
    NormalHas(f);
    LabelsHavePrefix();
    assert ([Handout] + more)[1..] == more;
    if Handout in f.vals {
      StepLoose(st, Handout, Shown(f, Handout), game);
      RunOne(st, RawOf(Handout, Shown(f, Handout)), FieldRaws(f, more), game);
    } else {
      assert [] + FieldRaws(f, more) == FieldRaws(f, more) && st.final + [] == st.final;
    }
  }

  lemma RunQuestion(st: State, f: Fields, after: seq<Kind>, game: string)
    requires NormalFields(f) && st.current == NO_FIELDS && Distinct(after) && Question !in after
    ensures Run(st, FieldRaws(f, [Question] + after), game) ==
            st.(current := Placed(NO_FIELDS, f, [Question] + after))
  {
    hide Step, Shown, NormalField, RawOf, Prefix, NormalFields, Run;
    NormalHas(f);
    LabelsHavePrefix();
    assert ([Question] + after)[1..] == after;
    var cur := SetField(NO_FIELDS, Question, Shown(f, Question));
    StepField(st, f, Question, game);
    RunOne(st, RawOf(Question, Shown(f, Question)), FieldRaws(f, after), game);
    RunFields(st.(current := cur), f, after, game);
  }

  lemma LabelsHavePrefix()
    ensures Prefix(Handout).Some? && Prefix(Question).Some?
    ensures forall c, game: string :: CounterAfter(Handout, game, c) == c
  {
  }

  lemma RunOne(st: State, raw: Raw, rest: seq<Raw>, game: string)
    ensures Run(st, [raw] + rest, game) == Run(Step(st, raw, game), rest, game)
  {
    hide Step;
    assert ([raw] + rest)[1..] == rest;
  }

  lemma ReadFieldsAreComplete(f: Fields, numbers: Numbers, first: bool)
    requires NormalFields(f)
    ensures var g := ReadFields(f, numbers, first); IsComplete(g) && g.keys != [] && g.keys != [SetCounter]
  {
    hide Shown, NormalField, Prefix, NoCounter, WrittenAs, Plainly;
    OrderIsDistinct();
    OrderIsLabels();
    PlacedIs(BaseOf(f, numbers, first), f, ORDER);
    PlacedIs(NO_FIELDS, f, ORDER[1..]);
    PlacedKeys(BaseOf(f, numbers, first), f, ORDER);
    PlacedKeys(NO_FIELDS, f, ORDER[1..]);
    var g := ReadFields(f, numbers, first);
    assert Question in g.vals && Answer in g.vals;
    assert Question in g.keys;
  }

  /** Setting fields keeps every field among the keys. */
  lemma {:induction false} PlacedKeys(cur: Fields, f: Fields, order: seq<Kind>)
    requires forall k :: k in cur.vals ==> k in cur.keys
    ensures forall k :: k in Placed(cur, f, order).vals ==> k in Placed(cur, f, order).keys
    decreases |order|
  {
    hide Shown, Prefix;
    if order != [] {
      var k := order[0];
      PlacedKeys(if Prefix(k).None? || k !in f.vals then cur else SetField(cur, k, Shown(f, k)), f, order[1..]);
    }
  }

  /** The raw elements of one element are put together as ReadElement says. */
  lemma ElementRun(final: seq<Element>, e: Element, numbers: Numbers, first: bool, c: int, game: string)
    requires NormalElement(e)
    ensures Run(State(final, NO_FIELDS, c), ElementRaws(e, numbers, first), game) ==
            State(final + ReadElement(e, numbers, first, c), NO_FIELDS, CounterPast(e, numbers, first, game, c))
  {
    match e {
      case Plain(k, v) =>
        hide Run, Step, NormalValue, RawOf;
        RunOne(State(final, NO_FIELDS, c), RawOf(k, v), [Raw(Blank, "")], game);
        assert ElementRaws(e, numbers, first) == [RawOf(k, v)] + [Raw(Blank, "")];
        StepLoose(State(final, NO_FIELDS, c), k, v, game);
        StepBlank(State(final + [e], NO_FIELDS, CounterAfter(k, game, c)), game);
      case Asked(f) =>
        AskedRun(final, f, numbers, first, c, game);
    }
  }

  lemma AskedRun(final: seq<Element>, f: Fields, numbers: Numbers, first: bool, c: int, game: string)
    requires NormalFields(f)
    ensures var e := Asked(f);
            Run(State(final, NO_FIELDS, c), ElementRaws(e, numbers, first), game) ==
            State(final + ReadElement(e, numbers, first, c), NO_FIELDS, CounterPast(e, numbers, first, game, c))
  {
    hide Run, Step, NormalFields, FieldRaws, NumberRaws, WrittenAs, Placed, Shown, Emitted, BaseOf;
    var st := State(final, NO_FIELDS, c);
    var a, b := NumberRaws(f, numbers, first), FieldRaws(f, ORDER);
    var g := ReadFields(f, numbers, first);
    ReadFieldsAreComplete(f, numbers, first);
    RunBoth(st, a + b, [Raw(Blank, "")], game);
    RunBoth(st, a, b, game);
    if WrittenAs(f, numbers, first).Some? {
      StepNumber(st, f, numbers, first, game);
      BaseIsUnset(f, numbers, first);
      OrderIsDistinct();
      RunFields(st.(current := BaseOf(f, numbers, first)), f, ORDER, game);
      StepBlank(State(final, g, c), game);
      EmittedIs(final, g, c);
    } else {
      NoNumberRaws(f, numbers, first);
      RunNone(st, game);
      RunUnnumbered(st, f, game);
      var loose := if Handout in f.vals then [Plain(Handout, Shown(f, Handout))] else [];
      StepBlank(State(final + loose, g, c), game);
      EmittedIs(final + loose, g, c);
    }
  }

  lemma RunNone(st: State, game: string)
    ensures Run(st, [], game) == st
  {
  }

  lemma NoNumberRaws(f: Fields, numbers: Numbers, first: bool)
    requires WrittenAs(f, numbers, first).None?
    ensures NumberRaws(f, numbers, first) == []
  {
  }

  lemma EmittedIs(final: seq<Element>, g: Fields, c: int)
    requires IsComplete(g)
    ensures Emitted(State(final, g, c)) ==
            State(final + [Asked(Numbered(g, CounterSet(g, c)))], NO_FIELDS,
                  if Number in g.vals then CounterSet(g, c) else Wrapped(CounterSet(g, c) + 1))
  {
  }

  lemma BaseIsUnset(f: Fields, numbers: Numbers, first: bool)
    requires WrittenAs(f, numbers, first).Some?
    ensures BaseOf(f, numbers, first).keys != [] && Unset(BaseOf(f, numbers, first), ORDER)
  {
    hide IsZero, AsNumber, Plainly;
    NumberLineIs(f, numbers, first);
    NumberHasNoPrefix();
  }

  lemma {:induction false} DocRun(final: seq<Element>, doc: seq<Element>, numbers: Numbers, first: bool, c: int, game: string)
    requires NormalDoc(doc)
    ensures var out := Run(State(final, NO_FIELDS, c), DocRaws(doc, numbers, first), game);
            out.final == final + Reread(doc, numbers, first, c, game) && out.current == NO_FIELDS
    decreases |doc|
  {
    hide Run, ElementRaws, ReadElement, NormalElement, FirstAfter, CounterPast;
    if doc == [] {
      RunNone(State(final, NO_FIELDS, c), game);
    } else {
      var next, past := FirstAfter(doc[0], first), CounterPast(doc[0], numbers, first, game, c);
      ElementRun(final, doc[0], numbers, first, c, game);
      RunBoth(State(final, NO_FIELDS, c), ElementRaws(doc[0], numbers, first), DocRaws(doc[1..], numbers, next), game);
      DocRun(final + ReadElement(doc[0], numbers, first, c), doc[1..], numbers, next, past, game);
    }
  }

  /** What parsing makes of a printed normal document, whatever numbers are written. */
  lemma ParsePrinted(doc: seq<Element>, numbers: Numbers, game: string)
    requires NormalDoc(doc)
    ensures Parsed(Composed(doc, numbers, true), game) == Overridden(Reread(doc, numbers, true, 1, game))
  {
    hide Run, DocRaws, Reread, NormalDoc, Composed, OverrideElement, AddLines, Lines, ReplaceFrom, WithoutMark;
    PrintedIsRead(doc, numbers);
    RunBoth(START, DocRaws(doc, numbers, true), [Raw(Blank, "")], game);
    DocRun([], doc, numbers, true, 1, game);
    StepBlank(Run(START, DocRaws(doc, numbers, true), game), game);
    assert [] + Reread(doc, numbers, true, 1, game) == Reread(doc, numbers, true, 1, game);
  }
}
