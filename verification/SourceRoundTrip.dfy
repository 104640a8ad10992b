/** What the parser makes of a printed document. */
module SourceRoundTrip {
  import opened Outcomes
  import opened SourceText
  import opened SourceMarkers
  import opened SourceCounters
  import opened SourceParser
  import opened SourceComposer
  import opened SourceValues

  // ---- normal form ----

  const LABELS: set<Kind> := {Handout, Question, Answer, Zachet, Nezachet, Comment, Source, Author}

  const LOOSE: set<Kind> := {
    Meta, Section, Heading, LjHeading, Battle, Round, Editor, Date,
    Handout, Zachet, Nezachet, Source, Comment, Author
  }

  /** The text begins with a word that would be taken for a label. */
  predicate OpensOverride(s: string) {
    BlankAt(s) < |s| && "!!" <= s[..BlankAt(s)]
  }

  ghost predicate NormalNumber(v: Value) {
    var s := Plainly(v);
    Tidy(s) && NoCounter(s) && !IsDash(s)
  }

  ghost predicate NormalLabel(name: string) {
    OneLine(name) && ' ' !in name && '~' !in name && NoCounter(name)
  }

  ghost predicate NormalField(f: Fields, k: Kind) {
    && k in LABELS && k in f.vals && NormalValue(f.vals[k])
    && if k in f.overrides then NormalLabel(f.overrides[k]) && !f.vals[k].Items? else !OpensOverride(HeadOf(f.vals[k]))
  }

  /** A numbered question with an answer, and with normal values. */
  ghost predicate NormalFields(f: Fields) {
    && Question in f.vals && Answer in f.vals && Number in f.vals && NormalNumber(f.vals[Number])
    && (forall k :: k in f.vals && k != Number ==> NormalField(f, k))
    && (forall k :: k in f.overrides ==> k in f.vals && k != Number)
  }

  ghost predicate NormalElement(e: Element) {
    match e
    case Plain(k, v) => k in LOOSE && NormalValue(v)
    case Asked(f) => NormalFields(f)
  }

  ghost predicate NormalDoc(doc: seq<Element>) {
    forall i :: 0 <= i < |doc| ==> NormalElement(doc[i])
  }

  // ---- a field and its label ----

  /** The value as it is written, with its label in front. */
  function Shown(f: Fields, k: Kind): Value
    requires k in f.vals
  {
    if k in f.overrides then WithHead(f.vals[k], OverrideText(f, k) + HeadOf(f.vals[k])) else f.vals[k]
  }

  lemma LabelledLines(name: string, s: string)
    requires NormalLabel(name) && CleanText(s)
    ensures var t := "!!" + name + " " + s;
            CleanText(t) && Lines(t) == ["!!" + name + " " + Lines(s)[0]] + Lines(s)[1..]
  {
    hide NoCounter, Lines;
    var p, ls := "!!" + name + " ", Lines(s);
    assert OneLine(p);
    LinesOfPrefixed(p, s);
    var first := p + ls[0];
    assert Tidy(ls[0]) && NoCounter(ls[0]);
    ShortHasNoCounter("!");
    NoCounterTogether("!", '!', name);
    assert "!" + ['!'] + name == "!!" + name;
    NoCounterTogether("!!" + name, ' ', ls[0]);
    assert "!!" + name + [' '] + ls[0] == first;
    assert first[|first| - 1] == ls[0][|ls[0]| - 1] && first[0] == '!';
    assert Tidy(first);
    var t := [first] + ls[1..];
    assert forall k :: 1 <= k < |t| ==> t[k] == ls[k];
  }

  /** The shown value is normal, and its first line has the label in front. */
  lemma ShownIsNormal(f: Fields, k: Kind)
    requires NormalField(f, k)
    ensures NormalValue(Shown(f, k))
    ensures var r := RawLines(f.vals[k]);
            RawLines(Shown(f, k)) == [OverrideText(f, k) + r[0]] + r[1..]
  {
    hide RawItems, Lines, NormalLabel, Clean, DashFree;
    var v := f.vals[k];
    var r := RawLines(v);
    if k in f.overrides {
      LabelledLines(f.overrides[k], HeadOf(v));
      var t := "!!" + f.overrides[k] + " " + HeadOf(v);
      assert OverrideText(f, k) + HeadOf(v) == t;
      assert OverrideText(f, k) + r[0] == "!!" + f.overrides[k] + " " + r[0];
      if v.Intro? {
        HeadReplaced(Lines(v.intro), Lines(t), RawItems(v.items));
      }
    } else {
      assert "" + r[0] == r[0];
      assert r == [r[0]] + r[1..];
    }
  }

  lemma HeadReplaced(ls: seq<string>, t: seq<string>, more: seq<string>)
    requires ls != [] && t != [] && t[1..] == ls[1..]
    ensures t + more == [t[0]] + (ls + more)[1..] && (ls + more)[0] == ls[0]
  {
    assert t == [t[0]] + t[1..];
  }

  /** A printed field has the lines of its shown value. */
  lemma FieldLinesAre(f: Fields, k: Kind)
    requires NormalField(f, k) && Prefix(k).Some?
    ensures Lines(Prefix(k).value + " " + OverrideText(f, k) + FormatElement(f.vals[k])) ==
            ValueLines(Prefix(k).value, Shown(f, k))
  {
    hide Prefix, NormalLabel, FormatElement, RawLines, NormalValue, EscapeLine, Lines, KindOf, Shown;
    var m, r := Prefix(k).value, RawLines(f.vals[k]);
    var p := m + " " + OverrideText(f, k);
    ShownIsNormal(f, k);
    FormatLines(f.vals[k]);
    PrefixIsPlain(k);
    LabelIsOneLine(f, k);
    LinesOfPrefixed(p, FormatElement(f.vals[k]));
    EscapeTailIs(r);
    assert p + r[0] == m + " " + (OverrideText(f, k) + r[0]);
    var s := RawLines(Shown(f, k));
    assert s[0] == OverrideText(f, k) + r[0] && s[1..] == r[1..];
  }

  lemma LabelIsOneLine(f: Fields, k: Kind)
    requires NormalField(f, k)
    ensures OneLine(OverrideText(f, k))
  {
  }

  lemma PrefixIsPlain(k: Kind)
    requires Prefix(k).Some?
    ensures var m := Prefix(k).value; OneLine(m) && |m| in {1, 2, 3, 5, 7} && NoCounter(m) && m[0] != '\U{FEFF}'
  {
    ShortHasNoCounter(Prefix(k).value);
  }

  // ---- the lines of an element ----

  /** How the number is written: as the number, as what to count from, or not at all. */
  function WrittenAs(f: Fields, numbers: Numbers, first: bool): Option<Kind> {
    if Number !in f.vals || numbers == Never then None
    else if numbers == All || IsZero(f.vals[Number]) then Some(Number)
    else if AsNumber(f.vals[Number]).Some? && first && AsNumber(f.vals[Number]).value > 1 then Some(SetCounter)
    else None
  }

  function NumberMark(k: Kind): string {
    if k == Number then "№" else "№№"
  }

  lemma NumberLineIs(f: Fields, numbers: Numbers, first: bool)
    ensures var w := WrittenAs(f, numbers, first);
            && (w.Some? ==> w.value in {Number, SetCounter} && Number in f.vals)
            && NumberLine(f, numbers, first) == if w.None? then None else Some(NumberMark(w.value) + " " + Plainly(f.vals[Number]))
  {
    hide IsZero, AsNumber, Plainly;
    assert "№" + " " == "№ " && "№№" + " " == "№№ ";
  }

  function NumberLines(f: Fields, numbers: Numbers, first: bool): seq<string> {
    var line := NumberLine(f, numbers, first);
    if line.Some? then [line.value] else []
  }

  function FieldLines(f: Fields, order: seq<Kind>): seq<string> {
    if order == [] then []
    else
      (if Prefix(order[0]).None? || order[0] !in f.vals then []
       else ValueLines(Prefix(order[0]).value, Shown(f, order[0])))
      + FieldLines(f, order[1..])
  }

  function ElementLines(e: Element, numbers: Numbers, first: bool): seq<string> {
    match e
    case Plain(k, v) => (if Prefix(k).None? then [] else ValueLines(Prefix(k).value, v)) + [""]
    case Asked(f) => NumberLines(f, numbers, first) + FieldLines(f, ORDER) + [""]
  }

  function DocLines(doc: seq<Element>, numbers: Numbers, first: bool): seq<string>
    decreases |doc|
  {
    if doc == [] then []
    else ElementLines(doc[0], numbers, first) + DocLines(doc[1..], numbers, FirstAfter(doc[0], first))
  }

  lemma LinesPlus(a: string, b: string)
    ensures Lines(a + "\n" + b) == Lines(a) + Lines(b) && Lines("\n" + b) == [""] + Lines(b)
  {
    LinesOfBoth(a, b);
    assert ("\n" + b)[1..] == b;
  }

  lemma {:induction false} FieldTextLines(f: Fields, order: seq<Kind>, rest: string)
    requires NormalFields(f)
    ensures Lines(FieldTexts(f, order) + rest) == FieldLines(f, order) + Lines(rest)
    decreases |order|
  {
    hide Prefix, FormatElement, Lines, ValueLines, Shown, NormalField, OverrideText;
    if order == [] {
      assert FieldTexts(f, order) + rest == rest;
    } else {
      var k, more := order[0], order[1..];
      FieldTextLines(f, more, rest);
      if Prefix(k).None? || k !in f.vals {
        assert FieldTexts(f, order) == FieldTexts(f, more);
      } else {
        NumberHasNoPrefix();
        FieldLinesAre(f, k);
        var head := Prefix(k).value + " " + OverrideText(f, k) + FormatElement(f.vals[k]);
        LinesPlus(head, FieldTexts(f, more) + rest);
        assert FieldTexts(f, order) + rest == head + "\n" + (FieldTexts(f, more) + rest);
      }
    }
  }

  lemma NumberHasNoPrefix()
    ensures Prefix(Number).None? && Prefix(SetCounter).None?
  {
  }

  lemma NumberLineIsOne(f: Fields, numbers: Numbers, first: bool)
    requires NormalFields(f)
    ensures var line := NumberLine(f, numbers, first);
            line.Some? ==> OneLine(line.value) && line.value != "" && NoCounter(line.value) && line.value[0] == '№'
  {
    hide NoCounter;
    NumberLineIs(f, numbers, first);
    var w := WrittenAs(f, numbers, first);
    if w.Some? {
      var m, n := NumberMark(w.value), Plainly(f.vals[Number]);
      ShortHasNoCounter(m);
      NoCounterTogether(m, ' ', n);
      assert m + [' '] + n == m + " " + n;
    }
  }

  lemma QuestionTextLines(f: Fields, numbers: Numbers, first: bool, rest: string)
    requires NormalFields(f)
    ensures Lines(QuestionText(f, numbers, first) + rest) ==
            NumberLines(f, numbers, first) + FieldLines(f, ORDER) + Lines(rest)
  {
    hide NumberLine, Lines, FieldTexts, FieldLines, NormalFields;
    var line := NumberLine(f, numbers, first);
    FieldTextLines(f, ORDER, rest);
    if line.Some? {
      NumberLineIsOne(f, numbers, first);
      LinesOfOneLine(line.value);
      LinesPlus(line.value, FieldTexts(f, ORDER) + rest);
      assert QuestionText(f, numbers, first) + rest == line.value + "\n" + (FieldTexts(f, ORDER) + rest);
    } else {
      assert QuestionText(f, numbers, first) + rest == FieldTexts(f, ORDER) + rest;
    }
  }

  /** A line of a printed document is never empty inside an element, and holds no counter. */
  ghost predicate Solid(lines: seq<string>) {
    forall k :: 0 <= k < |lines| ==> lines[k] != "" && OneLine(lines[k]) && NoCounter(lines[k])
  }

  lemma ValueLinesAreSolid(k: Kind, v: Value)
    requires Prefix(k).Some? && NormalValue(v)
    ensures Solid(ValueLines(Prefix(k).value, v))
  {
    hide Prefix, RawLines, NoCounter, EscapeLine, NormalValue;
    var m, r := Prefix(k).value, RawLines(v);
    RawLinesAreClean(v);
    PrefixIsPlain(k);
    NoCounterTogether(m, ' ', r[0]);
    assert m + [' '] + r[0] == m + " " + r[0];
    var lines := ValueLines(m, v);
    forall i | 0 <= i < |lines|
      ensures lines[i] != "" && OneLine(lines[i]) && NoCounter(lines[i])
    {
      if i > 0 {
        assert Tidy(r[i]) && NoCounter(r[i]);
        EscapedIsTidy(r[i]);
        assert lines[i] == EscapeLine(r[i]);
      }
    }
  }

  // ---- reading an element back ----

  function RawOf(k: Kind, v: Value): Raw {
    Raw(k, Joined(RawLines(v)))
  }

  function FieldRaws(f: Fields, order: seq<Kind>): seq<Raw> {
    if order == [] then []
    else (if Prefix(order[0]).None? || order[0] !in f.vals then [] else [RawOf(order[0], Shown(f, order[0]))])
         + FieldRaws(f, order[1..])
  }

  function NumberRaws(f: Fields, numbers: Numbers, first: bool): seq<Raw> {
    var w := WrittenAs(f, numbers, first);
    if w.None? || Number !in f.vals then [] else [Raw(w.value, Plainly(f.vals[Number]))]
  }

  function ElementRaws(e: Element, numbers: Numbers, first: bool): seq<Raw> {
    match e
    case Plain(k, v) => [RawOf(k, v), Raw(Blank, "")]
    case Asked(f) => NumberRaws(f, numbers, first) + FieldRaws(f, ORDER) + [Raw(Blank, "")]
  }

  function DocRaws(doc: seq<Element>, numbers: Numbers, first: bool): seq<Raw>
    decreases |doc|
  {
    if doc == [] then []
    else ElementRaws(doc[0], numbers, first) + DocRaws(doc[1..], numbers, FirstAfter(doc[0], first))
  }

  lemma {:induction false} AddLinesBoth(raws: seq<Raw>, a: seq<string>, b: seq<string>)
    ensures AddLines(raws, a + b) == AddLines(AddLines(raws, a), b)
    decreases |a|
  {
    if a == [] {
      assert a + b == b;
    } else {
      assert (a + b)[1..] == a[1..] + b;
      AddLinesBoth(AddLine(raws, a[0]), a[1..], b);
    }
  }

  /** An empty line ends an element. */
  lemma BlankLine(raws: seq<Raw>)
    ensures AddLines(raws, [""]) == raws + [Raw(Blank, "")]
  {
    RewOfBlank();
  }

  lemma OneFieldIsRead(raws: seq<Raw>, f: Fields, k: Kind)
    requires NormalFields(f) && k in f.vals && Prefix(k).Some?
    ensures AddLines(raws, ValueLines(Prefix(k).value, Shown(f, k))) == raws + [RawOf(k, Shown(f, k))]
  {
    hide Prefix, ValueLines, AddLines, Shown, NormalField, KindOf, RawLines, NormalFields;
    FieldOf(f, k);
    ShownIsNormal(f, k);
    FieldIsLabel(f, k);
    LabelIsRead(k);
    ValueIsRead(raws, Prefix(k).value, k, Shown(f, k));
    RawOfIs(k, Shown(f, k));
  }

  lemma {:induction false} FieldsAreRead(raws: seq<Raw>, f: Fields, order: seq<Kind>)
    requires NormalFields(f)
    ensures AddLines(raws, FieldLines(f, order)) == raws + FieldRaws(f, order)
    decreases |order|
  {
    hide Prefix, ValueLines, AddLine, Shown, NormalField, KindOf, RawLines, NormalFields, RawOf, AddLines;
    if order != [] {
      var k, more := order[0], order[1..];
      if Prefix(k).None? || k !in f.vals {
        FieldsAreRead(raws, f, more);
        assert [] + FieldLines(f, more) == FieldLines(f, more) && [] + FieldRaws(f, more) == FieldRaws(f, more);
      } else {
        var lines, raw := ValueLines(Prefix(k).value, Shown(f, k)), RawOf(k, Shown(f, k));
        OneFieldIsRead(raws, f, k);
        AddLinesBoth(raws, lines, FieldLines(f, more));
        FieldsAreRead(raws + [raw], f, more);
        assert raws + [raw] + FieldRaws(f, more) == raws + ([raw] + FieldRaws(f, more));
      }
    } else {
      NoLines(raws);
    }
  }

  lemma FieldOf(f: Fields, k: Kind)
    requires NormalFields(f) && k in f.vals && Prefix(k).Some?
    ensures NormalField(f, k)
  {
    NumberHasNoPrefix();
  }

  lemma FieldIsLabel(f: Fields, k: Kind)
    requires NormalField(f, k)
    ensures k !in {Tour, TourFromEnd, Blank, Number, SetCounter}
  {
  }

  lemma LabelIsRead(k: Kind)
    requires Prefix(k).Some? && k !in {Tour, TourFromEnd}
    ensures KindOf(Prefix(k).value) == Some(k)
  {
    PrefixIsRead(k);
  }

  lemma NumberIsRead(raws: seq<Raw>, f: Fields, numbers: Numbers, first: bool)
    requires NormalFields(f)
    ensures AddLines(raws, NumberLines(f, numbers, first)) == raws + NumberRaws(f, numbers, first)
  {
    hide KindOf, IsZero, AsNumber, Plainly, AddLine, NumberLine;
    NumberLineIs(f, numbers, first);
    var w := WrittenAs(f, numbers, first);
    if w.Some? {
      MarksAreRead();
      HeadLine(raws, NumberMark(w.value), w.value, Plainly(f.vals[Number]));
    }
  }

  lemma MarksAreRead()
    ensures KindOf(NumberMark(Number)) == Some(Number) && KindOf(NumberMark(SetCounter)) == Some(SetCounter)
  {
    PrefixIsRead(Number);
  }

  /** The lines of an element are read as its raw elements. */
  lemma ElementIsRead(raws: seq<Raw>, e: Element, numbers: Numbers, first: bool)
    requires NormalElement(e)
    ensures AddLines(raws, ElementLines(e, numbers, first)) == raws + ElementRaws(e, numbers, first)
  {
    hide AddLines, NumberLines, NumberRaws, FieldLines, FieldRaws, ValueLines, RawOf, KindOf, Prefix, NormalFields;
    match e {
      case Plain(k, v) =>
        LooseHasPrefix(k);
        LabelIsRead(k);
        ValueIsRead(raws, Prefix(k).value, k, v);
        AddLinesBoth(raws, ValueLines(Prefix(k).value, v), [""]);
        RawOfIs(k, v);
        BlankLine(raws + [RawOf(k, v)]);
      case Asked(f) =>
        var a, b := NumberLines(f, numbers, first), FieldLines(f, ORDER);
        NumberIsRead(raws, f, numbers, first);
        FieldsAreRead(raws + NumberRaws(f, numbers, first), f, ORDER);
        AddLinesBoth(raws, a, b);
        AddLinesBoth(raws, a + b, [""]);
        BlankLine(raws + NumberRaws(f, numbers, first) + FieldRaws(f, ORDER));
    }
  }

  lemma RawOfIs(k: Kind, v: Value)
    ensures RawOf(k, v) == Raw(k, Joined(RawLines(v)))
  {
  }

  lemma LooseHasPrefix(k: Kind)
    requires k in LOOSE
    ensures Prefix(k).Some? && k !in {Tour, TourFromEnd, Blank, Question, Answer, Number, SetCounter, Theme}
  {
  }

  lemma {:induction false} DocIsRead(raws: seq<Raw>, doc: seq<Element>, numbers: Numbers, first: bool)
    requires NormalDoc(doc)
    ensures AddLines(raws, DocLines(doc, numbers, first)) == raws + DocRaws(doc, numbers, first)
    decreases |doc|
  {
    hide AddLines, ElementLines, ElementRaws, NormalElement, FirstAfter;
    if doc == [] {
      NoLines(raws);
    } else {
      ElementIsRead(raws, doc[0], numbers, first);
      var rest := DocLines(doc[1..], numbers, FirstAfter(doc[0], first));
      AddLinesBoth(raws, ElementLines(doc[0], numbers, first), rest);
      DocIsRead(raws + ElementRaws(doc[0], numbers, first), doc[1..], numbers, FirstAfter(doc[0], first));
    }
  }

  lemma NoLines(raws: seq<Raw>)
    ensures AddLines(raws, []) == raws + []
  {
  }
}
