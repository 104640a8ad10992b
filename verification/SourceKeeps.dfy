/** The law of the printer: which documents survive printing and parsing, and that printing again changes nothing. */
module SourceKeeps {
  import opened Sequences
  import opened Outcomes
  import opened SourceText
  import opened SourceMarkers
  import opened SourceCounters
  import opened SourceParser
  import opened SourceComposer
  import opened SourceValues
  import opened SourceRoundTrip
  import opened SourceReparse

  // ---- labels come off again ----

  lemma {:induction false} BlankAfter(p: string, s: string)
    requires ' ' !in p
    ensures BlankAt(p + " " + s) == |p|
  {
    if p == "" {
      assert (p + " " + s)[0] == ' ';
    } else {
      BlankAfter(p[1..], s);
      assert (p + " " + s)[1..] == p[1..] + " " + s;
    }
  }

  lemma {:induction false} NoTildes(s: string)
    requires '~' !in s
    ensures TildesToBlanks(s) == s
  {
    if s != "" {
      NoTildes(s[1..]);
    }
  }

  /** A label is read back as it was written when it holds no blank and no tilde. */
  lemma LabelComesOff(name: string, s: string)
    requires ' ' !in name && '~' !in name
    ensures var t := "!!" + name + " " + s;
            OpensOverride(t) && BlankAt(t) == 2 + |name| && t[BlankAt(t) + 1..] == s && TildesToBlanks(t[2..BlankAt(t)]) == name
  {
    BlankAfter("!!" + name, s);
    NoTildes(name);
    var t := "!!" + name + " " + s;
    assert t[2..2 + |name|] == name && t[..2 + |name|] == "!!" + name;
  }

  lemma {:induction false} TildesGone(s: string)
    ensures '~' !in TildesToBlanks(s)
  {
    if s != "" {
      TildesGone(s[1..]);
    }
  }

  /** A label with a blank, which only a tilde in the source can give, is never read back. */
  lemma BlankInLabelIsLost(f: Fields, k: Kind, name: string, s: string)
    requires f == Fields([k], map[k := Text("!!" + name + " " + s)], map[]) && ' ' in name
    ensures Override(f, k).overrides != map[k := name] && Override(f, k).vals[k] != Text(s)
  {
    var n := BlankAt(name);
    FirstBlank(name);
    var t := "!!" + name + " " + s;
    assert name == name[..n] + " " + name[n + 1..];
    assert t == ("!!" + name[..n]) + " " + (name[n + 1..] + " " + s);
    BlankAfter("!!" + name[..n], name[n + 1..] + " " + s);
    SameLength(t[2..2 + n]);
    assert |Override(f, k).overrides[k]| == n < |name|;
  }

  lemma {:induction false} FirstBlank(s: string)
    requires ' ' in s
    ensures BlankAt(s) < |s|
  {
    if s[0] != ' ' {
      FirstBlank(s[1..]);
    }
  }

  lemma {:induction false} SameLength(s: string)
    ensures |TildesToBlanks(s)| == |s|
  {
    if s != "" {
      SameLength(s[1..]);
    }
  }

  /** The pass that takes the labels off undoes what showing the field put in front. */
  lemma OverrideShown(h: Fields, f: Fields, k: Kind)
    requires NormalField(f, k) && k in h.vals && h.vals[k] == Shown(f, k)
    ensures k in f.vals && Override(h, k) ==
            if k in f.overrides then h.(vals := h.vals[k := f.vals[k]], overrides := h.overrides[k := f.overrides[k]]) else h
  {
    hide NormalValue;
    if k in f.overrides {
      var s := HeadOf(f.vals[k]);
      LabelComesOff(f.overrides[k], s);
      assert OverrideText(f, k) + s == "!!" + f.overrides[k] + " " + s;
      NotWhole(f, k);
    }
  }

  lemma NotWhole(f: Fields, k: Kind)
    requires NormalField(f, k)
    ensures !f.vals[k].Whole?
  {
  }

  /** What the pass over `order` makes of the field k. */
  lemma {:induction false} OverrideAllShown(h: Fields, f: Fields, order: seq<Kind>, k: Kind)
    requires Distinct(order) && forall x :: x in order && x in h.vals ==> NormalField(f, x) && h.vals[x] == Shown(f, x)
    ensures var r, done := OverrideAll(h, order), k in order && k in h.vals;
            && r.keys == h.keys && (k in r.vals <==> k in h.vals)
            && (k in r.vals ==> if done then k in f.vals && r.vals[k] == f.vals[k] else r.vals[k] == h.vals[k])
            && (k in r.overrides <==> k in h.overrides || (done && k in f.overrides))
            && (k in r.overrides ==> r.overrides[k] == if done && k in f.overrides then f.overrides[k] else h.overrides[k])
    decreases |order|
  {
    hide NormalField, Override;
    if order != [] {
      var x, more := order[0], order[1..];
      assert forall j :: 0 <= j < |more| ==> more[j] == order[j + 1];
      assert order == [x] + more;
      OverrideStep(h, f, x);
      OverrideAllShown(Override(h, x), f, more, k);
    }
  }

  lemma OverrideStep(h: Fields, f: Fields, k: Kind)
    requires k in h.vals ==> NormalField(f, k) && h.vals[k] == Shown(f, k)
    ensures Override(h, k) ==
            if k !in h.vals then h
            else if k in f.overrides then h.(vals := h.vals[k := f.vals[k]], overrides := h.overrides[k := f.overrides[k]])
            else h
    ensures k in h.vals ==> k in f.vals && (k !in f.overrides ==> h.vals[k] == f.vals[k])
  {
    hide NormalField, Override, WithHead;
    if k in h.vals {
      OverrideShown(h, f, k);
    } else {
      OverrideNone(h, k);
    }
  }

  lemma OverrideNone(h: Fields, k: Kind)
    requires k !in h.vals
    ensures Override(h, k) == h
  {
  }

  /** The blanks around a tidy line are trimmed. */
  lemma BlanksAround(h: string)
    requires Tidy(h)
    ensures Rew(" " + h + " ") == h
  {
    hide NarrowBreaks;
    var s := " " + h + " ";
    assert s[1..] == h + " " && (h + " ")[..|h|] == h;
    assert WithoutLeft(s) == h + " ";
    assert WithoutRight(h + " ") == h;
    OneLineIsTight(h);
    TightStays(h);
  }

  /** The first line of a list with a label and no introduction. */
  lemma LabelAloneIsRead(raws: seq<Raw>, m: string, k: Kind, h: string)
    requires KindOf(m) == Some(k) && Tidy(h)
    ensures AddLine(raws, m + " " + h + " ") == raws + [Raw(k, h)]
  {
    hide KindOf, Rew;
    MarkersArePlain(m);
    var line := m + " " + h + " ";
    FirstFieldIs(m, " " + h + " ");
    assert line == m + (" " + h + " ");
    assert line[0] == m[0];
    RewIsNotEmpty(line);
    assert line[|m|..] == " " + h + " ";
    BlanksAround(h);
  }

  /** A label on a list without an introduction is not read back: it becomes the introduction. */
  lemma ListLabelIsLost(raws: seq<Raw>, f: Fields, k: Kind)
    requires k in LABELS && k in f.vals && f.vals[k].Items? && NormalValue(f.vals[k])
    requires k in f.overrides && Tidy("!!" + f.overrides[k]) && ' ' !in f.overrides[k] && OneLine(f.overrides[k])
    requires '-' !in f.overrides[k] && NoCounter("!!" + f.overrides[k])
    ensures Prefix(k).Some?
    ensures var h, items := "!!" + f.overrides[k], f.vals[k].items;
            var content := Joined([h] + RawItems(items));
            && AddLines(raws, Lines(Prefix(k).value + " " + OverrideText(f, k) + FormatElement(f.vals[k]))) == raws + [Raw(k, content)]
            && Listed(content) == Intro(h, items) && !OpensOverride(h)
  {
    hide NormalValue, FormatElement, Lines, EscapeLine, KindOf, AddLine, Listed, RawItems, CleanItems, Prefix, NoCounter, Joined, Tidy;
    var h, v := "!!" + f.overrides[k], f.vals[k];
    LabelKinds(k);
    LabelIsRead(k);
    PrefixIsPlain(k);
    var m, p := Prefix(k).value, Prefix(k).value + " " + h + " ";
    assert p == Prefix(k).value + " " + OverrideText(f, k);
    FormatLines(v);
    ItemsLinesAre(v);
    LinesOfPrefixed(p, FormatElement(v));
    var lines := [p] + Escaped(RawItems(v.items));
    assert p + "" == p;
    LabelAloneIsRead(raws, m, k, h);
    assert lines[1..] == Escaped(RawItems(v.items));
    NextLines(raws, Raw(k, h), RawItems(v.items));
    JoinedBoth([h], RawItems(v.items));
    OneJoined(h);
    TidyLabel(h);
    ListIsRead([h], v.items);
    NoBlankIn(h);
  }

  lemma LabelKinds(k: Kind)
    requires k in LABELS
    ensures Prefix(k).Some? && k !in {Tour, TourFromEnd}
  {
  }

  lemma ItemsLinesAre(v: Value)
    requires v.Items? && NormalValue(v)
    ensures EscapeTail(RawLines(v)) == [""] + Escaped(RawItems(v.items))
    ensures AllTidy(RawItems(v.items)) && CleanItems(v.items) && |v.items| >= 2
  {
    hide RawItems, EscapeLine, NoCounter, IsDash;
    EscapeTailIs(RawLines(v));
    assert ([""] + RawItems(v.items))[1..] == RawItems(v.items);
    RawItemsAreClean(v.items);
  }

  lemma OneJoined(h: string)
    ensures Joined([h]) == h
  {
  }

  lemma TidyLabel(h: string)
    requires Tidy(h) && |h| >= 2 && h[0] == '!'
    ensures AllTidy([h]) && DashFree([h], 0) && [h] != [""]
  {
  }

  lemma NoBlankIn(h: string)
    requires ' ' !in h
    ensures !OpensOverride(h)
  {
    var n := BlankAt(h);
  }

  // ---- sameness ----

  /** The same question up to the order of its fields, with its number compared as text. */
  predicate SameFields(f: Fields, g: Fields) {
    && f.vals.Keys == g.vals.Keys && f.overrides == g.overrides
    && forall k :: k in f.vals ==> if k == Number then Plainly(f.vals[k]) == Plainly(g.vals[k]) else f.vals[k] == g.vals[k]
  }

  predicate Same(a: Element, b: Element) {
    match a
    case Plain(_, _) => a == b
    case Asked(f) => b.Asked? && SameFields(f, b.fields)
  }

  predicate SameDoc(a: seq<Element>, b: seq<Element>) {
    |a| == |b| && forall i :: 0 <= i < |a| ==> Same(a[i], b[i])
  }

  lemma SameDocHead(a: Element, x: seq<Element>, b: Element, y: seq<Element>)
    ensures SameDoc([a] + x, [b] + y) <==> Same(a, b) && SameDoc(x, y)
  {
    if SameDoc([a] + x, [b] + y) {
      assert ([a] + x)[0] == a && ([b] + y)[0] == b;
      forall i | 0 <= i < |x|
        ensures Same(x[i], y[i])
      {
        assert ([a] + x)[i + 1] == x[i] && ([b] + y)[i + 1] == y[i];
      }
    }
  }

  // ---- one question ----

  /** The fields g are what is read of f when its number is written as w. */
  ghost predicate Reads(g: Fields, f: Fields, w: Option<Kind>) {
    && g.overrides == map[]
    && (forall k :: k in g.vals <==> (k in LABELS && k in f.vals && !(w.None? && k == Handout)) || w == Some(k))
    && (forall k :: k in g.vals ==>
          if k in LABELS then k in f.vals && g.vals[k] == Shown(f, k)
          else Number in f.vals && g.vals[k] == Text(Plainly(f.vals[Number])))
  }

  lemma ReadVals(f: Fields, numbers: Numbers, first: bool)
    requires NormalFields(f)
    ensures Reads(ReadFields(f, numbers, first), f, WrittenAs(f, numbers, first))
  {
    hide Reads, NormalField, NoCounter, LABELS, ORDER, WrittenAs, Placed, SetField, Plainly;
    NumbersAreNoLabels();
    NumberLineIs(f, numbers, first);
    var w := WrittenAs(f, numbers, first);
    if w.None? {
      ReadUnnumbered(f);
    } else {
      ReadNumbered(f, w.value, BaseOf(f, numbers, first));
    }
  }

  lemma ReadUnnumbered(f: Fields)
    ensures |ORDER| > 0 && Reads(Placed(NO_FIELDS, f, ORDER[1..]), f, None)
  {
    hide Shown, Prefix, Plainly, LABELS, ORDER, Placed;
    OrderIsDistinct();
    OrderBegins();
    OrderIsLabels();
    PlacedIs(NO_FIELDS, f, ORDER[1..]);
  }

  lemma ReadNumbered(f: Fields, k: Kind, base: Fields)
    requires Number in f.vals && k !in LABELS && base == SetField(NO_FIELDS, k, Text(Plainly(f.vals[Number])))
    ensures Reads(Placed(base, f, ORDER), f, Some(k))
  {
    hide Shown, Prefix, Plainly, LABELS, ORDER, Placed;
    OrderIsDistinct();
    OrderIsLabels();
    PlacedIs(base, f, ORDER);
  }

  lemma OverrideOrder()
    ensures Distinct(OVERRIDE_ORDER) && forall k :: k in OVERRIDE_ORDER <==> k in LABELS
  {
    assert OVERRIDE_ORDER[0] == Handout && OVERRIDE_ORDER[1] == Question && OVERRIDE_ORDER[2] == Answer;
    assert OVERRIDE_ORDER[3] == Zachet && OVERRIDE_ORDER[4] == Nezachet && OVERRIDE_ORDER[5] == Comment;
    assert OVERRIDE_ORDER[6] == Source && OVERRIDE_ORDER[7] == Author;
  }

  /** How the question comes back, with its labels. */
  function BackAgain(f: Fields, numbers: Numbers, first: bool, c: int): Fields {
    var g := ReadFields(f, numbers, first);
    OverrideAll(Numbered(g, CounterSet(g, c)), OVERRIDE_ORDER)
  }

  lemma PlainlyOf(s: string, c: int)
    ensures Plainly(Text(s)) == s && Plainly(Whole(c)) == Decimal(c)
  {
  }

  /** What comes back, field by field. */
  lemma BackVals(f: Fields, numbers: Numbers, first: bool, c: int)
    requires NormalFields(f) && !HandoutFalls(f, numbers, first)
    ensures var r, w := BackAgain(f, numbers, first, c), WrittenAs(f, numbers, first);
            && (forall k :: k in r.overrides <==> k in f.overrides)
            && (forall k :: k in r.overrides ==> r.overrides[k] == f.overrides[k])
            && (forall k :: k in r.vals <==> (k in LABELS && k in f.vals) || w == Some(k) || k == Number)
            && (forall k :: k in r.vals && k in LABELS ==> k in f.vals && r.vals[k] == f.vals[k])
            && (w == Some(Number) ==> Number in f.vals && r.vals[Number] == Text(Plainly(f.vals[Number])))
            && (w.None? ==> r.vals[Number] == Whole(c))
  {
    hide Shown, NormalField, Prefix, NoCounter, IsZero, AsNumber, WrittenAs, ReadFields, OverrideAll, LABELS, OVERRIDE_ORDER, Atoi, Plainly;
    var w, g := WrittenAs(f, numbers, first), ReadFields(f, numbers, first);
    var n := Numbered(g, CounterSet(g, c));
    ReadVals(f, numbers, first);
    OverrideOrder();
    NormalKeys(f);
    NumberLineIs(f, numbers, first);
    NumbersAreNoLabels();
    forall k | k in OVERRIDE_ORDER && k in n.vals
      ensures NormalField(f, k) && n.vals[k] == Shown(f, k)
    {
    }
    forall k
      ensures OverrideAll(n, OVERRIDE_ORDER).keys == n.keys
      ensures var r := OverrideAll(n, OVERRIDE_ORDER);
        && (k in r.vals <==> k in n.vals)
        && (k in r.vals ==> if k in LABELS then k in f.vals && r.vals[k] == f.vals[k] else r.vals[k] == n.vals[k])
        && (k in r.overrides <==> k in f.overrides) && (k in r.overrides ==> r.overrides[k] == f.overrides[k])
    {
      OverrideAllShown(n, f, OVERRIDE_ORDER, k);
    }
  }

  /** The question comes back as it was exactly when its number was written, or counted to and no handout fell
      out. */
  lemma QuestionComesBack(f: Fields, numbers: Numbers, first: bool, c: int)
    requires NormalFields(f) && !HandoutFalls(f, numbers, first)
    ensures var w := WrittenAs(f, numbers, first);
            SameFields(f, BackAgain(f, numbers, first, c)) <==>
              w == Some(Number) || (w.None? && Plainly(f.vals[Number]) == Decimal(c))
  {
    hide Shown, NormalField, Prefix, NoCounter, IsZero, AsNumber, WrittenAs, ReadFields, LABELS, Atoi, Plainly, BackAgain;
    var w := WrittenAs(f, numbers, first);
    var r := BackAgain(f, numbers, first, c);
    NormalKeys(f);
    NumberLineIs(f, numbers, first);
    NumbersAreNoLabels();
    BackVals(f, numbers, first, c);
    PlainlyOf(Plainly(f.vals[Number]), c);
    assert r.overrides == f.overrides;
    if w == Some(SetCounter) {
      assert SetCounter in r.vals.Keys && SetCounter !in f.vals.Keys;
    } else {
      assert r.vals.Keys == f.vals.Keys;
    }
  }

  lemma NumbersAreNoLabels()
    ensures Number !in LABELS && SetCounter !in LABELS
  {
  }

  lemma NormalKeys(f: Fields)
    requires NormalFields(f)
    ensures forall k :: k in f.vals && k != Number ==> k in LABELS && NormalField(f, k)
    ensures Number in f.vals && SetCounter !in f.vals
    ensures forall k :: k in f.overrides ==> k in f.vals && k in LABELS
  {
    if SetCounter in f.vals {
      assert NormalField(f, SetCounter);
      NumbersAreNoLabels();
      assert false;
    }
  }

  // ---- the whole document ----

  /** Every question gets back the number it has: it is written, or it is what the parser has counted to and the
      question has no handout to lose. */
  predicate KeepsNumbers(doc: seq<Element>, numbers: Numbers, first: bool, c: int, game: string)
    decreases |doc|
  {
    doc == [] ||
    (match doc[0]
     case Plain(k, _) => KeepsNumbers(doc[1..], numbers, first, CounterAfter(k, game, c), game)
     case Asked(f) =>
       Number in f.vals &&
       var w := WrittenAs(f, numbers, first);
       if w == Some(Number) then KeepsNumbers(doc[1..], numbers, StillFirst(f, first), c, game)
       else
         w.None? && Handout !in f.vals && Plainly(f.vals[Number]) == Decimal(c)
         && KeepsNumbers(doc[1..], numbers, StillFirst(f, first), Wrapped(c + 1), game))
  }

  lemma {:induction false} RereadIsLong(doc: seq<Element>, numbers: Numbers, first: bool, c: int, game: string)
    ensures |Reread(doc, numbers, first, c, game)| >= |doc|
    decreases |doc|
  {
    hide ReadFields, Shown, HandoutFalls, CounterPast, FirstAfter;
    if doc != [] {
      RereadIsLong(doc[1..], numbers, FirstAfter(doc[0], first), CounterPast(doc[0], numbers, first, game, c), game);
    }
  }

  lemma OverriddenBoth(a: seq<Element>, b: seq<Element>)
    ensures Overridden(a + b) == Overridden(a) + Overridden(b)
  {
    hide OverrideElement;
  }

  /** Where the counter goes on after a question that comes back. */
  lemma PastQuestion(f: Fields, numbers: Numbers, first: bool, game: string, c: int)
    requires NormalFields(f)
    ensures var w, past := WrittenAs(f, numbers, first), CounterPast(Asked(f), numbers, first, game, c);
            && (w == Some(Number) ==> past == c) && (w.None? ==> past == Wrapped(c + 1))
  {
    hide Shown, NormalField, LABELS, WrittenAs, ReadFields, Plainly, Atoi, NoCounter;
    ReadVals(f, numbers, first);
    NumbersAreNoLabels();
  }

  lemma {:induction false} RereadKeeps(doc: seq<Element>, numbers: Numbers, first: bool, c: int, game: string)
    requires NormalDoc(doc)
    ensures SameDoc(doc, Overridden(Reread(doc, numbers, first, c, game))) <==> KeepsNumbers(doc, numbers, first, c, game)
    decreases |doc|
  {
    hide ReadFields, Shown, NormalFields, NormalValue, OverrideElement, SameFields, WrittenAs, Same, Numbered, CounterPast, SameDoc;
    if doc == [] {
      NothingIsSame();
    } else {
      var e, rest := doc[0], doc[1..];
      var next, past := FirstAfter(e, first), CounterPast(e, numbers, first, game, c);
      var more := Reread(rest, numbers, next, past, game);
      assert NormalElement(e) && NormalDoc(rest);
      RereadKeeps(rest, numbers, next, past, game);
      RereadIsLong(rest, numbers, next, past, game);
      OverriddenBoth(ReadElement(e, numbers, first, c), more);
      assert doc == [e] + rest;
      match e {
        case Plain(k, v) =>
          PlainBack(e, rest, more);
          PastPlain(k, v, numbers, first, game, c);
        case Asked(f) =>
          PastQuestion(f, numbers, first, game, c);
          NormalKeys(f);
          HandoutOrNot(f, numbers, first);
          if HandoutFalls(f, numbers, first) {
            LongerIsNotSame(doc, Overridden(ReadElement(e, numbers, first, c)) + Overridden(more));
          } else {
            AskedBack(f, rest, numbers, first, c, more);
          }
      }
    }
  }

  lemma HandoutOrNot(f: Fields, numbers: Numbers, first: bool)
    ensures HandoutFalls(f, numbers, first) <==> WrittenAs(f, numbers, first).None? && Handout in f.vals
  {
  }

  lemma NothingIsSame()
    ensures SameDoc([], Overridden([]))
  {
  }

  lemma PastPlain(k: Kind, v: Value, numbers: Numbers, first: bool, game: string, c: int)
    ensures CounterPast(Plain(k, v), numbers, first, game, c) == CounterAfter(k, game, c)
  {
  }

  lemma LongerIsNotSame(a: seq<Element>, b: seq<Element>)
    requires |a| < |b|
    ensures !SameDoc(a, b)
  {
  }

  lemma PlainBack(e: Element, rest: seq<Element>, more: seq<Element>)
    requires e.Plain?
    ensures SameDoc([e] + rest, Overridden([e]) + Overridden(more)) <==> SameDoc(rest, Overridden(more))
  {
    hide Override, SameFields;
    assert Overridden([e]) == [e];
    SameDocHead(e, rest, e, Overridden(more));
  }

  lemma AskedBack(f: Fields, rest: seq<Element>, numbers: Numbers, first: bool, c: int, more: seq<Element>)
    requires NormalFields(f) && !HandoutFalls(f, numbers, first)
    ensures var w := WrittenAs(f, numbers, first);
            SameDoc([Asked(f)] + rest, Overridden(ReadElement(Asked(f), numbers, first, c)) + Overridden(more)) <==>
              (w == Some(Number) || (w.None? && Number in f.vals && Plainly(f.vals[Number]) == Decimal(c)))
              && SameDoc(rest, Overridden(more))
  {
    hide SameFields, ReadFields, WrittenAs, NormalField, Shown, OverrideAll, Plainly, NoCounter, HandoutFalls;
    QuestionComesBack(f, numbers, first, c);
    var back := Asked(BackAgain(f, numbers, first, c));
    assert Overridden(ReadElement(Asked(f), numbers, first, c)) == [back];
    SameDocHead(Asked(f), rest, back, Overridden(more));
  }

  /** The law of the printer: a normal document comes back from printing and parsing, up to the order of fields
      and with numbers as text, if and only if every question keeps its number. */
  lemma RoundTrip(doc: seq<Element>, numbers: Numbers, game: string)
    requires NormalDoc(doc)
    ensures SameDoc(doc, Parsed(Composed(doc, numbers, true), game)) <==> KeepsNumbers(doc, numbers, true, 1, game)
  {
    hide Parsed, Composed, SameDoc, KeepsNumbers, NormalDoc, Reread, Overridden;
    ParsePrinted(doc, numbers, game);
    RereadKeeps(doc, numbers, true, 1, game);
  }

  lemma {:induction false} AllKeeps(doc: seq<Element>, first: bool, c: int, game: string)
    requires NormalDoc(doc)
    ensures KeepsNumbers(doc, All, first, c, game)
    decreases |doc|
  {
    hide NormalFields, NormalValue;
    if doc != [] {
      assert NormalElement(doc[0]) && NormalDoc(doc[1..]);
      match doc[0] {
        case Plain(k, _) => AllKeeps(doc[1..], first, CounterAfter(k, game, c), game);
        case Asked(f) =>
          NormalKeys(f);
          AllKeeps(doc[1..], StillFirst(f, first), c, game);
      }
    }
  }

  /** With all numbers written, every normal document comes back. */
  lemma RoundTripWithNumbers(doc: seq<Element>, game: string)
    requires NormalDoc(doc)
    ensures SameDoc(doc, Parsed(Composed(doc, All, true), game))
  {
    hide Parsed, Composed, SameDoc, KeepsNumbers, NormalDoc;
    RoundTrip(doc, All, game);
    AllKeeps(doc, true, 1, game);
  }

  // ---- printing again ----

  lemma {:induction false} SameFieldTexts(f: Fields, g: Fields, order: seq<Kind>)
    requires SameFields(f, g) && Number in f.vals
    ensures FieldTexts(f, order) == FieldTexts(g, order)
    decreases |order|
  {
    hide FormatElement, Plainly;
    if order != [] {
      SameFieldTexts(f, g, order[1..]);
      NumberHasNoPrefix();
      assert order[0] in f.vals.Keys <==> order[0] in g.vals.Keys;
    }
  }

  /** Documents that are the same are printed the same when all numbers are written. */
  lemma {:induction false} SameIsPrintedSame(a: seq<Element>, b: seq<Element>, first: bool, again: bool)
    requires SameDoc(a, b) && NormalDoc(a)
    ensures Composed(a, All, first) == Composed(b, All, again)
    decreases |a|
  {
    hide FormatElement, Plainly, Squeezed, FieldTexts, NormalFields, NormalValue, IsZero;
    if a != [] {
      assert Same(a[0], b[0]) && NormalElement(a[0]) && NormalDoc(a[1..]);
      forall i | 0 <= i < |a[1..]|
        ensures Same(a[1..][i], b[1..][i])
      {
        assert Same(a[i + 1], b[i + 1]);
      }
      SameIsPrintedSame(a[1..], b[1..], FirstAfter(a[0], first), FirstAfter(b[0], again));
      if a[0].Asked? {
        SameQuestionText(a[0].fields, b[0].fields, first, again);
      }
    }
  }

  lemma SameQuestionText(f: Fields, g: Fields, first: bool, again: bool)
    requires SameFields(f, g) && NormalFields(f)
    ensures QuestionText(f, All, first) == QuestionText(g, All, again)
  {
    hide FormatElement, Plainly, FieldTexts, NormalField;
    NormalKeys(f);
    assert Number in f.vals.Keys && Number in g.vals.Keys;
    SameFieldTexts(f, g, ORDER);
  }

  /** Printing what was parsed back gives the same source again. */
  lemma PrintingIsStable(doc: seq<Element>, game: string)
    requires NormalDoc(doc)
    ensures var source := Composed(doc, All, true); Composed(Parsed(source, game), All, true) == source
  {
    hide Parsed, Composed, SameDoc, NormalDoc;
    RoundTripWithNumbers(doc, game);
    SameIsPrintedSame(doc, Parsed(Composed(doc, All, true), game), true, true);
  }

  // ---- a document that does not come back ----

  const WITH_HANDOUT := Fields(
    [Number, Handout, Question, Answer],
    map[Number := Whole(1), Handout := Text("h"), Question := Text("q"), Answer := Text("a")],
    map[])

  lemma LetterIsNormal(c: char)
    requires !IsSpace(c) && c != '-'
    ensures NormalValue(Text([c])) && !OpensOverride([c])
  {
    LinesOfOneLine([c]);
    ShortHasNoCounter([c]);
    assert BlankAt([c][1..]) == 0;
  }

  lemma OneIsTrimmed()
    ensures WithoutSpaceRight(WithoutSpaceLeft("1")) == "1" && Decimal(1) == "1"
  {
    assert Indent("1") == 0;
    assert WithoutSpaceLeft("1") == "1";
    assert WithoutSpaceRight("1") == "1";
  }

  lemma OneIsCounted()
    ensures Plainly(Whole(1)) == "1" && !IsZero(Whole(1)) && Decimal(1) == "1"
  {
    hide Atoi, Digits, Indent, WithoutSpaceLeft, WithoutSpaceRight, Decimal;
    AtoiOfDecimal(1);
    OneIsTrimmed();
    assert "1"[0] == '1';
  }

  /** With the default numbers even a single question numbered 1 does not come back: its handout is read as an
      element of its own. */
  lemma HandoutIsLost(game: string)
    ensures var doc := [Asked(WITH_HANDOUT)];
            NormalDoc(doc) && !SameDoc(doc, Parsed(Composed(doc, Default, true), game))
  {
    hide Parsed, Composed, SameDoc, IsZero, Plainly, NormalValue, OpensOverride, NoCounter, IsSpace;
    var f, doc := WITH_HANDOUT, [Asked(WITH_HANDOUT)];
    LettersAreNormal();
    OneIsCounted();
    ShortHasNoCounter("1");
    OneIsTidy();
    assert NormalFields(f);
    RoundTrip(doc, Default, game);
  }

  lemma OneIsTidy()
    ensures Tidy("1") && !IsDash("1")
  {
  }

  lemma LettersAreNormal()
    ensures NormalValue(Text("h")) && !OpensOverride("h") && NormalValue(Text("q")) && !OpensOverride("q")
    ensures NormalValue(Text("a")) && !OpensOverride("a")
  {
    LetterIsNormal('h');
    LetterIsNormal('q');
    LetterIsNormal('a');
    assert ['h'] == "h" && ['q'] == "q" && ['a'] == "a";
  }
}
