/** Writing a document as 4s source. */
module SourceComposer {
  import opened Outcomes
  import opened SourceText
  import opened SourceMarkers
  import opened SourceCounters
  import opened SourceParser

  /** Which question numbers are written: those a parser would not count to, all, or none. */
  datatype Numbers = Default | All | Never

  /** Every run of line breaks becomes one. */
  function Squeezed(s: string): string {
    if s == "" then ""
    else if |s| > 1 && s[0] == '\n' && s[1] == '\n' then Squeezed(s[1..])
    else [s[0]] + Squeezed(s[1..])
  }

  function CleanValue(s: string): string {
    EscapeMarkers(Squeezed(s))
  }

  function JoinItems(items: seq<string>): string {
    if items == [] then ""
    else if |items| == 1 then CleanValue(items[0])
    else CleanValue(items[0]) + "\n- " + JoinItems(items[1..])
  }

  function FormatElement(v: Value): string {
    match v
    case Text(s) => CleanValue(s)
    case Items(items) => "\n- " + JoinItems(items)
    case Intro(intro, items) => CleanValue(intro) + "\n- " + JoinItems(items)
    case Whole(n) => Decimal(n)
  }

  function Spaced(items: seq<string>): string {
    if items == [] then "" else if |items| == 1 then items[0] else items[0] + " " + Spaced(items[1..])
  }

  /** A value on one line, as a number is written. */
  function Plainly(v: Value): string {
    match v
    case Text(s) => s
    case Items(items) => "[" + Spaced(items) + "]"
    case Intro(intro, items) => "[" + intro + " [" + Spaced(items) + "]]"
    case Whole(n) => Decimal(n)
  }

  function WithoutSpaceLeft(s: string): (r: string)
    ensures |r| <= |s|
  {
    s[Indent(s)..]
  }

  function WithoutSpaceRight(s: string): (r: string)
    ensures |r| <= |s|
  {
    if s != "" && IsSpace(s[|s| - 1]) then WithoutSpaceRight(s[..|s| - 1]) else s
  }

  function AsNumber(v: Value): Option<int> {
    if v.Whole? then Some(v.n)
    else
      var n := Atoi(WithoutSpaceRight(WithoutSpaceLeft(Plainly(v))));
      if n.1 then Some(n.0) else None
  }

  /** A number that begins with 0, or is none. */
  predicate IsZero(v: Value) {
    "0" <= Plainly(v) || !Atoi(WithoutSpaceRight(WithoutSpaceLeft(Plainly(v)))).1
  }

  /** The line the question's number is written on, if it is written: as the number, or as what to count from. */
  function NumberLine(f: Fields, numbers: Numbers, first: bool): Option<string> {
    if Number !in f.vals then None
    else
      var v := f.vals[Number];
      match numbers
      case All => Some("№ " + Plainly(v))
      case Never => None
      case Default =>
        if IsZero(v) then Some("№ " + Plainly(v))
        else if AsNumber(v).Some? && first && AsNumber(v).value > 1 then Some("№№ " + Plainly(v))
        else None
  }

  /** Whether the next question is still the first with a number other than zero. */
  function StillFirst(f: Fields, first: bool): bool {
    first && (Number in f.vals ==> IsZero(f.vals[Number]))
  }

  const ORDER := [Handout, Question, Answer, Zachet, Nezachet, Comment, Source, Author, Number, SetCounter]

  function OverrideText(f: Fields, k: Kind): string {
    if k in f.overrides then "!!" + f.overrides[k] + " " else ""
  }

  function FieldText(f: Fields, k: Kind): string {
    if Prefix(k).None? || k !in f.vals then ""
    else Prefix(k).value + " " + OverrideText(f, k) + FormatElement(f.vals[k]) + "\n"
  }

  function FieldTexts(f: Fields, order: seq<Kind>): string {
    if order == [] then "" else FieldText(f, order[0]) + FieldTexts(f, order[1..])
  }

  function QuestionText(f: Fields, numbers: Numbers, first: bool): string {
    var line := NumberLine(f, numbers, first);
    (if line.Some? then line.value + "\n" else "") + FieldTexts(f, ORDER)
  }

  function ElementText(e: Element, numbers: Numbers, first: bool): string {
    match e
    case Plain(k, v) =>
      if Prefix(k).None? then "" else Prefix(k).value + " " + FormatElement(v) + "\n\n"
    case Asked(f) => Squeezed(QuestionText(f, numbers, first)) + "\n"
  }

  function FirstAfter(e: Element, first: bool): bool {
    if e.Asked? then StillFirst(e.fields, first) else first
  }

  /** The source of a document. */
  function Composed(doc: seq<Element>, numbers: Numbers, first: bool): string
    decreases |doc|
  {
    if doc == [] then ""
    else ElementText(doc[0], numbers, first) + Composed(doc[1..], numbers, FirstAfter(doc[0], first))
  }

  method Compose(doc: seq<Element>, numbers: Numbers) returns (out: string)
    ensures out == Composed(doc, numbers, true)
  {
    hide ElementText, NumberLine, IsZero, Plainly, AsNumber, FormatElement, Squeezed;
    out := "";
    var first := true;
    for i := 0 to |doc|
      invariant out + Composed(doc[i..], numbers, first) == Composed(doc, numbers, true)
    {
      var e := doc[i];
      assert doc[i..][0] == e && doc[i..][1..] == doc[i + 1..];
      ghost var before, was := out, first;
      if e.Plain? {
        PlainElement(e, numbers, first);
        if Prefix(e.kind).Some? {
          out := out + (Prefix(e.kind).value + " " + FormatElement(e.value) + "\n\n");
        }
      } else {
        var text := ComposeQuestion(e.fields, numbers, first);
        AskedElement(e, numbers, first);
        out := out + (Squeezed(text) + "\n");
        if Number in e.fields.vals && !IsZero(e.fields.vals[Number]) {
          first := false;
        }
      }
      Grown(before, ElementText(e, numbers, was), Composed(doc[i + 1..], numbers, first));
    }
    assert Composed(doc[|doc|..], numbers, first) == "";
  }

  lemma PlainElement(e: Element, numbers: Numbers, first: bool)
    requires e.Plain?
    ensures ElementText(e, numbers, first) ==
            if Prefix(e.kind).None? then "" else Prefix(e.kind).value + " " + FormatElement(e.value) + "\n\n"
  {
  }

  lemma AskedElement(e: Element, numbers: Numbers, first: bool)
    requires e.Asked?
    ensures ElementText(e, numbers, first) == Squeezed(QuestionText(e.fields, numbers, first)) + "\n"
  {
  }

  lemma Grown(a: string, b: string, c: string)
    ensures a + b + c == a + (b + c)
  {
  }

  method ComposeQuestion(f: Fields, numbers: Numbers, first: bool) returns (text: string)
    ensures text == QuestionText(f, numbers, first)
  {
    hide IsZero, Plainly, AsNumber, FieldTexts;
    text := "";
    if Number in f.vals {
      var v := f.vals[Number];
      match numbers {
        case All => text := "№ " + Plainly(v) + "\n";
        case Never =>
        case Default =>
          if IsZero(v) {
            text := "№ " + Plainly(v) + "\n";
          } else if AsNumber(v).Some? && first && AsNumber(v).value > 1 {
            text := "№№ " + Plainly(v) + "\n";
          }
      }
    }
    var fields := ComposeFields(f, ORDER);
    text := text + fields;
  }

  lemma NextField(f: Fields, order: seq<Kind>, j: nat)
    requires j <= |order|
    ensures FieldTexts(f, order[j..]) ==
            if j == |order| then "" else FieldText(f, order[j]) + FieldTexts(f, order[j + 1..])
  {
    if j < |order| {
      assert order[j..][0] == order[j] && order[j..][1..] == order[j + 1..];
    }
  }

  method ComposeFields(f: Fields, order: seq<Kind>) returns (text: string)
    ensures text == FieldTexts(f, order)
  {
    hide FormatElement, Prefix, OverrideText, FieldTexts;
    text := "";
    for j := 0 to |order|
      invariant text + FieldTexts(f, order[j..]) == FieldTexts(f, order)
    {
      var k := order[j];
      NextField(f, order, j);
      Grown(text, FieldText(f, k), FieldTexts(f, order[j + 1..]));
      if Prefix(k).Some? && k in f.vals {
        text := text + (Prefix(k).value + " " + OverrideText(f, k) + FormatElement(f.vals[k]) + "\n");
      }
    }
    NextField(f, order, |order|);
  }
}
