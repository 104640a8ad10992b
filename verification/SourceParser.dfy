/** Reading 4s source: raw elements line by line, then lists, questions and overrides. */
module SourceParser {
  import opened Outcomes
  import opened SourceText
  import opened SourceMarkers
  import opened SourceCounters

  /** A text, a list, a list after an introduction, or a number given by the parser. */
  datatype Value = Text(text: string) | Items(items: seq<string>) | Intro(intro: string, items: seq<string>) | Whole(n: int)

  // ---- raw elements ----

  datatype Raw = Raw(kind: Kind, content: string)

  /** A line with a marker begins an element; any other continues the last one. */
  function AddLine(raws: seq<Raw>, line: string): seq<Raw> {
    var first := FirstField(line);
    if Rew(line) == "" || first.None? then raws + [Raw(Blank, "")]
    else if KindOf(first.value).Some? then raws + [Raw(KindOf(first.value).value, Rew(line[|first.value|..]))]
    else if raws == [] then raws
    else
      var last := raws[|raws| - 1];
      raws[..|raws| - 1] + [Raw(last.kind, last.content + "\n" + UnescapeLine(line).0)]
  }

  function AddLines(raws: seq<Raw>, lines: seq<string>): seq<Raw>
    decreases |lines|
  {
    if lines == [] then raws else AddLines(AddLine(raws, lines[0]), lines[1..])
  }

  // ---- lists ----

  predicate IsDash(line: string) {
    line != "" && line[0] == '-'
  }

  /** The first line that opens with a dash, or the number of lines. */
  function NextDash(lines: seq<string>): (n: nat)
    ensures n <= |lines| && (n < |lines| ==> IsDash(lines[n]))
    ensures forall k :: 0 <= k < n ==> !IsDash(lines[k])
  {
    if lines == [] || IsDash(lines[0]) then 0 else 1 + NextDash(lines[1..])
  }

  /** The items: each reaches from its dash to the next. */
  function Chunks(lines: seq<string>): (r: seq<string>)
    ensures lines != [] ==> r != []
  {
    if lines == [] then []
    else
      var n := 1 + NextDash(lines[1..]);
      [Item(Joined(lines[..n]))] + Chunks(lines[n..])
  }

  /** The item without its dash. */
  function Item(chunk: string): string {
    Rew(if chunk == "" then "" else chunk[1..])
  }

  function DashRun(s: string): (n: nat)
    ensures n <= |s|
  {
    if |s| >= 2 && s[0] == '-' && s[1] == ' ' then 1 + BlankRun(s[1..]) else 0
  }

  function BlankRun(s: string): (n: nat)
    ensures n <= |s|
  {
    if s != "" && s[0] == ' ' then 1 + BlankRun(s[1..]) else 0
  }

  function WithoutLaterDashes(s: string): string {
    if s == "" then ""
    else if s[0] == '\n' then "\n" + WithoutLaterDashes(s[1 + DashRun(s[1..])..])
    else [s[0]] + WithoutLaterDashes(s[1..])
  }

  /** The text without the dash and the blanks at the head of its lines. */
  function WithoutDashes(s: string): string {
    WithoutLaterDashes(s[DashRun(s)..])
  }

  function Trimmed(lines: seq<string>): (r: seq<string>)
    ensures |r| == |lines| && forall k :: 0 <= k < |lines| ==> r[k] == Rew(lines[k])
  {
    seq(|lines|, k requires 0 <= k < |lines| => Rew(lines[k]))
  }

  /** Text whose lines open with dashes is a list, unless only one does. */
  function Listed(s: string): Value {
    if '-' !in s then Text(s)
    else
      var lines := Trimmed(Lines(s));
      var m := NextDash(lines);
      var items := Chunks(lines[m..]);
      if m == |lines| then Text(s)
      else if |items| == 1 then Text(Rew(WithoutDashes(s)))
      else if Joined(lines[..m]) != "" then Intro(Joined(lines[..m]), items)
      else Items(items)
  }

  lemma {:induction false} NextDashIs(lines: seq<string>, n: nat)
    requires n <= |lines| && (n < |lines| ==> IsDash(lines[n])) && forall k :: 0 <= k < n ==> !IsDash(lines[k])
    ensures NextDash(lines) == n
  {
  }

  ghost predicate DashPositions(lines: seq<string>, upTo: nat, marks: seq<nat>) {
    && (forall j, k :: 0 <= j < k < |marks| ==> marks[j] < marks[k])
    && (forall j :: 0 <= j < |marks| ==> marks[j] < upTo <= |lines| && IsDash(lines[marks[j]]))
    && (forall k :: 0 <= k < upTo <= |lines| && IsDash(lines[k]) ==> k in marks)
  }

  lemma NoDashBetween(lines: seq<string>, marks: seq<nat>, j: nat, k: nat)
    requires DashPositions(lines, |lines|, marks) && j < |marks|
    requires (if j > 0 then marks[j - 1] else -1) < k < marks[j]
    ensures !IsDash(lines[k])
  {
    hide IsDash;
    assert forall i :: 0 <= i < j - 1 ==> marks[i] < marks[j - 1];
    assert forall i :: j < i < |marks| ==> marks[j] < marks[i];
  }

  lemma NoDashAfter(lines: seq<string>, marks: seq<nat>, k: nat)
    requires DashPositions(lines, |lines|, marks) && marks != [] && marks[|marks| - 1] < k < |lines|
    ensures !IsDash(lines[k])
  {
    hide IsDash;
    assert forall i :: 0 <= i < |marks| ==> marks[i] <= marks[|marks| - 1];
  }

  /** Between two dash lines there is none. */
  lemma MarksAreNext(lines: seq<string>, marks: seq<nat>, j: nat)
    requires DashPositions(lines, |lines|, marks) && j < |marks|
    ensures var m, e := marks[j], if j + 1 < |marks| then marks[j + 1] else |lines|;
            m < e <= |lines| && 1 + NextDash(lines[m + 1..]) == e - m
  {
    hide IsDash;
    var m, e := marks[j], if j + 1 < |marks| then marks[j + 1] else |lines|;
    assert m < e;
    var rest := lines[m + 1..];
    forall k | 0 <= k < e - m - 1
      ensures !IsDash(rest[k])
    {
      if j + 1 < |marks| {
        NoDashBetween(lines, marks, j + 1, m + 1 + k);
      } else {
        NoDashAfter(lines, marks, m + 1 + k);
      }
      assert rest[k] == lines[m + 1 + k];
    }
    NextDashIs(rest, e - m - 1);
  }

  lemma FirstMark(lines: seq<string>, marks: seq<nat>)
    requires DashPositions(lines, |lines|, marks) && marks != []
    ensures NextDash(lines) == marks[0] < |lines|
  {
    hide IsDash;
    forall k | 0 <= k < marks[0]
      ensures !IsDash(lines[k])
    {
      NoDashBetween(lines, marks, 0, k);
    }
    NextDashIs(lines, marks[0]);
  }

  method ProcessList(s: string) returns (v: Value)
    ensures v == Listed(s)
  {
    hide IsDash, Rew, Item, WithoutDashes, Joined, Chunks, Lines, DashPositions;
    if '-' !in s {
      return Text(s);
    }
    var lines := Trimmed(Lines(s));
    var marks := DashLines(lines);
    if |marks| == 0 {
      NoMark(lines);
      return Text(s);
    }
    FirstMark(lines, marks);
    var intro := Joined(lines[..marks[0]]);
    var inner := ItemsAt(lines, marks);
    if |inner| == 1 {
      v := Text(Rew(WithoutDashes(s)));
    } else if intro != "" {
      v := Intro(intro, inner);
    } else {
      v := Items(inner);
    }
  }

  lemma NoMark(lines: seq<string>)
    requires DashPositions(lines, |lines|, [])
    ensures NextDash(lines) == |lines|
  {
    NextDashIs(lines, |lines|);
  }

  method DashLines(lines: seq<string>) returns (marks: seq<nat>)
    ensures DashPositions(lines, |lines|, marks)
  {
    hide IsDash;
    marks := [];
    for i := 0 to |lines|
      invariant DashPositions(lines, i, marks)
    {
      if IsDash(lines[i]) {
        marks := marks + [i];
      }
    }
  }

  method ItemsAt(lines: seq<string>, marks: seq<nat>) returns (inner: seq<string>)
    requires DashPositions(lines, |lines|, marks) && marks != []
    ensures inner == Chunks(lines[marks[0]..])
  {
    hide IsDash, Item, Joined, Chunks;
    inner := [];
    for j := 0 to |marks|
      invariant |inner| == j
      invariant j < |marks| ==> Chunks(lines[marks[0]..]) == inner + Chunks(lines[marks[j]..])
      invariant j == |marks| ==> Chunks(lines[marks[0]..]) == inner
    {
      MarksAreNext(lines, marks, j);
      var e := if j + 1 == |marks| then |lines| else marks[j + 1];
      NextChunk(lines, marks[j], e);
      inner := inner + [Item(Joined(lines[marks[j]..e]))];
    }
  }

  lemma NextChunk(lines: seq<string>, m: nat, e: nat)
    requires m < e <= |lines| && 1 + NextDash(lines[m + 1..]) == e - m
    ensures Chunks(lines[m..]) == [Item(Joined(lines[m..e]))] + if e == |lines| then [] else Chunks(lines[e..])
  {
    hide Item, Joined, NextDash;
    var rest := lines[m..];
    assert rest[1..] == lines[m + 1..] && rest[..e - m] == lines[m..e] && rest[e - m..] == lines[e..];
  }

  // ---- questions ----

  /** The fields of a question in the order they were set, and the labels that replace the usual ones. */
  datatype Fields = Fields(keys: seq<Kind>, vals: map<Kind, Value>, overrides: map<Kind, string>)

  const NO_FIELDS := Fields([], map[], map[])

  function SetField(f: Fields, k: Kind, v: Value): Fields {
    f.(keys := if k in f.vals then f.keys else f.keys + [k], vals := f.vals[k := v])
  }

  function WithoutKey(keys: seq<Kind>, k: Kind): (r: seq<Kind>)
    ensures |r| <= |keys|
  {
    if keys == [] then [] else if keys[0] == k then keys[1..] else [keys[0]] + WithoutKey(keys[1..], k)
  }

  function DeleteField(f: Fields, k: Kind): Fields {
    if k !in f.vals then f else f.(keys := WithoutKey(f.keys, k), vals := f.vals - {k})
  }

  /** The keys are the fields, each once. */
  ghost predicate Consistent(f: Fields) {
    && (forall j, k :: 0 <= j < k < |f.keys| ==> f.keys[j] != f.keys[k])
    && (forall k :: k in f.keys <==> k in f.vals)
  }

  lemma {:induction false} WithoutNewKey(keys: seq<Kind>, k: Kind)
    requires k !in keys
    ensures WithoutKey(keys + [k], k) == keys
  {
    if keys != [] {
      WithoutNewKey(keys[1..], k);
      assert (keys + [k])[1..] == keys[1..] + [k];
    }
  }

  lemma {:induction false} WithoutKeyAt(keys: seq<Kind>, k: Kind, i: nat)
    requires i < |keys| && keys[i] == k && k !in keys[..i]
    ensures WithoutKey(keys, k) == keys[..i] + keys[i + 1..]
  {
    if i > 0 {
      assert keys[1..][..i - 1] == keys[..i][1..];
      WithoutKeyAt(keys[1..], k, i - 1);
    }
  }

  /** Deleting a field that was just set undoes the setting; setting keeps the keys consistent. */
  lemma DeleteUndoesSet(f: Fields, k: Kind, v: Value)
    requires Consistent(f)
    ensures Consistent(SetField(f, k, v))
    ensures k !in f.vals ==> DeleteField(SetField(f, k, v), k) == f
  {
    if k !in f.vals {
      WithoutNewKey(f.keys, k);
      assert f.vals[k := v] - {k} == f.vals;
    }
  }

  /** A question under construction. */
  class Draft {
    var keys: seq<Kind>
    var vals: map<Kind, Value>

    ghost predicate Valid()
      reads this
    {
      Consistent(Contents())
    }

    function Contents(): Fields
      reads this
    {
      Fields(keys, vals, map[])
    }

    constructor ()
      ensures Contents() == NO_FIELDS && Valid()
    {
      keys, vals := [], map[];
    }

    method Set(k: Kind, v: Value)
      requires Valid()
      modifies this
      ensures Contents() == SetField(old(Contents()), k, v) && Valid()
    {
      DeleteUndoesSet(Contents(), k, v);
      if k !in vals {
        keys := keys + [k];
      }
      vals := vals[k := v];
    }

    method Delete(k: Kind)
      requires Valid()
      modifies this
      ensures Contents() == DeleteField(old(Contents()), k)
    {
      if k !in vals {
        return;
      }
      vals := vals - {k};
      for i := 0 to |keys|
        invariant k !in keys[..i] && keys == old(keys)
      {
        if keys[i] == k {
          WithoutKeyAt(keys, k, i);
          keys := keys[..i] + keys[i + 1..];
          break;
        }
      }
    }
  }

  /** The text of a value that is one. */
  function AsText(v: Value): string {
    if v.Text? then v.text else ""
  }

  /** A field given twice: texts are joined by a line break, and a list takes a text into its first entry. */
  function Merged(cur: Value, more: Value): Value {
    match (cur, more)
    case (Text(a), Text(b)) => Text(a + "\n" + b)
    case (Items(a), Text(b)) => if a == [] then cur else Items([a[0] + "\n" + b] + a[1..])
    case (Intro(a, items), Text(b)) => Intro(a + "\n" + b, items)
    case (Text(a), Items(b)) => if |b| >= 2 then Items([b[0] + "\n" + a, b[1]]) else more
    case (Text(a), Intro(b, items)) => Intro(b + "\n" + a, items)
    case (Items(a), Items(b)) => if |a| < 2 || |b| < 2 then cur else Items([a[0] + "\n" + b[0]] + a[1..])
    case (Items(a), Intro(b, _)) => if |a| < 2 then cur else Items([a[0] + "\n" + b] + a[1..])
    case (Intro(a, items), Items(b)) => if |b| < 2 then cur else Intro(a + "\n" + b[0], items)
    case (Intro(a, items), Intro(b, more)) => Intro(a + "\n" + b, items + more)
    case _ => cur
  }

  // ---- the document ----

  datatype Element = Plain(kind: Kind, value: Value) | Asked(fields: Fields)

  datatype State = State(final: seq<Element>, current: Fields, counter: int)

  predicate IsLabel(k: Kind) {
    k in {Handout, Question, Answer, Zachet, Nezachet, Comment, Source, Author, Number, SetCounter}
  }

  /** A question counts once it has both a question and an answer. */
  predicate IsComplete(f: Fields) {
    Question in f.vals && Answer in f.vals
  }

  function CounterSet(f: Fields, counter: int): int {
    if SetCounter in f.vals && Atoi(AsText(f.vals[SetCounter])).1 then Atoi(AsText(f.vals[SetCounter])).0 else counter
  }

  function Numbered(f: Fields, counter: int): Fields {
    if Number in f.vals then f else SetField(f, Number, Whole(counter))
  }

  /** The question is finished, if it is complete; else it goes on. */
  function Emitted(st: State): State {
    var f := st.current;
    if !IsComplete(f) then st
    else
      var counter := CounterSet(f, st.counter);
      State(st.final + [Asked(Numbered(f, counter))], NO_FIELDS, if Number in f.vals then counter else Wrapped(counter + 1))
  }

  lemma EmittedOrNot(st: State)
    ensures if IsComplete(st.current) then Emitted(st).current == NO_FIELDS else Emitted(st) == st
  {
  }

  const THEME_FIRST := 10

  /** Where the numbering goes on after an element that is not part of a question. */
  function CounterAfter(k: Kind, game: string, counter: int): int {
    if k == Theme then if game == "troika" then 1 else THEME_FIRST
    else if (game == "brain" || game == "troika") && (k == Battle || k == Section) then 1
    else counter
  }

  function Step(st: State, raw: Raw, game: string): State {
    var v, k := Listed(raw.content), raw.kind;
    if IsLabel(k) then
      if st.current.keys == [] && k !in {Question, Answer, Number, SetCounter} then
        st.(final := st.final + [Plain(k, v)])
      else if k in st.current.vals then st.(current := SetField(st.current, k, Merged(st.current.vals[k], v)))
      else st.(current := SetField(st.current, k, v))
    else if k == Blank then
      if st.current.keys != [] && st.current.keys != [SetCounter] then Emitted(st) else st
    else State(st.final + [Plain(k, v)], st.current, CounterAfter(k, game, st.counter))
  }

  function Run(st: State, raws: seq<Raw>, game: string): State
    decreases |raws|
  {
    if raws == [] then st else Run(Step(st, raws[0], game), raws[1..], game)
  }

  const START := State([], NO_FIELDS, 1)

  function Finished(st: State): seq<Element> {
    if st.current.keys == [] then st.final else Emitted(st).final
  }

  // ---- overrides ----

  /** Where the first blank is, or the length. */
  function BlankAt(s: string): (n: nat)
    ensures n <= |s| && (n < |s| ==> s[n] == ' ') && ' ' !in s[..n]
  {
    if s == "" || s[0] == ' ' then 0 else
      (assert s[..1 + BlankAt(s[1..])] == [s[0]] + s[1..][..BlankAt(s[1..])];
       1 + BlankAt(s[1..]))
  }

  function TildesToBlanks(s: string): string {
    if s == "" then "" else [if s[0] == '~' then ' ' else s[0]] + TildesToBlanks(s[1..])
  }

  /** The first text of a value. */
  function HeadOf(v: Value): string {
    match v
    case Text(s) => s
    case Items(items) => if items == [] then "" else items[0]
    case Intro(s, _) => s
    case Whole(_) => ""
  }

  function WithHead(v: Value, s: string): Value {
    match v
    case Text(_) => Text(s)
    case Items(items) => if items == [] then v else Items([s] + items[1..])
    case Intro(_, items) => Intro(s, items)
    case Whole(_) => Text(s)
  }

  /** A first word that opens with two exclamation marks names the field. */
  function Override(f: Fields, k: Kind): Fields {
    if k !in f.vals then f
    else
      var s := HeadOf(f.vals[k]);
      var n := BlankAt(s);
      if n == |s| || !("!!" <= s[..n]) then f
      else
        f.(vals := f.vals[k := WithHead(f.vals[k], s[n + 1..])],
           overrides := f.overrides[k := TildesToBlanks(s[2..n])])
  }

  const OVERRIDE_ORDER := [Handout, Question, Answer, Zachet, Nezachet, Comment, Source, Author]

  function OverrideAll(f: Fields, order: seq<Kind>): Fields
    decreases |order|
  {
    if order == [] then f else OverrideAll(Override(f, order[0]), order[1..])
  }

  function OverrideElement(e: Element): Element {
    if e.Asked? then Asked(OverrideAll(e.fields, OVERRIDE_ORDER)) else e
  }

  function Overridden(doc: seq<Element>): (r: seq<Element>)
    ensures |r| == |doc| && forall k :: 0 <= k < |doc| ==> r[k] == OverrideElement(doc[k])
  {
    seq(|doc|, k requires 0 <= k < |doc| => OverrideElement(doc[k]))
  }

  // ---- parsing ----

  function WithoutMark(s: string): string {
    if |s| > 1 && s[0] == '\U{FEFF}' then s[1..] else s
  }

  /** The document a source spells. */
  function Parsed(source: string, game: string): seq<Element> {
    var s := ReplaceFrom(WithoutMark(source), map[]);
    Overridden(Finished(Run(START, AddLines([], Lines(s)), game)))
  }

  method ReadLines(s: string) returns (raws: seq<Raw>)
    ensures raws == AddLines([], Lines(s))
  {
    hide AddLine;
    var lines := Lines(s);
    raws := [];
    for i := 0 to |lines|
      invariant AddLines(raws, lines[i..]) == AddLines([], lines)
    {
      assert lines[i..][0] == lines[i] && lines[i..][1..] == lines[i + 1..];
      raws := AddLine(raws, lines[i]);
    }
  }

  method Emit(current: Draft, final: seq<Element>, counter: int) returns (done: bool, f: seq<Element>, c: int)
    requires current.Valid()
    modifies current
    ensures done <==> IsComplete(old(current.Contents()))
    ensures !done ==> current.Contents() == old(current.Contents()) && current.Valid()
    ensures var out := Emitted(State(final, old(current.Contents()), counter)); f == out.final && c == out.counter
  {
    f, c := final, counter;
    if Question !in current.vals || Answer !in current.vals {
      return false, f, c;
    }
    if SetCounter in current.vals {
      var n := Atoi(AsText(current.vals[SetCounter]));
      if n.1 {
        c := n.0;
      }
    }
    if Number !in current.vals {
      current.Set(Number, Whole(c));
      c := Wrapped(c + 1);
    }
    f := f + [Asked(current.Contents())];
    done := true;
  }

  method Parse(source: string, game: string) returns (doc: seq<Element>)
    ensures doc == Parsed(source, game)
  {
    hide Listed, Emitted, AddLines, OverrideElement, ReplaceFrom;
    var s := ReplaceCounters(WithoutMark(source));
    var raws := ReadLines(s);
    var final: seq<Element>, counter := [], 1;
    var current := new Draft();
    for i := 0 to |raws|
      invariant current.Valid() && fresh(current)
      invariant Run(State(final, current.Contents(), counter), raws[i..], game) == Run(START, raws, game)
    {
      var before := State(final, current.Contents(), counter);
      var k := raws[i].kind;
      assert raws[i..][0] == raws[i] && raws[i..][1..] == raws[i + 1..];
      var v := ProcessList(raws[i].content);
      if IsLabel(k) {
        if current.keys == [] && k !in {Question, Answer, Number, SetCounter} {
          final := final + [Plain(k, v)];
        } else if k in current.vals {
          current.Set(k, Merged(current.vals[k], v));
        } else {
          current.Set(k, v);
        }
      } else if k == Blank {
        if current.keys != [] && current.keys != [SetCounter] {
          EmittedOrNot(before);
          var done;
          done, final, counter := Emit(current, final, counter);
          if done {
            current := new Draft();
          }
        }
      } else {
        counter := CounterAfter(k, game, counter);
        final := final + [Plain(k, v)];
      }
      assert State(final, current.Contents(), counter) == Step(before, raws[i], game);
    }
    if current.keys != [] {
      var done;
      done, final, counter := Emit(current, final, counter);
    }
    doc := ApplyOverrides(final);
  }

  method ApplyOverrides(final: seq<Element>) returns (doc: seq<Element>)
    ensures doc == Overridden(final)
  {
    hide Override;
    doc := final;
    for i := 0 to |final|
      invariant |doc| == |final|
      invariant forall k :: 0 <= k < i ==> doc[k] == OverrideElement(final[k])
      invariant forall k :: i <= k < |final| ==> doc[k] == final[k]
    {
      if doc[i].Asked? {
        var f := doc[i].fields;
        for j := 0 to |OVERRIDE_ORDER|
          invariant OverrideAll(f, OVERRIDE_ORDER[j..]) == OverrideAll(final[i].fields, OVERRIDE_ORDER)
        {
          assert OVERRIDE_ORDER[j..][0] == OVERRIDE_ORDER[j] && OVERRIDE_ORDER[j..][1..] == OVERRIDE_ORDER[j + 1..];
          f := Override(f, OVERRIDE_ORDER[j]);
        }
        doc := doc[i := Asked(f)];
      }
    }
    assert doc == Overridden(final);
  }
}
