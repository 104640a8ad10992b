/** Which numbers are written in front of a question, told from their text alone. */
module SourceNumbers {
  import opened Sequences
  import opened Outcomes
  import opened SourceText
  import opened SourceMarkers
  import opened SourceCounters
  import opened SourceParser
  import opened SourceComposer
  import opened SourceValues
  import opened SourceRoundTrip
  import opened SourceReparse
  import opened SourceKeeps

  // ---- texts that spell a number ----

  predicate Spaces(s: string) {
    forall i :: 0 <= i < |s| ==> IsSpace(s[i])
  }

  /** Digits with or without a sign, and the 64-bit number they spell. */
  ghost predicate SpellsTight(t: string, n: int) {
    exists sign: string, ds: string ::
      && t == sign + ds && sign in {"", "+", "-"} && AllDigits(ds)
      && n == (if sign == "-" then 0 - DigitsValue(ds) else DigitsValue(ds)) && MIN_INT <= n <= MAX_INT
  }

  /** The same with space around it. */
  ghost predicate Spells(s: string, n: int) {
    exists a: string, t: string, b: string :: s == a + t + b && Spaces(a) && Spaces(b) && SpellsTight(t, n)
  }

  ghost predicate SpellsNumber(s: string) {
    exists n :: Spells(s, n)
  }

  lemma AtoiExactly(t: string, n: int)
    ensures Atoi(t) == (n, true) <==> SpellsTight(t, n)
  {
    hide DigitsValue;
    if Atoi(t) == (n, true) {
      var sign := if t != "" && (t[0] == '-' || t[0] == '+') then t[..1] else "";
      var ds := t[|sign|..];
      assert t == sign + ds;
      assert sign == "" || sign == [t[0]];
    }
    if SpellsTight(t, n) {
      var sign: string, ds: string :|
        && t == sign + ds && sign in {"", "+", "-"} && AllDigits(ds)
        && n == (if sign == "-" then 0 - DigitsValue(ds) else DigitsValue(ds)) && MIN_INT <= n <= MAX_INT;
      assert IsDigit(ds[0]);
      assert t[|sign|..] == ds;
    }
  }

  lemma {:induction false} RightTrimmed(s: string)
    ensures exists b: string :: s == WithoutSpaceRight(s) + b && Spaces(b)
    ensures WithoutSpaceRight(s) == "" || !IsSpace(WithoutSpaceRight(s)[|WithoutSpaceRight(s)| - 1])
  {
    if s != "" && IsSpace(s[|s| - 1]) {
      var front := s[..|s| - 1];
      RightTrimmed(front);
      var b: string :| front == WithoutSpaceRight(front) + b && Spaces(b);
      assert s == WithoutSpaceRight(s) + (b + [s[|s| - 1]]);
      assert Spaces(b + [s[|s| - 1]]);
    } else {
      assert s == WithoutSpaceRight(s) + "" && Spaces("");
    }
  }

  lemma {:induction false} RightTrimmedIs(t: string, b: string)
    requires Spaces(b) && t != "" && !IsSpace(t[|t| - 1])
    ensures WithoutSpaceRight(t + b) == t
  {
    if b == "" {
      assert t + b == t;
    } else {
      assert (t + b)[..|t + b| - 1] == t + b[..|b| - 1];
      RightTrimmedIs(t, b[..|b| - 1]);
    }
  }

  lemma {:induction false} IndentIs(a: string, t: string)
    requires Spaces(a) && t != "" && !IsSpace(t[0])
    ensures Indent(a + t) == |a|
  {
    if a != "" {
      assert (a + t)[1..] == a[1..] + t;
      IndentIs(a[1..], t);
    } else {
      assert a + t == t;
    }
  }

  lemma {:induction false} IndentIsSpace(s: string)
    ensures Spaces(s[..Indent(s)])
  {
    if s != "" && IsSpace(s[0]) {
      IndentIsSpace(s[1..]);
      assert s[..Indent(s)] == [s[0]] + s[1..][..Indent(s[1..])];
    }
  }

  lemma TightIsDense(t: string, n: int)
    requires SpellsTight(t, n)
    ensures t != "" && !IsSpace(t[0]) && !IsSpace(t[|t| - 1])
  {
    hide DigitsValue;
    var sign: string, ds: string :|
      && t == sign + ds && sign in {"", "+", "-"} && AllDigits(ds)
      && n == (if sign == "-" then 0 - DigitsValue(ds) else DigitsValue(ds)) && MIN_INT <= n <= MAX_INT;
    assert IsDigit(ds[0]) && IsDigit(ds[|ds| - 1]);
    assert t[|t| - 1] == ds[|ds| - 1];
  }

  /** Trimming the text and reading it as a number finds the number it spells, and none when it spells none. */
  lemma NumberExactly(s: string, n: int)
    ensures Atoi(WithoutSpaceRight(WithoutSpaceLeft(s))) == (n, true) <==> Spells(s, n)
  {
    hide Atoi, SpellsTight, IsSpace;
    var left := WithoutSpaceLeft(s);
    var t := WithoutSpaceRight(left);
    AtoiExactly(t, n);
    if SpellsTight(t, n) {
      IndentIsSpace(s);
      RightTrimmed(left);
      var b: string :| left == t + b && Spaces(b);
      assert s == s[..Indent(s)] + t + b;
    }
    if Spells(s, n) {
      var a: string, u: string, b: string :| s == a + u + b && Spaces(a) && Spaces(b) && SpellsTight(u, n);
      TightIsDense(u, n);
      assert s == a + (u + b) && (u + b)[0] == u[0];
      IndentIs(a, u + b);
      assert left == u + b;
      RightTrimmedIs(u, b);
    }
  }

  lemma DecimalSpells(n: int)
    requires MIN_INT <= n <= MAX_INT
    ensures Spells(Decimal(n), n) && forall m :: Spells(Decimal(n), m) ==> m == n
    ensures "0" <= Decimal(n) <==> n == 0
  {
    hide Atoi, Decimal, WithoutSpaceLeft, WithoutSpaceRight, SpellsTight;
    AtoiOfDecimal(n);
    AtoiExactly(Decimal(n), n);
    assert Decimal(n) == "" + Decimal(n) + "";
    assert Spaces("");
    forall m | Spells(Decimal(n), m)
      ensures m == n
    {
      NumberExactly(Decimal(n), m);
      NumberExactly(Decimal(n), n);
    }
    LeadingZero(n);
  }

  lemma LeadingZero(n: int)
    ensures "0" <= Decimal(n) <==> n == 0
  {
    if n < 0 {
      assert Decimal(n)[0] == '-';
    } else {
      DigitsHead(n);
    }
  }

  lemma {:induction false} DigitsHead(n: nat)
    ensures Digits(n) != "" && (Digits(n)[0] == '0' <==> n == 0)
  {
    if n >= 10 {
      DigitsHead(n / 10);
    }
  }

  // ---- the number line ----

  /** A number that counts: it does not open with 0, and is one. */
  ghost predicate Counts(s: string) {
    !("0" <= s) && SpellsNumber(s)
  }

  lemma ZeroExactly(v: Value)
    ensures IsZero(v) <==> !Counts(Plainly(v))
  {
    hide Atoi, Spells, WithoutSpaceRight, WithoutSpaceLeft, Plainly;
    var s := Plainly(v);
    var n := Atoi(WithoutSpaceRight(WithoutSpaceLeft(s)));
    NumberExactly(s, n.0);
    if SpellsNumber(s) {
      var m :| Spells(s, m);
      NumberExactly(s, m);
    }
  }

  /** A number given by the parser fits 64 bits. */
  predicate Fits(v: Value) {
    v.Whole? ==> MIN_INT <= v.n <= MAX_INT
  }

  lemma AsNumberExactly(v: Value, n: int)
    requires Fits(v)
    ensures AsNumber(v) == Some(n) <==> Spells(Plainly(v), n)
  {
    hide Atoi, Spells, WithoutSpaceRight, WithoutSpaceLeft, Decimal;
    if v.Whole? {
      DecimalSpells(v.n);
    } else {
      NumberExactly(Plainly(v), n);
    }
  }

  /** With the default numbers: a text that opens with 0 or spells no number is written as the number, a number above
      1 on the first question that counts as what to count from, and no other. */
  lemma NumberLineExactly(f: Fields, first: bool)
    requires Number in f.vals && Fits(f.vals[Number])
    ensures var s, line := Plainly(f.vals[Number]), NumberLine(f, Default, first);
            && (line == Some("№ " + s) <==> "0" <= s || !SpellsNumber(s))
            && (line == Some("№№ " + s) <==> !("0" <= s) && first && exists n :: n > 1 && Spells(s, n))
            && (line.Some? ==> line.value in {"№ " + s, "№№ " + s})
  {
    hide IsZero, AsNumber, Plainly, Spells;
    var v := f.vals[Number];
    var s := Plainly(v);
    ZeroExactly(v);
    assert ("№ " + s)[1] == ' ' && ("№№ " + s)[1] == '№';
    if AsNumber(v).Some? {
      AsNumberExactly(v, AsNumber(v).value);
    }
    forall n
      ensures AsNumber(v) == Some(n) <==> Spells(s, n)
    {
      AsNumberExactly(v, n);
    }
  }

  /** A number as the parser counts: 0 is always written, the first one above 1 as what to count from, and no other. */
  lemma CountedLine(f: Fields, n: int, first: bool)
    requires Number in f.vals && Plainly(f.vals[Number]) == Decimal(n) && MIN_INT <= n <= MAX_INT && Fits(f.vals[Number])
    ensures NumberLine(f, Default, first) ==
            if n == 0 then Some("№ " + Decimal(n)) else if n > 1 && first then Some("№№ " + Decimal(n)) else None
  {
    hide NumberLine, Plainly, Spells, Decimal;
    DecimalSpells(n);
    NumberLineExactly(f, first);
  }

  // ---- the first question that counts ----

  /** No question before the i-th element has a number that counts. */
  ghost predicate NoneCounts(doc: seq<Element>, i: nat)
    requires i <= |doc|
  {
    forall j :: 0 <= j < i && doc[j].Asked? && Number in doc[j].fields.vals ==> !Counts(Plainly(doc[j].fields.vals[Number]))
  }

  function Texts(doc: seq<Element>, numbers: Numbers, firsts: seq<bool>): (r: seq<string>)
    requires |firsts| == |doc|
    ensures |r| == |doc| && forall i :: 0 <= i < |r| ==> r[i] == ElementText(doc[i], numbers, firsts[i])
  {
    seq(|doc|, i requires 0 <= i < |doc| => ElementText(doc[i], numbers, firsts[i]))
  }

  ghost function Firsts(doc: seq<Element>): (r: seq<bool>)
    ensures |r| == |doc| && forall i :: 0 <= i < |r| ==> r[i] == NoneCounts(doc, i)
  {
    seq(|doc|, i requires 0 <= i < |doc| => NoneCounts(doc, i))
  }

  lemma {:induction false} ComposedBoth(a: seq<Element>, e: Element, numbers: Numbers)
    ensures Composed(a + [e], numbers, true) == Composed(a, numbers, true) + ElementText(e, numbers, NoneCounts(a, |a|))
  {
    hide ElementText, FirstAfter;
    ComposedFrom(a, e, numbers, true);
    FirstsAre(a, true);
  }

  function FirstAfterAll(doc: seq<Element>, first: bool): bool
    decreases |doc|
  {
    if doc == [] then first else FirstAfterAll(doc[1..], FirstAfter(doc[0], first))
  }

  lemma ComposedStep(doc: seq<Element>, numbers: Numbers, first: bool)
    ensures Composed(doc, numbers, first) ==
            if doc == [] then "" else ElementText(doc[0], numbers, first) + Composed(doc[1..], numbers, FirstAfter(doc[0], first))
  {
    hide ElementText, FirstAfter;
  }

  lemma Regrouped(a: string, b: string, c: string)
    ensures a + (b + c) == a + b + c
  {
  }

  lemma {:induction false} ComposedFrom(a: seq<Element>, e: Element, numbers: Numbers, first: bool)
    ensures Composed(a + [e], numbers, first) == Composed(a, numbers, first) + ElementText(e, numbers, FirstAfterAll(a, first))
    decreases |a|
  {
    hide ElementText, FirstAfter, Composed;
    ComposedStep(a + [e], numbers, first);
    ComposedStep(a, numbers, first);
    if a == [] {
      assert a + [e] == [e] && [e][1..] == [];
      ComposedStep([], numbers, FirstAfter(e, first));
      assert "" + ElementText(e, numbers, first) == ElementText(e, numbers, first) + "";
    } else {
      assert (a + [e])[1..] == a[1..] + [e] && (a + [e])[0] == a[0];
      ComposedFrom(a[1..], e, numbers, FirstAfter(a[0], first));
      Regrouped(ElementText(a[0], numbers, first), Composed(a[1..], numbers, FirstAfter(a[0], first)),
                ElementText(e, numbers, FirstAfterAll(a, first)));
    }
  }

  lemma {:induction false} FirstsAre(a: seq<Element>, first: bool)
    ensures FirstAfterAll(a, first) <==> first && NoneCounts(a, |a|)
    decreases |a|
  {
    hide IsZero, Counts, Plainly;
    if a != [] {
      if a[0].Asked? && Number in a[0].fields.vals {
        ZeroExactly(a[0].fields.vals[Number]);
      }
      FirstsAre(a[1..], FirstAfter(a[0], first));
      assert a == [a[0]] + a[1..];
    }
  }

  /** The source is the text of the elements one after the other, each told whether a number has counted before it. */
  lemma {:induction false} ComposedIs(doc: seq<Element>, numbers: Numbers)
    ensures Composed(doc, numbers, true) == Flattened(Texts(doc, numbers, Firsts(doc)))
  {
    hide ElementText, NoneCounts, Texts, Firsts, Composed;
    if doc == [] {
      ComposedStep(doc, numbers, true);
    } else {
      var n := |doc| - 1;
      var front, e := doc[..n], doc[n];
      ComposedIs(front, numbers);
      assert doc == front + [e];
      ComposedBoth(front, e, numbers);
      TextsGoOn(front, e, numbers);
      var some := Texts(front, numbers, Firsts(front));
      assert (some + [ElementText(e, numbers, NoneCounts(front, n))])[..|some|] == some;
    }
  }

  lemma TextsGoOn(front: seq<Element>, e: Element, numbers: Numbers)
    ensures var doc := front + [e];
            Texts(doc, numbers, Firsts(doc)) == Texts(front, numbers, Firsts(front)) + [ElementText(e, numbers, NoneCounts(front, |front|))]
  {
    hide ElementText, NoneCounts;
    var doc := front + [e];
    var all, some := Texts(doc, numbers, Firsts(doc)), Texts(front, numbers, Firsts(front));
    forall i | 0 <= i < |doc|
      ensures all[i] == (some + [ElementText(e, numbers, NoneCounts(front, |front|))])[i]
    {
      SameFirst(front, e, i);
      if i < |front| {
        assert doc[i] == front[i];
      }
    }
  }

  lemma SameFirst(front: seq<Element>, e: Element, i: nat)
    requires i <= |front|
    ensures NoneCounts(front, i) == NoneCounts(front + [e], i)
  {
    hide Counts, Plainly;
    assert forall j :: 0 <= j < i ==> (front + [e])[j] == front[j];
  }

  // ---- the law of the printer for documents that number themselves ----

  predicate IsCounted(e: Element) {
    e.Asked? && Number in e.fields.vals && Plainly(e.fields.vals[Number]) != "0"
  }

  /** The questions before the i-th element that are not numbered 0. */
  function CountedBefore(doc: seq<Element>, i: nat): nat
    requires i <= |doc|
  {
    if i == 0 then 0 else CountedBefore(doc, i - 1) + if IsCounted(doc[i - 1]) then 1 else 0
  }

  /** Questions are numbered 0, or one after the other from n on and then without handouts; only one whose number is
      written to count from it may have a handout. */
  predicate NumberedFrom(doc: seq<Element>, n: nat) {
    forall i :: 0 <= i < |doc| && doc[i].Asked? ==>
      var vals := doc[i].fields.vals;
      Number in vals && Fits(vals[Number]) &&
      (|| Plainly(vals[Number]) == "0"
       || (Plainly(vals[Number]) == Decimal(n + CountedBefore(doc, i)) && (Handout in vals ==> n > 1 && CountedBefore(doc, i) == 0)))
  }

  /** No element restarts the numbers of the questions. */
  predicate NothingRestarts(doc: seq<Element>, game: string) {
    (game == "brain" || game == "troika") ==>
      forall i :: 0 <= i < |doc| && doc[i].Plain? ==> doc[i].kind !in {Battle, Section}
  }

  lemma {:induction false} CountedIsFew(doc: seq<Element>, i: nat)
    requires i <= |doc|
    ensures CountedBefore(doc, i) <= i
  {
    if i > 0 {
      CountedIsFew(doc, i - 1);
    }
  }

  lemma ZeroIsWritten(f: Fields, first: bool)
    requires Number in f.vals && Plainly(f.vals[Number]) == "0"
    ensures WrittenAs(f, Default, first) == Some(Number) && StillFirst(f, first) == first
  {
    hide AsNumber, Atoi;
    assert "0" <= "0";
  }

  lemma CountedIsNot(f: Fields, n: int, first: bool)
    requires Number in f.vals && Plainly(f.vals[Number]) == Decimal(n) && 1 <= n <= MAX_INT && (first ==> n == 1)
    requires Fits(f.vals[Number])
    ensures WrittenAs(f, Default, first).None? && !StillFirst(f, first)
  {
    hide IsZero, AsNumber, Spells, Decimal, Plainly;
    var v := f.vals[Number];
    DecimalSpells(n);
    ZeroExactly(v);
    if AsNumber(v).Some? {
      AsNumberExactly(v, AsNumber(v).value);
    }
  }

  lemma DecimalIsNotZero(n: int)
    requires 1 <= n <= MAX_INT
    ensures Decimal(n) != "0"
  {
    hide Decimal, Spells;
    LeadingZero(n);
  }

  lemma {:induction false} NumbersAreKept(doc: seq<Element>, i: nat, n: nat, game: string)
    requires NormalDoc(doc) && NumberedFrom(doc, n) && NothingRestarts(doc, game) && 1 <= n && n + |doc| < MAX_INT && i <= |doc|
    requires n == 1 || CountedBefore(doc, i) > 0
    ensures var c := CountedBefore(doc, i); KeepsNumbers(doc[i..], Default, c == 0, n + c, game)
    decreases |doc| - i
  {
    hide WrittenAs, StillFirst, Plainly, Decimal, NormalFields, NormalValue, Fits;
    CountedIsFew(doc, i);
    if i < |doc| {
      var e, c := doc[i], CountedBefore(doc, i);
      NumbersAreKept(doc, i + 1, n, game);
      assert doc[i..][0] == e && doc[i..][1..] == doc[i + 1..];
      assert NormalElement(e);
      match e {
        case Plain(k, v) => LooseHasPrefix(k);
        case Asked(f) =>
          if Plainly(f.vals[Number]) == "0" {
            ZeroIsWritten(f, c == 0);
          } else {
            CountedIsNot(f, n + c, c == 0);
          }
      }
    }
  }

  /** With the default numbers, warm-ups numbered 0 and questions numbered from 1 on without handouts come back. */
  lemma DefaultRoundTrip(doc: seq<Element>, game: string)
    requires NormalDoc(doc) && NumberedFrom(doc, 1) && NothingRestarts(doc, game) && |doc| + 1 < MAX_INT
    ensures SameDoc(doc, Parsed(Composed(doc, Default, true), game))
  {
    hide Parsed, Composed, SameDoc, KeepsNumbers, NormalDoc, NumberedFrom;
    RoundTrip(doc, Default, game);
    NumbersAreKept(doc, 0, 1, game);
    assert doc[0..] == doc;
  }

  // ---- documents that are counted from a later number ----

  /** The question with what it was counted from. */
  predicate SameButCounter(f: Fields, g: Fields, n: nat) {
    SetCounter in g.vals && g.vals[SetCounter] == Text(Decimal(n)) && SameFields(f, g.(vals := g.vals - {SetCounter}))
  }

  /** How the i-th element comes back: the first question that counts says where it was counted from. */
  predicate BackAs(doc: seq<Element>, i: nat, n: nat, back: Element)
    requires i < |doc|
  {
    if IsCounted(doc[i]) && CountedBefore(doc, i) == 0 then back.Asked? && SameButCounter(doc[i].fields, back.fields, n)
    else Same(doc[i], back)
  }

  lemma CountedFrom(f: Fields, n: nat)
    requires Number in f.vals && Plainly(f.vals[Number]) == Decimal(n) && 1 < n <= MAX_INT && Fits(f.vals[Number])
    ensures WrittenAs(f, Default, true) == Some(SetCounter)
  {
    hide IsZero, AsNumber, Spells, Decimal, Plainly;
    var v := f.vals[Number];
    DecimalSpells(n);
    ZeroExactly(v);
    AsNumberExactly(v, n);
  }

  /** A question whose number is what to count from. */
  lemma CounterComesBack(f: Fields, n: nat, c: int, game: string)
    requires NormalFields(f) && Plainly(f.vals[Number]) == Decimal(n) && 1 < n < MAX_INT && Fits(f.vals[Number])
    ensures !HandoutFalls(f, Default, true) && SameButCounter(f, BackAgain(f, Default, true, c), n)
    ensures CounterPast(Asked(f), Default, true, game, c) == n + 1
  {
    hide Shown, NormalField, Prefix, NoCounter, IsZero, AsNumber, ReadFields, LABELS, Atoi, Plainly, BackAgain, WrittenAs, Decimal;
    CountedFrom(f, n);
    var g, back := ReadFields(f, Default, true), BackAgain(f, Default, true, c);
    NumbersAreNoLabels();
    NormalKeys(f);
    ReadVals(f, Default, true);
    assert g.vals[SetCounter] == Text(Decimal(n)) && Number !in g.vals;
    AtoiOfDecimal(n);
    assert CounterSet(g, c) == n;
    BackVals(f, Default, true, c);
    CounterVals(f, n, c);
    PlainlyOf(Decimal(n), n);
    var less := back.(vals := back.vals - {SetCounter});
    assert less.vals.Keys == f.vals.Keys;
    assert less.overrides == f.overrides;
  }

  lemma CounterVals(f: Fields, n: nat, c: int)
    requires NormalFields(f) && !HandoutFalls(f, Default, true) && WrittenAs(f, Default, true) == Some(SetCounter)
    requires var g := ReadFields(f, Default, true);
             CounterSet(g, c) == n && SetCounter in g.vals && g.vals[SetCounter] == Text(Decimal(n)) && Number !in g.vals
    ensures var back := BackAgain(f, Default, true, c);
            && SetCounter in back.vals && back.vals[SetCounter] == Text(Decimal(n))
            && Number in back.vals && back.vals[Number] == Whole(n)
  {
    hide Shown, NormalField, Prefix, NoCounter, WrittenAs, ReadFields, OverrideAll, LABELS, OVERRIDE_ORDER, Atoi, Plainly, Decimal;
    var g := ReadFields(f, Default, true);
    var h := Numbered(g, CounterSet(g, c));
    ReadVals(f, Default, true);
    NumbersAreNoLabels();
    NormalKeys(f);
    OverrideOrder();
    OverrideAllShown(h, f, OVERRIDE_ORDER, SetCounter);
    OverrideAllShown(h, f, OVERRIDE_ORDER, Number);
  }

  lemma {:induction false} CountsBack(doc: seq<Element>, i: nat, n: nat, c: int, game: string)
    requires NormalDoc(doc) && NumberedFrom(doc, n) && NothingRestarts(doc, game) && 1 < n && n + |doc| < MAX_INT
    requires i <= |doc| && CountedBefore(doc, i) == 0
    ensures var r := Overridden(Reread(doc[i..], Default, true, c, game));
            |r| == |doc| - i && forall k :: 0 <= k < |r| ==> BackAs(doc, i + k, n, r[k])
    decreases |doc| - i
  {
    hide WrittenAs, StillFirst, Plainly, Decimal, NormalFields, NormalValue, Fits, SameFields, ReadFields, Shown, OverrideElement;
    hide CounterPast, BackAs, KeepsNumbers, IsCounted, FirstAfter, CounterAfter, SameButCounter, HandoutFalls, ReadElement, NumberedFrom;
    if i < |doc| {
      var e, rest := doc[i], doc[i + 1..];
      assert doc[i..][0] == e && doc[i..][1..] == rest;
      var first, past := FirstAfter(e, true), CounterPast(e, Default, true, game, c);
      var more := Reread(rest, Default, first, past, game);
      OneComesBack(doc, i, n, c, game);
      OverriddenBoth(ReadElement(e, Default, true, c), more);
      if IsCounted(e) {
        NumbersAreKept(doc, i + 1, n, game);
        assert NormalDoc(rest);
        RereadKeeps(rest, Default, false, n + 1, game);
        LaterAreSame(doc, i, n, Overridden(more));
      } else {
        CountsBack(doc, i + 1, n, past, game);
      }
      var r := Overridden(ReadElement(e, Default, true, c)) + Overridden(more);
      forall k | 0 <= k < |r|
        ensures BackAs(doc, i + k, n, r[k])
      {
        if k > 0 {
          assert r[k] == Overridden(more)[k - 1] && i + k == i + 1 + (k - 1);
        }
      }
    }
  }

  lemma LaterAreSame(doc: seq<Element>, i: nat, n: nat, back: seq<Element>)
    requires i < |doc| && IsCounted(doc[i]) && SameDoc(doc[i + 1..], back)
    ensures |back| == |doc| - i - 1 && forall k :: 0 <= k < |back| ==> BackAs(doc, i + 1 + k, n, back[k])
  {
    hide IsCounted, Same;
    forall k | 0 <= k < |back|
      ensures BackAs(doc, i + 1 + k, n, back[k])
    {
      assert doc[i + 1..][k] == doc[i + 1 + k];
      CountedGrows(doc, i + 1, i + 1 + k);
    }
  }

  lemma {:induction false} CountedGrows(doc: seq<Element>, i: nat, j: nat)
    requires i <= j <= |doc|
    ensures CountedBefore(doc, i) <= CountedBefore(doc, j)
  {
    if i < j {
      CountedGrows(doc, i, j - 1);
    }
  }

  /** One element before any question has counted, or the first that does. */
  lemma OneComesBack(doc: seq<Element>, i: nat, n: nat, c: int, game: string)
    requires NormalDoc(doc) && NumberedFrom(doc, n) && NothingRestarts(doc, game) && 1 < n < MAX_INT
    requires i < |doc| && CountedBefore(doc, i) == 0
    ensures var e := doc[i]; var r := Overridden(ReadElement(e, Default, true, c));
            && |r| == 1 && BackAs(doc, i, n, r[0])
            && (IsCounted(e) ==> !FirstAfter(e, true) && CounterPast(e, Default, true, game, c) == n + 1)
            && (!IsCounted(e) ==> FirstAfter(e, true))
  {
    hide WrittenAs, Plainly, Decimal, NormalFields, NormalValue, SameFields, ReadFields, Shown, SameButCounter, IsZero;
    hide CounterPast, OverrideAll, Numbered;
    var e := doc[i];
    assert NormalElement(e);
    match e {
      case Plain(k, v) =>
        assert Overridden([e]) == [e];
      case Asked(f) =>
        NormalKeys(f);
        HandoutOrNot(f, Default, true);
        if Plainly(f.vals[Number]) == "0" {
          ZeroIsWritten(f, true);
          QuestionComesBack(f, Default, true, c);
        } else {
          CounterComesBack(f, n, c, game);
          CountedStops(f, n);
        }
        assert Overridden(ReadElement(e, Default, true, c)) == [Asked(BackAgain(f, Default, true, c))];
    }
  }

  lemma CountedStops(f: Fields, n: nat)
    requires Number in f.vals && Plainly(f.vals[Number]) == Decimal(n) && 1 <= n <= MAX_INT
    ensures !StillFirst(f, true)
  {
    hide IsZero, Spells, Decimal, Plainly;
    DecimalSpells(n);
    ZeroExactly(f.vals[Number]);
  }

  /** A document whose questions are numbered from a later number on comes back with these numbers; its first question
      that counts also says where they were counted from. */
  lemma CountedRoundTrip(doc: seq<Element>, n: nat, game: string)
    requires NormalDoc(doc) && NumberedFrom(doc, n) && NothingRestarts(doc, game) && 1 < n && n + |doc| < MAX_INT
    ensures var back := Parsed(Composed(doc, Default, true), game);
            |back| == |doc| && forall i :: 0 <= i < |doc| ==> BackAs(doc, i, n, back[i])
  {
    hide Parsed, Composed, NormalDoc, NumberedFrom, Reread, Overridden, BackAs;
    ParsePrinted(doc, Default, game);
    CountsBack(doc, 0, n, 1, game);
    assert doc[0..] == doc;
  }
}
