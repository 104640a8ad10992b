/** Moving warm-up questions to the top of their tours, in a list that is rearranged while it is walked. */
module WarmupHoisting {

  datatype Number = Unset | Whole(n: int) | Text(s: string)

  /** An element of the document. `ZeroHeading(n)` is the section the export inserts, titled as the n-th zero
      question. */
  datatype Item =
    | Section(title: string)
    | ZeroHeading(n: nat)
    | Meta(text: string)
    | Question(id: nat, number: Number)
    | Other(kind: string, text: string)

  function IsPrefix(p: string, s: string): bool {
    p <= s
  }

  /** A question numbered 0, or by a text that starts with 0 or with the warm-up word. */
  predicate IsWarmup(q: Item) {
    q.Question? &&
    match q.number
    case Unset => false
    case Whole(n) => n == 0
    case Text(s) => IsPrefix("0", s) || IsPrefix("Размин", s)
  }

  /** A number makes a warm-up when it is 0, or a text that goes on from 0 or from the beginning of the word. */
  lemma WarmupNumbers(id: nat, number: Number)
    ensures IsWarmup(Question(id, number)) <==>
            match number
            case Unset => false
            case Whole(n) => n == 0
            case Text(s) => exists more: string :: s in {"0" + more, "Размин" + more}
  {
    if number.Text? {
      var s := number.s;
      assert "0" <= s ==> s == "0" + s[1..];
      assert "Размин" <= s ==> s == "Размин" + s[6..];
    }
  }

  predicate IsSection(x: Item) {
    x.Section? || x.ZeroHeading?
  }

  /** A hoisted question is given the number 1. */
  function Renumbered(q: Item): Item
    requires q.Question?
  {
    q.(number := Whole(1))
  }

  // ---- what the list should come to ----

  function WithoutWarmups(doc: seq<Item>): seq<Item> {
    if doc == [] then []
    else WithoutWarmups(doc[..|doc| - 1]) + if IsWarmup(doc[|doc| - 1]) then [] else [doc[|doc| - 1]]
  }

  /** The positions of the warm-ups, in order. */
  function Warmups(doc: seq<Item>): seq<nat> {
    if doc == [] then []
    else Warmups(doc[..|doc| - 1]) + if IsWarmup(doc[|doc| - 1]) then [|doc| - 1] else []
  }

  function OneBlock(a: string, b: string): string {
    a + "\n" + b
  }

  /** One more element: an info block right after another becomes part of it. */
  function Push(done: seq<Item>, x: Item): seq<Item> {
    if done != [] && done[|done| - 1].Meta? && x.Meta? then
      done[..|done| - 1] + [Meta(OneBlock(done[|done| - 1].text, x.text))]
    else done + [x]
  }

  function MergedMetas(doc: seq<Item>): seq<Item> {
    if doc == [] then [] else Push(MergedMetas(doc[..|doc| - 1]), doc[|doc| - 1])
  }

  /** Info blocks with these texts. */
  function Metas(texts: seq<string>): (r: seq<Item>)
    ensures |r| == |texts| && forall k :: 0 <= k < |r| ==> r[k] == Meta(texts[k])
  {
    seq(|texts|, k requires 0 <= k < |texts| => Meta(texts[k]))
  }

  /** The texts on lines of their own. */
  function OnLines(texts: seq<string>): string {
    if texts == [] then "" else if |texts| == 1 then texts[0] else texts[0] + "\n" + OnLines(texts[1..])
  }

  lemma {:induction false} LinesGrow(texts: seq<string>, t: string)
    requires texts != []
    ensures OnLines(texts + [t]) == OnLines(texts) + "\n" + t
  {
    assert (texts + [t])[1..] == texts[1..] + [t];
    if |texts| > 1 {
      LinesGrow(texts[1..], t);
      assert texts[0] + "\n" + (OnLines(texts[1..]) + "\n" + t) == texts[0] + "\n" + OnLines(texts[1..]) + "\n" + t;
    }
  }

  lemma PushedLast(doc: seq<Item>, x: Item)
    ensures MergedMetas(doc + [x]) == Push(MergedMetas(doc), x)
  {
    assert (doc + [x])[..|doc|] == doc;
  }

  lemma MoreMetas(texts: seq<string>, t: string)
    ensures Metas(texts + [t]) == Metas(texts) + [Meta(t)]
  {
  }

  /** A run of info blocks becomes one, with their texts on lines of their own in order; any other element stays. */
  lemma {:induction false} RunBecomesOne(before: seq<Item>, texts: seq<string>, x: Item)
    requires texts != [] && (before != [] ==> !before[|before| - 1].Meta?) && !x.Meta?
    ensures MergedMetas(before + Metas(texts)) == MergedMetas(before) + [Meta(OnLines(texts))]
    ensures MergedMetas(before + Metas(texts) + [x]) == MergedMetas(before) + [Meta(OnLines(texts)), x]
  {
    hide MergedMetas, OnLines, Metas;
    var front, t := texts[..|texts| - 1], texts[|texts| - 1];
    assert front + [t] == texts;
    MoreMetas(front, t);
    assert before + Metas(texts) == (before + Metas(front)) + [Meta(t)];
    PushedLast(before + Metas(front), Meta(t));
    PushedLast(before + Metas(texts), x);
    if front == [] {
      assert before + Metas(front) == before;
      OneOnLines(t);
      LastIsLast(before);
    } else {
      RunBecomesOne(before, front, x);
      LinesGrow(front, t);
    }
  }

  lemma OneOnLines(t: string)
    ensures OnLines([t]) == t
  {
  }

  lemma {:induction false} LastIsLast(doc: seq<Item>)
    ensures doc == [] ==> MergedMetas(doc) == []
    ensures doc != [] ==> MergedMetas(doc) != [] && (MergedMetas(doc)[|MergedMetas(doc)| - 1].Meta? <==> doc[|doc| - 1].Meta?)
  {
  }

  /** The document without its warm-ups, and with neighbouring info blocks merged. */
  function Body(doc: seq<Item>): seq<Item> {
    MergedMetas(WithoutWarmups(doc))
  }

  /** Where the tour of position p starts: at the last section up to it, or at the start of the document. */
  function TourStart(doc: seq<Item>, p: nat): (start: nat)
    requires p <= |doc|
    ensures start <= p
  {
    if p == 0 then 0 else if IsSection(doc[p - 1]) then p - 1 else TourStart(doc, p - 1)
  }

  /** Nothing but warm-ups stands between p and the section before it. */
  predicate Leading(doc: seq<Item>, p: nat)
    requires p <= |doc|
  {
    p > 0 && (IsSection(doc[p - 1]) || (IsWarmup(doc[p - 1]) && Leading(doc, p - 1)))
  }

  /** Of two warm-ups at p < r, the first is put before the second when it belongs to an earlier tour or leads
      its tour; otherwise the later one goes on top of it. */
  predicate Before(doc: seq<Item>, p: nat, r: nat) {
    p <= |doc| && r <= |doc| && (TourStart(doc, p) < TourStart(doc, r) || Leading(doc, p))
  }

  // ---- the list seen as units ----

  /** A hoisted question with its heading, or an element of the document. */
  datatype Unit = Pair(n: nat, q: Item) | Single(x: Item)

  function Spread(u: Unit): seq<Item> {
    match u
    case Pair(n, q) => [ZeroHeading(n), q]
    case Single(x) => [x]
  }

  function Flat(units: seq<Unit>): seq<Item> {
    if units == [] then [] else Flat(units[..|units| - 1]) + Spread(units[|units| - 1])
  }

  function Singles(units: seq<Unit>): seq<Item> {
    if units == [] then []
    else Singles(units[..|units| - 1]) + if units[|units| - 1].Single? then [units[|units| - 1].x] else []
  }

  lemma {:induction false} FlatConcat(a: seq<Unit>, b: seq<Unit>)
    ensures Flat(a + b) == Flat(a) + Flat(b)
  {
    if b == [] {
      assert a + b == a;
    } else {
      assert (a + b)[..|a + b| - 1] == a + b[..|b| - 1];
      FlatConcat(a, b[..|b| - 1]);
    }
  }

  lemma {:induction false} SinglesConcat(a: seq<Unit>, b: seq<Unit>)
    ensures Singles(a + b) == Singles(a) + Singles(b)
  {
    if b == [] {
      assert a + b == a;
    } else {
      assert (a + b)[..|a + b| - 1] == a + b[..|b| - 1];
      SinglesConcat(a, b[..|b| - 1]);
    }
  }

  lemma FlatOfOne(u: Unit)
    ensures Flat([u]) == Spread(u) && Singles([u]) == if u.Single? then [u.x] else []
  {
    assert [u][..0] == [];
  }

  /** The unit at k is the pair of the n-th warm-up of `doc`, at the top of that question's tour. */
  ghost predicate PairAt(doc: seq<Item>, warm: seq<nat>, units: seq<Unit>, k: nat)
    requires k < |units| && units[k].Pair?
  {
    var n := units[k].n;
    && 1 <= n <= |warm| && warm[n - 1] < |doc| && doc[warm[n - 1]].Question?
    && units[k].q == Renumbered(doc[warm[n - 1]])
    && Singles(units[..k]) == Body(doc[..TourStart(doc, warm[n - 1])])
  }

  ghost predicate HasPair(units: seq<Unit>, n: nat) {
    exists k :: 0 <= k < |units| && units[k].Pair? && units[k].n == n
  }

  /** Every warm-up has exactly one pair. */
  ghost predicate PairsOk(doc: seq<Item>, warm: seq<nat>, units: seq<Unit>) {
    && (forall k :: 0 <= k < |units| && units[k].Pair? ==> PairAt(doc, warm, units, k))
    && (forall j, k :: 0 <= j < k < |units| && units[j].Pair? && units[k].Pair? ==> units[j].n != units[k].n)
    && (forall n: nat :: 1 <= n <= |warm| ==> HasPair(units, n))
  }

  /** The order of the pairs. */
  ghost predicate Ordered(doc: seq<Item>, warm: seq<nat>, units: seq<Unit>) {
    forall j, k |
      0 <= j < |units| && 0 <= k < |units| && units[j].Pair? && units[k].Pair? && 1 <= units[j].n < units[k].n <= |warm|
      :: (j < k <==> Before(doc, warm[units[j].n - 1], warm[units[k].n - 1]))
  }

  predicate Settled(u: Unit) {
    match u
    case Pair(_, q) => q.Question? && q.number == Whole(1)
    case Single(x) => !IsWarmup(x) && !x.ZeroHeading?
  }

  /** No element of the units is a warm-up any more. */
  ghost predicate NoWarmups(units: seq<Unit>) {
    forall k :: 0 <= k < |units| ==> Settled(units[k])
  }

  /** The promise: the pairs of all warm-ups, each at the top of its tour and in order, and the rest of the
      document as it was, with info blocks merged. */
  ghost predicate Hoisted(doc: seq<Item>, units: seq<Unit>) {
    && PairsOk(doc, Warmups(doc), units)
    && Ordered(doc, Warmups(doc), units)
    && Singles(units) == Body(doc)
    && NoWarmups(units)
  }

  // ---- the walk ----

  /** `done` elements of the document have become the units, and the current tour starts at unit u. */
  ghost predicate Walked(doc: seq<Item>, done: nat, units: seq<Unit>, u: nat) {
    && done <= |doc|
    && PairsOk(doc, Warmups(doc[..done]), units)
    && Singles(units) == Body(doc[..done])
    && NoWarmups(units)
    && u <= |units| && (u < |units| || units == [])
    && (Singles(units) != [] ==> units[|units| - 1].Single?)
    && Singles(units[..u]) == Body(doc[..TourStart(doc, done)])
    && OneSection(units, u)
  }

  /** From unit u on, no element of the document stands before a section. */
  ghost predicate OneSection(units: seq<Unit>, u: nat) {
    forall j, k :: u <= j < k < |units| && units[j].Single? && units[k].Single? ==> !IsSection(units[k].x)
  }

  ghost predicate EndsInMeta(units: seq<Unit>) {
    units != [] && units[|units| - 1].Single? && units[|units| - 1].x.Meta?
  }

  /** The list is the units and the rest of the document, and the variables describe the units. */
  ghost predicate State(doc: seq<Item>, d: seq<Item>, done: nat, units: seq<Unit>, u: nat, lastTour: nat, zeroq: nat) {
    && Walked(doc, done, units, u)
    && d == Flat(units) + doc[done..]
    && lastTour == |Flat(units[..u])| && zeroq == |Warmups(doc[..done])| + 1
  }

  /** The walk stands at the first element of the rest, or again at the last element of the units. */
  ghost predicate Here(i: nat, first: bool, units: seq<Unit>) {
    if first then i == |Flat(units)| else i == |Flat(units)| - 1 && units != []
  }

  ghost predicate EndsInSection(units: seq<Unit>) {
    units != [] && units[|units| - 1].Single? && IsSection(units[|units| - 1].x)
  }

  /** Where the tour starts once the last unit has been looked at again. */
  ghost function Now(units: seq<Unit>, u: nat): nat {
    if EndsInSection(units) then |units| - 1 else u
  }

  /** The pairs before unit e are those that stay before a warm-up at `done`. */
  ghost predicate Splits(doc: seq<Item>, warm: seq<nat>, done: nat, units: seq<Unit>, e: nat) {
    forall k :: 0 <= k < |units| && units[k].Pair? && 1 <= units[k].n <= |warm| ==>
      (k < e <==> Before(doc, warm[units[k].n - 1], done))
  }

  ghost predicate Tours(doc: seq<Item>, done: nat, units: seq<Unit>, u: nat, seen: bool) {
    && done <= |doc|
    && Ordered(doc, Warmups(doc[..done]), units)
    && Splits(doc, Warmups(doc[..done]), done, units, Now(units, u))
    && (EndsInSection(units) <==> Leading(doc, done))
    && (seen ==> Now(units, u) == u)
  }

  /** The list is the document with its warm-ups hoisted. */
  ghost predicate IsHoisted(doc: seq<Item>, d: seq<Item>) {
    exists units :: d == Flat(units) && Hoisted(doc, units)
  }

  method HoistWarmups(doc: seq<Item>) returns (d: seq<Item>)
    requires forall k :: 0 <= k < |doc| ==> !doc[k].ZeroHeading?
    ensures IsHoisted(doc, d)
  {
    hide State, Tours, Walked, Flat, IsWarmup, IsSection, EndsInMeta, Renumbered, OneBlock, Hoisted;
    d := doc;
    ghost var units: seq<Unit> := [];
    var lastTour: nat, zeroq: nat, i: nat := 0, 1, 0;
    ghost var done: nat, u: nat, first := 0, 0, true;
    StartOfWalk(doc);
    while i < |d|
      invariant State(doc, d, done, units, u, lastTour, zeroq) && Here(i, first, units)
      invariant Tours(doc, done, units, u, first)
      invariant first && i < |d| ==> !(EndsInMeta(units) && d[i].Meta?)
      invariant i <= |d| && done <= |doc|
      decreases |doc| - done, if first then 0 else 1
    {
      ghost var before, x, taken := done, d[i], first && !IsWarmup(d[i]);
      WarmupIsQuestion(x);
      if taken {
        TakeNext(doc, d, done, units, u, lastTour, zeroq, i);
      } else if !first {
        SeeAgain(doc, d, done, units, u, lastTour, zeroq, i);
      }
      if IsSection(d[i]) {
        lastTour := i;
      }
      if taken {
        u, units, done, first := if IsSection(x) then |units| else u, units + [Single(x)], done + 1, false;
      } else if !first {
        u := if IsSection(x) then |units| - 1 else u;
      }
      while d[i].Meta? && i + 1 < |d| && d[i + 1].Meta?
        invariant i < |d| && State(doc, d, done, units, u, lastTour, zeroq) && Here(i, first, units)
        invariant Tours(doc, done, units, u, true)
        invariant first ==> d[i] == x && IsWarmup(x)
        invariant done <= |doc| && before <= done && (taken ==> before < done)
        decreases |d|
      {
        MergeNext(doc, d, done, units, u, lastTour, zeroq, i);
        var merged := Meta(OneBlock(d[i].text, d[i + 1].text));
        d := d[..i] + [merged] + d[i + 2..];
        units, done := units[..|units| - 1] + [Single(merged)], done + 1;
      }
      if !first {
        LeaveBehind(doc, d, done, units, u, lastTour, zeroq, i);
      }
      if !IsWarmup(d[i]) {
        i, first := i + 1, true;
        continue;
      }
      HoistNext(doc, d, done, units, u, lastTour, zeroq, i);
      var pair := Renumbered(d[i]);
      d := d[..i] + d[i + 1..];
      d := d[..lastTour] + [ZeroHeading(zeroq), pair] + d[lastTour..];
      units, done := units[..u] + [Pair(zeroq, pair)] + units[u..], done + 1;
      zeroq := zeroq + 1;
      i, first := i + 1, false;
    }
    WalkEnds(doc, d, done, units, u, lastTour, zeroq, i, first);
  }

  // ---- the order of the pairs ----

  lemma {:induction false} WarmupsAreBehind(doc: seq<Item>, n: nat)
    requires n < |Warmups(doc)|
    ensures Warmups(doc)[n] < |doc|
  {
    if n < |Warmups(doc[..|doc| - 1])| {
      WarmupsAreBehind(doc[..|doc| - 1], n);
    }
  }

  lemma ToursTake(doc: seq<Item>, done: nat, units: seq<Unit>, u: nat)
    requires Tours(doc, done, units, u, true) && done < |doc| && !IsWarmup(doc[done])
    ensures Tours(doc, done + 1, units + [Single(doc[done])], if IsSection(doc[done]) then |units| else u, true)
  {
    hide IsWarmup, IsSection, TourStart, WithoutWarmups, Warmups, Body;
    PrefixStep(doc, done);
    TourOfNext(doc, done);
    var warm, x := Warmups(doc[..done]), doc[done];
    var more, at := units + [Single(x)], if IsSection(x) then |units| else u;
    assert Now(more, at) == at;
    forall k | 0 <= k < |more| && more[k].Pair? && 1 <= more[k].n <= |warm|
      ensures k < at <==> Before(doc, warm[more[k].n - 1], done + 1)
    {
      assert more[k] == units[k];
      WarmupsAreBehind(doc[..done], more[k].n - 1);
    }
  }

  lemma ToursAgain(doc: seq<Item>, done: nat, units: seq<Unit>, u: nat)
    requires Tours(doc, done, units, u, false)
    ensures Tours(doc, done, units, Now(units, u), true)
  {
  }

  lemma ToursMerge(doc: seq<Item>, done: nat, units: seq<Unit>, u: nat, x: Item)
    requires Tours(doc, done, units, u, true) && done < |doc| && doc[done].Meta? && EndsInMeta(units) && x.Meta?
    ensures Tours(doc, done + 1, units[..|units| - 1] + [Single(x)], u, true)
  {
    hide TourStart, WithoutWarmups, Warmups, Body;
    PrefixStep(doc, done);
    TourOfNext(doc, done);
    var warm, more := Warmups(doc[..done]), units[..|units| - 1] + [Single(x)];
    forall k | 0 <= k < |more| && more[k].Pair? && 1 <= more[k].n <= |warm|
      ensures k < u <==> Before(doc, warm[more[k].n - 1], done + 1)
    {
      assert more[k] == units[k];
    }
  }

  lemma ToursHoist(doc: seq<Item>, done: nat, units: seq<Unit>, u: nat)
    requires Tours(doc, done, units, u, true) && done < |doc| && IsWarmup(doc[done])
    requires Walked(doc, done, units, u)
    ensures Tours(doc, done + 1, units[..u] + [Pair(|Warmups(doc[..done])| + 1, Renumbered(doc[done]))] + units[u..], u, false)
  {
    hide IsWarmup, TourStart, WithoutWarmups, Warmups, Body, Singles, NoWarmups, OneSection;
    WarmupIsQuestion(doc[done]);
    PrefixStep(doc, done);
    TourOfNext(doc, done);
    var warm, p := Warmups(doc[..done]), Pair(|Warmups(doc[..done])| + 1, Renumbered(doc[done]));
    var more := units[..u] + [p] + units[u..];
    forall k | 0 <= k < |units| && units[k].Pair?
      ensures 1 <= units[k].n <= |warm|
    {
      assert PairAt(doc, warm, units, k);
    }
    OrderedInserted(doc, done, warm, units, u, p);
    SplitsInserted(doc, done, warm, units, u, p);
    assert units != [] ==> more[|more| - 1] == units[|units| - 1];
  }

  ghost predicate Numbered(warm: seq<nat>, units: seq<Unit>) {
    forall k :: 0 <= k < |units| && units[k].Pair? ==> 1 <= units[k].n <= |warm|
  }

  lemma InsertedAt(units: seq<Unit>, u: nat, p: Unit, k: nat)
    requires u <= |units| && k <= |units|
    ensures (units[..u] + [p] + units[u..])[k] == if k < u then units[k] else if k == u then p else units[k - 1]
  {
  }

  lemma OrderedInserted(doc: seq<Item>, done: nat, warm: seq<nat>, units: seq<Unit>, u: nat, p: Unit)
    requires Ordered(doc, warm, units) && Splits(doc, warm, done, units, u) && Numbered(warm, units)
    requires u <= |units| && p.Pair? && p.n == |warm| + 1
    ensures Ordered(doc, warm + [done], units[..u] + [p] + units[u..])
  {
    hide Before;
    var more, all := units[..u] + [p] + units[u..], warm + [done];
    forall j, k | 0 <= j < |more| && 0 <= k < |more| && more[j].Pair? && more[k].Pair?
        && 1 <= more[j].n < more[k].n <= |all|
      ensures j < k <==> Before(doc, all[more[j].n - 1], all[more[k].n - 1])
    {
      InsertedAt(units, u, p, j);
      InsertedAt(units, u, p, k);
      assert j != u;
      var j0 := if j < u then j else j - 1;
      assert units[j0] == more[j];
      if k != u {
        var k0 := if k < u then k else k - 1;
        assert units[k0] == more[k];
      }
    }
  }

  /** A question that leads its tour moves on with the section; any other stays at the top of the tour. */
  lemma SplitsInserted(doc: seq<Item>, done: nat, warm: seq<nat>, units: seq<Unit>, u: nat, p: Unit)
    requires Splits(doc, warm, done, units, u) && Numbered(warm, units) && u <= |units|
    requires done < |doc| && TourStart(doc, done + 1) == TourStart(doc, done)
    requires p.Pair? && p.n == |warm| + 1 && (EndsInSection(units) <==> Leading(doc, done)) && Now(units, u) == u
    ensures var more := units[..u] + [p] + units[u..];
            Splits(doc, warm + [done], done + 1, more, Now(more, u))
  {
    hide Leading, TourStart;
    var more, all := units[..u] + [p] + units[u..], warm + [done];
    var e := Now(more, u);
    assert EndsInSection(more) == EndsInSection(units) && e == if EndsInSection(units) then u + 1 else u by {
      assert units != [] && u < |units| ==> more[|more| - 1] == units[|units| - 1];
    }
    forall k | 0 <= k < |more| && more[k].Pair? && 1 <= more[k].n <= |all|
      ensures k < e <==> Before(doc, all[more[k].n - 1], done + 1)
    {
      InsertedAt(units, u, p, k);
      if k != u {
        var k0 := if k < u then k else k - 1;
        assert units[k0] == more[k];
        assert k0 < u <==> Before(doc, warm[units[k0].n - 1], done);
      }
    }
  }

  lemma StartOfWalk(doc: seq<Item>)
    ensures State(doc, doc, 0, [], 0, 0, 1) && Tours(doc, 0, [], 0, true) && Here(0, true, []) && !EndsInMeta([])
  {
    assert doc[..0] == [];
  }

  /** The next element, not a warm-up, becomes a unit; a section starts a tour. */
  lemma TakeNext(doc: seq<Item>, d: seq<Item>, done: nat, units: seq<Unit>, u: nat, lastTour: nat, zeroq: nat, i: nat)
    requires State(doc, d, done, units, u, lastTour, zeroq) && Here(i, true, units) && i < |d|
    requires forall k :: 0 <= k < |doc| ==> !doc[k].ZeroHeading?
    requires !IsWarmup(d[i]) && !(EndsInMeta(units) && d[i].Meta?) && Tours(doc, done, units, u, true)
    ensures var section, more := IsSection(d[i]), units + [Single(d[i])];
            && done < |doc| && Here(i, false, more) && Tours(doc, done + 1, more, if section then |units| else u, true)
            && State(doc, d, done + 1, more, if section then |units| else u, if section then i else lastTour, zeroq)
  {
    hide Tours, PairsOk, NoWarmups, OneSection, Singles, Body, Flat, Warmups, IsWarmup, EndsInMeta, IsSection;
    TakeSingle(doc, done, units, u);
    ToursTake(doc, done, units, u);
  }

  lemma SeeAgain(doc: seq<Item>, d: seq<Item>, done: nat, units: seq<Unit>, u: nat, lastTour: nat, zeroq: nat, i: nat)
    requires State(doc, d, done, units, u, lastTour, zeroq) && Here(i, false, units) && i < |d|
    requires Tours(doc, done, units, u, false)
    ensures var section := IsSection(d[i]);
            && State(doc, d, done, units, if section then |units| - 1 else u, if section then i else lastTour, zeroq)
            && Tours(doc, done, units, if section then |units| - 1 else u, true)
  {
    hide Tours, PairsOk, NoWarmups, OneSection, Singles, Body, Flat, Warmups, IsSection;
    RevisitSection(doc, done, units, u);
    LastElement(doc, done, units, u);
    ToursAgain(doc, done, units, u);
  }

  lemma MergeNext(doc: seq<Item>, d: seq<Item>, done: nat, units: seq<Unit>, u: nat, lastTour: nat, zeroq: nat, i: nat)
    requires State(doc, d, done, units, u, lastTour, zeroq) && Here(i, false, units)
    requires i + 1 < |d| && d[i].Meta? && d[i + 1].Meta? && Tours(doc, done, units, u, true)
    ensures var merged := Meta(OneBlock(d[i].text, d[i + 1].text));
            var more := units[..|units| - 1] + [Single(merged)];
            && State(doc, d[..i] + [merged] + d[i + 2..], done + 1, more, u, lastTour, zeroq)
            && Here(i, false, more) && done < |doc| && Tours(doc, done + 1, more, u, true)
  {
    hide Tours, PairsOk, NoWarmups, OneSection, Singles, Body, Flat, Warmups, OneBlock;
    LastElement(doc, done, units, u);
    MergeMeta(doc, done, units, u);
    MergedList(d, Flat(units), doc[done..], Meta(OneBlock(d[i].text, d[i + 1].text)));
    assert doc[done..][1..] == doc[done + 1..];
    assert d[i].text == units[|units| - 1].x.text;
    ToursMerge(doc, done, units, u, Meta(OneBlock(d[i].text, d[i + 1].text)));
  }

  lemma LeaveBehind(doc: seq<Item>, d: seq<Item>, done: nat, units: seq<Unit>, u: nat, lastTour: nat, zeroq: nat, i: nat)
    requires State(doc, d, done, units, u, lastTour, zeroq) && Here(i, false, units) && i < |d|
    ensures !IsWarmup(d[i]) && Here(i + 1, true, units) && (EndsInMeta(units) <==> d[i].Meta?)
  {
    hide PairsOk, NoWarmups, OneSection, Singles, Body, Flat, Warmups, EndsInMeta, IsWarmup;
    LastElement(doc, done, units, u);
  }

  lemma HoistNext(doc: seq<Item>, d: seq<Item>, done: nat, units: seq<Unit>, u: nat, lastTour: nat, zeroq: nat, i: nat)
    requires State(doc, d, done, units, u, lastTour, zeroq) && Here(i, true, units) && i < |d|
    requires d[i].Question? && IsWarmup(d[i]) && Tours(doc, done, units, u, true)
    ensures var pair, out := Renumbered(d[i]), d[..i] + d[i + 1..];
            var more := units[..u] + [Pair(zeroq, pair)] + units[u..];
            && u <= |units| && lastTour <= i && done < |doc| && Here(i + 1, false, more) && Tours(doc, done + 1, more, u, false)
            && State(doc, out[..lastTour] + [ZeroHeading(zeroq), pair] + out[lastTour..], done + 1, more, u, lastTour, zeroq + 1)
  {
    hide Tours, Flat, Warmups, IsWarmup, Renumbered, PairsOk, NoWarmups, OneSection, Singles, Body;
    HoistPair(doc, done, units, u);
    ToursHoist(doc, done, units, u);
    HoistedList(d, Flat(units), doc[done..], lastTour, [ZeroHeading(zeroq), Renumbered(d[i])]);
  }

  lemma WalkEnds(doc: seq<Item>, d: seq<Item>, done: nat, units: seq<Unit>, u: nat, lastTour: nat, zeroq: nat, i: nat, first: bool)
    requires State(doc, d, done, units, u, lastTour, zeroq) && Here(i, first, units) && i >= |d|
    requires Tours(doc, done, units, u, first)
    ensures IsHoisted(doc, d)
  {
    hide PairsOk, NoWarmups, Ordered, Splits, OneSection;
    LastOfFlat(units);
    assert doc[..|doc|] == doc;
  }

  lemma LastOfFlat(units: seq<Unit>)
    ensures Flat(units) == [] <==> units == []
  {
  }

  lemma WarmupIsQuestion(x: Item)
    ensures IsWarmup(x) ==> x.Question? && !IsSection(x) && !IsWarmup(Renumbered(x))
  {
  }

  /** The last element of the list so far belongs to the last unit, and is no warm-up. */
  lemma LastElement(doc: seq<Item>, done: nat, units: seq<Unit>, u: nat)
    requires Walked(doc, done, units, u) && units != []
    ensures var flat, last := Flat(units), units[|units| - 1];
            && flat != [] && flat[|flat| - 1] == (if last.Pair? then last.q else last.x)
            && !IsWarmup(flat[|flat| - 1])
            && (EndsInMeta(units) <==> flat[|flat| - 1].Meta?)
            && (EndsInSection(units) <==> IsSection(flat[|flat| - 1]))
  {
  }

  lemma PrefixStep(doc: seq<Item>, done: nat)
    requires done < |doc|
    ensures doc[..done + 1][..done] == doc[..done] && doc[..done + 1][done] == doc[done]
    ensures WithoutWarmups(doc[..done + 1]) == WithoutWarmups(doc[..done]) + if IsWarmup(doc[done]) then [] else [doc[done]]
    ensures Warmups(doc[..done + 1]) == Warmups(doc[..done]) + if IsWarmup(doc[done]) then [done] else []
    ensures Body(doc[..done + 1]) == if IsWarmup(doc[done]) then Body(doc[..done]) else Push(Body(doc[..done]), doc[done])
  {
    assert doc[..done + 1][..done] == doc[..done];
    var w := WithoutWarmups(doc[..done]);
    assert (w + [doc[done]])[..|w|] == w;
    assert w + [] == w;
  }

  /** A new unit at the end leaves the pairs as they were. */
  lemma PairsStay(doc: seq<Item>, warm: seq<nat>, units: seq<Unit>, x: Item)
    requires PairsOk(doc, warm, units)
    ensures PairsOk(doc, warm, units + [Single(x)])
  {
    hide Singles, Body;
    var more := units + [Single(x)];
    forall k | 0 <= k < |more| && more[k].Pair?
      ensures PairAt(doc, warm, more, k)
    {
      assert PairAt(doc, warm, units, k) && more[..k] == units[..k];
    }
    forall n: nat | 1 <= n <= |warm|
      ensures HasPair(more, n)
    {
      assert HasPair(units, n);
      var k :| 0 <= k < |units| && units[k].Pair? && units[k].n == n;
      assert more[k] == units[k];
    }
  }

  lemma SettledStay(units: seq<Unit>, u: nat, x: Item)
    requires NoWarmups(units) && OneSection(units, u) && !IsWarmup(x) && !x.ZeroHeading?
    ensures NoWarmups(units + [Single(x)])
    ensures OneSection(units + [Single(x)], if IsSection(x) then |units| else u)
  {
  }

  /** The next position lies in the same tour, unless a section stands between. */
  lemma TourOfNext(doc: seq<Item>, done: nat)
    requires done < |doc|
    ensures TourStart(doc, done + 1) == if IsSection(doc[done]) then done else TourStart(doc, done)
  {
  }

  lemma Appended(units: seq<Unit>, x: Item)
    ensures var more := units + [Single(x)];
            && more[..|units|] == units && Flat(more) == Flat(units) + [x] && Singles(more) == Singles(units) + [x]
            && EndsInMeta(more) == x.Meta?
  {
    assert (units + [Single(x)])[..|units|] == units;
  }

  lemma TakeSingle(doc: seq<Item>, done: nat, units: seq<Unit>, u: nat)
    requires Walked(doc, done, units, u) && done < |doc| && u <= |units|
    requires !IsWarmup(doc[done]) && !doc[done].ZeroHeading? && !(EndsInMeta(units) && doc[done].Meta?)
    ensures var x := doc[done];
            var more, at := units + [Single(x)], if IsSection(x) then |units| else u;
            && Walked(doc, done + 1, more, at)
            && Flat(more) == Flat(units) + [x] && EndsInMeta(more) == x.Meta?
            && Flat(more[..at]) == (if IsSection(x) then Flat(units) else Flat(units[..u]))
            && Warmups(doc[..done + 1]) == Warmups(doc[..done])
  {
    hide Push, Body, PairsOk, IsWarmup, NoWarmups, OneSection, IsSection, Flat, Singles, TourStart, EndsInMeta, Warmups, WithoutWarmups;
    var x := doc[done];
    var more, at := units + [Single(x)], if IsSection(x) then |units| else u;
    PrefixStep(doc, done);
    PairsStay(doc, Warmups(doc[..done]), units, x);
    SettledStay(units, u, x);
    Appended(units, x);
    assert more[..at] == if IsSection(x) then units else units[..u];
    PushOntoSingles(units, x);
    TourOfNext(doc, done);
    assert PairsOk(doc, Warmups(doc[..done + 1]), more) && Singles(more) == Body(doc[..done + 1]);
    assert Singles(more[..at]) == Body(doc[..TourStart(doc, done + 1)]) && more[|more| - 1].Single?;
    assert Walked(doc, done + 1, more, at);
  }

  lemma PushOntoSingles(units: seq<Unit>, x: Item)
    requires !(EndsInMeta(units) && x.Meta?)
    requires Singles(units) != [] ==> units[|units| - 1].Single?
    ensures Push(Singles(units), x) == Singles(units) + [x]
  {
  }

  lemma RevisitSection(doc: seq<Item>, done: nat, units: seq<Unit>, u: nat)
    requires Walked(doc, done, units, u) && units != []
    ensures var flat, n := Flat(units), |units| - 1;
            flat != [] && (IsSection(flat[|flat| - 1]) ==> Walked(doc, done, units, n) && |Flat(units[..n])| == |flat| - 1)
  {
    hide Body, PairsOk, NoWarmups, TourStart, Warmups, Flat, Singles, OneSection, IsWarmup;
    var n := |units| - 1;
    LastElement(doc, done, units, u);
    LastUnit(units);
    if EndsInSection(units) {
      OnlyPairsBetween(units, u);
    }
  }

  lemma LastUnit(units: seq<Unit>)
    requires units != []
    ensures Flat(units) == Flat(units[..|units| - 1]) + Spread(units[|units| - 1])
  {
  }

  /** A section at the end has nothing but pairs between the start of the tour and itself. */
  lemma OnlyPairsBetween(units: seq<Unit>, u: nat)
    requires u < |units| && OneSection(units, u) && EndsInSection(units)
    ensures var n := |units| - 1; Singles(units[..n]) == Singles(units[..u]) && OneSection(units, n)
  {
    hide Singles;
    var n := |units| - 1;
    OnlyPairs(units[u..n]);
    assert units[..n] == units[..u] + units[u..n];
    SinglesConcat(units[..u], units[u..n]);
  }

  lemma {:induction false} OnlyPairs(units: seq<Unit>)
    requires forall k :: 0 <= k < |units| ==> units[k].Pair?
    ensures Singles(units) == []
  {
    if units != [] {
      OnlyPairs(units[..|units| - 1]);
    }
  }

  /** The last unit replaced leaves the pairs as they were. */
  lemma PairsKept(doc: seq<Item>, warm: seq<nat>, units: seq<Unit>, x: Item)
    requires PairsOk(doc, warm, units) && units != [] && units[|units| - 1].Single?
    ensures PairsOk(doc, warm, units[..|units| - 1] + [Single(x)])
  {
    hide Singles, Body;
    var more := units[..|units| - 1] + [Single(x)];
    forall k | 0 <= k < |more| && more[k].Pair?
      ensures PairAt(doc, warm, more, k)
    {
      assert PairAt(doc, warm, units, k) && more[..k] == units[..k];
    }
    forall n: nat | 1 <= n <= |warm|
      ensures HasPair(more, n)
    {
      assert HasPair(units, n);
      var k :| 0 <= k < |units| && units[k].Pair? && units[k].n == n;
      assert more[k] == units[k];
    }
  }

  lemma SettledKept(units: seq<Unit>, u: nat, x: Item)
    requires units != [] && NoWarmups(units) && OneSection(units, u) && x.Meta?
    ensures NoWarmups(units[..|units| - 1] + [Single(x)]) && OneSection(units[..|units| - 1] + [Single(x)], u)
  {
  }

  lemma ReplacedLast(units: seq<Unit>, x: Item)
    requires units != [] && units[|units| - 1].Single?
    ensures var n := |units| - 1;
            var more := units[..n] + [Single(x)];
            && Flat(units) == Flat(units[..n]) + [units[n].x] && Flat(more) == Flat(units[..n]) + [x]
            && Singles(units) == Singles(units[..n]) + [units[n].x] && Singles(more) == Singles(units[..n]) + [x]
  {
    var n := |units| - 1;
    assert (units[..n] + [Single(x)])[..n] == units[..n];
  }

  /** Pushing an info block onto units that end in one merges the two. */
  lemma BodyMerges(units: seq<Unit>, x: Item)
    requires EndsInMeta(units) && x.Meta?
    ensures var n := |units| - 1;
            Push(Singles(units), x) == Singles(units[..n]) + [Meta(OneBlock(units[n].x.text, x.text))]
  {
    hide Singles;
    ReplacedLast(units, x);
  }

  lemma MergeMeta(doc: seq<Item>, done: nat, units: seq<Unit>, u: nat)
    requires Walked(doc, done, units, u) && u <= |units| && EndsInMeta(units) && done < |doc| && doc[done].Meta?
    ensures var n := |units| - 1;
            var merged := Meta(OneBlock(units[n].x.text, doc[done].text));
            var more := units[..n] + [Single(merged)];
            && Walked(doc, done + 1, more, u) && u <= n
            && Flat(units) != [] && Flat(more) == Flat(units)[..|Flat(units)| - 1] + [merged]
            && more[..u] == units[..u]
            && Warmups(doc[..done + 1]) == Warmups(doc[..done])
  {
    hide Body, PairsOk, IsWarmup, NoWarmups, OneSection, Flat, Singles, Warmups, TourStart;
    var n := |units| - 1;
    var merged := Meta(OneBlock(units[n].x.text, doc[done].text));
    var more := units[..n] + [Single(merged)];
    PrefixStep(doc, done);
    PairsKept(doc, Warmups(doc[..done]), units, merged);
    SettledKept(units, u, merged);
    WarmupIsQuestion(doc[done]);
    TourOfNext(doc, done);
    assert more[..u] == units[..u];
    ReplacedLast(units, merged);
    BodyMerges(units, doc[done]);
    assert Warmups(doc[..done + 1]) == Warmups(doc[..done]);
    assert PairsOk(doc, Warmups(doc[..done + 1]), more);
    assert Singles(more) == Body(doc[..done + 1]);
    assert more[|more| - 1].Single? && u < |more|;
    assert Singles(more[..u]) == Body(doc[..TourStart(doc, done + 1)]);
    assert Walked(doc, done + 1, more, u);
  }

  /** The list with the two info blocks merged is the list of the new units. */
  lemma MergedList(d: seq<Item>, flat: seq<Item>, rest: seq<Item>, x: Item)
    requires d == flat + rest && flat != [] && rest != []
    ensures d[..|flat| - 1] + [x] + d[|flat| + 1..] == flat[..|flat| - 1] + [x] + rest[1..]
  {
  }

  /** The question at the end of `flat` taken out, and put back with its heading further up. */
  lemma HoistedList(d: seq<Item>, flat: seq<Item>, rest: seq<Item>, at: nat, pair: seq<Item>)
    requires d == flat + rest && at <= |flat| && rest != []
    ensures var out := d[..|flat|] + d[|flat| + 1..];
            out[..at] + pair + out[at..] == flat[..at] + pair + flat[at..] + rest[1..]
  {
  }

  lemma HoistPair(doc: seq<Item>, done: nat, units: seq<Unit>, u: nat)
    requires Walked(doc, done, units, u) && u <= |units| && done < |doc| && IsWarmup(doc[done])
    ensures var n := |Warmups(doc[..done])| + 1;
            var q := Renumbered(doc[done]);
            var more := units[..u] + [Pair(n, q)] + units[u..];
            var at, flat := |Flat(units[..u])|, Flat(units);
            && Walked(doc, done + 1, more, u)
            && at <= |flat| && Flat(more) == flat[..at] + [ZeroHeading(n), q] + flat[at..]
            && more[..u] == units[..u]
            && |Warmups(doc[..done + 1])| == n
  {
    hide Body, PairsOk, IsWarmup, NoWarmups, OneSection, Flat, Singles, Warmups, TourStart, WithoutWarmups;
    WarmupIsQuestion(doc[done]);
    var n, q := |Warmups(doc[..done])| + 1, Renumbered(doc[done]);
    var more := units[..u] + [Pair(n, q)] + units[u..];
    PrefixStep(doc, done);
    Inserted(units, u, Pair(n, q));
    SettledInserted(units, u, Pair(n, q));
    PairInserted(doc, done, Warmups(doc[..done]), units, u);
    TourOfNext(doc, done);
  }

  /** A pair put in at unit u. */
  lemma Inserted(units: seq<Unit>, u: nat, p: Unit)
    requires u <= |units| && p.Pair?
    ensures var more, at, flat := units[..u] + [p] + units[u..], |Flat(units[..u])|, Flat(units);
            && at <= |flat| && Flat(more) == flat[..at] + Spread(p) + flat[at..]
            && Singles(more) == Singles(units) && more[..u] == units[..u]
            && (u < |units| ==> more[|more| - 1] == units[|units| - 1])
            && (units == [] ==> Singles(units) == [])
  {
    hide Flat;
    var front, back := units[..u], units[u..];
    assert units == front + back;
    FlatConcat(front, back);
    SinglesConcat(front, back);
    FlatConcat(front + [p], back);
    FlatConcat(front, [p]);
    SinglesConcat(front + [p], back);
    SinglesConcat(front, [p]);
    FlatOfOne(p);
  }

  lemma SettledInserted(units: seq<Unit>, u: nat, p: Unit)
    requires u <= |units| && p.Pair? && Settled(p) && NoWarmups(units) && OneSection(units, u)
    ensures NoWarmups(units[..u] + [p] + units[u..]) && OneSection(units[..u] + [p] + units[u..], u)
  {
    var more := units[..u] + [p] + units[u..];
    assert forall k :: 0 <= k < |more| ==> more[k] == if k < u then units[k] else if k == u then p else units[k - 1];
  }

  lemma PairInserted(doc: seq<Item>, done: nat, warm: seq<nat>, units: seq<Unit>, u: nat)
    requires PairsOk(doc, warm, units) && u <= |units| && done < |doc| && doc[done].Question?
    requires Singles(units[..u]) == Body(doc[..TourStart(doc, done)])
    ensures PairsOk(doc, warm + [done], units[..u] + [Pair(|warm| + 1, Renumbered(doc[done]))] + units[u..])
  {
    hide Body, Singles, TourStart;
    var p := Pair(|warm| + 1, Renumbered(doc[done]));
    var more, all := units[..u] + [p] + units[u..], warm + [done];
    forall k | 0 <= k < |more| && more[k].Pair?
      ensures PairAt(doc, all, more, k)
    {
      if k < u {
        assert PairAt(doc, warm, units, k) && more[..k] == units[..k];
      } else if k == u {
        assert more[..k] == units[..u];
      } else {
        assert PairAt(doc, warm, units, k - 1);
        SinglesAround(units, u, p, k);
      }
    }
    forall n: nat | 1 <= n <= |all|
      ensures HasPair(more, n)
    {
      if n == |all| {
        assert more[u] == p;
      } else {
        assert HasPair(units, n);
        var k :| 0 <= k < |units| && units[k].Pair? && units[k].n == n;
        assert more[if k < u then k else k + 1] == units[k];
      }
    }
    assert forall k :: 0 <= k < |units| && units[k].Pair? ==> PairAt(doc, warm, units, k);
  }

  lemma SinglesAround(units: seq<Unit>, u: nat, p: Unit, k: nat)
    requires u < k <= |units| && p.Pair?
    ensures Singles((units[..u] + [p] + units[u..])[..k]) == Singles(units[..k - 1])
  {
    var mid := units[u..k - 1];
    assert (units[..u] + [p] + units[u..])[..k] == units[..u] + [p] + mid;
    assert units[..k - 1] == units[..u] + mid;
    SinglesConcat(units[..u] + [p], mid);
    SinglesConcat(units[..u], [p]);
    SinglesConcat(units[..u], mid);
    FlatOfOne(p);
  }
}
