/** What the merge loop promises: a complete code, of least cost, and not too deep. */
module HuffmanOptimal {
  import opened Numbers
  import opened HuffmanMerge

  // ---- assignments of lengths to weighted symbols ----

  /** Every symbol of positive weight has a length of at most `top`. */
  ghost predicate Within(w: seq<nat>, len: seq<nat>, top: nat) {
    |w| == |len| && forall i :: 0 <= i < |w| && w[i] > 0 ==> len[i] <= top
  }

  /** The share of the code space a length takes, in units of 2^-top. */
  function Share(len: nat, top: nat): nat {
    if len <= top then Pow2(top - len) else 0
  }

  function Shares(w: seq<nat>, len: seq<nat>, top: nat): (s: seq<int>)
    requires |w| == |len|
    ensures |s| == |w|
  {
    seq(|w|, i requires 0 <= i < |w| => if w[i] > 0 then Share(len[i], top) else 0)
  }

  /** The Kraft sum of the symbols in use, times 2^top. */
  function Kraft(w: seq<nat>, len: seq<nat>, top: nat): int
    requires |w| == |len|
  {
    Sum(Shares(w, len, top))
  }

  function Costs(w: seq<nat>, len: seq<nat>): (s: seq<int>)
    requires |w| == |len|
    ensures |s| == |w|
  {
    seq(|w|, i requires 0 <= i < |w| => w[i] * len[i])
  }

  /** The bits it takes to write every symbol as often as its weight says. */
  function Cost(w: seq<nat>, len: seq<nat>): int
    requires |w| == |len|
  {
    Sum(Costs(w, len))
  }

  // ---- changing one symbol at a time ----

  lemma ChangeOne(w: seq<nat>, len: seq<nat>, top: nat, i: nat, w': nat, len': nat)
    requires |w| == |len| && i < |w|
    ensures Cost(w[i := w'], len[i := len']) == Cost(w, len) - w[i] * len[i] + w' * len'
    ensures Kraft(w[i := w'], len[i := len'], top)
            == Kraft(w, len, top) - (if w[i] > 0 then Share(len[i], top) else 0) + if w' > 0 then Share(len', top) else 0
  {
    SumUpdate(Costs(w, len), i, w' * len');
    assert Costs(w[i := w'], len[i := len']) == Costs(w, len)[i := w' * len'];
    var share := if w' > 0 then Share(len', top) else 0;
    SumUpdate(Shares(w, len, top), i, share);
    assert Shares(w[i := w'], len[i := len'], top) == Shares(w, len, top)[i := share];
  }

  lemma KraftIsPositive(w: seq<nat>, len: seq<nat>, top: nat)
    requires Within(w, len, top)
    ensures forall i :: 0 <= i < |w| && w[i] > 0 ==> Kraft(w, len, top) >= Share(len[i], top)
    ensures forall i, j :: 0 <= i < |w| && 0 <= j < |w| && i != j && w[i] > 0 && w[j] > 0 ==>
              Kraft(w, len, top) >= Share(len[i], top) + Share(len[j], top)
  {
    SumBounds(Shares(w, len, top));
    var s := Shares(w, len, top);
    assert forall i :: 0 <= i < |w| && w[i] > 0 ==> s[i] == Share(len[i], top);
  }

  // ---- the exchange argument ----

  /** Giving the lighter of two symbols the longer length does not cost more and takes the same space. */
  lemma SwapLengths(w: seq<nat>, len: seq<nat>, top: nat, light: nat, heavy: nat)
    requires Within(w, len, top) && light < |w| && heavy < |w| && light != heavy
    requires 0 < w[light] <= w[heavy] && len[light] <= len[heavy]
    ensures var swapped := len[light := len[heavy]][heavy := len[light]];
            && Within(w, swapped, top)
            && Kraft(w, swapped, top) == Kraft(w, len, top)
            && Cost(w, swapped) <= Cost(w, len)
  {
    var once := len[light := len[heavy]];
    ChangeOne(w, len, top, light, w[light], len[heavy]);
    assert w[light := w[light]] == w;
    ChangeOne(w, once, top, heavy, w[heavy], len[light]);
    assert w[heavy := w[heavy]] == w;
    Rearrange(w[light], w[heavy], len[light], len[heavy]);
  }

  lemma Rearrange(a: nat, b: nat, x: nat, y: nat)
    requires a <= b && x <= y
    ensures a * y + b * x <= a * x + b * y
  {
    assert (b - a) * (y - x) >= 0;
  }

  /** With the two lightest symbols at the deepest level, merging them saves exactly their weights. */
  lemma MergeDeepest(w: seq<nat>, len: seq<nat>, top: nat, v1: nat, v2: nat)
    requires Within(w, len, top) && top > 0 && v1 < |w| && v2 < |w| && v1 != v2
    requires w[v1] > 0 && w[v2] > 0 && len[v1] == top && len[v2] == top
    ensures var w', len' := w[v1 := w[v1] + w[v2]][v2 := 0], len[v1 := top - 1];
            && Within(w', len', top)
            && Kraft(w', len', top) == Kraft(w, len, top)
            && Cost(w', len') + w[v1] + w[v2] == Cost(w, len)
  {
    var w1, len' := w[v1 := w[v1] + w[v2]], len[v1 := top - 1];
    ChangeOne(w, len, top, v1, w[v1] + w[v2], top - 1);
    ChangeOne(w1, len', top, v2, 0, top);
    assert len'[v2 := top] == len';
    assert Share(top - 1, top) == 2 && Share(top, top) == 1;
    assert (w[v1] + w[v2]) * (top - 1) == w[v1] * top + w[v2] * top - w[v1] - w[v2];
  }

  /** When at most one symbol sits at the deepest level, the whole assignment fits one level less. */
  lemma {:induction false} LowerTop(w: seq<nat>, len: seq<nat>, top: nat)
    requires Within(w, len, top) && top > 0
    requires forall i :: 0 <= i < |w| && w[i] > 0 ==> len[i] < top
    ensures Kraft(w, len, top) == 2 * Kraft(w, len, top - 1)
  {
    SumScale(Shares(w, len, top - 1), Shares(w, len, top), 2);
  }

  /** Any assignment can be turned into one for the merged symbols that saves at least the merged weight. */
  lemma {:induction false} MergeSaves(w: seq<nat>, len: seq<nat>, top: nat, v1: nat, v2: nat)
      returns (len': seq<nat>, top': nat)
    requires Within(w, len, top) && Kraft(w, len, top) <= Pow2(top)
    requires v1 < |w| && v2 < |w| && IsLeast(w, -1, v1) && IsLeast(w, v1, v2)
    ensures var w' := w[v1 := w[v1] + w[v2]][v2 := 0];
            && Within(w', len', top')
            && Kraft(w', len', top') <= Pow2(top')
            && Cost(w', len') + w[v1] + w[v2] <= Cost(w, len)
    decreases top
  {
    assert Candidate(w, -1, v1) && Candidate(w, v1, v2);
    KraftIsPositive(w, len, top);
    if top == 0 {
      assert false;
    } else if a, b :| 0 <= a < |w| && 0 <= b < |w| && a != b && w[a] > 0 && w[b] > 0 && len[a] == len[b] == top {
      var deep := DeepenBoth(w, len, top, v1, v2, a, b);
      MergeDeepest(w, deep, top, v1, v2);
      len', top' := deep[v1 := top - 1], top;
    } else if a :| 0 <= a < |w| && w[a] > 0 && len[a] == top {
      LoneDeepest(w, len, top, a);
      len', top' := MergeSaves(w, len[a := top - 1], top - 1, v1, v2);
    } else {
      LowerTop(w, len, top);
      len', top' := MergeSaves(w, len, top - 1, v1, v2);
    }
  }

  /** Two symbols at the deepest level can trade places with the two lightest. */
  lemma DeepenBoth(w: seq<nat>, len: seq<nat>, top: nat, v1: nat, v2: nat, a: nat, b: nat) returns (deep: seq<nat>)
    requires Within(w, len, top) && v1 < |w| && v2 < |w| && IsLeast(w, -1, v1) && IsLeast(w, v1, v2)
    requires a < |w| && b < |w| && a != b && w[a] > 0 && w[b] > 0 && len[a] == len[b] == top
    ensures Within(w, deep, top) && deep[v1] == top && deep[v2] == top
    ensures Kraft(w, deep, top) == Kraft(w, len, top) && Cost(w, deep) <= Cost(w, len)
  {
    assert Candidate(w, -1, v1) && Candidate(w, v1, v2) && Candidate(w, -1, a) && Candidate(w, -1, b);
    var other := if a == v1 then b else if b == v1 then a else b;
    deep := len;
    if len[v1] < top {
      SwapLengths(w, len, top, v1, a);
      deep := len[v1 := len[a]][a := len[v1]];
    }
    if deep[v2] < top {
      assert Candidate(w, v1, other);
      SwapLengths(w, deep, top, v2, other);
      deep := deep[v2 := deep[other]][other := deep[v2]];
    }
  }

  /** A lone symbol at the deepest level can be one shorter: the Kraft sum has room for it. */
  lemma LoneDeepest(w: seq<nat>, len: seq<nat>, top: nat, a: nat)
    requires Within(w, len, top) && top > 0 && Kraft(w, len, top) <= Pow2(top)
    requires a < |w| && w[a] > 0 && len[a] == top
    requires forall i :: 0 <= i < |w| && w[i] > 0 && i != a ==> len[i] < top
    ensures Within(w, len[a := top - 1], top - 1)
    ensures Kraft(w, len[a := top - 1], top - 1) <= Pow2(top - 1)
    ensures Cost(w, len[a := top - 1]) <= Cost(w, len)
  {
    var shorter := len[a := top - 1];
    ChangeOne(w, len, top, a, w[a], top - 1);
    assert w[a := w[a]] == w;
    assert Share(top - 1, top) == 2 && Share(top, top) == 1;
    LowerTop(w, shorter, top);
    assert w[a] * (top - 1) <= w[a] * top;
  }

  // ---- what every turn of the merge loop keeps ----

  function GroupTerms(w: seq<nat>, root: seq<int>, r: int): (s: seq<int>)
    requires |w| == |root|
    ensures |s| == |w|
  {
    seq(|w|, i requires 0 <= i < |w| => if root[i] == r then w[i] else 0)
  }

  /** The weight of a tree's symbols. */
  function GroupWeight(w: seq<nat>, root: seq<int>, r: int): int
    requires |w| == |root|
  {
    Sum(GroupTerms(w, root, r))
  }

  /** A tree's frequency is the weight of its symbols, and symbols out of use are in no tree. */
  ghost predicate Weighed(f: Forest, w: seq<nat>) {
    && f.Shaped() && |w| == |f.freq|
    && (forall r :: f.Live(r) ==> f.freq[r] == GroupWeight(w, f.root, r))
    && (forall i :: 0 <= i < |w| ==> (f.root[i] in f.Trees() <==> w[i] > 0))
  }

  lemma StartIsWeighed(w: seq<nat>)
    ensures Weighed(Start(w), w)
  {
    var f := Start(w);
    forall r | f.Live(r)
      ensures f.freq[r] == GroupWeight(w, f.root, r)
    {
      var zeros := seq(|w|, i => 0);
      SumScale(zeros, zeros, 0);
      SumUpdate(zeros, r, w[r]);
      assert GroupTerms(w, f.root, r) == zeros[r := w[r]];
    }
  }

  lemma MergeIsWeighed(f: Forest, w: seq<nat>, v1: int, v2: int)
    requires Weighed(f, w) && f.Live(v1) && f.Live(v2) && v1 != v2
    ensures Weighed(Merge(f, v1, v2), w)
  {
    var g := Merge(f, v1, v2);
    TreesShrink(f, v1, v2);
    forall r | g.Live(r)
      ensures g.freq[r] == GroupWeight(w, g.root, r)
    {
      if r == v1 {
        SumAdd(GroupTerms(w, f.root, v1), GroupTerms(w, f.root, v2), GroupTerms(w, g.root, v1));
      } else {
        assert f.Live(r);
        assert GroupTerms(w, g.root, r) == GroupTerms(w, f.root, r);
      }
    }
  }

  /** Every symbol of the two trees becomes one bit longer, so the merge costs what the two trees weigh. */
  lemma MergeCost(f: Forest, w: seq<nat>, v1: int, v2: int)
    requires Weighed(f, w) && f.Live(v1) && f.Live(v2) && v1 != v2
    ensures Cost(w, Merge(f, v1, v2).size) == Cost(w, f.size) + f.freq[v1] + f.freq[v2]
  {
    var g := Merge(f, v1, v2);
    var a, b := GroupTerms(w, f.root, v1), GroupTerms(w, f.root, v2);
    var ab := seq(|w|, i requires 0 <= i < |w| => a[i] + b[i]);
    SumAdd(a, b, ab);
    forall i | 0 <= i < |w|
      ensures Costs(w, g.size)[i] == Costs(w, f.size)[i] + ab[i]
    {
      assert w[i] * (f.size[i] + 1) == w[i] * f.size[i] + w[i];
    }
    SumAdd(Costs(w, f.size), ab, Costs(w, g.size));
  }

  lemma AllMerged(f: Forest, w: seq<nat>, len: seq<nat>)
    requires Weighed(f, w) && |len| == |f.freq|
    requires LeastFrequent(f.freq, -1) < 0 || LeastFrequent(f.freq, LeastFrequent(f.freq, -1)) < 0
    ensures MergeAll(f) == f && Cost(f.freq, len) >= 0
  {
    SumBounds(Costs(f.freq, len));
  }

  /** From any forest on, the loop adds no more than any assignment of lengths to the trees would. */
  lemma {:induction false} MergeAllIsOptimal(f: Forest, w: seq<nat>, len: seq<nat>, top: nat)
    requires Weighed(f, w) && Within(f.freq, len, top) && Kraft(f.freq, len, top) <= Pow2(top)
    ensures Cost(w, MergeAll(f).size) <= Cost(w, f.size) + Cost(f.freq, len)
    decreases f.Trees()
  {
    hide Kraft, Cost, LeastFrequent;
    var v1 := LeastFrequent(f.freq, -1);
    var v2 := LeastFrequent(f.freq, v1);
    if v1 < 0 || v2 < 0 {
      AllMerged(f, w, len);
    } else {
      assert Candidate(f.freq, -1, v1) && Candidate(f.freq, v1, v2);
      var len', top' := MergeSaves(f.freq, len, top, v1, v2);
      TreesShrink(f, v1, v2);
      MergeIsWeighed(f, w, v1, v2);
      MergeCost(f, w, v1, v2);
      MergeAllIsOptimal(Merge(f, v1, v2), w, len', top');
    }
  }

  /** Huffman's theorem for the loop as written: no code lengths that satisfy the Kraft inequality cost less. */
  lemma HuffmanIsOptimal(freq: seq<nat>, len: seq<nat>, top: nat)
    requires Within(freq, len, top) && Kraft(freq, len, top) <= Pow2(top)
    ensures Cost(freq, CodeSizes(freq)) <= Cost(freq, len)
  {
    StartIsWeighed(freq);
    var f := Start(freq);
    SumScale(Costs(freq, f.size), Costs(freq, f.size), 0);
    MergeAllIsOptimal(f, freq, len, top);
  }

  // ---- the code is complete ----

  function GroupShares(f: Forest, r: int, top: nat): (s: seq<int>)
    requires f.Shaped()
    ensures |s| == |f.freq|
  {
    seq(|f.freq|, i requires 0 <= i < |f.freq| => if f.root[i] == r then Share(f.size[i], top) else 0)
  }

  ghost predicate GroupWithin(f: Forest, r: int, top: nat)
    requires f.Shaped()
  {
    forall i :: 0 <= i < |f.freq| && f.root[i] == r ==> f.size[i] <= top
  }

  /** In every tree the Kraft sum of the leaves is exactly 1, at whatever resolution it is taken. */
  ghost predicate Complete(f: Forest)
    requires f.Shaped()
  {
    forall r, top: nat :: f.Live(r) && GroupWithin(f, r, top) ==> Sum(GroupShares(f, r, top)) == Pow2(top)
  }

  lemma StartIsComplete(w: seq<nat>)
    ensures Complete(Start(w))
  {
    var f := Start(w);
    forall r, top: nat | f.Live(r)
      ensures Sum(GroupShares(f, r, top)) == Pow2(top)
    {
      var zeros := seq(|w|, i => 0);
      SumScale(zeros, zeros, 0);
      SumUpdate(zeros, r, Pow2(top));
      assert GroupShares(f, r, top) == zeros[r := Pow2(top)];
    }
  }

  lemma OneLevelDown(f: Forest, v1: int, v2: int, top: nat)
    requires f.Shaped() && f.Live(v1) && f.Live(v2) && v1 != v2 && top > 0
    requires GroupWithin(Merge(f, v1, v2), v1, top)
    ensures GroupWithin(f, v1, top - 1) && GroupWithin(f, v2, top - 1)
    ensures forall k :: 0 <= k < |f.freq| ==>
      GroupShares(Merge(f, v1, v2), v1, top)[k] == GroupShares(f, v1, top - 1)[k] + GroupShares(f, v2, top - 1)[k]
  {
    var g := Merge(f, v1, v2);
    assert forall k :: 0 <= k < |f.freq| && (f.root[k] == v1 || f.root[k] == v2) ==> g.root[k] == v1;
  }

  /** The joined tree: one level down in both. */
  lemma JoinedIsComplete(f: Forest, v1: int, v2: int, top: nat)
    requires f.Shaped() && Complete(f) && f.Live(v1) && f.Live(v2) && v1 != v2
    requires exists i :: 0 <= i < |f.freq| && f.root[i] == v1
    requires GroupWithin(Merge(f, v1, v2), v1, top)
    ensures Sum(GroupShares(Merge(f, v1, v2), v1, top)) == Pow2(top)
  {
    var g := Merge(f, v1, v2);
    var i :| 0 <= i < |f.freq| && f.root[i] == v1;
    assert g.root[i] == v1 && g.size[i] == f.size[i] + 1 <= top;
    OneLevelDown(f, v1, v2, top);
    assert Sum(GroupShares(f, v1, top - 1)) == Pow2(top - 1) && Sum(GroupShares(f, v2, top - 1)) == Pow2(top - 1);
    SumAdd(GroupShares(f, v1, top - 1), GroupShares(f, v2, top - 1), GroupShares(g, v1, top));
  }

  lemma OtherIsComplete(f: Forest, v1: int, v2: int, r: int, top: nat)
    requires f.Shaped() && Complete(f) && f.Live(v1) && f.Live(v2) && v1 != v2
    requires Merge(f, v1, v2).Live(r) && r != v1 && GroupWithin(Merge(f, v1, v2), r, top)
    ensures Sum(GroupShares(Merge(f, v1, v2), r, top)) == Pow2(top)
  {
    var g := Merge(f, v1, v2);
    assert f.Live(r) && GroupShares(g, r, top) == GroupShares(f, r, top);
    assert forall k :: 0 <= k < |f.freq| && f.root[k] == r ==> g.root[k] == r && g.size[k] == f.size[k];
    assert GroupWithin(f, r, top);
  }

  lemma MergeIsComplete(f: Forest, v1: int, v2: int)
    requires f.Shaped() && Complete(f) && f.Live(v1) && f.Live(v2) && v1 != v2
    requires exists i :: 0 <= i < |f.freq| && f.root[i] == v1
    ensures Complete(Merge(f, v1, v2))
  {
    var g := Merge(f, v1, v2);
    forall r, top: nat | g.Live(r) && GroupWithin(g, r, top)
      ensures Sum(GroupShares(g, r, top)) == Pow2(top)
    {
      if r == v1 {
        JoinedIsComplete(f, v1, v2, top);
      } else {
        OtherIsComplete(f, v1, v2, r, top);
      }
    }
  }

  // ---- a deep symbol needs a heavy tree ----

  /** A symbol at depth d sits in a tree of weight at least Fib(d + 2), and every other tree weighs at
      least Fib(d + 1). */
  ghost predicate Heavy(f: Forest)
    requires f.Shaped()
  {
    forall i, r :: 0 <= i < |f.freq| && f.Live(f.root[i]) && f.Live(r) ==>
      f.freq[r] >= Fib(f.size[i] + if r == f.root[i] then 2 else 1)
  }

  lemma FibStep(d: nat)
    ensures Fib(d + 3) == Fib(d + 1) + Fib(d + 2) && Fib(d + 1) <= Fib(d + 2)
  {
  }

  lemma MergeIsHeavy(f: Forest, v1: int, v2: int)
    requires f.Shaped() && Heavy(f)
    requires 0 <= v1 && 0 <= v2 && IsLeast(f.freq, -1, v1) && IsLeast(f.freq, v1, v2)
    ensures Candidate(f.freq, v1, v2) && Heavy(Merge(f, v1, v2))
  {
    hide Fib;
    assert Candidate(f.freq, -1, v1) && Candidate(f.freq, v1, v2);
    var g := Merge(f, v1, v2);
    forall i, r | 0 <= i < |f.freq| && g.Live(g.root[i]) && g.Live(r)
      ensures g.freq[r] >= Fib(g.size[i] + if r == g.root[i] then 2 else 1)
    {
      var d := f.size[i];
      assert f.Live(r) && f.Live(f.root[i]) && f.Live(v1) && f.Live(v2);
      assert f.freq[r] >= Fib(d + if r == f.root[i] then 2 else 1);
      assert f.freq[v1] >= Fib(d + if v1 == f.root[i] then 2 else 1);
      assert f.freq[v2] >= Fib(d + if v2 == f.root[i] then 2 else 1);
      FibStep(d);
      if r != v1 {
        assert Candidate(f.freq, -1, r) && Candidate(f.freq, v1, r);
      }
    }
  }

  // ---- the loop as a whole ----

  ghost predicate Sound(f: Forest, w: seq<nat>) {
    Weighed(f, w) && Complete(f) && Heavy(f)
  }

  lemma {:induction false} MergeAllIsSound(f: Forest, w: seq<nat>)
    requires Sound(f, w)
    ensures Sound(MergeAll(f), w)
    ensures forall r, s :: MergeAll(f).Live(r) && MergeAll(f).Live(s) ==> r == s
    decreases f.Trees()
  {
    var v1 := LeastFrequent(f.freq, -1);
    var v2 := LeastFrequent(f.freq, v1);
    if v1 < 0 || v2 < 0 {
      assert forall r :: f.Live(r) ==> Candidate(f.freq, -1, r) && (r != v1 ==> Candidate(f.freq, v1, r));
    } else {
      assert Candidate(f.freq, -1, v1);
      MergeIsHeavy(f, v1, v2);
      MergeIsWeighed(f, w, v1, v2);
      LiveTreeHasSymbol(f, w, v1);
      MergeIsComplete(f, v1, v2);
      TreesShrink(f, v1, v2);
      MergeAllIsSound(Merge(f, v1, v2), w);
    }
  }

  lemma LiveTreeHasSymbol(f: Forest, w: seq<nat>, r: int)
    requires Weighed(f, w) && f.Live(r)
    ensures exists i :: 0 <= i < |f.freq| && f.root[i] == r
  {
    if forall i :: 0 <= i < |f.freq| ==> f.root[i] != r {
      SumScale(GroupTerms(w, f.root, r), GroupTerms(w, f.root, r), 0);
    }
  }

  lemma CodeSizesAreSound(freq: seq<nat>)
    ensures Sound(MergeAll(Start(freq)), freq)
    ensures forall r, s :: MergeAll(Start(freq)).Live(r) && MergeAll(Start(freq)).Live(s) ==> r == s
  {
    StartIsWeighed(freq);
    StartIsComplete(freq);
    MergeAllIsSound(Start(freq), freq);
  }

  /** The Kraft sum of the code the loop builds is exactly 1. */
  lemma HuffmanIsComplete(freq: seq<nat>, top: nat)
    requires Within(freq, CodeSizes(freq), top)
    requires exists i :: 0 <= i < |freq| && freq[i] > 0
    ensures Kraft(freq, CodeSizes(freq), top) == Pow2(top)
  {
    CodeSizesAreSound(freq);
    var g := MergeAll(Start(freq));
    var i :| 0 <= i < |freq| && freq[i] > 0;
    var r := g.root[i];
    assert r in g.Trees();
    assert forall k :: 0 <= k < |freq| ==> (g.root[k] == r <==> freq[k] > 0) by {
      forall k | 0 <= k < |freq| && freq[k] > 0
        ensures g.root[k] == r
      {
        assert g.root[k] in g.Trees();
        assert g.Live(g.root[k]) && g.Live(r);
      }
    }
    assert GroupWithin(g, r, top);
    assert GroupShares(g, r, top) == Shares(freq, g.size, top);
  }

  /** A code length of d takes a total weight of at least Fib(d + 2). */
  lemma HuffmanDepth(freq: seq<nat>, i: nat)
    requires i < |freq| && freq[i] > 0
    ensures Sum(freq) >= Fib(CodeSizes(freq)[i] + 2)
  {
    CodeSizesAreSound(freq);
    var g := MergeAll(Start(freq));
    var r := g.root[i];
    assert r in g.Trees();
    assert g.Live(r) && g.freq[r] >= Fib(g.size[i] + 2);
    SumMonotone(GroupTerms(freq, g.root, r), freq);
  }

  /** With two symbols in use neither can have the empty code. */
  lemma HuffmanIsPositive(freq: seq<nat>, i: nat, j: nat)
    requires i < |freq| && j < |freq| && i != j && freq[i] > 0 && freq[j] > 0
    ensures CodeSizes(freq)[i] > 0
  {
    var len := CodeSizes(freq);
    SumBounds(len);
    var top: nat := Sum(len);
    HuffmanIsComplete(freq, top);
    KraftIsPositive(freq, len, top);
    assert Share(0, top) == Pow2(top) && Share(len[j], top) >= 1;
  }

  /** Symbols that never occur get no code length. */
  lemma {:induction false} MergeAllSkipsUnused(f: Forest, w: seq<nat>, i: nat)
    requires Weighed(f, w) && i < |w| && w[i] == 0
    ensures MergeAll(f).size[i] == f.size[i]
    decreases f.Trees()
  {
    var v1 := LeastFrequent(f.freq, -1);
    var v2 := LeastFrequent(f.freq, v1);
    if v1 >= 0 && v2 >= 0 {
      assert Candidate(f.freq, -1, v1) && Candidate(f.freq, v1, v2);
      assert f.root[i] !in f.Trees() && v1 in f.Trees() && v2 in f.Trees();
      TreesShrink(f, v1, v2);
      MergeIsWeighed(f, w, v1, v2);
      MergeAllSkipsUnused(Merge(f, v1, v2), w, i);
    }
  }
}
