/** The merge loop that reads a code length for every symbol off a Huffman tree it never builds. */
module HuffmanMerge {
  import opened Numbers

  // ---- picking the least frequent symbol ----

  predicate Candidate(freq: seq<nat>, exclude: int, i: int) {
    0 <= i < |freq| && freq[i] > 0 && i != exclude
  }

  /** `best` is the least frequent candidate, the last one among equals; -1 when there is none. */
  ghost predicate IsLeast(freq: seq<nat>, exclude: int, best: int) {
    if best < 0 then
      best == -1 && forall i :: !Candidate(freq, exclude, i)
    else
      && Candidate(freq, exclude, best)
      && (forall i :: Candidate(freq, exclude, i) ==> freq[best] <= freq[i])
      && (forall i :: Candidate(freq, exclude, i) && i > best ==> freq[best] < freq[i])
  }

  lemma CandidatesUpTo(freq: seq<nat>, exclude: int)
    requires freq != []
    ensures forall i :: Candidate(freq[..|freq| - 1], exclude, i) <==> Candidate(freq, exclude, i) && i < |freq| - 1
  {
  }

  function LeastFrequent(freq: seq<nat>, exclude: int): (best: int)
    ensures IsLeast(freq, exclude, best)
  {
    if freq == [] then -1
    else
      var n := |freq| - 1;
      var best := LeastFrequent(freq[..n], exclude);
      CandidatesUpTo(freq, exclude);
      if Candidate(freq, exclude, n) && (best < 0 || freq[n] <= freq[best]) then n else best
  }

  lemma LeastIsUnique(freq: seq<nat>, exclude: int, a: int, b: int)
    requires IsLeast(freq, exclude, a) && IsLeast(freq, exclude, b)
    ensures a == b
  {
    assert a >= 0 ==> Candidate(freq, exclude, a);
    assert b >= 0 ==> Candidate(freq, exclude, b);
  }

  method FindLeastFrequent(freq: array<nat>, exclude: int) returns (best: int)
    ensures best == LeastFrequent(freq[..], exclude)
  {
    best := -1;
    var bestFreq := 0;
    for i := 0 to freq.Length
      invariant best >= 0 ==> best < i && bestFreq == freq[best]
      invariant IsLeast(freq[..i], exclude, best)
    {
      CandidatesUpTo(freq[..i + 1], exclude);
      assert freq[..i + 1][..i] == freq[..i];
      if freq[i] == 0 || i == exclude {
        continue;
      }
      if best < 0 || freq[i] < bestFreq || (freq[i] == bestFreq && i > best) {
        best, bestFreq := i, freq[i];
      }
    }
    assert freq[..freq.Length] == freq[..];
    LeastIsUnique(freq[..], exclude, best, LeastFrequent(freq[..], exclude));
  }

  // ---- the forest the loop works on ----

  /** `freq[r] > 0` marks r as the name of a tree; `root[i]` names the tree symbol i is in, and `size[i]` is
      its depth there. */
  datatype Forest = Forest(freq: seq<nat>, root: seq<int>, size: seq<nat>) {
    ghost predicate Shaped() {
      |freq| == |root| == |size|
    }

    ghost predicate Live(r: int) {
      0 <= r < |freq| && freq[r] > 0
    }

    function Trees(): set<int> {
      set r | 0 <= r < |freq| && freq[r] > 0
    }
  }

  function Start(freq: seq<nat>): (f: Forest)
    ensures f.Shaped()
  {
    Forest(freq, seq(|freq|, i => i), seq(|freq|, i => 0))
  }

  /** Tree v2 becomes part of tree v1, and everything in either is one deeper. */
  function Merge(f: Forest, v1: int, v2: int): (g: Forest)
    requires f.Shaped() && 0 <= v1 < |f.freq| && 0 <= v2 < |f.freq| && v1 != v2
    ensures g.Shaped()
  {
    Forest(
      f.freq[v1 := f.freq[v1] + f.freq[v2]][v2 := 0],
      seq(|f.freq|, i requires 0 <= i < |f.freq| => if f.root[i] == v2 then v1 else f.root[i]),
      seq(|f.freq|, i requires 0 <= i < |f.freq| =>
        if f.root[i] == v1 || f.root[i] == v2 then f.size[i] + 1 else f.size[i]))
  }

  function MergeAll(f: Forest): (g: Forest)
    requires f.Shaped()
    ensures g.Shaped() && |g.freq| == |f.freq|
    decreases f.Trees()
  {
    var v1 := LeastFrequent(f.freq, -1);
    var v2 := LeastFrequent(f.freq, v1);
    if v1 < 0 || v2 < 0 then f
    else
      assert Candidate(f.freq, v1, v2);
      var g := Merge(f, v1, v2);
      assert v2 in f.Trees() && v2 !in g.Trees();
      assert forall r :: r in g.Trees() ==> r in f.Trees();
      MergeAll(g)
  }

  /** The code length the merge gives every symbol. */
  function CodeSizes(freq: seq<nat>): (size: seq<nat>)
    ensures |size| == |freq|
  {
    MergeAll(Start(freq)).size
  }

  // ---- the loop itself: trees are linked lists through `others` ----

  /** `chain` is the linked list that starts at chain[0] and follows `others` to -1. */
  ghost predicate IsChain(others: seq<int>, chain: seq<int>) {
    && chain != [] && 0 <= chain[0] < |others|
    && chain[0] !in chain[1..]
    && if |chain| == 1 then others[chain[0]] == -1
       else others[chain[0]] == chain[1] && IsChain(others, chain[1..])
  }

  lemma {:induction false} ChainElsewhere(others: seq<int>, chain: seq<int>, at: nat, v: int)
    requires IsChain(others, chain) && at < |others| && at !in chain
    ensures IsChain(others[at := v], chain)
  {
    if |chain| > 1 {
      ChainElsewhere(others, chain[1..], at, v);
    }
  }

  lemma {:induction false} ChainInRange(others: seq<int>, chain: seq<int>)
    requires IsChain(others, chain)
    ensures forall i :: i in chain ==> 0 <= i < |others|
  {
    if |chain| > 1 {
      ChainInRange(others, chain[1..]);
      assert chain == [chain[0]] + chain[1..];
    }
  }

  /** Hooking list b to the last element of list a joins the two. */
  lemma {:induction false} JoinChains(others: seq<int>, a: seq<int>, b: seq<int>)
    requires IsChain(others, a) && IsChain(others, b)
    requires forall i :: i in a ==> i !in b
    ensures 0 <= a[|a| - 1] < |others|
    ensures IsChain(others[a[|a| - 1] := b[0]], a + b)
  {
    var c := a + b;
    assert a[0] in a;
    if |a| == 1 {
      assert c[1..] == b;
      ChainElsewhere(others, b, a[0], b[0]);
    } else {
      assert c[1..] == a[1..] + b;
      assert forall i :: i in a[1..] ==> i in a;
      JoinChains(others, a[1..], b);
      assert a[|a| - 1] == a[1..][|a| - 2] && a[|a| - 1] in a[1..];
    }
  }

  /** Every tree's chain lists exactly the symbols in it. */
  ghost predicate Linked(f: Forest, others: seq<int>, chains: seq<seq<int>>)
    requires f.Shaped()
  {
    && |others| == |chains| == |f.freq|
    && (forall r :: f.Live(r) ==> IsChain(others, chains[r]) && chains[r][0] == r)
    && (forall r, i :: f.Live(r) && 0 <= i < |f.freq| ==> (i in chains[r] <==> f.root[i] == r))
  }

  method Deepen(codeSize: array<nat>, others: array<int>, v: int, ghost chain: seq<int>) returns (last: int)
    requires codeSize.Length == others.Length && codeSize as object != others
    requires IsChain(others[..], chain) && chain[0] == v
    modifies codeSize
    ensures last == chain[|chain| - 1]
    ensures forall i :: 0 <= i < codeSize.Length ==>
              codeSize[i] == old(codeSize[i]) + if i in chain then 1 else 0
  {
    last := v;
    codeSize[last] := codeSize[last] + 1;
    ghost var links, todo := others[..], chain;
    assert chain == [chain[0]] + chain[1..];
    while others[last] >= 0
      invariant others[..] == links && IsChain(links, todo) && last == todo[0]
      invariant todo[|todo| - 1] == chain[|chain| - 1]
      invariant forall i :: i in todo ==> i in chain
      invariant forall i :: 0 <= i < codeSize.Length ==>
                  codeSize[i] == old(codeSize[i]) + if i in chain && i !in todo[1..] then 1 else 0
      decreases |todo|
    {
      assert links[last] >= 0;
      ghost var rest := todo[1..];
      assert rest == [rest[0]] + rest[1..];
      last := others[last];
      codeSize[last] := codeSize[last] + 1;
      todo := rest;
    }
    assert links[last] < 0;
    assert |todo| == 1;
  }

  lemma LinkedAfterMerge(f: Forest, others: seq<int>, chains: seq<seq<int>>, v1: int, v2: int)
    requires f.Shaped() && Linked(f, others, chains) && f.Live(v1) && f.Live(v2) && v1 != v2
    ensures var last := chains[v1][|chains[v1]| - 1];
            0 <= last < |others| && Linked(Merge(f, v1, v2), others[last := v2], chains[v1 := chains[v1] + chains[v2]])
  {
    var a, b := chains[v1], chains[v2];
    var last := a[|a| - 1];
    var g := Merge(f, v1, v2);
    ChainInRange(others, a);
    assert last in a;
    var others', chains' := others[last := v2], chains[v1 := a + b];
    assert forall i :: 0 <= i < |f.freq| ==> (i in a <==> f.root[i] == v1);
    assert forall i :: 0 <= i < |f.freq| ==> (i in b <==> f.root[i] == v2);
    JoinChains(others, a, b);
    forall r | g.Live(r)
      ensures IsChain(others', chains'[r]) && chains'[r][0] == r
      ensures forall i :: 0 <= i < |f.freq| ==> (i in chains'[r] <==> g.root[i] == r)
    {
      if r != v1 {
        assert f.Live(r);
        assert last !in chains[r];
        ChainElsewhere(others, chains[r], last, v2);
      }
    }
  }

  /** One turn of the merge loop: tree v2 joins tree v1, and every symbol of both is one deeper. */
  method MergePair(freq: array<nat>, others: array<int>, codeSize: array<nat>, v1: int, v2: int,
                   ghost f: Forest, ghost chains: seq<seq<int>>)
    requires freq.Length == others.Length == codeSize.Length
    requires freq as object != others && freq != codeSize && others as object != codeSize
    requires f.Shaped() && f.freq == freq[..] && f.size == codeSize[..] && Linked(f, others[..], chains)
    requires f.Live(v1) && f.Live(v2) && v1 != v2
    modifies freq, others, codeSize
    ensures freq[..] == Merge(f, v1, v2).freq && codeSize[..] == Merge(f, v1, v2).size
    ensures Linked(Merge(f, v1, v2), others[..], chains[v1 := chains[v1] + chains[v2]])
  {
    ghost var links, a, b := others[..], chains[v1], chains[v2];
    LinkedAfterMerge(f, links, chains, v1, v2);
    ChainInRange(links, a);
    assert forall i :: 0 <= i < |links| ==> (i in a <==> f.root[i] == v1) && (i in b <==> f.root[i] == v2);
    freq[v1] := freq[v1] + freq[v2];
    freq[v2] := 0;
    assert others[..] == links;
    var last := Deepen(codeSize, others, v1, a);
    assert last in a && last !in b && others[..] == links;
    others[last] := v2;
    assert others[..] == links[last := v2];
    ChainElsewhere(links, b, last, v2);
    var _ := Deepen(codeSize, others, v2, b);
    assert others[..] == links[last := v2];
    assert codeSize[..] == Merge(f, v1, v2).size;
  }

  /** Merge the two least frequent trees until one is left. */
  method MergeLeast(freq: array<nat>, others: array<int>, codeSize: array<nat>)
    requires freq.Length == others.Length == codeSize.Length
    requires freq as object != others && freq != codeSize && others as object != codeSize
    requires forall i :: 0 <= i < freq.Length ==> others[i] == -1 && codeSize[i] == 0
    modifies freq, others, codeSize
    ensures codeSize[..] == CodeSizes(old(freq[..]))
  {
    ghost var f := Start(freq[..]);
    ghost var chains := seq(freq.Length, i => [i]);
    assert codeSize[..] == f.size;
    while true
      invariant f.Shaped() && f.freq == freq[..] && f.size == codeSize[..]
      invariant Linked(f, others[..], chains)
      invariant MergeAll(f) == MergeAll(Start(old(freq[..])))
      decreases f.Trees()
    {
      var v1 := FindLeastFrequent(freq, -1);
      if v1 < 0 {
        break;
      }
      var v2 := FindLeastFrequent(freq, v1);
      if v2 < 0 {
        break;
      }
      ghost var g := Merge(f, v1, v2);
      assert Candidate(f.freq, -1, v1) && Candidate(f.freq, v1, v2);
      assert f.Live(v1) && f.Live(v2);
      TreesShrink(f, v1, v2);
      MergePair(freq, others, codeSize, v1, v2, f, chains);
      f, chains := g, chains[v1 := chains[v1] + chains[v2]];
    }
  }

  lemma TreesShrink(f: Forest, v1: int, v2: int)
    requires f.Shaped() && f.Live(v1) && f.Live(v2) && v1 != v2
    ensures Merge(f, v1, v2).Trees() == f.Trees() - {v2}
    ensures Merge(f, v1, v2).Trees() < f.Trees()
  {
    assert v2 in f.Trees();
  }
}
