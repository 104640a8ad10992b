/** How many symbols it takes to make a code the array of length counts has no room for. */
module HuffmanDepth {
  import opened Numbers
  import opened Outcomes
  import opened HuffmanMerge
  import opened HuffmanOptimal
  import opened LengthLimit
  import opened HuffmanTable

  /** Fib(MAX_MERGED_LEN + 3): the least total weight with a code one bit too long. */
  const UNSAFE_TOTAL: nat := 9227465

  lemma FiveStepsOn(n: nat)
    ensures Fib(n + 5) == 3 * Fib(n) + 5 * Fib(n + 1)
    ensures Fib(n + 6) == 5 * Fib(n) + 8 * Fib(n + 1)
  {
    assert Fib(n + 2) == Fib(n) + Fib(n + 1);
    assert Fib(n + 3) == Fib(n + 1) + Fib(n + 2);
    assert Fib(n + 4) == Fib(n + 2) + Fib(n + 3);
    assert Fib(n + 5) == Fib(n + 3) + Fib(n + 4);
    assert Fib(n + 6) == Fib(n + 4) + Fib(n + 5);
  }

  lemma UnsafeTotalIsFib()
    ensures Fib(MAX_MERGED_LEN + 3) == UNSAFE_TOTAL
  {
    FiveStepsOn(0);
    FiveStepsOn(5);
    FiveStepsOn(10);
    FiveStepsOn(15);
    FiveStepsOn(20);
    FiveStepsOn(25);
    FiveStepsOn(30);
  }

  /** Below that total every merged code has its place in the array, whatever the frequencies. */
  lemma SmallTotalsFit(freq: seq<nat>)
    requires |freq| == SYMBOLS + 1 && Sum(Weights(freq)) < UNSAFE_TOTAL
    ensures BuildTable(freq).Done?
  {
    var w := Weights(freq);
    var size := CodeSizes(w);
    forall i | 0 <= i < |size|
      ensures size[i] <= MAX_MERGED_LEN
    {
      if w[i] == 0 {
        StartIsWeighed(w);
        MergeAllSkipsUnused(Start(w), w, i);
      } else {
        HuffmanDepth(w, i);
        UnsafeTotalIsFib();
        if size[i] > MAX_MERGED_LEN {
          FibMonotone(MAX_MERGED_LEN + 3, size[i] + 2);
        }
      }
    }
  }

  // ---- and no larger total is safe ----

  const DEEP := 33

  /** The weight of the k-th symbol down from the reserved one: Fibonacci numbers, and the excess on the last. */
  function DeepWeight(k: nat, total: nat): nat
    requires total >= UNSAFE_TOTAL
  {
    if k == 0 then 1 else if k < DEEP then Fib(k) else if k == DEEP then Fib(k) + (total - UNSAFE_TOTAL) else 0
  }

  function DeepFrequencies(total: nat): (freq: seq<nat>)
    requires total >= UNSAFE_TOTAL
    ensures |freq| == SYMBOLS + 1
    ensures forall i :: 0 <= i <= SYMBOLS ==> freq[i] == DeepWeight(SYMBOLS - i, total)
  {
    seq(SYMBOLS + 1, i requires 0 <= i <= SYMBOLS => DeepWeight(SYMBOLS - i, total))
  }

  lemma SumOfOne(v: int)
    ensures Sum([v]) == v
  {
    assert [v][..0] == [];
  }

  lemma {:induction false} DeepSum(total: nat, k: nat)
    requires total >= UNSAFE_TOTAL && k < DEEP
    ensures Sum(DeepFrequencies(total)[SYMBOLS - k..]) == Fib(k + 2)
  {
    var s := DeepFrequencies(total)[SYMBOLS - k..];
    if k == 0 {
      SumOfOne(1);
      assert s == [1];
    } else {
      DeepSum(total, k - 1);
      var rest := DeepFrequencies(total)[SYMBOLS - (k - 1)..];
      assert s == [Fib(k)] + rest;
      SumConcat([Fib(k)], rest);
      SumOfOne(Fib(k));
    }
  }

  lemma DeepTotal(total: nat)
    requires total >= UNSAFE_TOTAL
    ensures Sum(DeepFrequencies(total)) == total
  {
    hide Fib;
    var s := DeepFrequencies(total);
    var at := SYMBOLS - DEEP;
    FibStep(DEEP - 1);
    DeepSum(total, DEEP - 1);
    UnsafeTotalIsFib();
    SumConcat(s[..at], s[at..]);
    assert s == s[..at] + s[at..];
    SumScale(s[..at], s[..at], 0);
    assert s[at..] == [s[at]] + s[at + 1..];
    SumConcat([s[at]], s[at + 1..]);
    SumOfOne(s[at]);
  }

  /** After k merges one tree, named p, holds the first k + 1 symbols; the rest are still alone. */
  ghost predicate Chain(f: Forest, total: nat, k: nat, p: int)
    requires total >= UNSAFE_TOTAL
  {
    && k < DEEP
    && f.Shaped() && |f.freq| == SYMBOLS + 1
    && SYMBOLS - k <= p <= SYMBOLS
    && f.freq[p] == Fib(k + 2) && f.root[SYMBOLS] == p && f.size[SYMBOLS] == k
    && forall i :: 0 <= i <= SYMBOLS && i != p ==> f.freq[i] == if i < SYMBOLS - k then DeepWeight(SYMBOLS - i, total) else 0
  }

  lemma DeepWeightsGrow(total: nat, j: nat, k: nat)
    requires total >= UNSAFE_TOTAL && 0 < j <= k <= DEEP
    ensures 0 < Fib(j) <= DeepWeight(k, total)
  {
    FibMonotone(1, j);
    FibMonotone(j, k);
  }

  /** While two loose symbols are left, the tree and the lightest of them are the two to merge. */
  lemma ChainPicks(f: Forest, total: nat, k: nat, p: int)
    requires total >= UNSAFE_TOTAL && Chain(f, total, k, p) && k + 1 < DEEP
    ensures var v1, v2 := LeastFrequent(f.freq, -1), LeastFrequent(f.freq, LeastFrequent(f.freq, -1));
            if k == 0 then v1 == SYMBOLS && v2 == SYMBOLS - 1 else v1 == SYMBOLS - k - 1 && v2 == p
  {
    var next := SYMBOLS - k - 1;
    var a, b := if k == 0 then SYMBOLS else next, if k == 0 then next else p;
    assert f.freq[next] == Fib(k + 1);
    FibMonotone(1, k + 1);
    if k > 0 {
      FibMonotone(1, k);
      assert Fib(k + 2) == Fib(k) + Fib(k + 1);
    }
    forall i | Candidate(f.freq, -1, i) && i != p && i != next
      ensures i < next && f.freq[i] >= Fib(k + 2)
    {
      DeepWeightsGrow(total, k + 2, SYMBOLS - i);
    }
    assert Candidate(f.freq, -1, a) && Candidate(f.freq, a, b);
    assert forall i :: Candidate(f.freq, a, i) ==> Candidate(f.freq, -1, i);
    LeastIsUnique(f.freq, -1, a, LeastFrequent(f.freq, -1));
    LeastIsUnique(f.freq, a, b, LeastFrequent(f.freq, a));
  }

  lemma {:induction false} SizesGrow(f: Forest, i: nat)
    requires f.Shaped() && i < |f.freq|
    ensures MergeAll(f).size[i] >= f.size[i]
    decreases f.Trees()
  {
    var v1 := LeastFrequent(f.freq, -1);
    var v2 := LeastFrequent(f.freq, v1);
    if v1 >= 0 && v2 >= 0 {
      assert Candidate(f.freq, -1, v1) && Candidate(f.freq, v1, v2);
      TreesShrink(f, v1, v2);
      SizesGrow(Merge(f, v1, v2), i);
    }
  }

  lemma {:induction false} ChainDeepens(f: Forest, total: nat, k: nat, p: int)
    requires total >= UNSAFE_TOTAL && Chain(f, total, k, p)
    ensures MergeAll(f).size[SYMBOLS] >= DEEP
    decreases DEEP - k
  {
    var v1 := LeastFrequent(f.freq, -1);
    var v2 := LeastFrequent(f.freq, v1);
    ChainMerges(f, total, k, p);
    var g := Merge(f, v1, v2);
    if k + 1 < DEEP {
      ChainDeepens(g, total, k + 1, v1);
    } else {
      SizesGrow(g, SYMBOLS);
    }
  }

  lemma TwoArePicked(freq: seq<nat>, a: int, b: int)
    requires Candidate(freq, -1, a) && Candidate(freq, -1, b) && a != b
    ensures Candidate(freq, -1, LeastFrequent(freq, -1))
    ensures Candidate(freq, LeastFrequent(freq, -1), LeastFrequent(freq, LeastFrequent(freq, -1)))
  {
    var v1 := LeastFrequent(freq, -1);
    assert Candidate(freq, v1, a) || Candidate(freq, v1, b);
  }

  lemma LastTwo(f: Forest, total: nat, p: int, i: int)
    requires total >= UNSAFE_TOTAL && Chain(f, total, DEEP - 1, p) && Candidate(f.freq, -1, i)
    ensures i == p || i == SYMBOLS - DEEP
  {
  }

  /** The tree is always one of the two to merge. */
  lemma ChainIsPicked(f: Forest, total: nat, k: nat, p: int)
    requires total >= UNSAFE_TOTAL && Chain(f, total, k, p)
    ensures var v1 := LeastFrequent(f.freq, -1);
            var v2 := LeastFrequent(f.freq, v1);
            && Candidate(f.freq, -1, v1) && Candidate(f.freq, v1, v2)
            && (v1 == p || v2 == p)
  {
    hide LeastFrequent, IsLeast, DeepWeight, Fib;
    var v1 := LeastFrequent(f.freq, -1);
    var v2 := LeastFrequent(f.freq, v1);
    DeepWeightsGrow(total, k + 1, k + 1);
    FibIsPositive(k + 2);
    TwoArePicked(f.freq, p, SYMBOLS - k - 1);
    if k + 1 < DEEP {
      ChainPicks(f, total, k, p);
    } else {
      LastTwo(f, total, p, v1);
      LastTwo(f, total, p, v2);
    }
  }

  lemma FibIsPositive(n: nat)
    requires n > 0
    ensures Fib(n) > 0
  {
    FibMonotone(1, n);
  }

  /** One merge makes the chain one longer. */
  lemma ChainMerges(f: Forest, total: nat, k: nat, p: int)
    requires total >= UNSAFE_TOTAL && Chain(f, total, k, p)
    ensures var v1 := LeastFrequent(f.freq, -1);
            var v2 := LeastFrequent(f.freq, v1);
            && Candidate(f.freq, -1, v1) && Candidate(f.freq, v1, v2)
            && Merge(f, v1, v2).size[SYMBOLS] == k + 1
            && (k + 1 < DEEP ==> Chain(Merge(f, v1, v2), total, k + 1, v1))
  {
    hide LeastFrequent, IsLeast, DeepWeight;
    ChainIsPicked(f, total, k, p);
    if k + 1 < DEEP {
      ChainPicks(f, total, k, p);
      assert f.freq[SYMBOLS - k - 1] == Fib(k + 1) by {
        LooseWeight(k + 1, total);
      }
      assert Fib(k + 3) == Fib(k + 1) + Fib(k + 2);
    }
  }

  lemma LooseWeight(k: nat, total: nat)
    requires total >= UNSAFE_TOTAL && 0 < k < DEEP
    ensures DeepWeight(k, total) == Fib(k)
  {
  }

  /** The bound is exact: a total is safe for every table that has it if and only if it is below the bound. */
  lemma DepthBoundIsExact(total: nat)
    ensures (forall freq: seq<nat> :: |freq| == SYMBOLS + 1 && Sum(Weights(freq)) == total ==> BuildTable(freq).Done?)
       <==> total < UNSAFE_TOTAL
  {
    if total < UNSAFE_TOTAL {
      forall freq: seq<nat> | |freq| == SYMBOLS + 1 && Sum(Weights(freq)) == total
        ensures BuildTable(freq).Done?
      {
        SmallTotalsFit(freq);
      }
    } else {
      var freq := DeepFrequencies(total);
      assert Weights(freq) == freq;
      DeepTotal(total);
      assert Chain(Start(freq), total, 0, SYMBOLS);
      ChainDeepens(Start(freq), total, 0, SYMBOLS);
      assert !BuildTable(freq).Done?;
    }
  }
}
