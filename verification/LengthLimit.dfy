/** Pulling code lengths back under 16 bits, on the numbers of codes of each length. */
module LengthLimit {
  import opened Numbers

  const MAX_MERGED_LEN := 32
  const MAX_CODE_LEN := 16

  /** The Kraft sum of the codes of length at most n, times 2^n. In a canonical code it is also the first
      number past the codes of length n. */
  function KraftAt(bits: seq<int>, n: nat): int
    requires n < |bits|
  {
    if n == 0 then bits[0] else 2 * KraftAt(bits, n - 1) + bits[n]
  }

  lemma {:induction false} KraftAtUpdate(bits: seq<int>, n: nat, k: nat, v: int)
    requires n < |bits| && k < |bits|
    ensures KraftAt(bits[k := v], n) == KraftAt(bits, n) + if k <= n then (v - bits[k]) * Pow2(n - k) else 0
  {
    if n > 0 {
      KraftAtUpdate(bits, n - 1, k, v);
    }
  }

  lemma {:induction false} KraftAtGrows(bits: seq<int>, m: nat, n: nat)
    requires m <= n < |bits|
    requires forall i :: 0 <= i <= n ==> bits[i] >= 0
    ensures 0 <= KraftAt(bits, m)
    ensures KraftAt(bits, m) * Pow2(n - m) <= KraftAt(bits, n)
  {
    if n > 0 {
      if m < n {
        KraftAtGrows(bits, m, n - 1);
        assert KraftAt(bits, m) * Pow2(n - m) == 2 * (KraftAt(bits, m) * Pow2(n - 1 - m));
      } else {
        KraftAtGrows(bits, n - 1, n - 1);
      }
    }
  }

  // ---- the procedure, as a function ----

  /** The longest length at or below j that has a code; 0 if none has. */
  function LongestUsed(bits: seq<int>, j: nat): (r: nat)
    requires j < |bits|
    ensures r <= j && (r > 0 ==> bits[r] != 0)
    ensures forall k :: r < k <= j ==> bits[k] == 0
  {
    if j > 0 && bits[j] == 0 then LongestUsed(bits, j - 1) else j
  }

  function Add(bits: seq<int>, k: nat, v: int): (r: seq<int>)
    requires k < |bits|
    ensures |r| == |bits|
  {
    bits[k := bits[k] + v]
  }

  lemma AddChanges(bits: seq<int>, k: nat, v: int, n: nat)
    requires k < |bits| && n < |bits|
    ensures Sum(Add(bits, k, v)) == Sum(bits) + v
    ensures KraftAt(Add(bits, k, v), n) == KraftAt(bits, n) + if k <= n then v * Pow2(n - k) else 0
  {
    SumUpdate(bits, k, bits[k] + v);
    KraftAtUpdate(bits, n, k, bits[k] + v);
  }

  /** Two codes of length i leave: one takes their common prefix, the other shares with a code of length j. */
  function Spread(bits: seq<int>, i: nat, j: nat): seq<int>
    requires 0 < j < i - 1 && i < |bits|
  {
    Add(Add(Add(Add(bits, i, -2), i - 1, 1), j + 1, 2), j, -1)
  }

  function LimitLevel(bits: seq<int>, i: nat): (r: seq<int>)
    requires 2 <= i < |bits|
    ensures |r| == |bits|
    decreases if bits[i] > 0 then bits[i] else 0
  {
    if bits[i] <= 0 then bits
    else
      var j := LongestUsed(bits, i - 2);
      if j == 0 then bits else LimitLevel(Spread(bits, i, j), i)
  }

  function LimitLevels(bits: seq<int>, i: nat): (r: seq<int>)
    requires MAX_CODE_LEN <= i < |bits|
    ensures |r| == |bits|
    decreases i
  {
    if i == MAX_CODE_LEN then bits else LimitLevels(LimitLevel(bits, i), i - 1)
  }

  /** Whatever is still too long is counted as 16 bits. */
  function Spill(bits: seq<int>, i: nat): (r: seq<int>)
    requires MAX_CODE_LEN <= i < |bits|
    ensures |r| == |bits|
    decreases i
  {
    if i == MAX_CODE_LEN then bits
    else Spill(Add(bits, MAX_CODE_LEN, bits[i])[i := 0], i - 1)
  }

  function Clamp(bits: seq<int>): (r: seq<int>)
    requires MAX_CODE_LEN < |bits|
    ensures |r| == |bits|
  {
    if bits[MAX_CODE_LEN] > 0xFFFF then bits[MAX_CODE_LEN := 0xFFFF] else bits
  }

  function Limited(bits: seq<int>): (r: seq<int>)
    requires |bits| == MAX_MERGED_LEN + 1
    ensures |r| == |bits|
  {
    Clamp(Spill(LimitLevels(bits, MAX_MERGED_LEN), MAX_MERGED_LEN))
  }

  // ---- the procedure, as written ----

  method LimitTo16(bits: array<int>)
    requires bits.Length == MAX_MERGED_LEN + 1
    modifies bits
    ensures bits[..] == Limited(old(bits[..]))
  {
    var i := MAX_MERGED_LEN;
    while i > MAX_CODE_LEN
      invariant MAX_CODE_LEN <= i <= MAX_MERGED_LEN
      invariant LimitLevels(bits[..], i) == LimitLevels(old(bits[..]), MAX_MERGED_LEN)
    {
      LimitOne(bits, i);
      i := i - 1;
    }
    SpillLevels(bits);
    ClampLongest(bits);
  }

  /** The second loop of the procedure. */
  method SpillLevels(bits: array<int>)
    requires bits.Length == MAX_MERGED_LEN + 1
    modifies bits
    ensures bits[..] == Spill(old(bits[..]), MAX_MERGED_LEN)
  {
    var i := MAX_MERGED_LEN;
    while i > MAX_CODE_LEN
      invariant MAX_CODE_LEN <= i <= MAX_MERGED_LEN
      invariant Spill(bits[..], i) == Spill(old(bits[..]), MAX_MERGED_LEN)
    {
      ghost var b := bits[..];
      bits[MAX_CODE_LEN] := bits[MAX_CODE_LEN] + bits[i];
      bits[i] := 0;
      assert bits[..] == Add(b, MAX_CODE_LEN, b[i])[i := 0];
      i := i - 1;
    }
  }

  /** The last loop of the procedure. */
  method ClampLongest(bits: array<int>)
    requires bits.Length == MAX_MERGED_LEN + 1
    modifies bits
    ensures bits[..] == Clamp(old(bits[..]))
  {
    ghost var b := bits[..];
    while bits[MAX_CODE_LEN] > 0 && bits[MAX_CODE_LEN] > 0xFFFF
      invariant bits[..] == b[MAX_CODE_LEN := bits[MAX_CODE_LEN]]
      invariant bits[MAX_CODE_LEN] <= b[MAX_CODE_LEN]
      invariant bits[MAX_CODE_LEN] < b[MAX_CODE_LEN] ==> bits[MAX_CODE_LEN] >= 0xFFFF
      decreases bits[MAX_CODE_LEN]
    {
      bits[MAX_CODE_LEN] := bits[MAX_CODE_LEN] - 1;
    }
  }

  method AddTo(bits: array<int>, k: nat, v: int)
    requires k < bits.Length
    modifies bits
    ensures bits[..] == Add(old(bits[..]), k, v)
  {
    bits[k] := bits[k] + v;
  }

  lemma SpreadShortens(bits: seq<int>, i: nat, j: nat)
    requires 0 < j < i - 1 && i < |bits|
    ensures Spread(bits, i, j)[i] == bits[i] - 2
  {
  }

  /** The inner loop of the procedure: empty one length that is too long. */
  method LimitOne(bits: array<int>, i: nat)
    requires 2 <= i < bits.Length
    modifies bits
    ensures bits[..] == LimitLevel(old(bits[..]), i)
  {
    hide Add;
    while bits[i] > 0
      invariant LimitLevel(bits[..], i) == LimitLevel(old(bits[..]), i)
      decreases bits[i]
    {
      ghost var b := bits[..];
      var j := i - 2;
      while j > 0 && bits[j] == 0
        invariant 0 <= j <= i - 2 && LongestUsed(b, j) == LongestUsed(b, i - 2)
      {
        j := j - 1;
      }
      if j == 0 {
        break;
      }
      AddTo(bits, i, -2);
      AddTo(bits, i - 1, 1);
      AddTo(bits, j + 1, 2);
      AddTo(bits, j, -1);
      assert bits[..] == Spread(b, i, j) && bits[i] == b[i] - 2 by {
        SpreadShortens(b, i, j);
      }
    }
  }

  // ---- what the procedure promises for a complete code ----

  /** A complete code of at most 257 words, none longer than n. */
  ghost predicate CompleteCode(bits: seq<int>, n: nat) {
    && MAX_CODE_LEN <= n < |bits|
    && (forall i :: 0 <= i < |bits| ==> bits[i] >= 0)
    && (forall i :: n < i < |bits| ==> bits[i] == 0)
    && bits[0] == 0 && Sum(bits) <= 257
    && KraftAt(bits, n) == Pow2(n)
  }

  lemma LongLevelsAreLarge(i: nat)
    requires MAX_CODE_LEN < i
    ensures Pow2(i) > 3 * 257
  {
    PowersOfTwo();
    Pow2Monotone(MAX_CODE_LEN, i);
  }

  /** Codes that are too long never run out of a shorter code to share with, and they come in pairs. */
  lemma LimitNeverSticks(bits: seq<int>, i: nat)
    requires MAX_CODE_LEN < i && CompleteCode(bits, i) && bits[i] > 0
    ensures LongestUsed(bits, i - 2) > 0 && bits[i] >= 2
  {
    SumBounds(bits);
    if LongestUsed(bits, i - 2) == 0 {
      KraftOfNothing(bits, i - 2);
      assert KraftAt(bits, i) == 2 * bits[i - 1] + bits[i] <= 3 * 257;
      LongLevelsAreLarge(i);
    }
  }

  lemma {:induction false} KraftOfNothing(bits: seq<int>, n: nat)
    requires n < |bits| && forall k :: 0 <= k <= n ==> bits[k] == 0
    ensures KraftAt(bits, n) == 0
  {
    if n > 0 {
      KraftOfNothing(bits, n - 1);
    }
  }

  lemma SpreadKeepsSums(bits: seq<int>, i: nat, j: nat)
    requires 0 < j < i - 1 && i < |bits|
    ensures Sum(Spread(bits, i, j)) == Sum(bits)
    ensures KraftAt(Spread(bits, i, j), i) == KraftAt(bits, i)
  {
    var b := Add(bits, i, -2);
    var c := Add(b, i - 1, 1);
    var d := Add(c, j + 1, 2);
    AddChanges(bits, i, -2, i);
    AddChanges(b, i - 1, 1, i);
    AddChanges(c, j + 1, 2, i);
    AddChanges(d, j, -1, i);
    assert Pow2(i - i) == 1 && Pow2(i - (i - 1)) == 2 && Pow2(i - j) == 2 * Pow2(i - (j + 1));
  }

  /** One step keeps the number of codes and the Kraft sum. */
  lemma SpreadKeeps(bits: seq<int>, i: nat)
    requires MAX_CODE_LEN < i && CompleteCode(bits, i) && bits[i] > 0
    ensures var j := LongestUsed(bits, i - 2);
            j > 0 && CompleteCode(Spread(bits, i, j), i) && Sum(Spread(bits, i, j)) == Sum(bits)
  {
    LimitNeverSticks(bits, i);
    var j := LongestUsed(bits, i - 2);
    SpreadKeepsSums(bits, i, j);
  }

  lemma {:induction false} LimitLevelKeeps(bits: seq<int>, i: nat)
    requires MAX_CODE_LEN < i && CompleteCode(bits, i)
    ensures CompleteCode(LimitLevel(bits, i), i - 1) && Sum(LimitLevel(bits, i)) == Sum(bits)
    decreases bits[i]
  {
    if bits[i] > 0 {
      SpreadKeeps(bits, i);
      LimitLevelKeeps(Spread(bits, i, LongestUsed(bits, i - 2)), i);
    } else {
      assert Pow2(i) == 2 * Pow2(i - 1);
    }
  }

  lemma {:induction false} LimitLevelsKeeps(bits: seq<int>, i: nat)
    requires CompleteCode(bits, i)
    ensures CompleteCode(LimitLevels(bits, i), MAX_CODE_LEN) && Sum(LimitLevels(bits, i)) == Sum(bits)
    decreases i
  {
    if i > MAX_CODE_LEN {
      LimitLevelKeeps(bits, i);
      LimitLevelsKeeps(LimitLevel(bits, i), i - 1);
    }
  }

  lemma {:induction false} SpillOfNothing(bits: seq<int>, i: nat)
    requires MAX_CODE_LEN <= i < |bits| && forall k :: MAX_CODE_LEN < k <= i ==> bits[k] == 0
    ensures Spill(bits, i) == bits
  {
    if i > MAX_CODE_LEN {
      assert Add(bits, MAX_CODE_LEN, bits[i])[i := 0] == bits;
      SpillOfNothing(bits, i - 1);
    }
  }

  /** A complete code of at most 257 words comes out complete, with as many words, none over 16 bits; the
      spill and the clamp at the end change nothing. */
  lemma LimitKeepsCompleteness(bits: seq<int>)
    requires |bits| == MAX_MERGED_LEN + 1 && CompleteCode(bits, MAX_MERGED_LEN)
    ensures CompleteCode(Limited(bits), MAX_CODE_LEN) && Sum(Limited(bits)) == Sum(bits)
    ensures Limited(bits) == LimitLevels(bits, MAX_MERGED_LEN)
  {
    var r := LimitLevels(bits, MAX_MERGED_LEN);
    LimitLevelsKeeps(bits, MAX_MERGED_LEN);
    SpillOfNothing(r, MAX_MERGED_LEN);
    SumBounds(r);
  }
}
