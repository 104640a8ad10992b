/** One table's symbol frequencies and the canonical code they earn. */
module HuffmanTable {
  import opened Sequences
  import opened Numbers
  import opened Outcomes
  import opened BitStream
  import opened HuffmanMerge
  import opened HuffmanOptimal
  import opened LengthLimit
  import opened CanonicalCode

  const SYMBOLS := 256
  const RESERVED_SYMBOL := 256

  /** What a table segment and the re-coder need: counts by length, symbols by rank, and each symbol's code. */
  datatype Table = Table(counts: seq<int>, symbols: seq<Byte>, code: seq<int>, size: seq<nat>)

  // ---- from code sizes to a table ----

  /** How many symbols have each code length; lengths of zero are symbols out of use. */
  function CountLengths(size: seq<nat>): (bits: seq<int>)
    requires forall i :: 0 <= i < |size| ==> size[i] <= MAX_MERGED_LEN
    ensures |bits| == MAX_MERGED_LEN + 1
  {
    if size == [] then seq(MAX_MERGED_LEN + 1, _ => 0)
    else
      var bits := CountLengths(size[..|size| - 1]);
      var s := size[|size| - 1];
      if s > 0 then Add(bits, s, 1) else bits
  }

  /** One code less of the longest length at or below i. */
  function DropLongest(bits: seq<int>, i: nat): (r: seq<int>)
    requires i < |bits|
    ensures |r| == |bits|
  {
    if i == 0 then bits
    else if bits[i] > 0 then Add(bits, i, -1)
    else DropLongest(bits, i - 1)
  }

  /** The symbols below n that have a code, in order. */
  function Used(size: seq<nat>, n: nat): seq<Byte>
    requires n <= |size| && n <= SYMBOLS
  {
    if n == 0 then []
    else if size[n - 1] > 0 then Used(size, n - 1) + [(n - 1) as Byte]
    else Used(size, n - 1)
  }

  /** `v` put after everything at least as short, so that equals keep their order. */
  function InsertBySize(sorted: seq<Byte>, v: Byte, size: seq<nat>): seq<Byte>
    requires |size| >= SYMBOLS
  {
    if sorted == [] || size[sorted[|sorted| - 1] as int] <= size[v as int] then sorted + [v]
    else InsertBySize(sorted[..|sorted| - 1], v, size) + [sorted[|sorted| - 1]]
  }

  /** The stable sort by code size. */
  function StableBySize(syms: seq<Byte>, size: seq<nat>): seq<Byte>
    requires |size| >= SYMBOLS
  {
    if syms == [] then []
    else InsertBySize(StableBySize(syms[..|syms| - 1], size), syms[|syms| - 1], size)
  }

  /** The rank of v in symbols; |symbols| when it is not there. */
  function RankOf(symbols: seq<Byte>, v: Byte): (k: nat)
    ensures k <= |symbols|
    ensures k < |symbols| ==> symbols[k] == v
    ensures k == |symbols| ==> v !in symbols
    ensures forall j :: 0 <= j < k ==> symbols[j] != v
  {
    if symbols == [] then 0
    else if symbols[0] == v then 0
    else 1 + RankOf(symbols[1..], v)
  }

  function SizeIn(counts: seq<int>, symbols: seq<Byte>, v: Byte): nat
    requires |counts| > 0
  {
    var k := RankOf(symbols, v);
    if k < |symbols| then LengthOf(counts, k) else 0
  }

  function CodeIn(counts: seq<int>, symbols: seq<Byte>, v: Byte): int
    requires |counts| > 0
  {
    var k := RankOf(symbols, v);
    if k < |symbols| then CodeOf(counts, k) else 0
  }

  function TableOf(counts: seq<int>, symbols: seq<Byte>): Table
    requires |counts| > 0
  {
    Table(counts, symbols,
          seq(SYMBOLS, v requires 0 <= v < SYMBOLS => CodeIn(counts, symbols, v as Byte)),
          seq(SYMBOLS, v requires 0 <= v < SYMBOLS => SizeIn(counts, symbols, v as Byte)))
  }

  /** The weights the merge works on: the reserved symbol occurs once. */
  function Weights(freq: seq<nat>): seq<nat>
    requires |freq| == SYMBOLS + 1
  {
    freq[RESERVED_SYMBOL := 1]
  }

  /** The table for these frequencies. It does not exist when the merge makes a code longer than the array
      that counts lengths has room for. */
  function BuildTable(freq: seq<nat>): Outcome<Table>
    requires |freq| == SYMBOLS + 1
  {
    var size := CodeSizes(Weights(freq));
    if exists i :: 0 <= i < |size| && size[i] > MAX_MERGED_LEN then Panicked
    else
      var bits := DropLongest(Limited(CountLengths(size)), MAX_MERGED_LEN);
      Done(TableOf(bits[..MAX_CODE_LEN + 1], StableBySize(Used(size, SYMBOLS), size)))
  }

  // ---- the program's own table ----

  class HuffSpec {
    var freq: seq<nat>
    var counts: seq<int>
    var symbols: seq<Byte>
    var code: seq<int>
    var size: seq<nat>

    constructor ()
      ensures |freq| == SYMBOLS + 1 && (forall i :: 0 <= i <= SYMBOLS ==> freq[i] == 0)
      ensures Unbuilt()
    {
      freq := seq(SYMBOLS + 1, _ => 0);
      counts := seq(MAX_CODE_LEN + 1, _ => 0);
      symbols := [];
      code := seq(SYMBOLS, _ => 0);
      size := seq(SYMBOLS, _ => 0);
    }

    ghost predicate Unbuilt()
      reads this
    {
      && |freq| == SYMBOLS + 1
      && symbols == []
      && code == seq(SYMBOLS, _ => 0)
      && size == seq(SYMBOLS, _ => 0)
    }

    /** Annex K.2; `ok` is false where the original runs off the end of its array of counts. */
    method Build() returns (ok: bool)
      requires Unbuilt() && HasSymbol(freq)
      modifies this
      ensures freq == old(freq)
      ensures ok <==> BuildTable(freq).Done?
      ensures ok ==> Table(counts, symbols, code, size) == BuildTable(freq).value
    {
      var codeSize := MergeSizes();
      var bits;
      ok, bits := CountSizes(codeSize);
      if !ok {
        return;
      }
      LimitTo16(bits);
      DropReserved(bits);
      counts := bits[..MAX_CODE_LEN + 1];
      var syms := CollectUsed(codeSize[..]);
      symbols := StableBySize(syms, codeSize[..]);
      TableIsSound(freq);
      AssignCodes();
    }

    /** The merge loop on a copy of the frequencies. */
    method MergeSizes() returns (codeSize: array<nat>)
      requires |freq| == SYMBOLS + 1
      ensures fresh(codeSize) && codeSize[..] == CodeSizes(Weights(freq))
    {
      var f := new nat[SYMBOLS + 1];
      forall i | 0 <= i <= SYMBOLS {
        f[i] := freq[i];
      }
      f[RESERVED_SYMBOL] := 1;
      assert f[..] == Weights(freq);
      var others := new int[SYMBOLS + 1](_ => -1);
      codeSize := new nat[SYMBOLS + 1](_ => 0);
      MergeLeast(f, others, codeSize);
    }

    /** Count the code lengths; `ok` is false when one has no place in the array. */
    method CountSizes(codeSize: array<nat>) returns (ok: bool, bits: array<int>)
      requires codeSize.Length == SYMBOLS + 1
      ensures fresh(bits)
      ensures ok <==> forall i :: 0 <= i <= SYMBOLS ==> codeSize[i] <= MAX_MERGED_LEN
      ensures ok ==> bits[..] == CountLengths(codeSize[..])
    {
      bits := new int[MAX_MERGED_LEN + 1](_ => 0);
      ghost var w := codeSize[..];
      var i := 0;
      while i < SYMBOLS + 1
        invariant 0 <= i <= SYMBOLS + 1 && codeSize[..] == w
        invariant forall k :: 0 <= k < i ==> w[k] <= MAX_MERGED_LEN
        invariant bits[..] == CountLengths(w[..i])
      {
        assert w[..i + 1][..i] == w[..i] && codeSize[i] == w[i];
        if codeSize[i] > 0 {
          if codeSize[i] > MAX_MERGED_LEN {
            return false, bits;
          }
          ghost var b := bits[..];
          bits[codeSize[i]] := bits[codeSize[i]] + 1;
          assert bits[..] == Add(b, w[i], 1);
        }
        i := i + 1;
      }
      assert w[..SYMBOLS + 1] == w;
      ok := true;
    }

    /** The reserved symbol takes the last code of the longest length. */
    method DropReserved(bits: array<int>)
      requires bits.Length == MAX_MERGED_LEN + 1
      modifies bits
      ensures bits[..] == DropLongest(old(bits[..]), MAX_MERGED_LEN)
    {
      var i := MAX_MERGED_LEN;
      while i > 0
        invariant 0 <= i <= MAX_MERGED_LEN && bits[..] == old(bits[..])
        invariant DropLongest(bits[..], i) == DropLongest(old(bits[..]), MAX_MERGED_LEN)
      {
        if bits[i] > 0 {
          ghost var b := bits[..];
          bits[i] := bits[i] - 1;
          assert bits[..] == Add(b, i, -1);
          return;
        }
        i := i - 1;
      }
    }

    method CollectUsed(w: seq<nat>) returns (syms: seq<Byte>)
      requires |w| == SYMBOLS + 1
      ensures syms == Used(w, SYMBOLS)
    {
      syms := [];
      for i := 0 to SYMBOLS
        invariant syms == Used(w, i)
      {
        if w[i] > 0 {
          syms := syms + [i as Byte];
        }
      }
    }
  
    /** Codes of one length are consecutive; a longer length starts at twice the number past them. */
    method AssignCodes()
      requires Slack(counts) && |counts| == MAX_CODE_LEN + 1 && Sum(counts) == |symbols| && Distinct(symbols)
      requires code == seq(SYMBOLS, _ => 0) && size == seq(SYMBOLS, _ => 0)
      modifies this`code, this`size
      ensures Table(counts, symbols, code, size) == TableOf(counts, symbols)
    {
      var next, k := 0, 0;
      var length := 1;
      UpToZero(counts);
      while length <= MAX_CODE_LEN
        invariant 1 <= length <= MAX_CODE_LEN + 1
        invariant k == UpTo(counts, length - 1) && next == FirstCode(counts, length)
        invariant AssignedBelow(k)
      {
        UpToStep(counts, length);
        UpToWithin(counts, length);
        for n := 0 to counts[length]
          invariant k == UpTo(counts, length - 1) + n && next == FirstCode(counts, length) + n
          invariant AssignedBelow(k)
        {
          if k >= |symbols| {
            break;
          }
          var value := symbols[k];
          LengthIs(counts, k, length);
          AssignOne(k, value, next, length);
          next := next + 1;
          k := k + 1;
        }
        next := 2 * next;
        length := length + 1;
      }
      assert counts[..MAX_CODE_LEN + 1] == counts;
      assert k == |symbols|;
    }

    /** The symbols of rank below k have their codes, the others none yet. */
    ghost predicate AssignedBelow(k: nat)
      requires |counts| > 0
      reads this
    {
      && |code| == |size| == SYMBOLS
      && forall v :: 0 <= v < SYMBOLS ==>
           var done := RankOf(symbols, v as Byte) < k;
           && code[v] == (if done then CodeIn(counts, symbols, v as Byte) else 0)
           && size[v] == (if done then SizeIn(counts, symbols, v as Byte) else 0)
    }

    method AssignOne(k: nat, value: Byte, next: int, length: nat)
      requires |counts| > 0 && k < |symbols| && symbols[k] == value && Distinct(symbols)
      requires AssignedBelow(k) && LengthOf(counts, k) == length && CodeOf(counts, k) == next
      modifies this`code, this`size
      ensures AssignedBelow(k + 1)
    {
      assert RankOf(symbols, value) == k;
      code := code[value as int := next];
      size := size[value as int := length];
      assert forall v: Byte :: v != value && RankOf(symbols, v) < k + 1 ==> RankOf(symbols, v) < k;
    }
  }

  lemma UpToWithin(counts: seq<int>, n: nat)
    requires Counts(counts) && n < |counts|
    ensures 0 <= UpTo(counts, n) <= Sum(counts)
  {
    UpToMonotone(counts, n, |counts| - 1);
    assert counts[..|counts|] == counts;
  }

  lemma LengthIs(counts: seq<int>, k: nat, n: nat)
    requires Counts(counts) && 1 <= n < |counts| && UpTo(counts, n - 1) <= k < UpTo(counts, n)
    ensures LengthOf(counts, k) == n
    ensures CodeOf(counts, k) == FirstCode(counts, n) + k - UpTo(counts, n - 1)
  {
    var l := LengthOf(counts, k);
    if 0 < l < n {
      UpToMonotone(counts, l, n - 1);
    }
  }

  // ---- the sorted symbols are the used ones, shortest first ----

  lemma {:induction false} UsedIsAscending(size: seq<nat>, n: nat)
    requires n <= |size| && n <= SYMBOLS
    ensures forall v :: v in Used(size, n) <==> v as int < n && size[v as int] > 0
    ensures forall i, j :: 0 <= i < j < |Used(size, n)| ==> Used(size, n)[i] < Used(size, n)[j]
  {
    if n > 0 {
      UsedIsAscending(size, n - 1);
      var before := Used(size, n - 1);
      assert forall i :: 0 <= i < |before| ==> before[i] in before;
    }
  }

  /** By size, and by symbol among equals. */
  ghost predicate BySize(a: Byte, b: Byte, size: seq<nat>)
    requires |size| >= SYMBOLS
  {
    size[a as int] < size[b as int] || (size[a as int] == size[b as int] && a < b)
  }

  ghost predicate SortedBySize(s: seq<Byte>, size: seq<nat>)
    requires |size| >= SYMBOLS
  {
    forall i, j :: 0 <= i < j < |s| ==> BySize(s[i], s[j], size)
  }

  lemma BeforeLast(v: Byte, last: Byte, size: seq<nat>)
    requires |size| >= SYMBOLS && size[v as int] < size[last as int]
    ensures BySize(v, last, size)
  {
  }

  /** A later symbol that is no shorter than the last stands behind them all. */
  lemma BehindAll(sorted: seq<Byte>, v: Byte, size: seq<nat>)
    requires |size| >= SYMBOLS && SortedBySize(sorted, size) && sorted != []
    requires size[sorted[|sorted| - 1] as int] <= size[v as int]
    requires forall i :: 0 <= i < |sorted| ==> sorted[i] < v
    ensures forall u :: u in sorted ==> BySize(u, v, size)
  {
    var last := |sorted| - 1;
    forall u | u in sorted
      ensures BySize(u, v, size)
    {
      var i :| 0 <= i < |sorted| && sorted[i] == u;
      assert i < last ==> BySize(sorted[i], sorted[last], size);
    }
  }

  lemma SortedAppended(sorted: seq<Byte>, v: Byte, size: seq<nat>)
    requires |size| >= SYMBOLS && SortedBySize(sorted, size) && forall u :: u in sorted ==> BySize(u, v, size)
    ensures SortedBySize(sorted + [v], size)
  {
    hide BySize;
    var all := sorted + [v];
    forall i, j | 0 <= i < j < |all|
      ensures BySize(all[i], all[j], size)
    {
      assert all[i] == sorted[i] && all[i] in sorted;
      if j < |sorted| {
        assert all[j] == sorted[j];
      }
    }
  }

  lemma {:induction false} InsertIsSorted(sorted: seq<Byte>, v: Byte, size: seq<nat>)
    requires |size| >= SYMBOLS && SortedBySize(sorted, size)
    requires forall i :: 0 <= i < |sorted| ==> sorted[i] < v
    ensures SortedBySize(InsertBySize(sorted, v, size), size)
    ensures forall u :: u in InsertBySize(sorted, v, size) <==> u == v || u in sorted
    ensures |InsertBySize(sorted, v, size)| == |sorted| + 1
  {
    hide BySize;
    if sorted == [] {
      assert InsertBySize(sorted, v, size) == [v];
    } else if size[sorted[|sorted| - 1] as int] <= size[v as int] {
      BehindAll(sorted, v, size);
      SortedAppended(sorted, v, size);
    } else {
      var init, last := sorted[..|sorted| - 1], sorted[|sorted| - 1];
      InsertIsSorted(init, v, size);
      var r := InsertBySize(init, v, size);
      BeforeLast(v, last, size);
      forall u | u in r
        ensures BySize(u, last, size)
      {
        if u != v {
          var k :| 0 <= k < |init| && init[k] == u;
          assert BySize(sorted[k], last, size);
        }
      }
      SortedAppended(r, last, size);
      assert sorted == init + [last];
    }
  }

  /** The sorted list holds exactly the used symbols, each once, by size and among equals by symbol. */
  lemma {:induction false} StableIsSorted(syms: seq<Byte>, size: seq<nat>)
    requires |size| >= SYMBOLS
    requires forall i, j :: 0 <= i < j < |syms| ==> syms[i] < syms[j]
    ensures SortedBySize(StableBySize(syms, size), size)
    ensures forall u :: u in StableBySize(syms, size) <==> u in syms
    ensures |StableBySize(syms, size)| == |syms|
  {
    if syms != [] {
      var init, last := syms[..|syms| - 1], syms[|syms| - 1];
      StableIsSorted(init, size);
      var r := StableBySize(init, size);
      forall i | 0 <= i < |r|
        ensures r[i] < last
      {
        assert r[i] in r;
        assert r[i] in init;
      }
      InsertIsSorted(r, last, size);
      assert syms == init + [last];
    }
  }

  // ---- the numbers of codes ----

  lemma {:induction false} CountLengthsSums(w: seq<nat>, size: seq<nat>)
    requires |w| == |size| && forall i :: 0 <= i < |size| ==> size[i] <= MAX_MERGED_LEN && (w[i] > 0 <==> size[i] > 0)
    ensures KraftAt(CountLengths(size), MAX_MERGED_LEN) == Kraft(w, size, MAX_MERGED_LEN)
    ensures CountLengths(size)[0] == 0
    ensures forall i :: 0 <= i <= MAX_MERGED_LEN ==> 0 <= CountLengths(size)[i]
  {
    if size == [] {
      KraftOfNothing(CountLengths(size), MAX_MERGED_LEN);
    } else {
      var n := |size| - 1;
      CountLengthsSums(w[..n], size[..n]);
      assert Shares(w, size, MAX_MERGED_LEN)[..n] == Shares(w[..n], size[..n], MAX_MERGED_LEN);
      if size[n] > 0 {
        AddChanges(CountLengths(size[..n]), size[n], 1, MAX_MERGED_LEN);
      }
    }
  }

  lemma {:induction false} CountLengthsTotal(size: seq<nat>, n: nat)
    requires forall i :: 0 <= i < |size| ==> size[i] <= MAX_MERGED_LEN
    requires n <= |size| && n <= SYMBOLS
    ensures Sum(CountLengths(size[..n])) == |Used(size, n)| <= n
  {
    if n == 0 {
      SumScale(CountLengths([]), CountLengths([]), 0);
    } else {
      CountLengthsTotal(size, n - 1);
      assert size[..n][..n - 1] == size[..n - 1];
      if size[n - 1] > 0 {
        AddChanges(CountLengths(size[..n - 1]), size[n - 1], 1, 0);
      }
    }
  }

  lemma {:induction false} KraftAtPrefix(bits: seq<int>, m: nat, n: nat)
    requires n < m <= |bits|
    ensures KraftAt(bits[..m], n) == KraftAt(bits, n)
  {
    if n > 0 {
      KraftAtPrefix(bits, m, n - 1);
    }
  }

  /** The longest codes of a complete code come in pairs. */
  lemma LongestIsEven(bits: seq<int>, n: nat)
    requires CompleteCode(bits, MAX_CODE_LEN) && 0 < n <= MAX_CODE_LEN
    requires forall i :: n < i < |bits| ==> bits[i] == 0
    ensures bits[n] % 2 == 0
  {
    CompleteBelow(bits, n, MAX_CODE_LEN);
    LastIsEven(KraftAt(bits, n - 1), bits[n], Pow2(n - 1));
  }

  lemma LastIsEven(shorter: int, last: int, half: int)
    requires 2 * shorter + last == 2 * half
    ensures last % 2 == 0
  {
    assert last == 2 * (half - shorter);
  }

  lemma {:induction false} CompleteBelow(bits: seq<int>, n: nat, m: nat)
    requires n <= m < |bits| && KraftAt(bits, m) == Pow2(m)
    requires forall i :: n < i <= m ==> bits[i] == 0
    ensures KraftAt(bits, n) == Pow2(n)
  {
    if n < m {
      assert Pow2(m) == 2 * Pow2(m - 1);
      CompleteBelow(bits, n, m - 1);
    }
  }

  /** Dropping one of the longest codes leaves a gap, and no length with 256 codes. */
  lemma {:induction false} DropLeavesSlack(bits: seq<int>, i: nat)
    requires CompleteCode(bits, MAX_CODE_LEN) && i < |bits| && forall k :: i < k < |bits| ==> bits[k] == 0
    requires Sum(bits) > 0
    ensures var r := DropLongest(bits, i);
            && (forall k :: 0 <= k < |bits| ==> 0 <= r[k] <= bits[k])
            && Sum(r) == Sum(bits) - 1
            && KraftAt(r, MAX_CODE_LEN) < Pow2(MAX_CODE_LEN)
            && forall k :: 0 <= k < |bits| ==> r[k] <= 255
  {
    hide KraftAt, Pow2, Sum;
    SumBounds(bits);
    if i == 0 {
      SumScale(bits, bits, 0);
    } else if bits[i] > 0 {
      AddChanges(bits, i, -1, MAX_CODE_LEN);
      LongestIsEven(bits, i);
      var r := DropLongest(bits, i);
      forall k | 0 <= k < |bits|
        ensures r[k] <= 255
      {
        if k < i {
          assert bits[k] + bits[i] <= Sum(bits);
        }
      }
    } else {
      DropLeavesSlack(bits, i - 1);
    }
  }

  // ---- what a built table promises ----

  ghost predicate HasSymbol(freq: seq<nat>) {
    |freq| == SYMBOLS + 1 && exists s :: 0 <= s < SYMBOLS && freq[s] > 0
  }

  /** The merge gives a length to exactly the symbols that occur and to the reserved one. */
  lemma SizesOfUsed(freq: seq<nat>)
    requires HasSymbol(freq)
    ensures var w := Weights(freq); forall i :: 0 <= i <= SYMBOLS ==> (w[i] > 0 <==> CodeSizes(w)[i] > 0)
  {
    var w := Weights(freq);
    var s :| 0 <= s < SYMBOLS && freq[s] > 0;
    assert w[s] > 0 && w[RESERVED_SYMBOL] > 0;
    forall i | 0 <= i <= SYMBOLS
      ensures w[i] > 0 <==> CodeSizes(w)[i] > 0
    {
      if w[i] > 0 {
        HuffmanIsPositive(w, i, if i == s then RESERVED_SYMBOL else s);
      } else {
        StartIsWeighed(w);
        MergeAllSkipsUnused(Start(w), w, i);
      }
    }
  }

  lemma BuiltSizes(freq: seq<nat>)
    requires |freq| == SYMBOLS + 1 && BuildTable(freq).Done?
    ensures var size := CodeSizes(Weights(freq));
            |size| == SYMBOLS + 1 && forall i :: 0 <= i < |size| ==> size[i] <= MAX_MERGED_LEN
  {
    hide CodeSizes, CountLengths;
  }

  lemma LastIsCounted(size: seq<nat>)
    requires size != [] && forall i :: 0 <= i < |size| ==> size[i] <= MAX_MERGED_LEN
    requires size[|size| - 1] > 0
    ensures Sum(CountLengths(size)) == Sum(CountLengths(size[..|size| - 1])) + 1
  {
    var n := |size| - 1;
    AddChanges(CountLengths(size[..n]), size[n], 1, 0);
  }

  lemma LengthsAreComplete(freq: seq<nat>)
    requires HasSymbol(freq) && BuildTable(freq).Done?
    ensures var size := CodeSizes(Weights(freq));
            && (forall i :: 0 <= i < |size| ==> size[i] <= MAX_MERGED_LEN)
            && CompleteCode(CountLengths(size), MAX_MERGED_LEN)
            && Sum(CountLengths(size)) == |Used(size, SYMBOLS)| + 1
  {
    hide CountLengths, Used, Add, CodeSizes, BuildTable, Kraft;
    var w := Weights(freq);
    var size := CodeSizes(w);
    BuiltSizes(freq);
    SizesOfUsed(freq);
    CountLengthsSums(w, size);
    assert w[RESERVED_SYMBOL] > 0;
    HuffmanIsComplete(w, MAX_MERGED_LEN);
    CountLengthsTotal(size, SYMBOLS);
    assert size[..SYMBOLS] == size[..|size| - 1];
    LastIsCounted(size);
  }

  /** A built table is a canonical code with room for the all-ones word, over exactly the symbols that occur,
      shortest code size first; its counts fit a byte each. */
  lemma TableIsSound(freq: seq<nat>)
    requires HasSymbol(freq) && BuildTable(freq).Done?
    ensures var t := BuildTable(freq).value;
            && |t.counts| == MAX_CODE_LEN + 1 && Slack(t.counts)
            && (forall i :: 0 <= i <= MAX_CODE_LEN ==> t.counts[i] <= 255)
            && Sum(t.counts) == |t.symbols| <= SYMBOLS
            && Distinct(t.symbols)
            && (forall s: Byte :: s in t.symbols <==> freq[s as int] > 0)
            && SortedBySize(t.symbols, CodeSizes(Weights(freq)))
  {
    hide KraftAt, CountLengths, LimitLevels, Used, StableBySize, CodeSizes, Sum, Pow2, DropLongest, UpTo, LengthOf, CodeOf;
    var size := CodeSizes(Weights(freq));
    var bits := CountLengths(size);
    LengthsAreComplete(freq);
    LimitKeepsCompleteness(bits);
    var dropped := DropLongest(Limited(bits), MAX_MERGED_LEN);
    DropLeavesSlack(Limited(bits), MAX_MERGED_LEN);
    var counts := dropped[..MAX_CODE_LEN + 1];
    KraftAtPrefix(dropped, MAX_CODE_LEN + 1, MAX_CODE_LEN);
    SumConcat(counts, dropped[MAX_CODE_LEN + 1..]);
    assert dropped == counts + dropped[MAX_CODE_LEN + 1..];
    SumScale(dropped[MAX_CODE_LEN + 1..], dropped[MAX_CODE_LEN + 1..], 0);
    CountLengthsTotal(size, SYMBOLS);
    UsedIsAscending(size, SYMBOLS);
    StableIsSorted(Used(size, SYMBOLS), size);
    SizesOfUsed(freq);
  }
}
