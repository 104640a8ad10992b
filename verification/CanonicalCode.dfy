/** Canonical Huffman codes: which code the k-th symbol gets, and the decoder that reads it back. */
module CanonicalCode {
  import opened Sequences
  import opened Numbers
  import opened Outcomes
  import opened BitStream
  import opened LengthLimit

  // ---- codes by rank ----

  /** The numbers of codes of each length, from 0 bits up. */
  ghost predicate Counts(counts: seq<int>) {
    |counts| > 0 && counts[0] == 0 && forall i :: 0 <= i < |counts| ==> counts[i] >= 0
  }

  /** How many codes have at most n bits. */
  function UpTo(counts: seq<int>, n: nat): int
    requires n < |counts|
  {
    Sum(counts[..n + 1])
  }

  lemma UpToStep(counts: seq<int>, n: nat)
    requires 0 < n < |counts|
    ensures UpTo(counts, n) == UpTo(counts, n - 1) + counts[n]
  {
    assert counts[..n + 1][..n] == counts[..n];
  }

  lemma UpToZero(counts: seq<int>)
    requires |counts| > 0
    ensures UpTo(counts, 0) == counts[0]
  {
    var one := counts[..1];
    assert one[..0] == [] && Sum(one) == Sum(one[..0]) + one[0];
  }

  lemma {:induction false} UpToMonotone(counts: seq<int>, m: nat, n: nat)
    requires Counts(counts) && m <= n < |counts|
    ensures 0 <= UpTo(counts, m) <= UpTo(counts, n)
  {
    SumBounds(counts[..m + 1]);
    if m < n {
      UpToMonotone(counts, m, n - 1);
      UpToStep(counts, n);
    }
  }

  /** The length of the k-th code, looked for from n bits up; 0 when there are not that many codes. */
  function LengthFrom(counts: seq<int>, k: nat, n: nat): (l: nat)
    requires 1 <= n <= |counts|
    ensures l == 0 || (n <= l < |counts| && k < UpTo(counts, l))
    ensures l == 0 ==> forall m :: n <= m < |counts| ==> k >= UpTo(counts, m)
    ensures l > 0 ==> forall m :: n <= m < l ==> k >= UpTo(counts, m)
    decreases |counts| - n
  {
    if n == |counts| then 0
    else if k < UpTo(counts, n) then n
    else LengthFrom(counts, k, n + 1)
  }

  function LengthOf(counts: seq<int>, k: nat): nat
    requires |counts| > 0
  {
    LengthFrom(counts, k, 1)
  }

  /** The first code of n bits. */
  function FirstCode(counts: seq<int>, n: nat): int
    requires 1 <= n <= |counts|
  {
    2 * KraftAt(counts, n - 1)
  }

  /** The k-th code: codes of one length are consecutive numbers. */
  function CodeOf(counts: seq<int>, k: nat): int
    requires |counts| > 0
  {
    var l := LengthOf(counts, k);
    if l == 0 then 0 else FirstCode(counts, l) + k - UpTo(counts, l - 1)
  }

  /** A set of lengths that leaves some code unused at every length: the all-ones one. */
  ghost predicate Slack(counts: seq<int>) {
    Counts(counts) && KraftAt(counts, |counts| - 1) < Pow2(|counts| - 1)
  }

  lemma KraftBelowPower(counts: seq<int>, n: nat)
    requires Slack(counts) && n < |counts|
    ensures 0 <= KraftAt(counts, n) < Pow2(n)
  {
    var top := |counts| - 1;
    KraftAtGrows(counts, n, top);
    Pow2Add(n, top - n);
    CancelFactor(KraftAt(counts, n), Pow2(n), Pow2(top - n));
  }

  /** The k-th code lies among the codes of its length, and is not all ones. */
  lemma CodeInRange(counts: seq<int>, k: nat)
    requires Slack(counts) && LengthOf(counts, k) > 0
    ensures var l := LengthOf(counts, k);
            && counts[l] > 0
            && 0 <= FirstCode(counts, l) <= CodeOf(counts, k) < KraftAt(counts, l)
            && CodeOf(counts, k) < Pow2(l) - 1
  {
    var l := LengthOf(counts, k);
    UpToStep(counts, l);
    UpToZero(counts);
    assert l > 1 ==> UpTo(counts, l - 1) <= k;
    KraftBelowPower(counts, l);
    KraftBelowPower(counts, l - 1);
  }

  // ---- the decoder ----

  datatype HuffDecoder = HuffDecoder(counts: seq<int>, symbols: seq<Byte>,
                                     mincode: seq<int>, maxcode: seq<int>, valptr: seq<int>)

  /** The table a decoder is built from: the counts of 1 to 16 bits and the symbols in order. */
  function NewDecoder(counts: seq<int>, symbols: seq<Byte>): HuffDecoder
    requires |counts| > 0
  {
    var top := |counts| - 1;
    HuffDecoder(
      counts, symbols,
      seq(top, i requires 0 <= i < top => FirstCode(counts, i + 1)),
      seq(top, i requires 0 <= i < top => if counts[i + 1] == 0 then -1 else KraftAt(counts, i + 1) - 1),
      seq(top, i requires 0 <= i < top => UpTo(counts, i)))
  }

  /** A decoder as the reader of tables builds it: as many symbols as the counts say. */
  ghost predicate ValidDecoder(d: HuffDecoder) {
    && Counts(d.counts)
    && Sum(d.counts) == |d.symbols|
    && d == NewDecoder(d.counts, d.symbols)
  }

  method BuildDecoder(counts: seq<Byte>, symbols: seq<Byte>) returns (d: HuffDecoder)
    requires |counts| == MAX_CODE_LEN
    ensures d == NewDecoder(CountsOf(counts), symbols)
  {
    var all := CountsOf(counts);
    var mincode, maxcode, valptr := [], [], [];
    var code, k := 0, 0;
    UpToZero(all);
    for i := 0 to MAX_CODE_LEN
      invariant |mincode| == |maxcode| == |valptr| == i
      invariant code == 2 * KraftAt(all, i) && k == UpTo(all, i)
      invariant mincode == NewDecoder(all, symbols).mincode[..i]
      invariant maxcode == NewDecoder(all, symbols).maxcode[..i]
      invariant valptr == NewDecoder(all, symbols).valptr[..i]
    {
      var c := counts[i] as int;
      UpToStep(all, i + 1);
      valptr := valptr + [k];
      mincode := mincode + [code];
      code := code + c;
      k := k + c;
      maxcode := maxcode + [if c == 0 then -1 else code - 1];
      code := 2 * code;
    }
    d := HuffDecoder(all, symbols, mincode, maxcode, valptr);
  }

  /** The sixteen count bytes of a table segment, indexed by length. */
  function CountsOf(counts: seq<Byte>): (r: seq<int>)
    ensures |r| == |counts| + 1
  {
    [0] + seq(|counts|, i requires 0 <= i < |counts| => counts[i] as int)
  }

  /** Read one symbol: bit by bit, until the bits so far are a code of their length. */
  function DecodeFrom(d: HuffDecoder, i: nat, code: int, s: seq<Bit>): (r: Option<(Byte, seq<Bit>)>)
    requires ValidDecoder(d) && i < |d.counts|
    ensures r.Some? ==> |r.value.1| < |s|
    decreases |d.counts| - i
  {
    if i == |d.counts| - 1 || s == [] then None
    else
      var c := 2 * code + Value(s[0]);
      if d.maxcode[i] >= 0 && c <= d.maxcode[i] && c >= d.mincode[i] then
        SymbolIndexInRange(d, i, c);
        Some((d.symbols[d.valptr[i] + c - d.mincode[i]], s[1..]))
      else DecodeFrom(d, i + 1, c, s[1..])
  }

  function DecodeSymbol(d: HuffDecoder, s: seq<Bit>): (r: Option<(Byte, seq<Bit>)>)
    requires ValidDecoder(d)
    ensures r.Some? ==> |r.value.1| < |s|
  {
    DecodeFrom(d, 0, 0, s)
  }

  /** A decoder never looks past its list of symbols, whatever the table it was read from says. */
  lemma SymbolIndexInRange(d: HuffDecoder, i: nat, c: int)
    requires ValidDecoder(d) && i < |d.counts| - 1
    requires d.mincode[i] <= c <= d.maxcode[i]
    ensures 0 <= d.valptr[i] + c - d.mincode[i] < |d.symbols|
  {
    UpToStep(d.counts, i + 1);
    UpToMonotone(d.counts, i, i);
    UpToMonotone(d.counts, i + 1, |d.counts| - 1);
    assert d.counts[..|d.counts|] == d.counts;
    KraftAtGrows(d.counts, i, i);
  }

  method Decode(d: HuffDecoder, b: BitReader) returns (ok: bool, symbol: Byte)
    requires ValidDecoder(d) && |d.counts| == MAX_CODE_LEN + 1 && b.Valid()
    modifies b
    ensures b.Valid()
    ensures match DecodeSymbol(d, old(b.Remaining()))
            case Some(r) => ok && symbol == r.0 && b.Remaining() == r.1
            case None => !ok
  {
    hide DecodeFrom;
    ok, symbol := true, 0;
    var code := 0;
    for i := 0 to MAX_CODE_LEN
      invariant b.Valid()
      invariant DecodeFrom(d, i, code, b.Remaining()) == DecodeSymbol(d, old(b.Remaining()))
    {
      ghost var s := b.Remaining();
      DecodeStep(d, i, code, s);
      var got, bit := b.ReadBit();
      if !got {
        return false, 0;
      }
      assert s[0] == bit && s[1..] == b.Remaining();
      code := 2 * code + Value(bit);
      if d.maxcode[i] >= 0 && code <= d.maxcode[i] && code >= d.mincode[i] {
        SymbolIndexInRange(d, i, code);
        return true, d.symbols[d.valptr[i] + code - d.mincode[i]];
      }
    }
    DecodeStep(d, MAX_CODE_LEN, code, b.Remaining());
    return false, 0;
  }

  lemma DecodeStep(d: HuffDecoder, i: nat, code: int, s: seq<Bit>)
    requires ValidDecoder(d) && i < |d.counts|
    ensures i == |d.counts| - 1 || s == [] ==> DecodeFrom(d, i, code, s) == None
    ensures i < |d.counts| - 1 && s != [] ==>
              var c := 2 * code + Value(s[0]);
              if d.maxcode[i] >= 0 && c <= d.maxcode[i] && c >= d.mincode[i] then
                && 0 <= d.valptr[i] + c - d.mincode[i] < |d.symbols|
                && DecodeFrom(d, i, code, s) == Some((d.symbols[d.valptr[i] + c - d.mincode[i]], s[1..]))
              else DecodeFrom(d, i, code, s) == DecodeFrom(d, i + 1, c, s[1..])
  {
    if i < |d.counts| - 1 && s != [] && d.maxcode[i] >= 0 && 2 * code + Value(s[0]) <= d.maxcode[i]
       && 2 * code + Value(s[0]) >= d.mincode[i] {
      SymbolIndexInRange(d, i, 2 * code + Value(s[0]));
    }
  }

  // ---- reading a code back ----

  /** The first m bits of a longer code are a number past every code of m bits. */
  lemma CodePrefixIsPast(counts: seq<int>, k: nat, m: nat)
    requires Slack(counts) && 0 < m < LengthOf(counts, k)
    ensures CodeOf(counts, k) / Pow2(LengthOf(counts, k) - m) >= KraftAt(counts, m)
  {
    var l := LengthOf(counts, k);
    CodeInRange(counts, k);
    KraftAtGrows(counts, m, l - 1);
    PastScaled(CodeOf(counts, k), KraftAt(counts, l - 1), KraftAt(counts, m), Pow2(l - 1 - m));
  }

  lemma PastScaled(code: int, first: nat, past: nat, p: nat)
    requires p > 0 && 2 * first <= code && past * p <= first
    ensures code / (2 * p) >= past
  {
    assert past * (2 * p) == 2 * (past * p);
    QuotientAtLeast(code, past, 2 * p);
  }

  /** One bit further into the code of rank k. */
  lemma NextCodeBit(code: int, n: nat, rest: seq<Bit>)
    requires n > 0
    ensures var s := ToBits(code, n) + rest;
            && s != [] && s[1..] == ToBits(code, n - 1) + rest
            && 2 * (code / Pow2(n)) + Value(s[0]) == code / Pow2(n - 1)
  {
    ToBitsHead(code, n);
    HalvedCode(code, n);
    assert ToBits(code, n) + rest == [code / Pow2(n - 1) % 2 == 1] + (ToBits(code, n - 1) + rest);
  }

  lemma DecodeOneBit(d: HuffDecoder, i: nat, code: int, s: seq<Bit>)
    requires ValidDecoder(d) && i < |d.counts| - 1 && s != []
    ensures var c := 2 * code + Value(s[0]);
            DecodeFrom(d, i, code, s) ==
            if d.counts[i + 1] != 0 && FirstCode(d.counts, i + 1) <= c < KraftAt(d.counts, i + 1) then
              SymbolIndexInRange(d, i, c);
              Some((d.symbols[UpTo(d.counts, i) + c - FirstCode(d.counts, i + 1)], s[1..]))
            else DecodeFrom(d, i + 1, c, s[1..])
  {
    KraftAtGrows(d.counts, i, i);
    assert KraftAt(d.counts, i + 1) == FirstCode(d.counts, i + 1) + d.counts[i + 1];
  }

  lemma {:induction false} DecodeTail(d: HuffDecoder, k: nat, i: nat, rest: seq<Bit>)
    requires ValidDecoder(d) && Slack(d.counts) && k < |d.symbols|
    requires LengthOf(d.counts, k) > i
    ensures var l, c := LengthOf(d.counts, k), CodeOf(d.counts, k);
            DecodeFrom(d, i, c / Pow2(l - i), ToBits(c, l - i) + rest) == Some((d.symbols[k], rest))
    decreases LengthOf(d.counts, k) - i
  {
    hide NewDecoder, KraftAt, DecodeFrom, ToBits;
    var l, c := LengthOf(d.counts, k), CodeOf(d.counts, k);
    var s := ToBits(c, l - i) + rest;
    CodeInRange(d.counts, k);
    NextCodeBit(c, l - i, rest);
    DecodeOneBit(d, i, c / Pow2(l - i), s);
    if i + 1 < l {
      CodePrefixIsPast(d.counts, k, i + 1);
      DecodeTail(d, k, i + 1, rest);
    } else {
      assert Pow2(l - i - 1) == 1;
      assert ToBits(c, l - i - 1) + rest == rest;
    }
  }

  lemma HalvedCode(c: int, n: nat)
    requires n > 0
    ensures c / Pow2(n - 1) == 2 * (c / Pow2(n)) + c / Pow2(n - 1) % 2
  {
    var p := Pow2(n - 1);
    var a := c / p;
    assert c == p * a + c % p;
    assert a == 2 * (a / 2) + a % 2;
    assert c == (2 * p) * (a / 2) + (p * (a % 2) + c % p);
    assert p * (a % 2) + c % p < 2 * p by {
      if a % 2 == 1 { assert p * (a % 2) == p; } else { assert p * (a % 2) == 0; }
    }
    DivUnique(c, 2 * p, a / 2, p * (a % 2) + c % p);
  }

  lemma RankHasLength(counts: seq<int>, k: nat)
    requires Counts(counts) && k < Sum(counts)
    ensures LengthOf(counts, k) > 0
  {
    assert counts[..|counts|] == counts;
    assert UpTo(counts, |counts| - 1) == Sum(counts);
  }

  /** The decoder reads the k-th code back as the k-th symbol and takes exactly its bits, whatever follows. */
  lemma DecodeOwnCode(counts: seq<int>, symbols: seq<Byte>, k: nat, rest: seq<Bit>)
    requires Slack(counts) && Sum(counts) == |symbols| && k < |symbols|
    ensures DecodeSymbol(NewDecoder(counts, symbols), ToBits(CodeOf(counts, k), LengthOf(counts, k)) + rest)
            == Some((symbols[k], rest))
  {
    RankHasLength(counts, k);
    CodeInRange(counts, k);
    var l, c := LengthOf(counts, k), CodeOf(counts, k);
    assert c < Pow2(l);
    DivUnique(c, Pow2(l), 0, c);
    DecodeTail(NewDecoder(counts, symbols), k, 0, rest);
  }

  /** No code is the beginning of another. */
  lemma CodesArePrefixFree(counts: seq<int>, j: nat, k: nat)
    requires Slack(counts) && j < Sum(counts) && k < Sum(counts) && j != k && Sum(counts) <= 256
    ensures !(ToBits(CodeOf(counts, j), LengthOf(counts, j)) <= ToBits(CodeOf(counts, k), LengthOf(counts, k)))
  {
    hide DecodeSymbol, LengthOf, CodeOf, ToBits, NewDecoder, KraftAt, Pow2, FromBits;
    var a, b := ToBits(CodeOf(counts, j), LengthOf(counts, j)), ToBits(CodeOf(counts, k), LengthOf(counts, k));
    var symbols := seq(Sum(counts), i requires 0 <= i < Sum(counts) => i as Byte);
    if a <= b {
      assert b + [] == a + b[|a|..];
      DecodeOwnCode(counts, symbols, j, b[|a|..]);
      DecodeOwnCode(counts, symbols, k, []);
    }
  }
}
