/** The entropy-coded bytes of a JPEG scan as a stream of bits: byte stuffing, the reader and the writer. */
module BitStream {
  import opened Sequences
  import opened Numbers

  /** A bit is kept as a bool; `Value` is the number it stands for. */
  type Bit = bool

  function Value(b: Bit): nat {
    if b then 1 else 0
  }

  const MARKER_PREFIX: Byte := 0xFF
  const BYTE_BITS := 8

  // ---- numbers as bits, most significant first ----

  function ToBits(v: int, n: nat): (s: seq<Bit>)
    ensures |s| == n
    decreases n, v
  {
    if n == 0 then [] else ToBits(v / 2, n - 1) + [v % 2 == 1]
  }

  function FromBits(s: seq<Bit>): nat {
    if s == [] then 0 else 2 * FromBits(s[..|s| - 1]) + Value(s[|s| - 1])
  }

  lemma {:induction false} FromBitsBound(s: seq<Bit>)
    ensures FromBits(s) < Pow2(|s|)
  {
    if s != [] {
      FromBitsBound(s[..|s| - 1]);
    }
  }

  lemma LastBitOff(v: nat, b: Bit, n: nat)
    requires n > 0
    ensures ToBits(2 * v + Value(b), n) == ToBits(v, n - 1) + [b]
  {
  }

  lemma {:induction false} ToBitsFromBits(s: seq<Bit>)
    ensures ToBits(FromBits(s), |s|) == s
  {
    if s != [] {
      var front, last := s[..|s| - 1], s[|s| - 1];
      ToBitsFromBits(front);
      assert s == front + [last];
      LastBitOff(FromBits(front), last, |s|);
    }
  }

  /** Eight bits and a byte are two spellings of one thing. */
  lemma ByteBound(s: seq<Bit>)
    requires |s| == BYTE_BITS
    ensures FromBits(s) < 256
    ensures ToBits(FromBits(s), BYTE_BITS) == s
  {
    FromBitsBound(s);
    PowersOfTwo();
    ToBitsFromBits(s);
  }

  lemma ByteRoundTrip(b: Byte)
    ensures FromBits(ToBits(b as int, BYTE_BITS)) == b as int
  {
    PowersOfTwo();
    FromBitsToBits(b as int, BYTE_BITS);
  }

  lemma {:induction false} FromBitsToBits(v: nat, n: nat)
    requires v < Pow2(n)
    ensures FromBits(ToBits(v, n)) == v
  {
    if n > 0 {
      FromBitsToBits(v / 2, n - 1);
      FromBitsAppend(ToBits(v / 2, n - 1), v % 2 == 1);
    }
  }

  /** Peeling the first bit off instead of the last. */
  lemma {:induction false} ToBitsHead(v: int, n: nat)
    requires n > 0
    ensures ToBits(v, n) == [v / Pow2(n - 1) % 2 == 1] + ToBits(v, n - 1)
    decreases n
  {
    if n > 1 {
      ToBitsHead(v / 2, n - 1);
      DivDiv(v, Pow2(n - 2));
      assert Pow2(n - 1) == 2 * Pow2(n - 2);
    }
  }

  lemma {:induction false} FromBitsAppend(s: seq<Bit>, b: Bit)
    ensures FromBits(s + [b]) == 2 * FromBits(s) + Value(b)
  {
    assert (s + [b])[..|s|] == s;
  }

  // ---- bytes as bits, and byte stuffing ----

  function BitsOf(bytes: seq<Byte>): (bits: seq<Bit>)
    ensures |bits| == BYTE_BITS * |bytes|
  {
    if bytes == [] then []
    else BitsOf(bytes[..|bytes| - 1]) + ToBits(bytes[|bytes| - 1] as int, BYTE_BITS)
  }

  function ByteAt(bits: seq<Bit>, at: nat): Byte
    requires at + BYTE_BITS <= |bits|
  {
    ByteBound(bits[at..at + BYTE_BITS]);
    FromBits(bits[at..at + BYTE_BITS]) as Byte
  }

  /** The whole bytes at the front of `bits`. */
  function BytesOf(bits: seq<Bit>): seq<Byte> {
    seq(|bits| / BYTE_BITS, k requires 0 <= k < |bits| / BYTE_BITS => ByteAt(bits, BYTE_BITS * k))
  }

  lemma {:induction false} BytesOfBitsOf(bytes: seq<Byte>)
    ensures BytesOf(BitsOf(bytes)) == bytes
  {
    hide ToBits, FromBits;
    if bytes != [] {
      var init, last := bytes[..|bytes| - 1], bytes[|bytes| - 1];
      BytesOfBitsOf(init);
      var bits := BitsOf(bytes);
      forall k | 0 <= k < |bytes|
        ensures ByteAt(bits, BYTE_BITS * k) == bytes[k]
      {
        var at := BYTE_BITS * k;
        if k < |init| {
          assert bits[at..at + BYTE_BITS] == BitsOf(init)[at..at + BYTE_BITS];
          assert BytesOf(BitsOf(init))[k] == init[k];
        } else {
          assert bits[at..at + BYTE_BITS] == ToBits(last as int, BYTE_BITS);
          ByteRoundTrip(last);
        }
      }
    }
  }

  function Stuffed(b: Byte): seq<Byte> {
    if b == MARKER_PREFIX then [b, 0] else [b]
  }

  /** `bytes` with a zero put after every 0xFF. */
  function Stuff(bytes: seq<Byte>): seq<Byte> {
    if bytes == [] then [] else Stuff(bytes[..|bytes| - 1]) + Stuffed(bytes[|bytes| - 1])
  }

  /** The bits a decoder can read from `data`: up to its end or to the first real marker. */
  function ScanBits(data: seq<Byte>): seq<Bit> {
    if data == [] then []
    else if data[0] != MARKER_PREFIX then ToBits(data[0] as int, BYTE_BITS) + ScanBits(data[1..])
    else if |data| >= 2 && data[1] == 0 then ToBits(data[0] as int, BYTE_BITS) + ScanBits(data[2..])
    else []
  }

  /** What the reader sees of a stream, one byte at a time. */
  lemma NextByte(data: seq<Byte>)
    requires data != []
    ensures data[0] != MARKER_PREFIX ==> ScanBits(data) == ToBits(data[0] as int, BYTE_BITS) + ScanBits(data[1..])
    ensures data[0] == MARKER_PREFIX && |data| >= 2 && data[1] == 0 ==>
              ScanBits(data) == ToBits(data[0] as int, BYTE_BITS) + ScanBits(data[2..])
    ensures data[0] == MARKER_PREFIX && (|data| < 2 || data[1] != 0) ==> ScanBits(data) == []
  {
  }

  lemma ScanBitsOfStuffed(b: Byte, tail: seq<Byte>)
    ensures ScanBits(Stuffed(b) + tail) == ToBits(b as int, BYTE_BITS) + ScanBits(tail)
  {
    assert (Stuffed(b) + tail)[|Stuffed(b)|..] == tail;
    NextByte(Stuffed(b) + tail);
  }

  /** Unstuffing undoes stuffing, whatever follows the stuffed bytes. */
  lemma {:induction false} ScanBitsOfStuff(bytes: seq<Byte>, tail: seq<Byte>)
    ensures ScanBits(Stuff(bytes) + tail) == BitsOf(bytes) + ScanBits(tail)
    decreases |bytes|
  {
    if bytes == [] {
      assert Stuff(bytes) + tail == tail;
    } else {
      var init, last := bytes[..|bytes| - 1], bytes[|bytes| - 1];
      assert Stuff(bytes) + tail == Stuff(init) + (Stuffed(last) + tail);
      ScanBitsOfStuff(init, Stuffed(last) + tail);
      ScanBitsOfStuffed(last, tail);
    }
  }

  /** `bits` filled up with ones to a whole number of bytes. */
  function Padded(bits: seq<Bit>): (r: seq<Bit>)
    decreases (BYTE_BITS - |bits| % BYTE_BITS) % BYTE_BITS
  {
    if |bits| % BYTE_BITS == 0 then bits else Padded(bits + [true])
  }

  lemma PaddedOnce(bits: seq<Bit>)
    requires |bits| % BYTE_BITS != 0
    ensures Padded(bits) == Padded(bits + [true])
  {
  }

  lemma {:induction false} PaddedExtends(bits: seq<Bit>)
    ensures |Padded(bits)| % BYTE_BITS == 0
    ensures |bits| <= |Padded(bits)| < |bits| + BYTE_BITS
    ensures Padded(bits)[..|bits|] == bits
    ensures forall k :: |bits| <= k < |Padded(bits)| ==> Padded(bits)[k]
    decreases (BYTE_BITS - |bits| % BYTE_BITS) % BYTE_BITS
  {
    if |bits| % BYTE_BITS != 0 {
      hide Padded;
      var more := bits + [true];
      PaddedOnce(bits);
      PaddedExtends(more);
      var p := Padded(bits);
      assert p[|bits|] == p[..|more|][|bits|];
      assert p[..|bits|] == p[..|more|][..|bits|] == bits;
    }
  }

  /** The entropy-coded bytes that spell `bits`: padded with ones, cut into bytes, stuffed. */
  function Spelled(bits: seq<Bit>): seq<Byte> {
    Stuff(BytesOf(Padded(bits)))
  }

  // ---- the reader ----

  lemma SliceTail(data: seq<Byte>, i: nat)
    requires i < |data|
    ensures data[i..][0] == data[i] && data[i..][1..] == data[i + 1..]
    ensures i + 1 < |data| ==> data[i..][1] == data[i + 1] && data[i..][2..] == data[i + 2..]
    ensures ToBits(0, 0) + ScanBits(data[i..]) == ScanBits(data[i..])
  {
  }

  lemma TakeBit(v: int, n: nat, rest: seq<Bit>)
    requires n > 0
    ensures ToBits(v, n) + rest == [v / Pow2(n - 1) % 2 == 1] + (ToBits(v, n - 1) + rest)
  {
    ToBitsHead(v, n);
  }

  class BitReader {
    const data: seq<Byte>
    var i: nat
    var bits: nat
    var n: nat

    ghost predicate Valid()
      reads this
    {
      i <= |data| && n <= BYTE_BITS
    }

    /** Everything still to be read. */
    ghost function Remaining(): seq<Bit>
      reads this
      requires Valid()
    {
      ToBits(bits, n) + ScanBits(data[i..])
    }

    constructor (data: seq<Byte>)
      ensures Valid() && Remaining() == ScanBits(data)
    {
      this.data := data;
      i, bits, n := 0, 0, 0;
    }

    method ReadBit() returns (ok: bool, bit: Bit)
      requires Valid()
      modifies this
      ensures Valid()
      ensures ok <==> old(Remaining()) != []
      ensures ok ==> old(Remaining()) == [bit] + Remaining()
    {
      ok, bit := true, false;
      if n == 0 {
        if i >= |data| {
          return false, false;
        }
        var c := data[i];
        NextByte(data[i..]);
        SliceTail(data, i);
        i := i + 1;
        if c == MARKER_PREFIX {
          if i >= |data| || data[i] != 0 {
            return false, false;
          }
          i := i + 1;
        }
        bits, n := c as int, BYTE_BITS;
      }
      assert Remaining() == old(Remaining());
      TakeBit(bits, n, ScanBits(data[i..]));
      n := n - 1;
      bit := bits / Pow2(n) % 2 == 1;
    }

    method ReadBits(count: nat) returns (ok: bool, v: nat)
      requires Valid()
      modifies this
      ensures Valid()
      ensures ok <==> count <= |old(Remaining())|
      ensures ok ==> v == FromBits(old(Remaining())[..count]) && Remaining() == old(Remaining())[count..]
    {
      ok, v := true, 0;
      ghost var all := Remaining();
      for k := 0 to count
        invariant Valid()
        invariant k <= |all| && v == FromBits(all[..k]) && Remaining() == all[k..]
      {
        var got, bit := ReadBit();
        if !got {
          return false, 0;
        }
        assert all[k] == bit && all[..k + 1] == all[..k] + [bit];
        FromBitsAppend(all[..k], bit);
        v := 2 * v + Value(bit);
      }
    }
  }

  lemma OneMoreByte(bytes: seq<Byte>, b: Byte)
    ensures Stuff(bytes + [b]) == Stuff(bytes) + Stuffed(b)
    ensures BitsOf(bytes + [b]) == BitsOf(bytes) + ToBits(b as int, BYTE_BITS)
  {
    assert (bytes + [b])[..|bytes|] == bytes;
  }

  lemma SpelledBytes(bytes: seq<Byte>)
    ensures Spelled(BitsOf(bytes)) == Stuff(bytes) && Padded(BitsOf(bytes)) == BitsOf(bytes)
  {
    BytesOfBitsOf(bytes);
  }

  /** Filling up further comes to the same. */
  lemma SpelledAlike(a: seq<Bit>, b: seq<Bit>)
    requires Padded(a) == Padded(b)
    ensures Spelled(a) == Spelled(b)
  {
  }

  lemma NoBits()
    ensures FromBits([]) == 0
  {
  }

  lemma OneBit()
    ensures ToBits(1, 1) == [true]
  {
    assert ToBits(1, 1) == ToBits(0, 0) + [true];
  }

  // ---- the writer ----

  class BitWriter {
    var out: seq<Byte>
    var bits: nat
    var n: nat
    ghost var whole: seq<Byte> // the bytes in `out`, before stuffing
    ghost var part: seq<Bit>   // the bits waiting in `bits`

    ghost predicate Valid()
      reads this
    {
      && out == Stuff(whole)
      && n == |part| < BYTE_BITS
      && bits == FromBits(part)
    }

    /** Everything written so far. */
    ghost function Written(): seq<Bit>
      reads this
    {
      BitsOf(whole) + part
    }

    constructor ()
      ensures Valid() && Written() == []
    {
      out, bits, n, whole, part := [], 0, 0, [], [];
    }

    method Write(code: int, size: nat)
      requires Valid()
      modifies this
      ensures Valid()
      ensures Written() == old(Written()) + ToBits(code, size)
    {
      var i := size;
      while i > 0
        invariant 0 <= i <= size && Valid()
        invariant Written() + ToBits(code, i) == old(Written()) + ToBits(code, size)
      {
        ghost var w := Written();
        i := i - 1;
        ToBitsHead(code, i + 1);
        Put(code / Pow2(i) % 2 == 1);
        assert Written() + ToBits(code, i) == w + ToBits(code, i + 1);
      }
      assert Written() + ToBits(code, 0) == Written();
    }

    /** One turn of the loop in `Write`: shift a bit in, and emit the byte when it is full. */
    method Put(bit: Bit)
      requires Valid()
      modifies this
      ensures Valid()
      ensures Written() == old(Written()) + [bit]
    {
      hide ToBits, FromBits, Value, Stuff, BitsOf;
      FromBitsAppend(part, bit);
      part := part + [bit];
      bits, n := 2 * bits + Value(bit), n + 1;
      if n == BYTE_BITS {
        ByteBound(part);
        var b := bits as Byte;
        out := out + [b];
        if b == MARKER_PREFIX {
          out := out + [0];
        }
        assert out == old(out) + Stuffed(b);
        OneMoreByte(whole, b);
        NoBits();
        bits, n, whole, part := 0, 0, whole + [b], [];
      }
    }

    method FillUp()
      requires Valid() && n != 0
      modifies this
      ensures Valid() && Padded(Written()) == Padded(old(Written())) && n == (old(n) + 1) % BYTE_BITS
    {
      hide BitsOf, Stuff, FromBits, ToBits, Stuffed;
      ghost var w := Written();
      Write(1, 1);
      OneBit();
      assert Padded(w) == Padded(w + [true]);
    }

    method Flush()
      requires Valid()
      modifies this
      ensures Valid()
      ensures Written() == Padded(old(Written())) && out == Spelled(old(Written()))
    {
      hide BitsOf, Stuff, FromBits, Spelled, Padded;
      while n != 0
        invariant Valid()
        invariant Padded(Written()) == Padded(old(Written()))
        decreases (BYTE_BITS - n) % BYTE_BITS
      {
        FillUp();
      }
      assert Written() == BitsOf(whole);
      SpelledBytes(whole);
      SpelledAlike(old(Written()), BitsOf(whole));
    }
  }
}
