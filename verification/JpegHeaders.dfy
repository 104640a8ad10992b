/** The headers of a JPEG file are read as what they were written from, and refused if and only if they are none. */
module JpegHeaders {
  import opened Sequences
  import opened Numbers
  import opened Outcomes
  import opened CanonicalCode
  import opened JpegScan
  import opened JpegSegments

  // ---- the frame header ----

  /** One component of a frame header: its id, sampling factors and quantization table. */
  datatype Sampled = Sampled(id: Byte, h: nat, v: nat, quant: Byte)

  datatype FrameHeader = FrameHeader(height: nat, width: nat, comps: seq<Sampled>)

  predicate HeaderOk(f: FrameHeader) {
    && f.height < 65536 && f.width < 65536 && 1 <= |f.comps| < 256
    && forall k :: 0 <= k < |f.comps| ==> 1 <= f.comps[k].h <= 4 && 1 <= f.comps[k].v <= 4
  }

  function SampledBytes(comps: seq<Sampled>): (r: seq<Byte>)
    requires forall k :: 0 <= k < |comps| ==> 1 <= comps[k].h <= 4 && 1 <= comps[k].v <= 4
    ensures |r| == 3 * |comps|
  {
    if comps == [] then []
    else
      var c := comps[|comps| - 1];
      SampledBytes(comps[..|comps| - 1]) + [c.id, (16 * c.h + c.v) as Byte, c.quant]
  }

  /** The frame header as ITU-T T.81, section B.2.2, lays it out. */
  function HeaderBytes(f: FrameHeader): seq<Byte>
    requires HeaderOk(f)
  {
    [8, (f.height / 256) as Byte, (f.height % 256) as Byte, (f.width / 256) as Byte, (f.width % 256) as Byte, |f.comps| as Byte]
    + SampledBytes(f.comps)
  }

  lemma {:induction false} SampledAt(comps: seq<Sampled>, k: nat)
    requires forall k :: 0 <= k < |comps| ==> 1 <= comps[k].h <= 4 && 1 <= comps[k].v <= 4
    requires k < |comps|
    ensures var b := SampledBytes(comps);
            b[3 * k] == comps[k].id && b[3 * k + 1] as int == 16 * comps[k].h + comps[k].v && b[3 * k + 2] == comps[k].quant
  {
    if k < |comps| - 1 {
      SampledAt(comps[..|comps| - 1], k);
    }
  }

  /** What is read of a component: its sampling factors, no tables yet, and a block for each sample. */
  function BlocksOf(c: Sampled): Component {
    Component(c.id, c.h, c.v, 0, 0, c.h * c.v)
  }

  /** The largest of the factors, and the least number of MCUs that cover the pixels. */
  ghost predicate Covers(mcus: nat, pixels: nat, factors: seq<nat>, most: nat) {
    && (forall k :: 0 <= k < |factors| ==> factors[k] <= most) && most in factors
    && mcus * (8 * most) >= pixels && (mcus > 0 ==> (mcus - 1) * (8 * most) < pixels)
  }

  function Hs(comps: seq<Sampled>): (r: seq<nat>)
    ensures |r| == |comps|
  {
    seq(|comps|, k requires 0 <= k < |comps| => comps[k].h)
  }

  function Vs(comps: seq<Sampled>): (r: seq<nat>)
    ensures |r| == |comps|
  {
    seq(|comps|, k requires 0 <= k < |comps| => comps[k].v)
  }

  lemma McusCover(pixels: nat, side: nat)
    requires side > 0
    ensures var m := Mcus(pixels, side); m * side >= pixels && (m > 0 ==> (m - 1) * side < pixels)
  {
    var m := Mcus(pixels, side);
    assert pixels + side - 1 == side * m + (pixels + side - 1) % side;
    assert (m - 1) * side == m * side - side;
  }

  lemma {:induction false} LargestFactors(comps: seq<Component>)
    ensures forall k :: 0 <= k < |comps| ==> comps[k].h <= MaxH(comps) && comps[k].v <= MaxV(comps)
    ensures (MaxH(comps) == 1 || exists k :: 0 <= k < |comps| && comps[k].h == MaxH(comps))
    ensures (MaxV(comps) == 1 || exists k :: 0 <= k < |comps| && comps[k].v == MaxV(comps))
  {
    if comps != [] {
      var front := comps[..|comps| - 1];
      LargestFactors(front);
      assert forall k :: 0 <= k < |front| ==> front[k] == comps[k];
    }
  }

  lemma HeaderFields(f: FrameHeader, rest: seq<Byte>)
    requires HeaderOk(f)
    ensures var p := HeaderBytes(f) + rest;
            && |p| >= SOF_HEADER_LEN + SOF_COMPONENT_LEN * |f.comps| && p[0] == SAMPLE_PRECISION && p[5] as int == |f.comps|
            && Be16(p[1..]) == f.height && Be16(p[3..]) == f.width
            && forall k :: 0 <= k < |f.comps| ==>
                 SofComponents(p, |f.comps|)[k] == Component(f.comps[k].id, f.comps[k].h, f.comps[k].v, 0, 0, 0)
  {
    var p := HeaderBytes(f) + rest;
    var b := SampledBytes(f.comps);
    forall k | 0 <= k < |f.comps|
      ensures SofComponents(p, |f.comps|)[k] == Component(f.comps[k].id, f.comps[k].h, f.comps[k].v, 0, 0, 0)
    {
      SampledAt(f.comps, k);
      assert p[6 + 3 * k] == b[3 * k] && p[6 + 3 * k + 1] == b[3 * k + 1];
      Nibbles(f.comps[k].h, f.comps[k].v);
    }
  }

  lemma Nibbles(h: nat, v: nat)
    requires v < 16
    ensures (16 * h + v) / 16 == h && (16 * h + v) % 16 == v
  {
  }

  /** A frame header is read as what it was written from. */
  lemma HeaderIsRead(j: Jpeg, f: FrameHeader, rest: seq<Byte>)
    requires HeaderOk(f) && j.comps == []
    ensures var r := ReadSof(j, HeaderBytes(f) + rest);
            && r.Done? && r.value == j.(comps := r.value.comps, mcusX := r.value.mcusX, mcusY := r.value.mcusY)
            && |r.value.comps| == |f.comps|
            && (forall k :: 0 <= k < |f.comps| ==> r.value.comps[k] == BlocksOf(f.comps[k]))
            && (exists h :: Covers(r.value.mcusX, f.width, Hs(f.comps), h))
            && (exists v :: Covers(r.value.mcusY, f.height, Vs(f.comps), v))
  {
    hide HeaderBytes, SofComponents, Mcus, Be16, MaxH, MaxV, Covers;
    var p := HeaderBytes(f) + rest;
    HeaderFields(f, rest);
    var comps := SofComponents(p, |f.comps|);
    assert forall k :: 0 <= k < |comps| ==> SamplingOk(comps[k]);
    assert j.comps + comps == comps;
    FrameIsCovered(f, comps);
  }

  lemma {:induction false} FrameIsCovered(f: FrameHeader, comps: seq<Component>)
    requires |comps| == |f.comps| > 0
    requires forall k :: 0 <= k < |f.comps| ==> comps[k].h == f.comps[k].h >= 1 && comps[k].v == f.comps[k].v >= 1
    ensures Covers(Mcus(f.width, 8 * MaxH(comps)), f.width, Hs(f.comps), MaxH(comps))
    ensures Covers(Mcus(f.height, 8 * MaxV(comps)), f.height, Vs(f.comps), MaxV(comps))
  {
    hide Mcus, MaxH, MaxV;
    LargestOf(f.comps, comps);
    McusCover(f.width, 8 * MaxH(comps));
    McusCover(f.height, 8 * MaxV(comps));
  }

  lemma {:induction false} LargestOf(fs: seq<Sampled>, comps: seq<Component>)
    requires |comps| == |fs| > 0
    requires forall k :: 0 <= k < |fs| ==> comps[k].h == fs[k].h >= 1 && comps[k].v == fs[k].v >= 1
    ensures MaxH(comps) in Hs(fs) && MaxV(comps) in Vs(fs)
    ensures forall k :: 0 <= k < |fs| ==> Hs(fs)[k] <= MaxH(comps) && Vs(fs)[k] <= MaxV(comps)
  {
    hide MaxH, MaxV;
    LargestFactors(comps);
    if MaxH(comps) == 1 {
      assert Hs(fs)[0] == 1;
    } else {
      var k :| 0 <= k < |comps| && comps[k].h == MaxH(comps);
      assert Hs(fs)[k] == MaxH(comps);
    }
    if MaxV(comps) == 1 {
      assert Vs(fs)[0] == 1;
    } else {
      var k :| 0 <= k < |comps| && comps[k].v == MaxV(comps);
      assert Vs(fs)[k] == MaxV(comps);
    }
  }

  function HeaderOf(p: seq<Byte>): FrameHeader
    requires |p| >= SOF_HEADER_LEN && |p| >= SOF_HEADER_LEN + SOF_COMPONENT_LEN * p[5] as int
  {
    FrameHeader(Be16(p[1..]), Be16(p[3..]),
                seq(p[5] as int, k requires 0 <= k < p[5] as int =>
                  Sampled(p[6 + 3 * k], p[6 + 3 * k + 1] as int / 16, p[6 + 3 * k + 1] as int % 16, p[6 + 3 * k + 2])))
  }

  lemma {:induction false} SampledAre(comps: seq<Sampled>, b: seq<Byte>)
    requires forall k :: 0 <= k < |comps| ==> 1 <= comps[k].h <= 4 && 1 <= comps[k].v <= 4
    requires |b| == 3 * |comps|
    requires forall k :: 0 <= k < |comps| ==>
      b[3 * k] == comps[k].id && b[3 * k + 1] as int == 16 * comps[k].h + comps[k].v && b[3 * k + 2] == comps[k].quant
    ensures SampledBytes(comps) == b
  {
    if comps != [] {
      var n := |comps| - 1;
      SampledAre(comps[..n], b[..3 * n]);
      assert b == b[..3 * n] + [b[3 * n], b[3 * n + 1], b[3 * n + 2]];
    }
  }

  /** A payload is taken as a frame header if and only if it begins with one. */
  lemma HeadersExactly(j: Jpeg, p: seq<Byte>)
    requires j.comps == []
    ensures ReadSof(j, p).Done? <==> exists f, rest :: HeaderOk(f) && p == HeaderBytes(f) + rest
  {
    hide HeaderBytes, ReadSof;
    if ReadSof(j, p).Done? {
      WrittenBack(j, p);
    }
    forall f, rest | HeaderOk(f) && p == HeaderBytes(f) + rest
      ensures ReadSof(j, p).Done?
    {
      HeaderIsRead(j, f, rest);
    }
  }

  lemma WrittenBack(j: Jpeg, p: seq<Byte>)
    requires ReadSof(j, p).Done?
    ensures exists f, rest :: HeaderOk(f) && p == HeaderBytes(f) + rest
  {
    hide SampledBytes;
    var n := p[5] as int;
    var f, end := HeaderOf(p), 6 + 3 * n;
    var comps := SofComponents(p, n);
    forall k | 0 <= k < n
      ensures 1 <= f.comps[k].h <= 4 && 1 <= f.comps[k].v <= 4
    {
      assert SamplingOk(comps[k]);
    }
    HeaderBytesBack(p, f, end);
    assert p == HeaderBytes(f) + p[end..];
  }

  lemma HeaderBytesBack(p: seq<Byte>, f: FrameHeader, end: nat)
    requires |p| >= 6 && end == 6 + 3 * p[5] as int <= |p| && p[0] == 8 && f == HeaderOf(p) && HeaderOk(f)
    ensures p[..end] == HeaderBytes(f)
  {
    var n, b := p[5] as int, p[6..end];
    forall k | 0 <= k < n
      ensures b[3 * k] == f.comps[k].id && b[3 * k + 1] as int == 16 * f.comps[k].h + f.comps[k].v && b[3 * k + 2] == f.comps[k].quant
    {
      assert b[3 * k] == p[6 + 3 * k] && b[3 * k + 1] == p[6 + 3 * k + 1] && b[3 * k + 2] == p[6 + 3 * k + 2];
    }
    SampledAre(f.comps, b);
    assert p[..end] == p[..6] + b;
    assert p[..6] == [p[0], p[1], p[2], p[3], p[4], p[5]];
  }

  // ---- tables one after the other ----

  /** A segment may hold several tables; each is installed, and the next ones after it. */
  lemma TablesFollow(dec: Decoders, class_: nat, id: nat, counts: seq<Byte>, symbols: seq<Byte>, rest: seq<Byte>)
    requires ValidDecoders(dec) && class_ < 2 && id < 4 && |counts| == 16
    requires Sum(CountsOf(counts)) == |symbols| && symbols + rest != []
    ensures ValidDecoders(dec[4 * class_ + id := Some(NewDecoder(CountsOf(counts), symbols))])
    ensures ReadDht(dec, [(16 * class_ + id) as Byte] + counts + symbols + rest) ==
            ReadDht(dec[4 * class_ + id := Some(NewDecoder(CountsOf(counts), symbols))], rest)
  {
    hide NewDecoder, ValidDecoder, Sum, CountsOf;
    var p := [(16 * class_ + id) as Byte] + counts + symbols + rest;
    Nibbles(class_, id);
    assert p[1..DHT_HEADER_LEN] == counts;
    CountsAreThere(counts);
    var end := DHT_HEADER_LEN + |symbols|;
    assert p[DHT_HEADER_LEN..end] == symbols && p[end..] == rest;
    NewDecoderIsValid(counts, symbols);
  }

  lemma CountsAreThere(counts: seq<Byte>)
    ensures Sum(CountsOf(counts)) >= 0
  {
    SumBounds(CountsOf(counts));
  }

  lemma NewDecoderIsValid(counts: seq<Byte>, symbols: seq<Byte>)
    requires |counts| == 16 && Sum(CountsOf(counts)) == |symbols|
    ensures var d := NewDecoder(CountsOf(counts), symbols); ValidDecoder(d) && |d.counts| == 17
  {
  }

  // ---- the scan header ----

  /** Which tables a component is coded with. */
  datatype Selected = Selected(id: Byte, dc: nat, ac: nat)

  predicate SelectedOk(ss: seq<Selected>) {
    && |ss| < 256
    && (forall k :: 0 <= k < |ss| ==> ss[k].dc < 16 && ss[k].ac < 16)
    && forall i, k :: 0 <= i < k < |ss| ==> ss[i].id != ss[k].id
  }

  function SelectedBytes(ss: seq<Selected>): (r: seq<Byte>)
    requires forall k :: 0 <= k < |ss| ==> ss[k].dc < 16 && ss[k].ac < 16
    ensures |r| == 2 * |ss|
  {
    if ss == [] then []
    else
      var s := ss[|ss| - 1];
      SelectedBytes(ss[..|ss| - 1]) + [s.id, (16 * s.dc + s.ac) as Byte]
  }

  lemma {:induction false} SelectedAt(ss: seq<Selected>, k: nat)
    requires forall k :: 0 <= k < |ss| ==> ss[k].dc < 16 && ss[k].ac < 16
    requires k < |ss|
    ensures var b := SelectedBytes(ss); b[2 * k] == ss[k].id && b[2 * k + 1] as int == 16 * ss[k].dc + ss[k].ac
  {
    if k < |ss| - 1 {
      SelectedAt(ss[..|ss| - 1], k);
    }
  }

  /** The scan header of a baseline file, as ITU-T T.81, section B.2.3, lays it out. */
  function ScanHeaderBytes(ss: seq<Selected>): seq<Byte>
    requires SelectedOk(ss)
  {
    [|ss| as Byte] + SelectedBytes(ss) + [0, 63, 0]
  }

  /** A component with the tables of the entry that names it, if one of the first n does. */
  ghost predicate SelectedBy(c: Component, c': Component, ss: seq<Selected>, n: nat)
    requires n <= |ss|
  {
    && (forall k :: 0 <= k < n && ss[k].id == c.id ==> c' == c.(dcTbl := ss[k].dc, acTbl := ss[k].ac))
    && ((forall k :: 0 <= k < n ==> ss[k].id != c.id) ==> c' == c)
  }

  ghost predicate AllSelected(comps: seq<Component>, comps': seq<Component>, ss: seq<Selected>, n: nat)
    requires n <= |ss|
  {
    |comps'| == |comps| && forall i :: 0 <= i < |comps| ==> SelectedBy(comps[i], comps'[i], ss, n)
  }

  predicate DistinctIds(comps: seq<Component>) {
    forall i, k :: 0 <= i < k < |comps| ==> comps[i].id != comps[k].id
  }

  /** Every entry has a component with its id. */
  predicate AllNamed(comps: seq<Component>, ss: seq<Selected>) {
    forall k :: 0 <= k < |ss| ==> exists i :: 0 <= i < |comps| && comps[i].id == ss[k].id
  }

  /** One more entry selects the tables of the component it names. */
  lemma SelectedOn(c: Component, c': Component, ss: seq<Selected>, k: nat)
    requires SelectedOk(ss) && k < |ss| && SelectedBy(c, c', ss, k)
    ensures SelectedBy(c, if c.id == ss[k].id then c'.(dcTbl := ss[k].dc, acTbl := ss[k].ac) else c', ss, k + 1)
  {
  }

  lemma SelectOne(comps: seq<Component>, now: seq<Component>, ss: seq<Selected>, k: nat)
    requires SelectedOk(ss) && k < |ss| && DistinctIds(comps) && AllSelected(comps, now, ss, k) && AllNamed(comps, ss)
    ensures var i := LastWithId(now, ss[k].id);
            i >= 0 && AllSelected(comps, now[i := now[i].(dcTbl := ss[k].dc, acTbl := ss[k].ac)], ss, k + 1)
  {
    SameIds(comps, now, ss, k);
    var at :| 0 <= at < |comps| && comps[at].id == ss[k].id;
    var i := LastWithId(now, ss[k].id);
    assert i == at;
    hide SelectedBy, AllNamed;
    var next := now[i := now[i].(dcTbl := ss[k].dc, acTbl := ss[k].ac)];
    forall c | 0 <= c < |comps|
      ensures SelectedBy(comps[c], next[c], ss, k + 1)
    {
      assert SelectedBy(comps[c], now[c], ss, k);
      SelectedOn(comps[c], now[c], ss, k);
    }
  }

  lemma SameIds(comps: seq<Component>, now: seq<Component>, ss: seq<Selected>, n: nat)
    requires n <= |ss| && AllSelected(comps, now, ss, n)
    ensures forall i :: 0 <= i < |comps| ==> now[i].id == comps[i].id
  {
    forall i | 0 <= i < |comps|
      ensures now[i].id == comps[i].id
    {
      assert SelectedBy(comps[i], now[i], ss, n);
      if exists k :: 0 <= k < n && ss[k].id == comps[i].id {
        var k :| 0 <= k < n && ss[k].id == comps[i].id;
      }
    }
  }

  lemma {:induction false} TablesAreSelected(comps: seq<Component>, now: seq<Component>, ss: seq<Selected>, p: seq<Byte>, k: nat)
    requires SelectedOk(ss) && k <= |ss| && DistinctIds(comps) && AllSelected(comps, now, ss, k) && AllNamed(comps, ss)
    requires |p| >= 1 + 2 * |ss|
    requires forall i :: 0 <= i < |ss| ==> p[1 + 2 * i] == ss[i].id && p[2 + 2 * i] as int == 16 * ss[i].dc + ss[i].ac
    ensures var r := SelectTables(now, p, k, |ss|); r.Some? && AllSelected(comps, r.value, ss, |ss|)
    decreases |ss| - k
  {
    hide AllSelected, AllNamed, DistinctIds;
    if k < |ss| {
      SelectOne(comps, now, ss, k);
      Nibbles(ss[k].dc, ss[k].ac);
      var i := LastWithId(now, ss[k].id);
      TablesAreSelected(comps, now[i := now[i].(dcTbl := ss[k].dc, acTbl := ss[k].ac)], ss, p, k + 1);
    }
  }

  /** A scan header that names every component of the file once gives each the tables it says. */
  lemma ScanHeaderIsRead(j: Jpeg, ss: seq<Selected>, rest: seq<Byte>)
    requires SelectedOk(ss) && |ss| == |j.comps| && DistinctIds(j.comps) && AllNamed(j.comps, ss)
    ensures var r := ReadSos(j, ScanHeaderBytes(ss) + rest);
            r.Done? && r.value == j.(comps := r.value.comps) && AllSelected(j.comps, r.value.comps, ss, |ss|)
  {
    hide AllSelected, AllNamed, DistinctIds, SelectTables;
    var p := ScanHeaderBytes(ss) + rest;
    var b := SelectedBytes(ss);
    forall k | 0 <= k < |ss|
      ensures p[1 + 2 * k] == ss[k].id && p[2 + 2 * k] as int == 16 * ss[k].dc + ss[k].ac
    {
      SelectedAt(ss, k);
      assert p[1 + 2 * k] == b[2 * k] && p[2 + 2 * k] == b[2 * k + 1];
    }
    NoneSelected(j.comps, ss);
    TablesAreSelected(j.comps, j.comps, ss, p, 0);
    assert p[1 + 2 * |ss|..] == [0, 63, 0] + rest;
  }

  lemma NoneSelected(comps: seq<Component>, ss: seq<Selected>)
    ensures AllSelected(comps, comps, ss, 0)
  {
  }

  predicate HasId(comps: seq<Component>, id: Byte) {
    exists c :: 0 <= c < |comps| && comps[c].id == id
  }

  lemma SameId(comps: seq<Component>, idx: nat, tables: nat, id: Byte)
    requires idx < |comps|
    ensures HasId(comps[idx := comps[idx].(dcTbl := tables / 16, acTbl := tables % 16)], id) <==> HasId(comps, id)
  {
    var next := comps[idx := comps[idx].(dcTbl := tables / 16, acTbl := tables % 16)];
    assert forall c :: 0 <= c < |comps| ==> next[c].id == comps[c].id;
  }

  lemma {:induction false} SelectedAreNamed(comps: seq<Component>, p: seq<Byte>, k: nat, n: nat)
    requires k <= n && |p| >= 1 + 2 * n && SelectTables(comps, p, k, n).Some?
    ensures forall i :: k <= i < n ==> HasId(comps, p[1 + 2 * i])
    decreases n - k
  {
    if k < n {
      var idx := LastWithId(comps, p[1 + 2 * k]);
      var tables := p[2 + 2 * k] as int;
      var next := comps[idx := comps[idx].(dcTbl := tables / 16, acTbl := tables % 16)];
      SelectedAreNamed(next, p, k + 1, n);
      forall i | k <= i < n
        ensures HasId(comps, p[1 + 2 * i])
      {
        SameId(comps, idx, tables, p[1 + 2 * i]);
      }
    }
  }

  lemma {:induction false} NamedAreSelected(comps: seq<Component>, p: seq<Byte>, k: nat, n: nat)
    requires k <= n && |p| >= 1 + 2 * n
    requires forall i :: k <= i < n ==> HasId(comps, p[1 + 2 * i])
    ensures SelectTables(comps, p, k, n).Some?
    decreases n - k
  {
    if k < n {
      var idx := LastWithId(comps, p[1 + 2 * k]);
      assert HasId(comps, p[1 + 2 * k]);
      var tables := p[2 + 2 * k] as int;
      var next := comps[idx := comps[idx].(dcTbl := tables / 16, acTbl := tables % 16)];
      forall i | k + 1 <= i < n
        ensures HasId(next, p[1 + 2 * i])
      {
        SameId(comps, idx, tables, p[1 + 2 * i]);
      }
      NamedAreSelected(next, p, k + 1, n);
    }
  }

  /** A scan header is taken if and only if it has an entry for as many components as there are, each of a component
      of the file, and all coefficients are in the one scan. */
  lemma ScanHeadersExactly(j: Jpeg, p: seq<Byte>)
    ensures ReadSos(j, p).Done? <==>
            && |p| >= 1 && p[0] as int == |j.comps| && |p| >= 4 + 2 * |j.comps|
            && (forall i :: 0 <= i < |j.comps| ==> HasId(j.comps, p[1 + 2 * i]))
            && p[1 + 2 * |j.comps|..][..3] == [0, 63, 0]
  {
    hide SelectTables;
    if |p| >= 1 && p[0] as int == |j.comps| && |p| >= 4 + 2 * |j.comps| {
      var n := |j.comps|;
      var tail := p[1 + 2 * n..];
      assert tail[..3] == [tail[0], tail[1], tail[2]];
      if SelectTables(j.comps, p, 0, n).Some? {
        SelectedAreNamed(j.comps, p, 0, n);
      }
      if forall i :: 0 <= i < n ==> HasId(j.comps, p[1 + 2 * i]) {
        NamedAreSelected(j.comps, p, 0, n);
      }
    }
  }
}
