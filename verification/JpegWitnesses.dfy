/** Small files at which re-coding stops, and at which it cannot be repeated. */
module JpegWitnesses {
  import opened Sequences
  import opened Numbers
  import opened Outcomes
  import opened BitStream
  import opened CanonicalCode
  import opened HuffmanTable
  import opened JpegScan
  import opened JpegSegments
  import opened JpegLossless
  import opened JpegRecoder
  import opened JpegLimits

  const START_MARK: seq<Byte> := [0xFF, 0xD8]

  /** A frame header of one component of 8 by 8 pixels, or of none. */
  function Frame(width: Byte, id: Byte): seq<Byte> {
    [0xFF, 0xC0, 0, 11, 8, 0, width, 0, width, 1, id, 0x11, 0]
  }

  /** The state after a frame header. */
  function Framed(j: Jpeg, width: Byte, id: Byte): Jpeg {
    var m := if width == 0 then 0 else 1;
    j.(comps := WithBlocks(j.comps + [Component(id, 1, 1, 0, 0, 0)]), mcusX := m, mcusY := m, sof := Frame(width, id))
  }

  lemma FrameIsRead(j: Jpeg, width: Byte, id: Byte)
    requires ValidDecoders(j.dec) && width <= 8
    ensures ReadSegment(j, MARKER_SOF0, Frame(width, id)) == Done(Framed(j, width, id))
  {
    hide WithBlocks;
    var p := Frame(width, id)[SEGMENT_HEAD_LEN..];
    assert p == [8, 0, width, 0, width, 1, id, 0x11, 0];
    var comps := SofComponents(p, 1);
    assert comps == [Component(id, 1, 1, 0, 0, 0)];
    assert AllSamplingOk(comps);
    assert comps[..0] == [] && MaxH([]) == 1 && MaxV([]) == 1;
    assert MaxH(comps) == 1 && MaxV(comps) == 1;
    assert Be16(p[3..]) == width as int && Be16(p[1..]) == width as int;
  }

  /** Reading goes on behind a frame header. */
  lemma FrameStep(j: Jpeg, width: Byte, id: Byte, rest: seq<Byte>)
    requires ValidDecoders(j.dec) && width <= 8
    ensures ReadFrom(j, Frame(width, id) + rest) == ReadFrom(Framed(j, width, id), rest)
    ensures FrameCount(Frame(width, id) + rest) == 1 + FrameCount(rest)
  {
    hide ReadSegment, Framed;
    var data := Frame(width, id) + rest;
    FrameIsRead(j, width, id);
    assert Be16(data[2..]) == 11;
    assert data[..13] == Frame(width, id) && data[13..] == rest;
  }

  // ---- a selector out of range ----

  const BAD_SCAN: seq<Byte> := [0xFF, 0xDA, 0, 8, 1, 1, 0xFF, 0, 0x3F, 0]
  const BAD_SELECTOR: seq<Byte> := START_MARK + (Frame(8, 1) + BAD_SCAN)

  lemma BadScanIsRead(j: Jpeg)
    requires ValidDecoders(j.dec) && |j.comps| == 1 && j.comps[0].id == 1
    ensures ReadFrom(j, BAD_SCAN) == Done(j.(comps := [j.comps[0].(dcTbl := 15, acTbl := 15)], sos := BAD_SCAN, scan := []))
  {
    var p := BAD_SCAN[SEGMENT_HEAD_LEN..];
    assert p == [1, 1, 0xFF, 0, 0x3F, 0];
    assert Be16(BAD_SCAN[2..]) == 8 && BAD_SCAN[..10] == BAD_SCAN && BAD_SCAN[10..] == [];
    assert p[3..] == [0, 0x3F, 0];
    assert LastWithId(j.comps, 1) == 0;
    var comps := j.comps[0 := j.comps[0].(dcTbl := 15, acTbl := 15)];
    assert SelectTables(j.comps, p, 0, 1) == SelectTables(comps, p, 1, 1) == Some(comps);
    assert comps == [j.comps[0].(dcTbl := 15, acTbl := 15)];
  }

  /** A file of 25 bytes whose scan header selects table 15: the program stops. */
  lemma BadSelectorPanics()
    ensures |BAD_SELECTOR| == 25 && Optimized(BAD_SELECTOR) == Panicked
  {
    hide ReadFrom, Framed, ReadSegment, FrameCount, DecodeBlock, ScanBits;
    assert BAD_SELECTOR[2..] == Frame(8, 1) + BAD_SCAN;
    NothingIsValid();
    var j := Framed(NOTHING_READ, 8, 1);
    FrameStep(NOTHING_READ, 8, 1, BAD_SCAN);
    FramedOnce(8, 1);
    BadScanIsRead(j);
    var c := Component(1, 1, 1, 15, 15, 1);
    var k := j.(comps := [c], sos := BAD_SCAN, scan := []);
    assert ReadJpeg(BAD_SELECTOR) == Done(k);
    OnePlan(c);
    assert DecodeBlock(k.dec, c, ScanBits([])).Panicked? by {
      BadBlock(k.dec, c, ScanBits([]));
    }
    assert DecodePlan(k.dec, [c], ScanBits([])) == Panicked;
  }

  lemma FramedOnce(width: Byte, id: Byte)
    ensures var j := Framed(NOTHING_READ, width, id);
            && j.comps == [Component(id, 1, 1, 0, 0, 1)] && ValidDecoders(j.dec)
            && (width > 0 ==> j.mcusX == 1 && j.mcusY == 1) && (width == 0 ==> j.mcusX == 0 && j.mcusY == 0)
  {
    NothingIsValid();
    assert NOTHING_READ.comps + [Component(id, 1, 1, 0, 0, 0)] == [Component(id, 1, 1, 0, 0, 0)];
  }

  lemma OnePlan(c: Component)
    requires c.blocks == 1
    ensures ScanPlan([c], 1) == [c]
  {
    var one := [c];
    assert one[1..] == [] && one + [] == one && one[0] == c;
    assert Repeat(one, 1) == one + Repeat(one, 0) == one;
    assert McuPlan(one) == Repeat([one[0]], 1) + McuPlan(one[1..]) == one;
  }

  lemma BadBlock(dec: Decoders, c: Component, s: seq<Bit>)
    requires ValidDecoders(dec) && c.dcTbl == 15
    ensures DecodeBlock(dec, c, s).Panicked?
  {
  }

  // ---- two frame headers ----

  const EMPTY_SCAN: seq<Byte> := [0xFF, 0xDA, 0, 10, 2, 1, 0, 2, 0, 0, 0x3F, 0]
  const TWO_FRAMES: seq<Byte> := START_MARK + (Frame(0, 1) + (Frame(0, 2) + EMPTY_SCAN))

  lemma EmptyScanIsRead(j: Jpeg)
    requires ValidDecoders(j.dec) && j.comps == [Component(1, 1, 1, 0, 0, 1), Component(2, 1, 1, 0, 0, 1)]
    ensures ReadFrom(j, EMPTY_SCAN) == Done(j.(sos := EMPTY_SCAN, scan := [])) && FrameCount(EMPTY_SCAN) == 0
  {
    var p := EMPTY_SCAN[SEGMENT_HEAD_LEN..];
    assert p == [2, 1, 0, 2, 0, 0, 0x3F, 0];
    assert Be16(EMPTY_SCAN[2..]) == 10 && EMPTY_SCAN[..12] == EMPTY_SCAN && EMPTY_SCAN[12..] == [];
    assert p[5..] == [0, 0x3F, 0];
    var front := j.comps[..1];
    assert LastWithId(front, 1) == 0;
    assert LastWithId(j.comps, 1) == 0 && LastWithId(j.comps, 2) == 1;
    assert j.comps[0 := j.comps[0].(dcTbl := 0, acTbl := 0)] == j.comps;
    assert j.comps[1 := j.comps[1].(dcTbl := 0, acTbl := 0)] == j.comps;
    assert SelectTables(j.comps, p, 2, 2) == Some(j.comps);
    assert SelectTables(j.comps, p, 1, 2) == Some(j.comps);
    assert SelectTables(j.comps, p, 0, 2) == Some(j.comps);
  }

  lemma FramedTwice()
    ensures var j := Framed(Framed(NOTHING_READ, 0, 1), 0, 2);
            && j.comps == [Component(1, 1, 1, 0, 0, 1), Component(2, 1, 1, 0, 0, 1)] && ValidDecoders(j.dec)
            && j.mcusX == 0 && j.mcusY == 0
  {
    FramedOnce(0, 1);
    var j := Framed(NOTHING_READ, 0, 1);
    assert j.comps + [Component(2, 1, 1, 0, 0, 0)] == [Component(1, 1, 1, 0, 0, 1), Component(2, 1, 1, 0, 0, 0)];
  }

  /** A file with two frame headers of no pixels is re-coded, and its new form is refused. */
  lemma TwoFramesAreRefused()
    ensures Optimized(TWO_FRAMES).Done? && FrameCount(TWO_FRAMES[2..]) == 2
    ensures Optimized(Optimized(TWO_FRAMES).value) == Refused
  {
    hide ReadFrom, Framed, ReadSegment, FrameCount, ScanBits, Assemble, BuildFrom, Optimized, Uncoded;
    assert TWO_FRAMES[2..] == Frame(0, 1) + (Frame(0, 2) + EMPTY_SCAN);
    NothingIsValid();
    FramedOnce(0, 1);
    FramedTwice();
    FrameStep(NOTHING_READ, 0, 1, Frame(0, 2) + EMPTY_SCAN);
    FrameStep(Framed(NOTHING_READ, 0, 1), 0, 2, EMPTY_SCAN);
    var j := Framed(Framed(NOTHING_READ, 0, 1), 0, 2);
    EmptyScanIsRead(j);
    assert ReadJpeg(TWO_FRAMES) == Done(j.(sos := EMPTY_SCAN, scan := []));
    NothingToCode(TWO_FRAMES, j.(sos := EMPTY_SCAN, scan := []));
    RecodingIsIdempotent(TWO_FRAMES);
  }

  /** A file without blocks is re-coded. */
  lemma NothingToCode(data: seq<Byte>, j: Jpeg)
    requires ReadJpeg(data) == Done(j) && j.mcusX == 0 && j.mcusY == 0
    ensures Optimized(data).Done?
  {
    hide ReadFrom, ReadJpeg, ScanBits, Assemble, BuildFrom, BuildTable;
    assert ScanPlan(j.comps, 0) == [];
    NoTables(0);
    var tables := BuildFrom([], 0).value;
    BuiltTablesAnswer([]);
  }

  lemma {:induction false} NoTables(t: nat)
    requires t <= TABLE_COUNT
    ensures BuildFrom([], t).Done?
    decreases TABLE_COUNT - t
  {
    if t < TABLE_COUNT {
      NoTables(t + 1);
      assert !UsesTable([], t);
    }
  }
}
