/** Which segments of a JPEG file are written again. */
module JpegKept {
  import opened Sequences
  import opened Numbers
  import opened Outcomes
  import opened BitStream
  import opened JpegScan
  import opened JpegSegments
  import opened JpegLossless

  /** The marker of a segment, whose length field counts all but the marker. */
  predicate IsMarked(seg: seq<Byte>, marker: int) {
    |seg| >= 4 && seg[0] == 0xFF && seg[1] as int == marker && seg[2] as int * 256 + seg[3] as int + 2 == |seg|
  }

  ghost predicate AreSegments(segs: seq<seq<Byte>>) {
    forall i :: 0 <= i < |segs| ==> |segs[i]| >= 4 && IsMarked(segs[i], segs[i][1] as int)
  }

  /** Those whose marker is one of these. */
  function With(segs: seq<seq<Byte>>, markers: set<int>): seq<seq<Byte>> {
    if segs == [] then []
    else
      With(segs[..|segs| - 1], markers)
      + if |segs[|segs| - 1]| > 1 && segs[|segs| - 1][1] as int in markers then [segs[|segs| - 1]] else []
  }

  /** Those that are neither read for the scan nor kept apart: frame headers, tables, restart intervals. */
  function Others(segs: seq<seq<Byte>>): seq<seq<Byte>> {
    if segs == [] then []
    else
      Others(segs[..|segs| - 1])
      + if |segs[|segs| - 1]| > 1 && segs[|segs| - 1][1] as int !in {0xC0, 0xC4, 0xDB, 0xDD} then [segs[|segs| - 1]] else []
  }

  function LastOr(segs: seq<seq<Byte>>, none: seq<Byte>): seq<Byte> {
    if segs == [] then none else segs[|segs| - 1]
  }

  /** A progressive frame, a restart interval or the end of the file stands before no scan that is re-coded. */
  predicate Baseline(seg: seq<Byte>) {
    |seg| >= 4 && seg[1] as int !in {0xC2, 0xD9, 0xDA}
    && (seg[1] as int == 0xDD && |seg| >= 6 ==> seg[4] == 0 && seg[5] == 0)
  }

  lemma {:induction false} WithFront(seg: seq<Byte>, segs: seq<seq<Byte>>, markers: set<int>)
    requires |seg| >= 4
    ensures With([seg] + segs, markers) == (if seg[1] as int in markers then [seg] else []) + With(segs, markers)
  {
    var all, n := [seg] + segs, |segs| - 1;
    if segs == [] {
      assert all[..0] == [];
    } else {
      var a := if seg[1] as int in markers then [seg] else [];
      assert all[..n + 1] == [seg] + segs[..n] && all[n + 1] == segs[n];
      WithFront(seg, segs[..n], markers);
      assert a + With(segs, markers) == With(all, markers);
    }
  }

  lemma {:induction false} OthersFront(seg: seq<Byte>, segs: seq<seq<Byte>>)
    requires |seg| >= 4
    ensures Others([seg] + segs) == (if seg[1] as int in {0xC0, 0xC4, 0xDB, 0xDD} then [] else [seg]) + Others(segs)
  {
    var all, n := [seg] + segs, |segs| - 1;
    if segs == [] {
      assert all[..0] == [];
    } else {
      var a := if seg[1] as int in {0xC0, 0xC4, 0xDB, 0xDD} then [] else [seg];
      assert all[..n + 1] == [seg] + segs[..n] && all[n + 1] == segs[n];
      OthersFront(seg, segs[..n]);
      assert a + Others(segs) == Others(all);
    }
  }

  lemma FlatFront(seg: seq<Byte>, segs: seq<seq<Byte>>)
    ensures Flattened([seg] + segs) == seg + Flattened(segs)
  {
    FlattenedBoth([seg], segs);
    assert [seg][..0] == [] && Flattened([seg]) == [] + seg;
  }

  /** What is kept of a file, against what was kept before. */
  ghost predicate KeepsAll(before: Jpeg, j: Jpeg, segs: seq<seq<Byte>>) {
    && AreSegments(segs) && (forall i :: 0 <= i < |segs| ==> Baseline(segs[i]))
    && j.prologue == before.prologue + Flattened(Others(segs))
    && j.quant == before.quant + Flattened(With(segs, {0xDB}))
    && j.sof == LastOr(With(segs, {0xC0}), before.sof)
  }

  /** One more segment in front. */
  lemma KeepsOne(before: Jpeg, next: Jpeg, j: Jpeg, seg: seq<Byte>, segs: seq<seq<Byte>>)
    requires ValidDecoders(before.dec) && |seg| >= 4 && IsMarked(seg, seg[1] as int) && seg[1] !in {MARKER_EOI, MARKER_SOS}
    requires ReadSegment(before, seg[1], seg) == Done(next) && KeepsAll(next, j, segs)
    ensures KeepsAll(before, j, [seg] + segs)
  {
    hide Flattened, With, Others, ReadSof, ReadDht, KeepsAll;
    SegmentKept(before, next, seg);
    KeptAre(next, j, segs);
    WithFront(seg, segs, {0xDB});
    WithFront(seg, segs, {0xC0});
    OthersFront(seg, segs);
    FlatFront(seg, Others(segs));
    FlatFront(seg, With(segs, {0xDB}));
    var all := [seg] + segs;
    forall i | 0 <= i < |all|
      ensures |all[i]| >= 4 && IsMarked(all[i], all[i][1] as int) && Baseline(all[i])
    {
      if i > 0 {
        assert all[i] == segs[i - 1];
      }
    }
    NothingInFront(Others(segs));
    NothingInFront(With(segs, {0xDB}));
    NothingInFront(With(segs, {0xC0}));
    Behind(before.prologue, seg, Flattened(Others(segs)));
    Behind(before.quant, seg, Flattened(With(segs, {0xDB})));
    KeptSo(before, j, all);
  }

  lemma NothingInFront(segs: seq<seq<Byte>>)
    ensures [] + segs == segs
  {
  }

  lemma Behind(a: seq<Byte>, b: seq<Byte>, c: seq<Byte>)
    ensures a + b + c == a + (b + c)
  {
  }

  lemma KeptAre(before: Jpeg, j: Jpeg, segs: seq<seq<Byte>>)
    requires KeepsAll(before, j, segs)
    ensures AreSegments(segs) && (forall i :: 0 <= i < |segs| ==> Baseline(segs[i]))
    ensures j.prologue == before.prologue + Flattened(Others(segs)) && j.quant == before.quant + Flattened(With(segs, {0xDB}))
    ensures j.sof == LastOr(With(segs, {0xC0}), before.sof)
  {
  }

  lemma KeptSo(before: Jpeg, j: Jpeg, segs: seq<seq<Byte>>)
    requires AreSegments(segs) && forall i :: 0 <= i < |segs| ==> Baseline(segs[i])
    requires j.prologue == before.prologue + Flattened(Others(segs)) && j.quant == before.quant + Flattened(With(segs, {0xDB}))
    requires j.sof == LastOr(With(segs, {0xC0}), before.sof)
    ensures KeepsAll(before, j, segs)
  {
  }

  lemma SegmentKept(before: Jpeg, next: Jpeg, seg: seq<Byte>)
    requires ValidDecoders(before.dec) && |seg| >= 4 && IsMarked(seg, seg[1] as int) && seg[1] !in {MARKER_EOI, MARKER_SOS}
    requires ReadSegment(before, seg[1], seg) == Done(next)
    ensures Baseline(seg)
    ensures next.prologue == before.prologue + if seg[1] as int in {0xC0, 0xC4, 0xDB, 0xDD} then [] else seg
    ensures next.quant == before.quant + if seg[1] as int == 0xDB then seg else []
    ensures next.sof == if seg[1] as int == 0xC0 then seg else before.sof
  {
    hide ReadDht;
    var payload := seg[SEGMENT_HEAD_LEN..];
    assert |seg| >= 6 ==> payload[0] == seg[4] && payload[1] == seg[5];
    assert before.prologue + [] == before.prologue && before.quant + [] == before.quant;
  }

  lemma {:induction false} SegmentsAreRead(before: Jpeg, data: seq<Byte>) returns (segs: seq<seq<Byte>>)
    requires ValidDecoders(before.dec) && ReadFrom(before, data).Done?
    ensures var j := ReadFrom(before, data).value;
            && KeepsAll(before, j, segs) && IsMarked(j.sos, 0xDA) && data == Flattened(segs) + j.sos + j.scan
    decreases |data|
  {
    hide ReadFrom, ReadSegment, ReadSos, KeepsAll, Flattened, Be16;
    FirstSegment(before, data);
    var n := 2 + Be16(data[2..]);
    var seg, rest := data[..n], data[n..];
    assert data == seg + rest;
    if data[1] == MARKER_SOS {
      segs := [];
      SosKeeps(before, seg[SEGMENT_HEAD_LEN..]);
      NothingKept(before, ReadFrom(before, data).value);
      assert [] + seg + rest == seg + rest;
    } else {
      var next := ReadSegment(before, data[1], seg).value;
      var more := SegmentsAreRead(next, rest);
      var j := ReadFrom(before, data).value;
      KeepsOne(before, next, j, seg, more);
      FlatFront(seg, more);
      segs := [seg] + more;
      Behind(seg, Flattened(more), j.sos);
      Behind(seg, Flattened(more) + j.sos, j.scan);
    }
  }

  lemma FirstSegment(before: Jpeg, data: seq<Byte>)
    requires ValidDecoders(before.dec) && ReadFrom(before, data).Done?
    ensures |data| >= 4 && 4 <= 2 + Be16(data[2..]) <= |data|
    ensures var n := 2 + Be16(data[2..]);
            && data[..n][1] == data[1] && IsMarked(data[..n], data[1] as int) && data[1] != MARKER_EOI
            && if data[1] == MARKER_SOS then
                 var k := ReadSos(before, data[..n][SEGMENT_HEAD_LEN..]);
                 k.Done? && ReadFrom(before, data) == Done(k.value.(sos := data[..n], scan := data[n..]))
               else
                 var k := ReadSegment(before, data[1], data[..n]);
                 k.Done? && ReadFrom(before, data) == ReadFrom(k.value, data[n..])
  {
    hide ReadSegment, ReadSos;
    assert data[2..][0] == data[2] && data[2..][1] == data[3];
  }

  lemma SosKeeps(j: Jpeg, p: seq<Byte>)
    requires ReadSos(j, p).Done?
    ensures ReadSos(j, p).value == j.(comps := ReadSos(j, p).value.comps)
  {
    hide SelectTables;
  }

  lemma NothingKept(before: Jpeg, j: Jpeg)
    requires j.prologue == before.prologue && j.quant == before.quant && j.sof == before.sof
    ensures KeepsAll(before, j, []) && Flattened<Byte>([]) == []
  {
    assert before.prologue + [] == before.prologue && before.quant + [] == before.quant;
  }

  /** A file that is re-coded is its segments, the scan header and the scan. Written again are, in this order, all
      segments but frame headers, tables and restart intervals, then the quantization tables and the last frame
      header, the new tables and the scan header. */
  lemma SegmentsAreKept(data: seq<Byte>, j: Jpeg) returns (segs: seq<seq<Byte>>)
    requires Optimized(data).Done? && ReadJpeg(data) == Done(j)
    ensures AreSegments(segs) && (forall i :: 0 <= i < |segs| ==> Baseline(segs[i])) && IsMarked(j.sos, 0xDA)
    ensures data == [0xFF, 0xD8] + Flattened(segs) + j.sos + j.scan
    ensures Records(j).Done? && BuildFrom(Records(j).value.records, 0).Done?
    ensures var records := Records(j).value.records; var tables := BuildFrom(records, 0).value;
            && ValidTables(tables) && Spellable(tables, records)
            && Optimized(data).value ==
                 [0xFF, 0xD8] + Flattened(Others(segs)) + Flattened(With(segs, {0xDB})) + LastOr(With(segs, {0xC0}), [])
                 + DhtSegments(tables, 0) + j.sos + Spelled(Spell(tables, records)) + [0xFF, 0xD9]
  {
    hide DecodePlan, BuildFrom, ReadFrom, Spell, Spelled, DhtSegments, ScanBits, Flattened, Others, With, KeepsAll, Records;
    segs := SegmentsAreRead(NOTHING_READ, data[2..]);
    KeptAre(NOTHING_READ, j, segs);
    assert data == [0xFF, 0xD8] + data[2..];
    Behind([0xFF, 0xD8], Flattened(segs), j.sos);
    Behind([0xFF, 0xD8], Flattened(segs) + j.sos, j.scan);
    RecordsWere(data, j);
    NoPrologue(j, segs);
  }

  lemma NoPrologue(j: Jpeg, segs: seq<seq<Byte>>)
    requires j.prologue == NOTHING_READ.prologue + Flattened(Others(segs)) && j.quant == NOTHING_READ.quant + Flattened(With(segs, {0xDB}))
    ensures j.prologue == Flattened(Others(segs)) && j.quant == Flattened(With(segs, {0xDB}))
  {
  }

  lemma RecordsWere(data: seq<Byte>, j: Jpeg)
    requires Optimized(data).Done? && ReadJpeg(data) == Done(j)
    ensures ValidDecoders(j.dec) && Records(j).Done? && BuildFrom(Records(j).value.records, 0).Done?
    ensures var records := Records(j).value.records; var tables := BuildFrom(records, 0).value;
            ValidTables(tables) && Spellable(tables, records) && Optimized(data).value == Assemble(j, tables, records)
  {
    hide DecodePlan, BuildFrom, ReadFrom, ReadJpeg, Assemble, ScanBits;
    BuiltTablesAreValid(Records(j).value.records);
  }
}
