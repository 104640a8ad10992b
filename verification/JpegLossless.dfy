/** Re-coding loses nothing: the file it writes reads back as the same picture, and re-codes to itself. */
module JpegLossless {
  import opened Sequences
  import opened Numbers
  import opened Outcomes
  import opened BitStream
  import opened LengthLimit
  import opened CanonicalCode
  import opened HuffmanTable
  import opened JpegScan
  import opened JpegSegments

  // ---- the tables built for some records read those records back ----

  lemma {:induction false} FreqCounts(records: seq<Record>, t: nat)
    ensures FreqOf(records, t)[RESERVED_SYMBOL] == 0
    ensures forall k :: 0 <= k < |records| && records[k].table == t ==> FreqOf(records, t)[records[k].symbol as int] > 0
    ensures forall s :: 0 <= s < SYMBOLS && FreqOf(records, t)[s] > 0 ==> UsesTable(records, t)
  {
    if records != [] {
      var init, r := records[..|records| - 1], records[|records| - 1];
      FreqCounts(init, t);
      if UsesTable(init, t) {
        var k :| 0 <= k < |init| && init[k].table == t;
        assert records[k].table == t;
      }
    }
  }

  /** The decoders a reader makes of the table segments. */
  function DecodersOf(tables: Tables): (dec: Decoders)
    requires ValidTables(tables)
  {
    seq(TABLE_COUNT, t requires 0 <= t < TABLE_COUNT =>
      if tables[t].None? then None else Some(NewDecoder(tables[t].value.counts, tables[t].value.symbols)))
  }

  lemma TableReadsBack(freq: seq<nat>, v: Byte)
    requires HasSymbol(freq) && BuildTable(freq).Done? && freq[v as int] > 0
    ensures var t := BuildTable(freq).value;
            && |t.code| == |t.size| == SYMBOLS && |t.counts| == MAX_CODE_LEN + 1
            && ValidDecoder(NewDecoder(t.counts, t.symbols))
            && 1 <= t.size[v as int] <= MAX_CODE_LEN
            && ReadsBack(NewDecoder(t.counts, t.symbols), t, v)
  {
    hide DecodeSymbol, ToBits, KraftAt, Pow2, Sum;
    TableIsSound(freq);
    var t := BuildTable(freq).value;
    var k := RankOf(t.symbols, v);
    RankHasLength(t.counts, k);
    forall rest
      ensures DecodeSymbol(NewDecoder(t.counts, t.symbols), ToBits(t.code[v as int], t.size[v as int]) + rest) == Some((v, rest))
    {
      DecodeOwnCode(t.counts, t.symbols, k, rest);
    }
  }

  /** A table of the list is the one built for its records. */
  lemma TableOfList(records: seq<Record>, t: nat)
    requires BuildFrom(records, 0).Done? && t < TABLE_COUNT
    ensures var tables := BuildFrom(records, 0).value;
            && ValidTables(tables)
            && (tables[t].Some? <==> UsesTable(records, t))
            && (tables[t].Some? ==>
                  && HasSymbol(FreqOf(records, t))
                  && BuildTable(FreqOf(records, t)) == Done(tables[t].value))
  {
    hide BuildTable, FreqOf, BuildFrom;
    BuildFromIsValid(records, 0);
    assert BuildFrom(records, 0).value[t - 0] == TableFor(records, t).value;
    BuiltTablesAreValid(records);
    if UsesTable(records, t) {
      FreqCounts(records, t);
      var k :| 0 <= k < |records| && records[k].table == t;
      assert FreqOf(records, t)[records[k].symbol as int] > 0;
    }
  }

  ghost predicate InTables(records: seq<Record>) {
    forall r :: r in records ==> r.table < TABLE_COUNT
  }

  /** Every record has a code, and the new decoders read it back: the re-coder's last error cannot happen. */
  lemma BuiltTablesAnswer(records: seq<Record>)
    requires InTables(records) && BuildFrom(records, 0).Done?
    ensures var tables := BuildFrom(records, 0).value;
            && ValidTables(tables)
            && !Uncoded(tables, records)
            && Answers(DecodersOf(tables), tables, records)
  {
    hide DecodeSymbol, BuildTable, NewDecoder, ValidDecoder;
    var tables := BuildFrom(records, 0).value;
    BuiltTablesAreValid(records);
    var dec := DecodersOf(tables);
    forall t | 0 <= t < TABLE_COUNT && dec[t].Some?
      ensures ValidDecoder(dec[t].value) && |dec[t].value.counts| == MAX_CODE_LEN + 1
    {
      TableOfList(records, t);
      DecoderIsValid(FreqOf(records, t));
    }
    forall r | r in records
      ensures tables[r.table].Some? && tables[r.table].value.size[r.symbol as int] > 0
      ensures ReadsBack(dec[r.table].value, tables[r.table].value, r.symbol)
    {
      var k :| 0 <= k < |records| && records[k] == r;
      assert records[k].table == r.table;
      TableOfList(records, r.table);
      FreqCounts(records, r.table);
      TableReadsBack(FreqOf(records, r.table), r.symbol);
    }
  }

  lemma DecoderIsValid(freq: seq<nat>)
    requires HasSymbol(freq) && BuildTable(freq).Done?
    ensures var t := BuildTable(freq).value;
            |t.counts| == MAX_CODE_LEN + 1 && ValidDecoder(NewDecoder(t.counts, t.symbols))
            && NewDecoder(t.counts, t.symbols).counts == t.counts
  {
    TableIsSound(freq);
  }

  lemma {:induction false} ACRecordsInTable(d: HuffDecoder, table: nat, k: nat, s: seq<Bit>)
    requires ValidDecoder(d) && DecodeAC(d, table, k, s).Some?
    ensures forall r :: r in DecodeAC(d, table, k, s).value.records ==> r.table == table
    decreases |s|
  {
    hide DecodeRecord;
    if k < BLOCK_COEFFS {
      var (r, rest) := DecodeRecord(d, table, false, s).value;
      ACRecordsInTable(d, table, NextCoeff(r.symbol, k), rest);
    }
  }

  lemma {:induction false} DecodedInTables(dec: Decoders, plan: seq<Component>, s: seq<Bit>)
    requires ValidDecoders(dec) && DecodePlan(dec, plan, s).Done?
    ensures InTables(DecodePlan(dec, plan, s).value.records)
  {
    hide DecodeRecord, DecodeAC;
    if plan != [] {
      var c := plan[0];
      var (r, rest) := DecodeRecord(dec[c.dcTbl].value, c.dcTbl, true, s).value;
      ACRecordsInTable(dec[TABLES_PER_CLASS + c.acTbl].value, TABLES_PER_CLASS + c.acTbl, 1, rest);
      var first := DecodeBlock(dec, c, s).value;
      DecodedInTables(dec, plan[1..], first.rest);
    }
  }

  // ---- segments of one kind, one after the other ----

  ghost predicate IsSegment(seg: seq<Byte>, marker: Byte) {
    && |seg| >= SEGMENT_HEAD_LEN && seg[0] == MARKER_PREFIX && seg[1] == marker
    && |seg| == 2 + Be16(seg[2..])
  }

  /** Segments that are kept as they are: the quantisation tables, or all those without a meaning here. */
  predicate Kept(marker: Byte, quant: bool) {
    if quant then marker == MARKER_DQT
    else marker !in {MARKER_SOF0, MARKER_SOF2, MARKER_DHT, MARKER_DQT, MARKER_DRI, MARKER_SOS, MARKER_EOI}
  }

  ghost predicate KeptSegments(bytes: seq<Byte>, quant: bool) {
    bytes == [] ||
    (|bytes| >= SEGMENT_HEAD_LEN && bytes[0] == MARKER_PREFIX && Kept(bytes[1], quant)
     && var n := 2 + Be16(bytes[2..]);
        n >= SEGMENT_HEAD_LEN && n <= |bytes| && KeptSegments(bytes[n..], quant))
  }

  lemma {:induction false} KeepOneMore(bytes: seq<Byte>, seg: seq<Byte>, quant: bool)
    requires KeptSegments(bytes, quant) && |seg| >= 2 && IsSegment(seg, seg[1]) && Kept(seg[1], quant)
    ensures KeptSegments(bytes + seg, quant)
    decreases |bytes|
  {
    var all := bytes + seg;
    if bytes == [] {
      assert all == seg && all[|seg|..] == [];
    } else {
      var n := 2 + Be16(bytes[2..]);
      KeepOneMore(bytes[n..], seg, quant);
      assert all[2..][0] == bytes[2..][0] && all[2..][1] == bytes[2..][1];
      assert all[n..] == bytes[n..] + seg;
    }
  }

  function WithKept(j: Jpeg, bytes: seq<Byte>, quant: bool): Jpeg {
    if quant then j.(quant := j.quant + bytes) else j.(prologue := j.prologue + bytes)
  }

  /** One segment before the scan, read off the front of a stream. */
  lemma ReadOneSegment(j: Jpeg, seg: seq<Byte>, rest: seq<Byte>)
    requires ValidDecoders(j.dec) && |seg| >= 2 && IsSegment(seg, seg[1])
    requires seg[1] != MARKER_EOI && seg[1] != MARKER_SOS
    ensures var next := ReadSegment(j, seg[1], seg);
            ReadFrom(j, seg + rest) == if next.Done? then ReadFrom(next.value, rest) else Refused
  {
    hide ReadSegment;
    var all := seg + rest;
    assert all[2..][0] == seg[2..][0] && all[2..][1] == seg[2..][1];
    assert all[..|seg|] == seg && all[|seg|..] == rest;
  }

  lemma KeptIsKept(j: Jpeg, seg: seq<Byte>, quant: bool)
    requires ValidDecoders(j.dec) && |seg| >= SEGMENT_HEAD_LEN && Kept(seg[1], quant)
    ensures ReadSegment(j, seg[1], seg) == Done(WithKept(j, seg, quant))
  {
  }

  lemma {:induction false} ReadKept(j: Jpeg, bytes: seq<Byte>, rest: seq<Byte>, quant: bool)
    requires ValidDecoders(j.dec) && KeptSegments(bytes, quant)
    ensures ReadFrom(j, bytes + rest) == ReadFrom(WithKept(j, bytes, quant), rest)
    decreases |bytes|
  {
    hide ReadSegment, ReadFrom;
    if bytes == [] {
      assert bytes + rest == rest;
      assert WithKept(j, [], quant) == j;
    } else {
      var n := 2 + Be16(bytes[2..]);
      var seg, more := bytes[..n], bytes[n..];
      assert seg[2..][0] == bytes[2..][0] && seg[2..][1] == bytes[2..][1];
      assert bytes + rest == seg + (more + rest);
      ReadOneSegment(j, seg, more + rest);
      var k := WithKept(j, seg, quant);
      KeptIsKept(j, seg, quant);
      ReadKept(k, more, rest, quant);
      assert seg + more == bytes;
      assert WithKept(k, more, quant) == WithKept(j, bytes, quant) by {
        assert j.quant + seg + more == j.quant + (seg + more);
        assert j.prologue + seg + more == j.prologue + (seg + more);
      }
    }
  }

  // ---- the table segments ----

  lemma CountsRoundTrip(counts: seq<int>, bytes: seq<Byte>)
    requires Counts(counts) && |counts| == MAX_CODE_LEN + 1 && (forall i :: 0 <= i <= MAX_CODE_LEN ==> counts[i] <= 255)
    requires bytes == seq(MAX_CODE_LEN, i requires 0 <= i < MAX_CODE_LEN => (counts[i + 1] % 256) as Byte)
    ensures CountsOf(bytes) == counts
  {
  }

  /** A table segment reads back as the decoder of its table, and only that one changes. */
  lemma ReadDhtSegment(j: Jpeg, index: nat, freq: seq<nat>)
    requires ValidDecoders(j.dec) && index < TABLE_COUNT && HasSymbol(freq) && BuildTable(freq).Done?
    ensures var t := BuildTable(freq).value;
            && |t.counts| == MAX_CODE_LEN + 1
            && var seg := DhtSegment(index, t);
               && |seg| >= 2 && seg[1] == MARKER_DHT && IsSegment(seg, MARKER_DHT)
               && ReadSegment(j, MARKER_DHT, seg) == Done(j.(dec := j.dec[index := Some(NewDecoder(t.counts, t.symbols))]))
  {
    hide BuildTable, NewDecoder, ReadSos, ReadSof, ReadDht, ValidDecoder, KraftAt, Pow2, Sum, CountsOf, SortedBySize;
    TableIsSound(freq);
    var t := BuildTable(freq).value;
    var seg := DhtSegment(index, t);
    var length := 2 + DHT_HEADER_LEN + |t.symbols|;
    assert seg[2..][0] as int == length / 256 && seg[2..][1] as int == length % 256;
    var p := seg[SEGMENT_HEAD_LEN..];
    var counts := seq(MAX_CODE_LEN, i requires 0 <= i < MAX_CODE_LEN => (t.counts[i + 1] % 256) as Byte);
    var id := (index / TABLES_PER_CLASS * 16 + index % TABLES_PER_CLASS) as Byte;
    assert p == [id] + counts + t.symbols;
    assert p[1..DHT_HEADER_LEN] == counts && p[DHT_HEADER_LEN..] == t.symbols;
    CountsRoundTrip(t.counts, counts);
    SymbolsExist(freq);
    DecoderIsValid(freq);
    ReadOneTable(j.dec, p, index, t);
  }

  lemma SymbolsExist(freq: seq<nat>)
    requires HasSymbol(freq) && BuildTable(freq).Done?
    ensures BuildTable(freq).value.symbols != []
  {
    TableIsSound(freq);
    var s :| 0 <= s < SYMBOLS && freq[s] > 0;
    assert s as Byte in BuildTable(freq).value.symbols;
  }

  lemma ReadOneTable(dec: Decoders, p: seq<Byte>, index: nat, t: Table)
    requires ValidDecoders(dec) && index < TABLE_COUNT && t.symbols != []
    requires |p| == DHT_HEADER_LEN + |t.symbols| && p[DHT_HEADER_LEN..] == t.symbols
    requires p[0] as int == index / TABLES_PER_CLASS * 16 + index % TABLES_PER_CLASS
    requires CountsOf(p[1..DHT_HEADER_LEN]) == t.counts && Sum(t.counts) == |t.symbols|
    requires ValidDecoder(NewDecoder(t.counts, t.symbols)) && NewDecoder(t.counts, t.symbols).counts == t.counts
    ensures ReadDht(dec, p) == Done(dec[index := Some(NewDecoder(t.counts, t.symbols))])
  {
    hide NewDecoder, ValidDecoder, Sum, CountsOf;
    var total := Sum(t.counts);
    assert p[DHT_HEADER_LEN..DHT_HEADER_LEN + total] == p[DHT_HEADER_LEN..] == t.symbols;
    assert p[DHT_HEADER_LEN + total..] == [];
    var next := dec[index := Some(NewDecoder(t.counts, t.symbols))];
    assert ReadDht(next, []) == Done(next);
  }

  /** The decoders after the table segments from t on have been read. */
  function WithTables(dec: Decoders, tables: Tables, t: nat): (r: Decoders)
    requires |dec| == TABLE_COUNT && ValidTables(tables) && t <= TABLE_COUNT
    ensures |r| == TABLE_COUNT
  {
    seq(TABLE_COUNT, i requires 0 <= i < TABLE_COUNT =>
      if i >= t && tables[i].Some? then DecodersOf(tables)[i] else dec[i])
  }

  lemma {:induction false} ReadDhtSegments(j: Jpeg, records: seq<Record>, tables: Tables, t: nat, rest: seq<Byte>)
    requires ValidDecoders(j.dec) && InTables(records) && t <= TABLE_COUNT
    requires BuildFrom(records, 0) == Done(tables) && ValidTables(tables)
    ensures ValidDecoders(WithTables(j.dec, tables, t))
    ensures ReadFrom(j, DhtSegments(tables, t) + rest) == ReadFrom(j.(dec := WithTables(j.dec, tables, t)), rest)
    decreases TABLE_COUNT - t
  {
    hide BuildTable, NewDecoder, ReadFrom, ReadSegment, ValidDecoder, DhtSegment, BuildFrom, FreqOf;
    BuiltTablesAnswer(records);
    if t == TABLE_COUNT {
      assert DhtSegments(tables, t) + rest == rest;
      assert WithTables(j.dec, tables, t) == j.dec;
    } else {
      TableOfList(records, t);
      if tables[t].None? {
        ReadDhtSegments(j, records, tables, t + 1, rest);
        assert WithTables(j.dec, tables, t) == WithTables(j.dec, tables, t + 1);
      } else {
        var freq := FreqOf(records, t);
        ReadDhtSegment(j, t, freq);
        var seg := DhtSegment(t, tables[t].value);
        assert DhtSegments(tables, t) + rest == seg + (DhtSegments(tables, t + 1) + rest);
        ReadOneSegment(j, seg, DhtSegments(tables, t + 1) + rest);
        var next := j.(dec := j.dec[t := DecodersOf(tables)[t]]);
        ReadDhtSegments(next, records, tables, t + 1, rest);
        assert WithTables(j.dec, tables, t) == WithTables(next.dec, tables, t + 1);
      }
    }
  }

  // ---- what reading a file leaves behind ----

  /** The number of frame headers before the scan. */
  function FrameCount(data: seq<Byte>): nat
    decreases |data|
  {
    if |data| < SEGMENT_HEAD_LEN || data[0] != MARKER_PREFIX || data[1] == MARKER_EOI || data[1] == MARKER_SOS then 0
    else
      var size := Be16(data[2..]);
      if size < 2 || 2 + size > |data| then 0
      else (if data[1] == MARKER_SOF0 then 1 else 0) + FrameCount(data[2 + size..])
  }

  /** What is known of a file before its scan header, after `n` frame headers. */
  ghost predicate Header(j: Jpeg, n: nat) {
    && ValidDecoders(j.dec)
    && KeptSegments(j.prologue, false)
    && KeptSegments(j.quant, true)
    && if n == 0 then j.sof == [] && j.comps == [] && j.mcusX == 0 && j.mcusY == 0
       else
         && IsSegment(j.sof, MARKER_SOF0)
         && var first := ReadSof(NOTHING_READ, j.sof[SEGMENT_HEAD_LEN..]);
            && first.Done?
            && first.value.mcusX == j.mcusX && first.value.mcusY == j.mcusY
            && if n == 1 then first.value.comps == j.comps else |first.value.comps| < |j.comps|
  }

  lemma ReadSofFrame(j: Jpeg, p: seq<Byte>)
    ensures ReadSof(j, p).Done? <==> ReadSof(NOTHING_READ, p).Done?
    ensures ReadSof(j, p).Done? ==>
              var a, b := ReadSof(j, p).value, ReadSof(NOTHING_READ, p).value;
              && a == j.(comps := a.comps, mcusX := b.mcusX, mcusY := b.mcusY)
              && |a.comps| == |j.comps| + |b.comps| && |b.comps| > 0
              && (j.comps == [] ==> a.comps == b.comps)
  {
    if ReadSof(j, p).Done? {
      var comps := SofComponents(p, p[5] as int);
      assert [] + comps == comps;
      assert j.comps == [] ==> j.comps + comps == comps;
    }
  }

  lemma HeaderStep(j: Jpeg, n: nat, marker: Byte, segment: seq<Byte>)
    requires Header(j, n) && IsSegment(segment, marker) && marker != MARKER_EOI && marker != MARKER_SOS
    requires ReadSegment(j, marker, segment).Done?
    ensures Header(ReadSegment(j, marker, segment).value, if marker == MARKER_SOF0 then n + 1 else n)
  {
    hide ReadSof, ReadDht, ValidDecoders;
    if marker == MARKER_SOF0 {
      ReadSofFrame(j, segment[SEGMENT_HEAD_LEN..]);
      if n > 0 {
        ReadSofFrame(NOTHING_READ, j.sof[SEGMENT_HEAD_LEN..]);
      }
    } else if marker == MARKER_DQT {
      KeepOneMore(j.quant, segment, true);
    } else if Kept(marker, false) {
      KeepOneMore(j.prologue, segment, false);
    }
  }

  /** A file that was read has a header that fits its last frame header, and then the scan header's tables. */
  lemma {:induction false} ReadLeavesHeader(j: Jpeg, n: nat, data: seq<Byte>) returns (h: Jpeg)
    requires Header(j, n) && ReadFrom(j, data).Done?
    ensures Header(h, n + FrameCount(data))
    ensures var r := ReadFrom(j, data).value;
            && IsSegment(r.sos, MARKER_SOS)
            && ReadSos(h, r.sos[SEGMENT_HEAD_LEN..]).Done?
            && r == ReadSos(h, r.sos[SEGMENT_HEAD_LEN..]).value.(sos := r.sos, scan := r.scan)
    decreases |data|
  {
    hide ReadSos, ReadSegment, Header;
    var size := Be16(data[2..]);
    var segment := data[..2 + size];
    assert segment[2..][0] == data[2..][0] && segment[2..][1] == data[2..][1];
    if data[1] == MARKER_SOS {
      h := j;
    } else {
      HeaderIsValid(j, n);
      HeaderStep(j, n, data[1], segment);
      var k := ReadSegment(j, data[1], segment).value;
      h := ReadLeavesHeader(k, if data[1] == MARKER_SOF0 then n + 1 else n, data[2 + size..]);
    }
  }

  lemma HeaderIsValid(j: Jpeg, n: nat)
    requires Header(j, n)
    ensures ValidDecoders(j.dec)
  {
  }

  // ---- reading the new file ----

  lemma ReadKeptParts(j: Jpeg, rest: seq<Byte>)
    requires KeptSegments(j.prologue, false) && KeptSegments(j.quant, true)
    ensures ReadFrom(NOTHING_READ, j.prologue + (j.quant + rest))
         == ReadFrom(NOTHING_READ.(prologue := j.prologue, quant := j.quant), rest)
  {
    hide ReadFrom, KeptSegments;
    assert [] + j.prologue == j.prologue && [] + j.quant == j.quant;
    ReadKept(NOTHING_READ, j.prologue, j.quant + rest, false);
    ReadKept(NOTHING_READ.(prologue := j.prologue), j.quant, rest, true);
  }

  /** The segments up to the frame header, read again: with more than one header only the last counts. */
  lemma ReadFrame(j: Jpeg, n: nat, rest: seq<Byte>) returns (k: Jpeg)
    requires Header(j, n)
    ensures k.prologue == j.prologue && k.quant == j.quant && k.sof == j.sof && k.dec == NOTHING_READ.dec
    ensures k.mcusX == j.mcusX && k.mcusY == j.mcusY
    ensures if n <= 1 then k.comps == j.comps else |k.comps| < |j.comps|
    ensures ReadFrom(NOTHING_READ, j.prologue + (j.quant + (j.sof + rest))) == ReadFrom(k, rest)
  {
    hide ReadFrom, KeptSegments, ReadSof, ReadSos, ReadDht;
    ReadKeptParts(j, j.sof + rest);
    k := NOTHING_READ.(prologue := j.prologue, quant := j.quant);
    if n == 0 {
      assert j.sof + rest == rest;
    } else {
      ReadOneSegment(k, j.sof, rest);
      ReadSofFrame(k, j.sof[SEGMENT_HEAD_LEN..]);
      k := ReadSof(k, j.sof[SEGMENT_HEAD_LEN..]).value.(sof := j.sof);
    }
  }

  lemma ReadFrameAndTables(j: Jpeg, n: nat, records: seq<Record>, tables: Tables, rest: seq<Byte>) returns (k: Jpeg)
    requires Header(j, n) && InTables(records) && BuildFrom(records, 0) == Done(tables) && ValidTables(tables)
    ensures k.prologue == j.prologue && k.quant == j.quant && k.sof == j.sof && k.dec == DecodersOf(tables)
    ensures k.mcusX == j.mcusX && k.mcusY == j.mcusY && ValidDecoders(k.dec)
    ensures if n <= 1 then k.comps == j.comps else |k.comps| < |j.comps|
    ensures ReadFrom(NOTHING_READ, j.prologue + (j.quant + (j.sof + (DhtSegments(tables, 0) + rest)))) == ReadFrom(k, rest)
  {
    hide ReadFrom, Header, DhtSegments, BuildFrom, ValidDecoders, ValidTables, DecodersOf, WithTables, InTables;
    var c := ReadFrame(j, n, DhtSegments(tables, 0) + rest);
    NothingIsValid();
    ReadDhtSegments(c, records, tables, 0, rest);
    k := c.(dec := WithTables(c.dec, tables, 0));
    AllTablesRead(c.dec, tables);
  }

  lemma NothingIsValid()
    ensures ValidDecoders(NOTHING_READ.dec)
  {
  }

  lemma AllTablesRead(dec: Decoders, tables: Tables)
    requires dec == NOTHING_READ.dec && ValidTables(tables)
    ensures WithTables(dec, tables, 0) == DecodersOf(tables)
  {
  }

  lemma ReadScanHeader(k: Jpeg, sos: seq<Byte>, rest: seq<Byte>)
    requires ValidDecoders(k.dec) && IsSegment(sos, MARKER_SOS)
    ensures var next := ReadSos(k, sos[SEGMENT_HEAD_LEN..]);
            ReadFrom(k, sos + rest) == if next.Done? then Done(next.value.(sos := sos, scan := rest)) else Refused
  {
    hide ReadSos;
    var all := sos + rest;
    assert all[2..][0] == sos[2..][0] && all[2..][1] == sos[2..][1];
    assert all[..|sos|] == sos && all[|sos|..] == rest;
  }

  /** The bytes after the scan header of a new file. */
  function NewScan(tables: Tables, records: seq<Record>): seq<Byte>
    requires Spellable(tables, records)
  {
    Spelled(Spell(tables, records)) + [MARKER_PREFIX, MARKER_EOI]
  }

  /** Reading a new file: with one frame header or none, everything comes back, with the new tables and the new
      scan; with more, the scan header no longer fits. */
  lemma ReadAssembled(data: seq<Byte>, j: Jpeg, records: seq<Record>)
    requires ReadJpeg(data) == Done(j) && InTables(records) && BuildFrom(records, 0).Done?
    ensures var tables := BuildFrom(records, 0).value;
            && ValidTables(tables) && Spellable(tables, records)
            && ReadJpeg(Assemble(j, tables, records)) ==
               if FrameCount(data[2..]) <= 1 then Done(j.(dec := DecodersOf(tables), scan := NewScan(tables, records)))
               else Refused
  {
    hide BuildTable, ReadFrom, DhtSegments, BuildFrom, ReadSof, KeptSegments, FrameCount, Spelled, Spell, SelectTables;
    BuiltTablesAnswer(records);
    var tables := BuildFrom(records, 0).value;
    var out, scan := Assemble(j, tables, records), NewScan(tables, records);
    assert Header(NOTHING_READ, 0) by {
      NothingIsHeader();
    }
    var h := ReadLeavesHeader(NOTHING_READ, 0, data[2..]);
    var n := FrameCount(data[2..]);
    var k := ReadFrameAndTables(h, n, records, tables, j.sos + scan);
    var body := j.prologue + (j.quant + (j.sof + (DhtSegments(tables, 0) + (j.sos + scan))));
    assert out == [MARKER_PREFIX, MARKER_SOI] + body;
    assert out[2..] == body;
    ReadScanHeader(k, j.sos, scan);
  }

  lemma NothingIsHeader()
    ensures Header(NOTHING_READ, 0)
  {
  }

  // ---- the main results ----

  /** The records a file's scan holds. */
  ghost function Records(j: Jpeg): Outcome<Read>
    requires ValidDecoders(j.dec)
  {
    DecodePlan(j.dec, ScanPlan(j.comps, j.mcusY * j.mcusX), ScanBits(j.scan))
  }

  /** A new scan, read with the new tables, holds the records it was spelled from. */
  lemma NewScanKeepsRecords(j: Jpeg)
    requires ValidDecoders(j.dec) && Records(j).Done? && BuildFrom(Records(j).value.records, 0).Done?
    ensures var records := Records(j).value.records;
            var tables := BuildFrom(records, 0).value;
            && ValidTables(tables) && Spellable(tables, records) && ValidDecoders(DecodersOf(tables))
            && var r := Records(j.(dec := DecodersOf(tables), scan := NewScan(tables, records)));
               r.Done? && r.value.records == records && |r.value.rest| < BYTE_BITS
  {
    hide BuildFrom, DecodePlan, Spell, Stuff, BytesOf;
    var plan, bits := ScanPlan(j.comps, j.mcusY * j.mcusX), ScanBits(j.scan);
    var records := Records(j).value.records;
    DecodedInTables(j.dec, plan, bits);
    BuiltTablesAnswer(records);
    var tables := BuildFrom(records, 0).value;
    var spelled := Spell(tables, records);
    var padded := Padded(spelled);
    PaddedExtends(spelled);
    SpelledReadsBack(spelled);
    assert padded == spelled + padded[|spelled|..];
    RespellPlan(j.dec, DecodersOf(tables), tables, plan, bits, padded[|spelled|..]);
  }

  lemma SpelledReadsBack(bits: seq<Bit>)
    ensures ScanBits(Spelled(bits) + [MARKER_PREFIX, MARKER_EOI]) == Padded(bits)
  {
    PaddedExtends(bits);
    WholeBytes(Padded(bits));
    ScanBitsOfStuff(BytesOf(Padded(bits)), [MARKER_PREFIX, MARKER_EOI]);
    NextByte([MARKER_PREFIX, MARKER_EOI]);
  }

  lemma ByteAtPrefix(bits: seq<Bit>, cut: nat, at: nat)
    requires at + BYTE_BITS <= cut <= |bits|
    ensures ByteAt(bits[..cut], at) == ByteAt(bits, at)
  {
    assert bits[..cut][at..at + BYTE_BITS] == bits[at..at + BYTE_BITS];
  }

  /** Cutting a whole number of bytes into bytes loses nothing. */
  lemma {:induction false} WholeBytes(bits: seq<Bit>)
    requires |bits| % BYTE_BITS == 0
    ensures BitsOf(BytesOf(bits)) == bits
    decreases |bits|
  {
    hide ByteAt, ToBits, FromBits;
    if bits != [] {
      var cut := |bits| - BYTE_BITS;
      WholeBytes(bits[..cut]);
      LastByte(bits, cut);
      assert bits == bits[..cut] + bits[cut..];
    }
  }

  lemma LastByte(bits: seq<Bit>, cut: nat)
    requires |bits| % BYTE_BITS == 0 && cut + BYTE_BITS == |bits|
    ensures var bytes := BytesOf(bits);
            bytes != [] && bytes[..|bytes| - 1] == BytesOf(bits[..cut])
            && ToBits(bytes[|bytes| - 1] as int, BYTE_BITS) == bits[cut..]
  {
    hide ToBits, FromBits;
    var bytes, init := BytesOf(bits), bits[..cut];
    forall k | 0 <= k < |init| / BYTE_BITS
      ensures bytes[k] == BytesOf(init)[k]
    {
      ByteAtPrefix(bits, cut, BYTE_BITS * k);
    }
    assert bits[cut..cut + BYTE_BITS] == bits[cut..];
    ByteBound(bits[cut..]);
  }

  /** Re-coding is lossless: the new file reads back with every segment but the tables as it was, and its scan
      holds the same symbols and raw bits, table by table. */
  lemma RecodingIsLossless(data: seq<Byte>, j: Jpeg)
    requires Optimized(data).Done? && ReadJpeg(data) == Done(j) && FrameCount(data[2..]) <= 1
    ensures var again := ReadJpeg(Optimized(data).value);
            && again.Done?
            && again.value == j.(dec := again.value.dec, scan := again.value.scan)
            && Records(j).Done? && Records(again.value).Done?
            && Records(again.value).value.records == Records(j).value.records
  {
    hide BuildFrom, DecodePlan, Spell, ReadFrom, Assemble, ScanBits;
    NewScanKeepsRecords(j);
    DecodedInTables(j.dec, ScanPlan(j.comps, j.mcusY * j.mcusX), ScanBits(j.scan));
    ReadAssembled(data, j, Records(j).value.records);
  }

  /** Re-coding its own output changes nothing, exactly when the file had at most one frame header. */
  lemma RecodingIsIdempotent(data: seq<Byte>)
    requires Optimized(data).Done?
    ensures Optimized(Optimized(data).value) == (if FrameCount(data[2..]) <= 1 then Optimized(data) else Refused)
  {
    hide BuildFrom, DecodePlan, Spell, ReadFrom, ScanBits, Spelled, DhtSegments;
    var j := ReadJpeg(data).value;
    var records := Records(j).value.records;
    NewScanKeepsRecords(j);
    DecodedInTables(j.dec, ScanPlan(j.comps, j.mcusY * j.mcusX), ScanBits(j.scan));
    ReadAssembled(data, j, records);
    BuiltTablesAnswer(records);
    if FrameCount(data[2..]) <= 1 {
      var tables := BuildFrom(records, 0).value;
      var again := j.(dec := DecodersOf(tables), scan := NewScan(tables, records));
      assert Assemble(again, tables, records) == Assemble(j, tables, records);
    }
  }
}
