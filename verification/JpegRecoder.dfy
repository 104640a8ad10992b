/** The re-coder as the program runs it, step by step, and when it can stop with an index out of range. */
module JpegRecoder {
  import opened Sequences
  import opened Numbers
  import opened Outcomes
  import opened BitStream
  import opened LengthLimit
  import opened CanonicalCode
  import opened HuffmanTable
  import opened HuffmanDepth
  import opened JpegScan
  import opened JpegSegments
  import opened JpegLossless

  class JpegFile {
    var prologue: seq<Byte>
    var quant: seq<Byte>
    var sof: seq<Byte>
    var sos: seq<Byte>
    var scan: seq<Byte>
    var comps: seq<Component>
    var mcusX: nat
    var mcusY: nat
    var dec: Decoders

    function State(): Jpeg
      reads this
    {
      Jpeg(prologue, quant, sof, sos, scan, comps, mcusX, mcusY, dec)
    }

    constructor ()
      ensures State() == NOTHING_READ
    {
      prologue, quant, sof, sos, scan, comps, mcusX, mcusY := [], [], [], [], [], [], 0, 0;
      dec := [None, None, None, None, None, None, None, None];
    }

    method ReadSOF(p: seq<Byte>) returns (ok: bool)
      modifies this
      ensures ok <==> ReadSof(old(State()), p).Done?
      ensures ok ==> State() == ReadSof(old(State()), p).value
    {
      if |p| < SOF_HEADER_LEN || p[0] != SAMPLE_PRECISION {
        return false;
      }
      var height, width := Be16(p[1..]), Be16(p[3..]);
      var n := p[5] as int;
      if n == 0 || |p| < SOF_HEADER_LEN + SOF_COMPONENT_LEN * n {
        return false;
      }
      hide AllSamplingOk, SamplingOk, MaxH, MaxV, WithBlocks;
      NoComponents();
      var hMax, vMax := 1, 1;
      ghost var all := SofComponents(p, n);
      for k := 0 to n
        invariant State() == old(State()).(comps := old(comps) + all[..k])
        invariant hMax == MaxH(all[..k]) && vMax == MaxV(all[..k])
        invariant AllSamplingOk(all[..k])
      {
        var c := SofComponent(p, k);
        SofStep(all, k);
        if !SamplingOk(c) {
          return false;
        }
        hMax := if c.h > hMax then c.h else hMax;
        vMax := if c.v > vMax then c.v else vMax;
        comps := comps + [c];
      }
      assert all[..n] == all;
      SetBlocks();
      mcusX := Mcus(width, BLOCK_SIDE * hMax);
      mcusY := Mcus(height, BLOCK_SIDE * vMax);
      ok := true;
    }

    lemma NoComponents()
      ensures AllSamplingOk([]) && MaxH([]) == 1 && MaxV([]) == 1
    {
    }

    lemma SofStep(all: seq<Component>, k: nat)
      requires k < |all|
      ensures all[..k + 1] == all[..k] + [all[k]]
      ensures AllSamplingOk(all[..k + 1]) <==> AllSamplingOk(all[..k]) && SamplingOk(all[k])
      ensures AllSamplingOk(all) ==> SamplingOk(all[k])
      ensures MaxH(all[..k + 1]) == if all[k].h > MaxH(all[..k]) then all[k].h else MaxH(all[..k])
      ensures MaxV(all[..k + 1]) == if all[k].v > MaxV(all[..k]) then all[k].v else MaxV(all[..k])
    {
      assert all[..k + 1][..k] == all[..k];
    }

    /** The second loop over the components. */
    method SetBlocks()
      modifies this`comps
      ensures comps == WithBlocks(old(comps))
    {
      ghost var before, done := comps, WithBlocks(comps);
      for k := 0 to |comps|
        invariant |comps| == |before|
        invariant forall i :: 0 <= i < |before| ==> comps[i] == if i < k then done[i] else before[i]
      {
        comps := comps[k := comps[k].(blocks := comps[k].h * comps[k].v)];
      }
    }

    method ReadDHT(payload: seq<Byte>) returns (ok: bool)
      requires ValidDecoders(dec)
      modifies this`dec
      ensures ok <==> ReadDht(old(dec), payload).Done?
      ensures ok ==> dec == ReadDht(old(dec), payload).value
    {
      hide ReadDht;
      var p := payload;
      while |p| > DHT_HEADER_LEN
        invariant ValidDecoders(dec)
        invariant ReadDht(dec, p) == ReadDht(old(dec), payload)
        decreases |p|
      {
        var class_, id := p[0] as int / 16, p[0] as int % 16;
        ReadDhtStep(dec, p);
        if class_ > 1 || id >= TABLES_PER_CLASS {
          return false;
        }
        var counts := p[1..DHT_HEADER_LEN];
        var total := CountTotal(counts);
        SumBounds(CountsOf(counts));
        if |p| < DHT_HEADER_LEN + total {
          return false;
        }
        var d := BuildDecoder(counts, p[DHT_HEADER_LEN..DHT_HEADER_LEN + total]);
        dec := dec[class_ * TABLES_PER_CLASS + id := Some(d)];
        p := p[DHT_HEADER_LEN + total..];
      }
      ReadDhtStep(dec, p);
      ok := true;
    }

    /** One table of the segment, or its end. */
    lemma ReadDhtStep(dec: Decoders, p: seq<Byte>)
      requires ValidDecoders(dec)
      ensures |p| <= DHT_HEADER_LEN ==> ReadDht(dec, p) == Done(dec)
      ensures |p| > DHT_HEADER_LEN ==>
                var class_, id := p[0] as int / 16, p[0] as int % 16;
                var counts := CountsOf(p[1..DHT_HEADER_LEN]);
                var end := DHT_HEADER_LEN + Sum(counts);
                if class_ > 1 || id >= TABLES_PER_CLASS || |p| < end then ReadDht(dec, p) == Refused
                else
                  && DHT_HEADER_LEN <= end
                  && var d := NewDecoder(counts, p[DHT_HEADER_LEN..end]);
                     ReadDht(dec, p) == ReadDht(dec[class_ * TABLES_PER_CLASS + id := Some(d)], p[end..])
    {
      if |p| > DHT_HEADER_LEN {
        SumBounds(CountsOf(p[1..DHT_HEADER_LEN]));
      }
    }

    method CountTotal(counts: seq<Byte>) returns (total: int)
      ensures total == Sum(CountsOf(counts))
    {
      total := 0;
      ghost var all := CountsOf(counts);
      UpToZero(all);
      for i := 0 to |counts|
        invariant total == UpTo(all, i)
      {
        UpToStep(all, i + 1);
        total := total + counts[i] as int;
      }
      assert all[..|counts| + 1] == all;
    }

    method ReadSOS(p: seq<Byte>) returns (ok: bool)
      modifies this`comps
      ensures ok <==> ReadSos(old(State()), p).Done?
      ensures ok ==> State() == ReadSos(old(State()), p).value
    {
      if |p| < 1 {
        return false;
      }
      var n := p[0] as int;
      if n != |comps| || |p| < 1 + 2 * n + SOS_TAIL_LEN {
        return false;
      }
      for k := 0 to n
        invariant |comps| == n
        invariant SelectTables(comps, p, k, n) == SelectTables(old(comps), p, 0, n)
      {
        var id, tables := p[1 + 2 * k], p[2 + 2 * k] as int;
        var idx := FindComponent(id);
        if idx < 0 {
          return false;
        }
        comps := comps[idx := comps[idx].(dcTbl := tables / 16, acTbl := tables % 16)];
      }
      var tail := p[1 + 2 * n..];
      ok := tail[0] == 0 && tail[1] as int == BLOCK_COEFFS - 1 && tail[2] == 0;
    }

    /** The search in the scan header's loop: the last component with the id wins. */
    method FindComponent(id: Byte) returns (idx: int)
      ensures idx == LastWithId(comps, id)
    {
      idx := -1;
      for c := 0 to |comps|
        invariant idx == LastWithId(comps[..c], id)
      {
        assert comps[..c + 1][..c] == comps[..c];
        if comps[c].id == id {
          idx := c;
        }
      }
      assert comps[..|comps|] == comps;
    }

    /** One turn of the segment loop, for every segment but the scan header. */
    method TakeSegment(marker: Byte, segment: seq<Byte>) returns (ok: bool)
      requires ValidDecoders(dec) && |segment| >= SEGMENT_HEAD_LEN
      modifies this
      ensures ok <==> ReadSegment(old(State()), marker, segment).Done?
      ensures ok ==> State() == ReadSegment(old(State()), marker, segment).value
    {
      hide ReadSof, ReadDht;
      var payload := segment[SEGMENT_HEAD_LEN..];
      ok := true;
      if marker == MARKER_SOF0 {
        ok := ReadSOF(payload);
        sof := segment;
      } else if marker == MARKER_SOF2 {
        ok := false;
      } else if marker == MARKER_DHT {
        ok := ReadDHT(payload);
      } else if marker == MARKER_DQT {
        quant := quant + segment;
      } else if marker == MARKER_DRI {
        ok := !(|payload| >= 2 && Be16(payload) != 0);
      } else {
        prologue := prologue + segment;
      }
    }

    /** Take a file apart; `ok` is false for whatever this does not rewrite. */
    method Read(data: seq<Byte>) returns (ok: bool)
      requires State() == NOTHING_READ
      modifies this
      ensures ok <==> ReadJpeg(data).Done?
      ensures ok ==> State() == ReadJpeg(data).value
    {
      hide ReadSos, ReadSegment, SelectTables, ReadFrom;
      if |data| < SEGMENT_HEAD_LEN || data[0] != MARKER_PREFIX || data[1] != MARKER_SOI {
        return false;
      }
      var i := 2;
      while i + SEGMENT_HEAD_LEN <= |data|
        invariant 2 <= i <= |data| && ValidDecoders(dec)
        invariant ReadFrom(State(), data[i..]) == ReadJpeg(data)
      {
        ghost var here := data[i..];
        ReadFromStep(State(), here);
        if data[i] != MARKER_PREFIX {
          return false;
        }
        var marker := data[i + 1];
        if marker == MARKER_EOI {
          break;
        }
        assert here[2..] == data[i + 2..];
        var size := Be16(data[i + 2..]);
        if size < 2 || i + 2 + size > |data| {
          return false;
        }
        var segment := data[i..i + 2 + size];
        assert here[..2 + size] == segment && here[2 + size..] == data[i + 2 + size..];
        if marker == MARKER_SOS {
          ok := ReadSOS(segment[SEGMENT_HEAD_LEN..]);
          sos := segment;
          scan := data[i + 2 + size..];
          return;
        }
        ok := TakeSegment(marker, segment);
        if !ok {
          return;
        }
        i := i + 2 + size;
      }
      ReadFromEnds(State(), data[i..]);
      ok := false;
    }

    /** Spell the records with the new tables and put the file together. */
    method Reassemble(tables: Tables, records: seq<Record>) returns (ok: bool, out: seq<Byte>)
      requires ValidTables(tables) && InTables(records)
      ensures ok <==> !Uncoded(tables, records)
      ensures ok ==> Spellable(tables, records) && out == Assemble(State(), tables, records)
    {
      hide Spelled, DhtSegments, Spell;
      var spelled;
      ok, spelled := SpellScan(tables, records);
      out := [MARKER_PREFIX, MARKER_SOI];
      if !ok {
        return;
      }
      out := out + prologue;
      out := out + quant;
      out := out + sof;
      var dht := CollectTables(tables);
      out := out + dht;
      out := out + sos;
      out := out + spelled;
      out := out + [MARKER_PREFIX, MARKER_EOI];
    }

    /** The loop over the records; `ok` is false when one has no code. */
    method SpellScan(tables: Tables, records: seq<Record>) returns (ok: bool, spelled: seq<Byte>)
      requires ValidTables(tables) && InTables(records)
      ensures ok <==> !Uncoded(tables, records)
      ensures ok ==> Spellable(tables, records) && spelled == Spelled(Spell(tables, records))
    {
      hide Spelled, Spell, ToBits, BitsOf;
      var w := new BitWriter();
      NothingSpelled(tables);
      for i := 0 to |records|
        invariant w.Valid() && fresh(w)
        invariant Coded(tables, records[..i])
        invariant w.Written() == Spell(tables, records[..i])
      {
        var r := records[i];
        assert r in records;
        if tables[r.table].None? || tables[r.table].value.size[r.symbol as int] == 0 {
          return false, [];
        }
        var t := tables[r.table].value;
        SpellStep(tables, records, i);
        w.Write(t.code[r.symbol as int], t.size[r.symbol as int]);
        w.Write(r.extra, r.nExtra);
      }
      assert records[..|records|] == records;
      w.Flush();
      ok, spelled := true, w.out;
    }

    /** The loop that writes the table segments. */
    method CollectTables(tables: Tables) returns (dht: seq<Byte>)
      requires ValidTables(tables)
      ensures dht == DhtSegments(tables, 0)
    {
      hide DhtSegment;
      dht := [];
      for t := 0 to TABLE_COUNT
        invariant dht + DhtSegments(tables, t) == DhtSegments(tables, 0)
      {
        if tables[t].Some? {
          ghost var before := dht;
          dht := dht + DhtSegment(t, tables[t].value);
          assert before + (DhtSegment(t, tables[t].value) + DhtSegments(tables, t + 1)) == dht + DhtSegments(tables, t + 1);
        }
      }
      assert dht + [] == dht;
    }
  }

  ghost predicate Coded(tables: Tables, records: seq<Record>)
    requires ValidTables(tables)
  {
    Spellable(tables, records) && !Uncoded(tables, records)
  }

  /** One turn of the loop over the segments. */
  lemma ReadFromStep(j: Jpeg, here: seq<Byte>)
    requires ValidDecoders(j.dec) && |here| >= SEGMENT_HEAD_LEN
    ensures here[0] != MARKER_PREFIX || here[1] == MARKER_EOI ==> ReadFrom(j, here) == Refused
    ensures here[0] == MARKER_PREFIX && here[1] != MARKER_EOI ==>
      var size := Be16(here[2..]);
      if size < 2 || 2 + size > |here| then ReadFrom(j, here) == Refused
      else if here[1] == MARKER_SOS then
        var k := ReadSos(j, here[..2 + size][SEGMENT_HEAD_LEN..]);
        ReadFrom(j, here) ==
          if k.Done? then Done(k.value.(sos := here[..2 + size], scan := here[2 + size..])) else Refused
      else
        var k := ReadSegment(j, here[1], here[..2 + size]);
        ReadFrom(j, here) == if k.Done? then ReadFrom(k.value, here[2 + size..]) else Refused
  {
    hide ReadSos, ReadSegment;
  }

  lemma ReadFromEnds(j: Jpeg, here: seq<Byte>)
    requires ValidDecoders(j.dec)
    ensures |here| < SEGMENT_HEAD_LEN || here[0] != MARKER_PREFIX || here[1] == MARKER_EOI ==> ReadFrom(j, here) == Refused
  {
    hide ReadSos, ReadSegment;
  }

  lemma NothingSpelled(tables: Tables)
    requires ValidTables(tables)
    ensures Coded(tables, []) && Spell(tables, []) == []
  {
  }

  lemma SpellStep(tables: Tables, records: seq<Record>, i: nat)
    requires ValidTables(tables) && i < |records| && Coded(tables, records[..i])
    requires var r := records[i];
             r.table < TABLE_COUNT && tables[r.table].Some? && tables[r.table].value.size[r.symbol as int] > 0
    ensures Coded(tables, records[..i + 1])
    ensures var r := records[i]; var t := tables[r.table].value;
            Spell(tables, records[..i + 1]) == Spell(tables, records[..i])
              + ToBits(t.code[r.symbol as int], t.size[r.symbol as int]) + ToBits(r.extra, r.nExtra)
  {
    var r := records[i];
    assert records[..i + 1] == records[..i] + [r];
    assert [r][1..] == [];
    SpellConcat(tables, records[..i], [r]);
  }

  // ---- counting and building ----

  /** The frequency table of slot t counts the records it should, or is absent when there are none. */
  ghost predicate Counted(spec: HuffSpec?, records: seq<Record>, t: nat)
    reads if spec == null then {} else {spec}
  {
    if spec == null then !UsesTable(records, t)
    else spec.Unbuilt() && UsesTable(records, t) && spec.freq == FreqOf(records, t)
  }

  method CountSymbols(records: seq<Record>) returns (specs: array<HuffSpec?>)
    requires InTables(records)
    ensures fresh(specs) && specs.Length == TABLE_COUNT
    ensures forall t :: 0 <= t < TABLE_COUNT && specs[t] != null ==> fresh(specs[t])
    ensures forall t, u :: 0 <= t < u < TABLE_COUNT && specs[t] != null ==> specs[t] != specs[u]
    ensures forall t :: 0 <= t < TABLE_COUNT ==> Counted(specs[t], records, t)
  {
    hide FreqOf, UsesTable;
    specs := new HuffSpec?[TABLE_COUNT](_ => null);
    NothingUsed(records);
    for i := 0 to |records|
      invariant fresh(specs)
      invariant forall t :: 0 <= t < TABLE_COUNT && specs[t] != null ==> fresh(specs[t])
      invariant forall t, u :: 0 <= t < u < TABLE_COUNT && specs[t] != null ==> specs[t] != specs[u]
      invariant forall t :: 0 <= t < TABLE_COUNT ==> Counted(specs[t], records[..i], t)
    {
      var r := records[i];
      assert r in records;
      if specs[r.table] == null {
        NothingCounted(records[..i], r.table);
        specs[r.table] := new HuffSpec();
      }
      var spec := specs[r.table];
      spec.freq := spec.freq[r.symbol as int := spec.freq[r.symbol as int] + 1];
      forall t | 0 <= t < TABLE_COUNT
        ensures Counted(specs[t], records[..i + 1], t)
      {
        CountOneMore(records, i, t);
      }
    }
    assert records[..|records|] == records;
  }

  lemma NothingUsed(records: seq<Record>)
    ensures forall t: nat :: !UsesTable(records[..0], t)
  {
  }

  lemma CountOneMore(records: seq<Record>, i: nat, t: nat)
    requires i < |records|
    ensures UsesTable(records[..i + 1], t) <==> UsesTable(records[..i], t) || records[i].table == t
    ensures var freq, s := FreqOf(records[..i], t), records[i].symbol as int;
            FreqOf(records[..i + 1], t) == if records[i].table == t then freq[s := freq[s] + 1] else freq
  {
    assert records[..i + 1][..i] == records[..i];
    assert forall k :: 0 <= k < i ==> records[..i + 1][k] == records[..i][k];
    assert records[..i + 1][i] == records[i];
  }

  lemma {:induction false} NothingCounted(records: seq<Record>, t: nat)
    requires !UsesTable(records, t)
    ensures forall s :: 0 <= s <= SYMBOLS ==> FreqOf(records, t)[s] == 0
  {
    if records != [] {
      var init := records[..|records| - 1];
      assert records[|records| - 1].table != t;
      assert forall k :: 0 <= k < |init| ==> init[k] == records[k];
      NothingCounted(init, t);
    }
  }

  method BuildTables(specs: array<HuffSpec?>, ghost records: seq<Record>) returns (ok: bool, tables: Tables)
    requires specs.Length == TABLE_COUNT
    requires forall t, u :: 0 <= t < u < TABLE_COUNT && specs[t] != null ==> specs[t] != specs[u]
    requires forall t :: 0 <= t < TABLE_COUNT ==> Counted(specs[t], records, t)
    modifies set t | 0 <= t < TABLE_COUNT :: specs[t]
    ensures ok <==> BuildFrom(records, 0).Done?
    ensures ok ==> tables == BuildFrom(records, 0).value
  {
    hide BuildTable, FreqOf, UsesTable, BuildFrom;
    ok, tables := true, [];
    for t := 0 to TABLE_COUNT
      invariant forall u :: t <= u < TABLE_COUNT ==> Counted(specs[u], records, u)
      invariant |tables| == t
      invariant BuildFrom(records, 0).Done? <==> BuildFrom(records, t).Done?
      invariant BuildFrom(records, 0).Done? ==> BuildFrom(records, 0).value == tables + BuildFrom(records, t).value
    {
      BuildFromStep(records, t);
      var spec := specs[t];
      if spec == null {
        tables := tables + [None];
      } else {
        FreqHasSymbol(records, t);
        var built := spec.Build();
        if !built {
          return false, tables;
        }
        tables := tables + [Some(Table(spec.counts, spec.symbols, spec.code, spec.size))];
      }
    }
    BuildFromEnd(records);
    assert tables + [] == tables;
  }

  lemma BuildFromStep(records: seq<Record>, t: nat)
    requires t < TABLE_COUNT
    ensures !UsesTable(records, t) ==>
              (BuildFrom(records, t).Done? <==> BuildFrom(records, t + 1).Done?)
              && (BuildFrom(records, t).Done? ==> BuildFrom(records, t).value == [None] + BuildFrom(records, t + 1).value)
    ensures UsesTable(records, t) ==>
              var built := BuildTable(FreqOf(records, t));
              (BuildFrom(records, t).Done? <==> built.Done? && BuildFrom(records, t + 1).Done?)
              && (BuildFrom(records, t).Done? ==> BuildFrom(records, t).value == [Some(built.value)] + BuildFrom(records, t + 1).value)
  {
  }

  lemma BuildFromEnd(records: seq<Record>)
    ensures BuildFrom(records, TABLE_COUNT) == Done([])
  {
  }

  lemma FreqHasSymbol(records: seq<Record>, t: nat)
    requires UsesTable(records, t)
    ensures HasSymbol(FreqOf(records, t))
  {
    FreqCounts(records, t);
    var k :| 0 <= k < |records| && records[k].table == t;
    assert FreqOf(records, t)[records[k].symbol as int] > 0;
  }

  /** Re-code a file: read it, count its symbols, build tables for them and write it again. */
  method OptimizeJPEG(data: seq<Byte>) returns (r: Outcome<seq<Byte>>)
    ensures r == Optimized(data)
  {
    hide ReadJpeg, DecodePlan, BuildFrom, Assemble, FreqOf, BuildTable;
    var j := new JpegFile();
    var ok := j.Read(data);
    if !ok {
      ReadNeverPanics(data);
      return Refused;
    }
    var br := new BitReader(j.scan);
    var st, records := ReadScan(br, j.dec, j.comps, j.mcusY * j.mcusX);
    if st != Ok {
      return if st == Bad then Refused else Panicked;
    }
    DecodedInTables(j.dec, ScanPlan(j.comps, j.mcusY * j.mcusX), ScanBits(j.scan));
    var specs := CountSymbols(records);
    var tables;
    ok, tables := BuildTables(specs, records);
    if !ok {
      BuildNeverRefuses(records, 0);
      return Panicked;
    }
    BuiltTablesAnswer(records);
    var out;
    ok, out := j.Reassemble(tables, records);
    r := Done(out);
  }

  lemma {:induction false} ReadFromNeverPanics(j: Jpeg, data: seq<Byte>)
    requires ValidDecoders(j.dec)
    ensures !ReadFrom(j, data).Panicked?
    decreases |data|
  {
    hide ReadSos, ReadSegment;
    if |data| >= SEGMENT_HEAD_LEN {
      var size := Be16(data[2..]);
      if size >= 2 && 2 + size <= |data| && data[1] != MARKER_SOS && ReadSegment(j, data[1], data[..2 + size]).Done? {
        ReadFromNeverPanics(ReadSegment(j, data[1], data[..2 + size]).value, data[2 + size..]);
      }
    }
  }

  lemma ReadNeverPanics(data: seq<Byte>)
    ensures !ReadJpeg(data).Panicked?
  {
    if |data| >= 2 {
      ReadFromNeverPanics(NOTHING_READ, data[2..]);
    }
  }

  lemma {:induction false} BuildNeverRefuses(records: seq<Record>, t: nat)
    requires t <= TABLE_COUNT
    ensures !BuildFrom(records, t).Refused?
    decreases TABLE_COUNT - t
  {
    if t < TABLE_COUNT {
      BuildNeverRefuses(records, t + 1);
    }
  }
}
