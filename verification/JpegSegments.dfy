/** A JPEG file as its segments: taking it apart, and putting it together with new tables. */
module JpegSegments {
  import opened Sequences
  import opened Numbers
  import opened Outcomes
  import opened BitStream
  import opened LengthLimit
  import opened CanonicalCode
  import opened HuffmanTable
  import opened JpegScan

  const MARKER_SOI: Byte := 0xD8
  const MARKER_EOI: Byte := 0xD9
  const MARKER_SOF0: Byte := 0xC0
  const MARKER_SOF2: Byte := 0xC2
  const MARKER_DHT: Byte := 0xC4
  const MARKER_DQT: Byte := 0xDB
  const MARKER_DRI: Byte := 0xDD
  const MARKER_SOS: Byte := 0xDA

  const SEGMENT_HEAD_LEN := 4
  const SAMPLE_PRECISION: Byte := 8
  const SOF_HEADER_LEN := 6
  const SOF_COMPONENT_LEN := 3
  const MAX_SAMPLING := 4
  const BLOCK_SIDE := 8
  const DHT_HEADER_LEN := 17
  const SOS_TAIL_LEN := 3

  /** What reading a file keeps of it. */
  datatype Jpeg = Jpeg(prologue: seq<Byte>, quant: seq<Byte>, sof: seq<Byte>, sos: seq<Byte>, scan: seq<Byte>,
                       comps: seq<Component>, mcusX: nat, mcusY: nat, dec: Decoders)

  const NOTHING_READ: Jpeg := Jpeg([], [], [], [], [], [], 0, 0, [None, None, None, None, None, None, None, None])

  function Be16(b: seq<Byte>): nat
    requires |b| >= 2
  {
    b[0] as int * 256 + b[1] as int
  }

  // ---- the frame header ----

  /** One component as the frame header describes it. */
  function SofComponent(p: seq<Byte>, k: nat): Component
    requires |p| >= SOF_HEADER_LEN + SOF_COMPONENT_LEN * (k + 1)
  {
    var at := SOF_HEADER_LEN + SOF_COMPONENT_LEN * k;
    var h, v := p[at + 1] as int / 16, p[at + 1] as int % 16;
    Component(p[at], h, v, 0, 0, 0)
  }

  predicate SamplingOk(c: Component) {
    1 <= c.h <= MAX_SAMPLING && 1 <= c.v <= MAX_SAMPLING
  }

  predicate AllSamplingOk(comps: seq<Component>) {
    forall k :: 0 <= k < |comps| ==> SamplingOk(comps[k])
  }

  function SofComponents(p: seq<Byte>, n: nat): (comps: seq<Component>)
    requires |p| >= SOF_HEADER_LEN + SOF_COMPONENT_LEN * n
    ensures |comps| == n
  {
    seq(n, k requires 0 <= k < n => SofComponent(p, k))
  }

  /** How many blocks of each component an MCU holds. */
  function WithBlocks(comps: seq<Component>): (r: seq<Component>)
    ensures |r| == |comps|
  {
    seq(|comps|, k requires 0 <= k < |comps| => comps[k].(blocks := comps[k].h * comps[k].v))
  }

  function MaxH(comps: seq<Component>): (m: nat)
    ensures m >= 1
  {
    if comps == [] then 1
    else var m := MaxH(comps[..|comps| - 1]); if comps[|comps| - 1].h > m then comps[|comps| - 1].h else m
  }

  function MaxV(comps: seq<Component>): (m: nat)
    ensures m >= 1
  {
    if comps == [] then 1
    else var m := MaxV(comps[..|comps| - 1]); if comps[|comps| - 1].v > m then comps[|comps| - 1].v else m
  }

  function Mcus(pixels: nat, side: nat): nat
    requires side > 0
  {
    (pixels + side - 1) / side
  }

  function ReadSof(j: Jpeg, p: seq<Byte>): Outcome<Jpeg> {
    if |p| < SOF_HEADER_LEN || p[0] != SAMPLE_PRECISION then Refused
    else
      var n := p[5] as int;
      if n == 0 || |p| < SOF_HEADER_LEN + SOF_COMPONENT_LEN * n then Refused
      else
        var comps := SofComponents(p, n);
        if !AllSamplingOk(comps) then Refused
        else Done(j.(comps := WithBlocks(j.comps + comps),
                     mcusX := Mcus(Be16(p[3..]), BLOCK_SIDE * MaxH(comps)),
                     mcusY := Mcus(Be16(p[1..]), BLOCK_SIDE * MaxV(comps))))
  }

  // ---- the Huffman tables ----

  function ReadDht(dec: Decoders, p: seq<Byte>): (r: Outcome<Decoders>)
    requires ValidDecoders(dec)
    ensures r.Done? ==> ValidDecoders(r.value)
    decreases |p|
  {
    if |p| <= DHT_HEADER_LEN then Done(dec)
    else
      var class_, id := p[0] as int / 16, p[0] as int % 16;
      if class_ > 1 || id >= TABLES_PER_CLASS then Refused
      else
        var counts := p[1..DHT_HEADER_LEN];
        var total := Sum(CountsOf(counts));
        SumBounds(CountsOf(counts));
        if |p| < DHT_HEADER_LEN + total then Refused
        else
          var d := NewDecoder(CountsOf(counts), p[DHT_HEADER_LEN..DHT_HEADER_LEN + total]);
          ReadDht(dec[class_ * TABLES_PER_CLASS + id := Some(d)], p[DHT_HEADER_LEN + total..])
  }

  // ---- the scan header ----

  /** The last component with this id, if there is one. */
  function LastWithId(comps: seq<Component>, id: Byte): (idx: int)
    ensures -1 <= idx < |comps|
    ensures idx >= 0 ==> comps[idx].id == id
    ensures forall k :: idx < k < |comps| ==> comps[k].id != id
  {
    if comps == [] then -1
    else if comps[|comps| - 1].id == id then |comps| - 1
    else LastWithId(comps[..|comps| - 1], id)
  }

  /** The components with the tables the scan header selects, from entry k on. */
  function SelectTables(comps: seq<Component>, p: seq<Byte>, k: nat, n: nat): (r: Option<seq<Component>>)
    requires k <= n && |p| >= 1 + 2 * n
    ensures r.Some? ==> |r.value| == |comps|
    decreases n - k
  {
    if k == n then Some(comps)
    else
      var idx := LastWithId(comps, p[1 + 2 * k]);
      if idx < 0 then None
      else
        var tables := p[2 + 2 * k] as int;
        SelectTables(comps[idx := comps[idx].(dcTbl := tables / 16, acTbl := tables % 16)], p, k + 1, n)
  }

  function ReadSos(j: Jpeg, p: seq<Byte>): Outcome<Jpeg> {
    if |p| < 1 then Refused
    else
      var n := p[0] as int;
      if n != |j.comps| || |p| < 1 + 2 * n + SOS_TAIL_LEN then Refused
      else
        var tail := p[1 + 2 * n..];
        match SelectTables(j.comps, p, 0, n)
        case None => Refused
        case Some(comps) =>
          if tail[0] != 0 || tail[1] as int != BLOCK_COEFFS - 1 || tail[2] != 0 then Refused
          else Done(j.(comps := comps))
  }

  // ---- the file ----

  /** What one segment before the scan adds. */
  function ReadSegment(j: Jpeg, marker: Byte, segment: seq<Byte>): (r: Outcome<Jpeg>)
    requires ValidDecoders(j.dec) && |segment| >= SEGMENT_HEAD_LEN
    ensures r.Done? ==> ValidDecoders(r.value.dec)
  {
    var payload := segment[SEGMENT_HEAD_LEN..];
    if marker == MARKER_SOF0 then
      match ReadSof(j, payload)
      case Done(k) => Done(k.(sof := segment))
      case _ => Refused
    else if marker == MARKER_SOF2 then Refused
    else if marker == MARKER_DHT then
      match ReadDht(j.dec, payload)
      case Done(dec) => Done(j.(dec := dec))
      case _ => Refused
    else if marker == MARKER_DQT then Done(j.(quant := j.quant + segment))
    else if marker == MARKER_DRI then
      if |payload| >= 2 && Be16(payload) != 0 then Refused else Done(j)
    else Done(j.(prologue := j.prologue + segment))
  }

  /** The segments of `data` up to the start of the scan. */
  function ReadFrom(j: Jpeg, data: seq<Byte>): (r: Outcome<Jpeg>)
    requires ValidDecoders(j.dec)
    ensures r.Done? ==> ValidDecoders(r.value.dec)
    decreases |data|
  {
    if |data| < SEGMENT_HEAD_LEN || data[0] != MARKER_PREFIX || data[1] == MARKER_EOI then Refused
    else
      var size := Be16(data[2..]);
      if size < 2 || 2 + size > |data| then Refused
      else
        var segment := data[..2 + size];
        if data[1] == MARKER_SOS then
          match ReadSos(j, segment[SEGMENT_HEAD_LEN..])
          case Done(k) => Done(k.(sos := segment, scan := data[2 + size..]))
          case _ => Refused
        else
          match ReadSegment(j, data[1], segment)
          case Done(k) => ReadFrom(k, data[2 + size..])
          case _ => Refused
  }

  function ReadJpeg(data: seq<Byte>): (r: Outcome<Jpeg>)
    ensures r.Done? ==> ValidDecoders(r.value.dec)
  {
    if |data| < SEGMENT_HEAD_LEN || data[0] != MARKER_PREFIX || data[1] != MARKER_SOI then Refused
    else ReadFrom(NOTHING_READ, data[2..])
  }

  // ---- new tables ----

  /** How often each symbol occurs in the records of table t. */
  function FreqOf(records: seq<Record>, t: nat): (freq: seq<nat>)
    ensures |freq| == SYMBOLS + 1
  {
    if records == [] then seq(SYMBOLS + 1, _ => 0)
    else
      var freq := FreqOf(records[..|records| - 1], t);
      var r := records[|records| - 1];
      if r.table == t then freq[r.symbol as int := freq[r.symbol as int] + 1] else freq
  }

  predicate UsesTable(records: seq<Record>, t: nat) {
    exists k :: 0 <= k < |records| && records[k].table == t
  }

  function TableFor(records: seq<Record>, t: nat): Outcome<Option<Table>> {
    if !UsesTable(records, t) then Done(None)
    else
      match BuildTable(FreqOf(records, t))
      case Done(table) => Done(Some(table))
      case Refused => Refused
      case Panicked => Panicked
  }

  /** The tables for these records, from table t on. */
  function BuildFrom(records: seq<Record>, t: nat): (r: Outcome<Tables>)
    requires t <= TABLE_COUNT
    ensures r.Done? ==> |r.value| == TABLE_COUNT - t
    decreases TABLE_COUNT - t, records
  {
    if t == TABLE_COUNT then Done([])
    else
      match TableFor(records, t)
      case Refused => Refused
      case Panicked => Panicked
      case Done(table) =>
        match BuildFrom(records, t + 1)
        case Refused => Refused
        case Panicked => Panicked
        case Done(more) => Done([table] + more)
  }

  // ---- putting the file together ----

  function DhtSegment(index: nat, t: Table): seq<Byte>
    requires index < TABLE_COUNT && |t.counts| == MAX_CODE_LEN + 1
  {
    var length := 2 + DHT_HEADER_LEN + |t.symbols|;
    [MARKER_PREFIX, MARKER_DHT, (length / 256 % 256) as Byte, (length % 256) as Byte]
    + [(index / TABLES_PER_CLASS * 16 + index % TABLES_PER_CLASS) as Byte]
    + seq(MAX_CODE_LEN, i requires 0 <= i < MAX_CODE_LEN => (t.counts[i + 1] % 256) as Byte)
    + t.symbols
  }

  ghost predicate ValidTables(tables: Tables) {
    && |tables| == TABLE_COUNT
    && forall t :: 0 <= t < TABLE_COUNT && tables[t].Some? ==>
         && |tables[t].value.code| == |tables[t].value.size| == SYMBOLS
         && |tables[t].value.counts| == MAX_CODE_LEN + 1
  }

  function DhtSegments(tables: Tables, t: nat): seq<Byte>
    requires ValidTables(tables) && t <= TABLE_COUNT
    decreases TABLE_COUNT - t, tables
  {
    if t == TABLE_COUNT then []
    else if tables[t].None? then DhtSegments(tables, t + 1)
    else DhtSegment(t, tables[t].value) + DhtSegments(tables, t + 1)
  }

  /** Some record's symbol has no code, or no table at all. */
  ghost predicate Uncoded(tables: Tables, records: seq<Record>)
    requires ValidTables(tables)
  {
    exists r :: r in records &&
      (r.table >= TABLE_COUNT || tables[r.table].None? || tables[r.table].value.size[r.symbol as int] == 0)
  }

  /** The whole file again: the segments kept, the new tables, and the scan spelled with them. */
  function Assemble(j: Jpeg, tables: Tables, records: seq<Record>): seq<Byte>
    requires ValidTables(tables) && Spellable(tables, records)
  {
    [MARKER_PREFIX, MARKER_SOI] + j.prologue + j.quant + j.sof + DhtSegments(tables, 0) + j.sos
    + Spelled(Spell(tables, records)) + [MARKER_PREFIX, MARKER_EOI]
  }

  lemma {:induction false} BuildFromIsValid(records: seq<Record>, t: nat)
    requires t <= TABLE_COUNT && BuildFrom(records, t).Done?
    ensures forall k :: t <= k < TABLE_COUNT ==>
              TableFor(records, k).Done? && BuildFrom(records, t).value[k - t] == TableFor(records, k).value
    decreases TABLE_COUNT - t
  {
    hide BuildTable, FreqOf, UsesTable, TableFor;
    if t < TABLE_COUNT {
      BuildFromIsValid(records, t + 1);
    }
  }

  lemma BuiltTablesAreValid(records: seq<Record>)
    requires BuildFrom(records, 0).Done?
    ensures ValidTables(BuildFrom(records, 0).value)
  {
    hide BuildTable, FreqOf, UsesTable, BuildFrom;
    BuildFromIsValid(records, 0);
    var tables := BuildFrom(records, 0).value;
    forall t | 0 <= t < TABLE_COUNT && tables[t].Some?
      ensures |tables[t].value.code| == |tables[t].value.size| == SYMBOLS
      ensures |tables[t].value.counts| == MAX_CODE_LEN + 1
    {
      assert BuildFrom(records, 0).value[t - 0] == TableFor(records, t).value;
      BuiltShape(FreqOf(records, t));
    }
  }

  lemma BuiltShape(freq: seq<nat>)
    requires |freq| == SYMBOLS + 1 && BuildTable(freq).Done?
    ensures var table := BuildTable(freq).value;
            |table.code| == |table.size| == SYMBOLS && |table.counts| == MAX_CODE_LEN + 1
  {
  }

  /** Re-coding a file, as one function. */
  ghost function Optimized(data: seq<Byte>): Outcome<seq<Byte>> {
    match ReadJpeg(data)
    case Refused => Refused
    case Panicked => Panicked
    case Done(j) =>
      match DecodePlan(j.dec, ScanPlan(j.comps, j.mcusY * j.mcusX), ScanBits(j.scan))
      case Refused => Refused
      case Panicked => Panicked
      case Done(read) =>
        match BuildFrom(read.records, 0)
        case Refused => Refused
        case Panicked => Panicked
        case Done(tables) =>
          BuiltTablesAreValid(read.records);
          if Uncoded(tables, read.records) then Refused
          else Done(Assemble(j, tables, read.records))
  }
}
