/** The entropy-coded scan as a list of records, read with one set of tables and spelled with another. */
module JpegScan {
  import opened Sequences
  import opened Numbers
  import opened Outcomes
  import opened BitStream
  import opened LengthLimit
  import opened CanonicalCode
  import opened HuffmanTable

  const TABLES_PER_CLASS := 4
  const TABLE_COUNT := 8
  const BLOCK_COEFFS := 64
  const ZERO_RUN := 15

  datatype Component = Component(id: Byte, h: nat, v: nat, dcTbl: nat, acTbl: nat, blocks: nat)

  /** One Huffman symbol and the raw bits that followed it. */
  datatype Record = Record(table: nat, symbol: Byte, extra: nat, nExtra: nat)

  type Decoders = seq<Option<HuffDecoder>>

  ghost predicate ValidDecoders(dec: Decoders) {
    && |dec| == TABLE_COUNT
    && forall t :: 0 <= t < TABLE_COUNT && dec[t].Some? ==>
         ValidDecoder(dec[t].value) && |dec[t].value.counts| == MAX_CODE_LEN + 1
  }

  // ---- reading records, as functions on the bits ----

  datatype Read = Read(records: seq<Record>, rest: seq<Bit>)

  /** The low half of an AC symbol counts the bits that follow, the high half the zeros before. */
  function AcSize(symbol: Byte): nat {
    symbol as int % 16
  }

  function AcRun(symbol: Byte): nat {
    symbol as int / 16
  }

  /** How many raw bits follow a symbol; a DC symbol is that number itself. */
  function ExtraBits(dc: bool, symbol: Byte): nat {
    if dc then symbol as int else AcSize(symbol)
  }

  function DecodeRecord(d: HuffDecoder, table: nat, dc: bool, s: seq<Bit>): (r: Option<(Record, seq<Bit>)>)
    requires ValidDecoder(d)
    ensures r.Some? ==> |r.value.1| < |s| && r.value.0.table == table
  {
    match DecodeSymbol(d, s)
    case None => None
    case Some((symbol, rest)) =>
      var n := ExtraBits(dc, symbol);
      if n <= MAX_CODE_LEN && n <= |rest| then Some((Record(table, symbol, FromBits(rest[..n]), n), rest[n..])) else None
  }

  /** The coefficient index after this symbol; an end of block jumps past the last one. */
  function NextCoeff(symbol: Byte, k: nat): nat {
    if AcSize(symbol) == 0 && AcRun(symbol) != ZERO_RUN then BLOCK_COEFFS else k + AcRun(symbol) + 1
  }

  function DecodeAC(d: HuffDecoder, table: nat, k: nat, s: seq<Bit>): Option<Read>
    requires ValidDecoder(d)
    decreases |s|
  {
    if k >= BLOCK_COEFFS then Some(Read([], s))
    else
      match DecodeRecord(d, table, false, s)
      case None => None
      case Some((r, rest)) =>
        match DecodeAC(d, table, NextCoeff(r.symbol, k), rest)
        case None => None
        case Some(more) => Some(Read([r] + more.records, more.rest))
  }

  function DecodeBlock(dec: Decoders, c: Component, s: seq<Bit>): Outcome<Read>
    requires ValidDecoders(dec)
  {
    if c.dcTbl >= TABLE_COUNT || TABLES_PER_CLASS + c.acTbl >= TABLE_COUNT then Panicked
    else if dec[c.dcTbl].None? || dec[TABLES_PER_CLASS + c.acTbl].None? then Refused
    else
      match DecodeRecord(dec[c.dcTbl].value, c.dcTbl, true, s)
      case None => Refused
      case Some((r, rest)) =>
        match DecodeAC(dec[TABLES_PER_CLASS + c.acTbl].value, TABLES_PER_CLASS + c.acTbl, 1, rest)
        case None => Refused
        case Some(more) => Done(Read([r] + more.records, more.rest))
  }

  function Then(first: seq<Record>, more: Outcome<Read>): Outcome<Read> {
    match more
    case Refused => Refused
    case Panicked => Panicked
    case Done(m) => Done(Read(first + m.records, m.rest))
  }

  /** The blocks of `plan`, one after the other. */
  function DecodePlan(dec: Decoders, plan: seq<Component>, s: seq<Bit>): Outcome<Read>
    requires ValidDecoders(dec)
  {
    if plan == [] then Done(Read([], s))
    else
      match DecodeBlock(dec, plan[0], s)
      case Refused => Refused
      case Panicked => Panicked
      case Done(first) =>
        Then(first.records, DecodePlan(dec, plan[1..], first.rest))
  }

  // ---- what a block is, told from its records ----

  /** No bits follow, and it is not the run of sixteen zeros. */
  predicate EndsBlock(symbol: Byte) {
    symbol as int % 16 == 0 && symbol as int / 16 != 15
  }

  /** The coefficients these symbols stand for: the zeros before each and itself. */
  function Passed(records: seq<Record>): nat {
    if records == [] then 0 else records[0].symbol as int / 16 + 1 + Passed(records[1..])
  }

  /** The raw bits of a record are a number of as many bits as its symbol says. */
  predicate RawFits(r: Record, bits: nat) {
    r.nExtra == bits <= 16 && r.extra < Pow2(bits)
  }

  /** Nothing but the last record ends the block or passes its last coefficient; the last one does. */
  predicate Fills(records: seq<Record>, coeffs: nat) {
    var n := |records| - 1;
    && n >= 0
    && (forall i :: 0 <= i < n ==> !EndsBlock(records[i].symbol))
    && Passed(records[..n]) < coeffs
    && (EndsBlock(records[n].symbol) || Passed(records) >= coeffs)
  }

  predicate RecordsOf(records: seq<Record>, table: nat) {
    forall i :: 0 <= i < |records| ==> records[i].table == table && RawFits(records[i], records[i].symbol as int % 16)
  }

  /** The 63 coefficients of a block behind its first. */
  predicate IsAC(records: seq<Record>, table: nat) {
    Fills(records, 63) && RecordsOf(records, table)
  }

  predicate IsBlock(c: Component, records: seq<Record>) {
    && records != []
    && records[0].table == c.dcTbl && RawFits(records[0], records[0].symbol as int)
    && IsAC(records[1..], 4 + c.acTbl)
  }

  ghost predicate AreBlocks(plan: seq<Component>, parts: seq<seq<Record>>) {
    |parts| == |plan| && forall i :: 0 <= i < |plan| ==> IsBlock(plan[i], parts[i])
  }

  /** The records are the blocks of the plan, one after the other. */
  ghost predicate InBlocks(plan: seq<Component>, records: seq<Record>) {
    exists parts :: AreBlocks(plan, parts) && Flattened(parts) == records
  }

  /** One record in front. */
  lemma FillsStep(r: Record, more: seq<Record>, coeffs: nat)
    requires coeffs > 0
    ensures var step := r.symbol as int / 16 + 1;
            Fills([r] + more, coeffs) <==>
              if EndsBlock(r.symbol) || step >= coeffs then more == []
              else Fills(more, coeffs - step)
  {
    hide EndsBlock;
    var all, n := [r] + more, |more| - 1;
    assert all[1..] == more;
    assert [r][1..] == [];
    if more == [] {
      assert all == [r] && all[..0] == [];
    } else {
      assert all[..n + 1] == [r] + more[..n] && ([r] + more[..n])[1..] == more[..n];
      assert !EndsBlock(r.symbol) && (forall i :: 0 <= i < n ==> !EndsBlock(more[i].symbol)) <==>
             (forall i :: 0 <= i < n + 1 ==> !EndsBlock(all[i].symbol)) by {
        assert forall i :: 0 <= i < n ==> all[i + 1] == more[i];
        assert all[0] == r;
        assert forall i :: 0 < i < n + 1 ==> all[i] == more[i - 1];
      }
      assert all[n + 1] == more[n];
    }
  }

  lemma FillsSomething(records: seq<Record>, coeffs: nat)
    requires Fills(records, coeffs)
    ensures records != []
  {
  }

  lemma RecordFits(d: HuffDecoder, table: nat, dc: bool, s: seq<Bit>)
    requires ValidDecoder(d) && DecodeRecord(d, table, dc, s).Some?
    ensures var r := DecodeRecord(d, table, dc, s).value.0;
            r.table == table && RawFits(r, if dc then r.symbol as int else r.symbol as int % 16)
  {
    hide DecodeSymbol;
    var r := DecodeRecord(d, table, dc, s).value.0;
    FromBitsBound(DecodeSymbol(d, s).value.1[..r.nExtra]);
  }

  lemma {:induction false} ACIsFilled(d: HuffDecoder, table: nat, k: nat, s: seq<Bit>)
    requires ValidDecoder(d) && DecodeAC(d, table, k, s).Some? && k < BLOCK_COEFFS
    ensures var records := DecodeAC(d, table, k, s).value.records;
            Fills(records, BLOCK_COEFFS - k) && RecordsOf(records, table)
    decreases |s|
  {
    hide DecodeRecord, Fills;
    var (r, rest) := DecodeRecord(d, table, false, s).value;
    var next := NextCoeff(r.symbol, k);
    var more := DecodeAC(d, table, next, rest).value.records;
    RecordFits(d, table, false, s);
    FillsStep(r, more, BLOCK_COEFFS - k);
    if next < BLOCK_COEFFS {
      ACIsFilled(d, table, next, rest);
    }
  }

  lemma BlockIsRead(dec: Decoders, c: Component, s: seq<Bit>)
    requires ValidDecoders(dec) && DecodeBlock(dec, c, s).Done?
    ensures IsBlock(c, DecodeBlock(dec, c, s).value.records)
  {
    hide DecodeRecord, DecodeAC, Fills;
    var records := DecodeBlock(dec, c, s).value.records;
    var (r, rest) := DecodeRecord(dec[c.dcTbl].value, c.dcTbl, true, s).value;
    RecordFits(dec[c.dcTbl].value, c.dcTbl, true, s);
    ACIsFilled(dec[4 + c.acTbl].value, 4 + c.acTbl, 1, rest);
    assert records[1..] == DecodeAC(dec[4 + c.acTbl].value, 4 + c.acTbl, 1, rest).value.records;
  }

  lemma BlocksTogether(c: Component, first: seq<Record>, plan: seq<Component>, parts: seq<seq<Record>>)
    requires IsBlock(c, first) && AreBlocks(plan, parts)
    ensures AreBlocks([c] + plan, [first] + parts) && Flattened([first] + parts) == first + Flattened(parts)
  {
    hide IsBlock;
    FlattenedBoth([first], parts);
    assert [first][..0] == [] && Flattened([first]) == [] + first == first;
    forall i | 0 <= i < |plan| + 1
      ensures IsBlock(([c] + plan)[i], ([first] + parts)[i])
    {
      if i > 0 {
        assert IsBlock(plan[i - 1], parts[i - 1]);
      }
    }
  }

  /** Whatever is decoded is blocks. */
  lemma {:induction false} DecodedAreBlocks(dec: Decoders, plan: seq<Component>, s: seq<Bit>) returns (parts: seq<seq<Record>>)
    requires ValidDecoders(dec) && DecodePlan(dec, plan, s).Done?
    ensures AreBlocks(plan, parts) && Flattened(parts) == DecodePlan(dec, plan, s).value.records
  {
    hide DecodeBlock, IsBlock;
    if plan == [] {
      parts := [];
    } else {
      var first := DecodeBlock(dec, plan[0], s).value;
      BlockIsRead(dec, plan[0], s);
      var more := DecodedAreBlocks(dec, plan[1..], first.rest);
      BlocksTogether(plan[0], first.records, plan[1..], more);
      assert [plan[0]] + plan[1..] == plan;
      parts := [first.records] + more;
    }
  }

  function Repeat(plan: seq<Component>, n: nat): seq<Component> {
    if n == 0 then [] else plan + Repeat(plan, n - 1)
  }

  /** The blocks of one MCU: every component's, in order. */
  function McuPlan(comps: seq<Component>): seq<Component> {
    if comps == [] then [] else Repeat([comps[0]], comps[0].blocks) + McuPlan(comps[1..])
  }

  function ScanPlan(comps: seq<Component>, mcus: nat): seq<Component> {
    Repeat(McuPlan(comps), mcus)
  }

  /** What reading `plan` makes of the records already read. */
  function Continue(dec: Decoders, out: seq<Record>, plan: seq<Component>, s: seq<Bit>): Outcome<Read>
    requires ValidDecoders(dec)
  {
    Then(out, DecodePlan(dec, plan, s))
  }

  lemma ContinueStep(dec: Decoders, out: seq<Record>, plan: seq<Component>, s: seq<Bit>)
    requires ValidDecoders(dec) && plan != []
    ensures match DecodeBlock(dec, plan[0], s)
            case Refused => Continue(dec, out, plan, s) == Refused
            case Panicked => Continue(dec, out, plan, s) == Panicked
            case Done(first) => Continue(dec, out, plan, s) == Continue(dec, out + first.records, plan[1..], first.rest)
  {
    hide DecodeBlock;
    match DecodeBlock(dec, plan[0], s) {
      case Done(first) =>
        ThenTwice(out, first.records, DecodePlan(dec, plan[1..], first.rest));
      case _ =>
    }
  }

  lemma ThenTwice(a: seq<Record>, b: seq<Record>, r: Outcome<Read>)
    ensures Then(a, Then(b, r)) == Then(a + b, r)
  {
    if r.Done? {
      assert a + (b + r.value.records) == (a + b) + r.value.records;
    }
  }

  // ---- reading records, as the program does ----

  method ReadRecord(br: BitReader, d: HuffDecoder, table: nat, dc: bool) returns (ok: bool, r: Record)
    requires br.Valid() && ValidDecoder(d) && |d.counts| == MAX_CODE_LEN + 1
    modifies br
    ensures br.Valid()
    ensures match DecodeRecord(d, table, dc, old(br.Remaining()))
            case Some(x) => ok && r == x.0 && br.Remaining() == x.1
            case None => !ok
  {
    r := Record(table, 0, 0, 0);
    var symbol;
    ok, symbol := Decode(d, br);
    if !ok {
      return;
    }
    var n := ExtraBits(dc, symbol);
    if n > MAX_CODE_LEN {
      return false, r;
    }
    var extra;
    ok, extra := br.ReadBits(n);
    r := Record(table, symbol, extra, n);
  }

  method ReadAC(br: BitReader, d: HuffDecoder, table: nat, out: seq<Record>) returns (ok: bool, records: seq<Record>)
    requires br.Valid() && ValidDecoder(d) && |d.counts| == MAX_CODE_LEN + 1
    modifies br
    ensures br.Valid()
    ensures match DecodeAC(d, table, 1, old(br.Remaining()))
            case Some(x) => ok && records == out + x.records && br.Remaining() == x.rest
            case None => !ok
    ensures ok ==> out <= records && IsAC(records[|out|..], table)
  {
    hide DecodeAC, DecodeRecord, ToBits, ScanBits, NewDecoder, IsAC;
    records := out;
    var k: nat := 1;
    ghost var s := br.Remaining();
    ghost var whole := ContinueAC(out, d, table, 1, br.Remaining());
    while k < BLOCK_COEFFS
      invariant br.Valid() && whole == ContinueAC(records, d, table, k, br.Remaining())
      decreases |br.Remaining()|
    {
      ContinueACStep(records, d, table, k, br.Remaining());
      var r;
      ok, r := ReadRecord(br, d, table, false);
      if !ok {
        return;
      }
      records := records + [r];
      k := NextCoeff(r.symbol, k);
    }
    ok := true;
    EndOfAC(records, d, table, k, br.Remaining());
    ACIsRead(d, table, s);
    assert records[|out|..] == DecodeAC(d, table, 1, s).value.records;
  }

  lemma ACIsRead(d: HuffDecoder, table: nat, s: seq<Bit>)
    requires ValidDecoder(d)
    ensures DecodeAC(d, table, 1, s).Some? ==> IsAC(DecodeAC(d, table, 1, s).value.records, table)
  {
    hide DecodeAC;
    if DecodeAC(d, table, 1, s).Some? {
      ACIsFilled(d, table, 1, s);
    }
  }

  function Append(out: seq<Record>, more: Option<Read>): Option<Read> {
    match more
    case None => None
    case Some(x) => Some(Read(out + x.records, x.rest))
  }

  /** What the rest of a block makes of the records already read. */
  function ContinueAC(out: seq<Record>, d: HuffDecoder, table: nat, k: nat, s: seq<Bit>): Option<Read>
    requires ValidDecoder(d)
  {
    Append(out, DecodeAC(d, table, k, s))
  }

  lemma ContinueACStep(out: seq<Record>, d: HuffDecoder, table: nat, k: nat, s: seq<Bit>)
    requires ValidDecoder(d) && k < BLOCK_COEFFS
    ensures match DecodeRecord(d, table, false, s)
            case None => ContinueAC(out, d, table, k, s) == None
            case Some((r, rest)) =>
              ContinueAC(out, d, table, k, s) == ContinueAC(out + [r], d, table, NextCoeff(r.symbol, k), rest)
  {
    match DecodeRecord(d, table, false, s) {
      case Some((r, rest)) =>
        match DecodeAC(d, table, NextCoeff(r.symbol, k), rest) {
          case Some(x) => assert out + ([r] + x.records) == out + [r] + x.records;
          case None =>
        }
      case None =>
    }
  }

  lemma EndOfAC(out: seq<Record>, d: HuffDecoder, table: nat, k: nat, s: seq<Bit>)
    requires ValidDecoder(d) && k >= BLOCK_COEFFS
    ensures ContinueAC(out, d, table, k, s) == Some(Read(out, s))
  {
    assert out + [] == out;
  }

  datatype Status = Ok | Bad | Crash

  method ReadBlock(br: BitReader, dec: Decoders, c: Component, out: seq<Record>) returns (st: Status, records: seq<Record>)
    requires br.Valid() && ValidDecoders(dec)
    modifies br
    ensures br.Valid()
    ensures match DecodeBlock(dec, c, old(br.Remaining()))
            case Done(x) => st == Ok && records == out + x.records && br.Remaining() == x.rest
            case Refused => st == Bad
            case Panicked => st == Crash
  {
    hide DecodeAC, DecodeRecord, ToBits, ScanBits, NewDecoder;
    records := out;
    if c.dcTbl >= TABLE_COUNT || TABLES_PER_CLASS + c.acTbl >= TABLE_COUNT {
      return Crash, out;
    }
    var dc, ac := dec[c.dcTbl], dec[TABLES_PER_CLASS + c.acTbl];
    if dc.None? || ac.None? {
      return Bad, out;
    }
    var ok, r := ReadRecord(br, dc.value, c.dcTbl, true);
    if !ok {
      return Bad, out;
    }
    ghost var s := br.Remaining();
    ok, records := ReadAC(br, ac.value, TABLES_PER_CLASS + c.acTbl, out + [r]);
    match DecodeAC(ac.value, TABLES_PER_CLASS + c.acTbl, 1, s) {
      case Some(x) => assert out + [r] + x.records == out + ([r] + x.records);
      case None =>
    }
    st := if ok then Ok else Bad;
  }

  /** A step of the scan got somewhere: continuing from `now` is what continuing from `before` was, or the
      whole scan fails. */
  ghost predicate Steps(before: Outcome<Read>, now: Outcome<Read>, st: Status) {
    match st
    case Ok => before == now
    case Bad => before == Refused
    case Crash => before == Panicked
  }

  /** All the blocks one component has in an MCU; `later` is the plan after them. */
  method ReadComponent(br: BitReader, dec: Decoders, c: Component, out: seq<Record>, ghost later: seq<Component>)
      returns (st: Status, records: seq<Record>)
    requires br.Valid() && ValidDecoders(dec)
    modifies br
    ensures br.Valid()
    ensures Steps(Continue(dec, out, Repeat([c], c.blocks) + later, old(br.Remaining())),
                  Continue(dec, records, later, br.Remaining()), st)
  {
    hide DecodePlan, DecodeBlock, McuPlan;
    st, records := Ok, out;
    for b := 0 to c.blocks
      invariant br.Valid()
      invariant Continue(dec, out, Repeat([c], c.blocks) + later, old(br.Remaining()))
             == Continue(dec, records, Repeat([c], c.blocks - b) + later, br.Remaining())
    {
      ghost var plan := Repeat([c], c.blocks - b) + later;
      assert plan == [c] + (Repeat([c], c.blocks - b - 1) + later);
      ContinueStep(dec, records, plan, br.Remaining());
      st, records := ReadBlock(br, dec, c, records);
      if st != Ok {
        return;
      }
    }
    st := Ok;
    assert Repeat([c], 0) + later == later;
  }

  method ReadMcu(br: BitReader, dec: Decoders, comps: seq<Component>, out: seq<Record>, ghost later: seq<Component>)
      returns (st: Status, records: seq<Record>)
    requires br.Valid() && ValidDecoders(dec)
    modifies br
    ensures br.Valid()
    ensures Steps(Continue(dec, out, McuPlan(comps) + later, old(br.Remaining())),
                  Continue(dec, records, later, br.Remaining()), st)
  {
    hide DecodePlan, DecodeBlock, Repeat;
    st, records := Ok, out;
    assert comps[0..] == comps;
    for ci := 0 to |comps|
      invariant br.Valid()
      invariant Continue(dec, out, McuPlan(comps) + later, old(br.Remaining()))
             == Continue(dec, records, McuPlan(comps[ci..]) + later, br.Remaining())
    {
      var c := comps[ci];
      ghost var next := McuPlan(comps[ci + 1..]) + later;
      assert comps[ci..][1..] == comps[ci + 1..];
      assert McuPlan(comps[ci..]) + later == Repeat([c], c.blocks) + next;
      st, records := ReadComponent(br, dec, c, records, next);
      if st != Ok {
        return;
      }
    }
    st := Ok;
    assert comps[|comps|..] == [];
    assert McuPlan([]) + later == later;
  }

  /** The whole scan, MCU by MCU. */
  method ReadScan(br: BitReader, dec: Decoders, comps: seq<Component>, mcus: nat) returns (st: Status, records: seq<Record>)
    requires br.Valid() && ValidDecoders(dec)
    modifies br
    ensures match DecodePlan(dec, ScanPlan(comps, mcus), old(br.Remaining()))
            case Done(x) => st == Ok && records == x.records
            case Refused => st == Bad
            case Panicked => st == Crash
  {
    hide DecodeBlock, McuPlan;
    st, records := Ok, [];
    ghost var whole := DecodePlan(dec, ScanPlan(comps, mcus), br.Remaining());
    ThenNothing(whole);
    for m := 0 to mcus
      invariant br.Valid()
      invariant whole == Continue(dec, records, ScanPlan(comps, mcus - m), br.Remaining())
    {
      st, records := ReadMcu(br, dec, comps, records, ScanPlan(comps, mcus - m - 1));
      if st != Ok {
        return;
      }
    }
    st := Ok;
    assert records + [] == records;
  }

  lemma ThenNothing(more: Outcome<Read>)
    ensures Then([], more) == more
  {
    if more.Done? {
      assert [] + more.value.records == more.value.records;
    }
  }

  // ---- spelling records ----

  type Tables = seq<Option<Table>>

  function SpellRecord(t: Table, r: Record): seq<Bit>
    requires |t.code| == |t.size| == SYMBOLS
  {
    ToBits(t.code[r.symbol as int], t.size[r.symbol as int]) + ToBits(r.extra, r.nExtra)
  }

  /** Every record has a table to be spelled with. */
  ghost predicate Spellable(tables: Tables, records: seq<Record>) {
    && |tables| == TABLE_COUNT
    && forall r :: r in records ==>
         && r.table < TABLE_COUNT && tables[r.table].Some?
         && |tables[r.table].value.code| == |tables[r.table].value.size| == SYMBOLS
  }

  function Spell(tables: Tables, records: seq<Record>): seq<Bit>
    requires Spellable(tables, records)
  {
    if records == [] then []
    else SpellRecord(tables[records[0].table].value, records[0]) + Spell(tables, records[1..])
  }

  lemma {:induction false} SpellConcat(tables: Tables, a: seq<Record>, b: seq<Record>)
    requires Spellable(tables, a + b)
    ensures Spellable(tables, a) && Spellable(tables, b)
    ensures Spell(tables, a + b) == Spell(tables, a) + Spell(tables, b)
  {
    assert forall r :: r in a || r in b ==> r in a + b;
    if a == [] {
      assert a + b == b;
    } else {
      assert (a + b)[1..] == a[1..] + b;
      SpellConcat(tables, a[1..], b);
    }
  }

  // ---- the same records come back ----

  /** d reads the code that t gives symbol v back as v, and takes exactly its bits. */
  ghost predicate ReadsBack(d: HuffDecoder, t: Table, v: Byte)
    requires ValidDecoder(d) && |t.code| == |t.size| == SYMBOLS
  {
    forall rest :: DecodeSymbol(d, ToBits(t.code[v as int], t.size[v as int]) + rest) == Some((v, rest))
  }

  /** The decoders read back every symbol that some record spells with the tables. */
  ghost predicate Answers(dec: Decoders, tables: Tables, records: seq<Record>) {
    && ValidDecoders(dec) && Spellable(tables, records)
    && forall r :: r in records ==>
         dec[r.table].Some? && ReadsBack(dec[r.table].value, tables[r.table].value, r.symbol)
  }

  lemma SpelledRecord(d: HuffDecoder, t: Table, r: Record, dc: bool, tail: seq<Bit>)
    requires ValidDecoder(d) && |t.code| == |t.size| == SYMBOLS && ReadsBack(d, t, r.symbol)
    requires RawFits(r, if dc then r.symbol as int else r.symbol as int % 16)
    ensures DecodeRecord(d, r.table, dc, SpellRecord(t, r) + tail) == Some((r, tail))
  {
    hide DecodeSymbol, FromBits, ToBits;
    var raw := ToBits(r.extra, r.nExtra);
    assert SpellRecord(t, r) + tail == ToBits(t.code[r.symbol as int], t.size[r.symbol as int]) + (raw + tail);
    assert DecodeSymbol(d, SpellRecord(t, r) + tail) == Some((r.symbol, raw + tail));
    FromBitsToBits(r.extra, r.nExtra);
    assert (raw + tail)[..r.nExtra] == raw && (raw + tail)[r.nExtra..] == tail;
  }

  lemma SpellFirst(tables: Tables, records: seq<Record>, tail: seq<Bit>)
    requires Spellable(tables, records) && records != []
    ensures Spellable(tables, records[1..])
    ensures Spell(tables, records) + tail ==
            SpellRecord(tables[records[0].table].value, records[0]) + (Spell(tables, records[1..]) + tail)
  {
    hide SpellRecord;
    assert forall r :: r in records[1..] ==> r in records;
  }

  lemma AnswersRest(dec: Decoders, tables: Tables, records: seq<Record>)
    requires Answers(dec, tables, records) && records != []
    ensures Answers(dec, tables, records[1..]) && records[0] in records
  {
    hide ReadsBack, ValidDecoders;
    assert forall r :: r in records[1..] ==> r in records;
  }

  /** Records that fill the coefficients from k on, spelled, are decoded to themselves. */
  lemma {:induction false} SpelledAC(dec: Decoders, tables: Tables, table: nat, k: nat, records: seq<Record>, tail: seq<Bit>)
    requires Answers(dec, tables, records) && table < TABLE_COUNT && dec[table].Some?
    requires k < BLOCK_COEFFS && Fills(records, BLOCK_COEFFS - k) && RecordsOf(records, table)
    ensures DecodeAC(dec[table].value, table, k, Spell(tables, records) + tail) == Some(Read(records, tail))
    decreases |records|
  {
    hide DecodeSymbol, DecodeAC, DecodeRecord, SpellRecord, ReadsBack, Fills;
    FillsSomething(records, BLOCK_COEFFS - k);
    var r, more := records[0], records[1..];
    AnswersRest(dec, tables, records);
    SpellFirst(tables, records, tail);
    SpelledRecord(dec[table].value, tables[table].value, r, false, Spell(tables, more) + tail);
    assert records == [r] + more;
    FillsStep(r, more, BLOCK_COEFFS - k);
    var next := NextCoeff(r.symbol, k);
    ACStep(dec[table].value, table, k, Spell(tables, records) + tail);
    ACStep(dec[table].value, table, next, Spell(tables, more) + tail);
    if next < BLOCK_COEFFS {
      SpelledAC(dec, tables, table, next, more, tail);
    } else {
      assert Spell(tables, []) + tail == tail;
    }
  }

  lemma ACStep(d: HuffDecoder, table: nat, k: nat, s: seq<Bit>)
    requires ValidDecoder(d)
    ensures k >= BLOCK_COEFFS ==> DecodeAC(d, table, k, s) == Some(Read([], s))
    ensures k < BLOCK_COEFFS && DecodeRecord(d, table, false, s).Some? ==>
              var (r, rest) := DecodeRecord(d, table, false, s).value;
              var more := DecodeAC(d, table, NextCoeff(r.symbol, k), rest);
              DecodeAC(d, table, k, s) == if more.Some? then Some(Read([r] + more.value.records, more.value.rest)) else None
    ensures k < BLOCK_COEFFS && DecodeAC(d, table, k, s).Some? ==> DecodeRecord(d, table, false, s).Some?
  {
  }

  lemma SpelledBlock(dec: Decoders, tables: Tables, c: Component, records: seq<Record>, tail: seq<Bit>)
    requires Answers(dec, tables, records) && IsBlock(c, records)
    ensures DecodeBlock(dec, c, Spell(tables, records) + tail) == Done(Read(records, tail))
  {
    hide DecodeSymbol, DecodeAC, DecodeRecord, SpellRecord, ReadsBack, Fills, Spell;
    var r, more := records[0], records[1..];
    AnswersRest(dec, tables, records);
    FillsSomething(more, 63);
    assert more[0] in records && more[0].table == 4 + c.acTbl;
    SpellFirst(tables, records, tail);
    SpelledRecord(dec[c.dcTbl].value, tables[c.dcTbl].value, r, true, Spell(tables, more) + tail);
    SpelledAC(dec, tables, 4 + c.acTbl, 1, more, tail);
    assert [r] + more == records;
  }

  lemma AnswersParts(dec: Decoders, tables: Tables, a: seq<Record>, b: seq<Record>)
    requires Answers(dec, tables, a + b)
    ensures Answers(dec, tables, a) && Answers(dec, tables, b)
  {
    hide ReadsBack, ValidDecoders;
    assert forall r :: r in a || r in b ==> r in a + b;
  }

  /** The blocks of a plan, spelled, are decoded to themselves and leave whatever was put after them. */
  lemma {:induction false} SpelledPlan(dec: Decoders, tables: Tables, plan: seq<Component>, parts: seq<seq<Record>>, tail: seq<Bit>)
    requires AreBlocks(plan, parts) && Answers(dec, tables, Flattened(parts))
    ensures DecodePlan(dec, plan, Spell(tables, Flattened(parts)) + tail) == Done(Read(Flattened(parts), tail))
  {
    hide DecodeBlock, DecodeSymbol, Answers, IsBlock;
    if plan == [] {
      AnswersNow(dec, tables, []);
      assert Spell(tables, []) + tail == tail;
    } else {
      var first, more := parts[0], parts[1..];
      assert AreBlocks(plan[1..], more);
      BlocksTogether(plan[0], first, plan[1..], more);
      assert [first] + more == parts;
      var rest := Flattened(more);
      AnswersParts(dec, tables, first, rest);
      AnswersNow(dec, tables, first + rest);
      SpellConcat(tables, first, rest);
      var after := Spell(tables, rest) + tail;
      assert Spell(tables, Flattened(parts)) + tail == Spell(tables, first) + after;
      SpelledBlock(dec, tables, plan[0], first, after);
      SpelledPlan(dec, tables, plan[1..], more, tail);
    }
  }

  /** Spelled with tables the decoders answer to, records are decoded to themselves if and only if they are the
      blocks of the plan. */
  lemma DecodedExactly(dec: Decoders, tables: Tables, plan: seq<Component>, records: seq<Record>, tail: seq<Bit>)
    requires Answers(dec, tables, records)
    ensures DecodePlan(dec, plan, Spell(tables, records) + tail) == Done(Read(records, tail)) <==> InBlocks(plan, records)
  {
    hide DecodePlan, Answers, AreBlocks;
    AnswersNow(dec, tables, records);
    if DecodePlan(dec, plan, Spell(tables, records) + tail) == Done(Read(records, tail)) {
      var parts := DecodedAreBlocks(dec, plan, Spell(tables, records) + tail);
    }
    if InBlocks(plan, records) {
      var parts :| AreBlocks(plan, parts) && Flattened(parts) == records;
      SpelledPlan(dec, tables, plan, parts, tail);
    }
  }

  lemma AnswersNow(dec: Decoders, tables: Tables, records: seq<Record>)
    requires Answers(dec, tables, records)
    ensures ValidDecoders(dec) && Spellable(tables, records)
  {
  }

  /** Reading a respelled scan gives the same records and leaves whatever was put after it. */
  lemma RespellPlan(dec: Decoders, dec': Decoders, tables: Tables, plan: seq<Component>, s: seq<Bit>, tail: seq<Bit>)
    requires ValidDecoders(dec) && DecodePlan(dec, plan, s).Done?
    requires Answers(dec', tables, DecodePlan(dec, plan, s).value.records)
    ensures var records := DecodePlan(dec, plan, s).value.records;
            DecodePlan(dec', plan, Spell(tables, records) + tail) == Done(Read(records, tail))
  {
    hide DecodePlan, Answers, AreBlocks;
    var parts := DecodedAreBlocks(dec, plan, s);
    SpelledPlan(dec', tables, plan, parts, tail);
  }
}
