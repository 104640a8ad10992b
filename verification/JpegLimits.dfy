/** When re-coding can run off the end of an array, and when it cannot. */
module JpegLimits {
  import opened Sequences
  import opened Numbers
  import opened Outcomes
  import opened BitStream
  import opened CanonicalCode
  import opened HuffmanMerge
  import opened LengthLimit
  import opened HuffmanTable
  import opened HuffmanDepth
  import opened JpegScan
  import opened JpegSegments
  import opened JpegLossless
  import opened JpegRecoder

  // ---- a table cannot outweigh the bits it was read from ----

  lemma {:induction false} FreqTotal(records: seq<Record>, t: nat)
    ensures Sum(FreqOf(records, t)) <= |records|
  {
    var freq := FreqOf(records, t);
    if records == [] {
      SumScale(freq, freq, 0);
    } else {
      var init, r := records[..|records| - 1], records[|records| - 1];
      FreqTotal(init, t);
      if r.table == t {
        SumUpdate(FreqOf(init, t), r.symbol as int, FreqOf(init, t)[r.symbol as int] + 1);
      }
    }
  }

  lemma {:induction false} ACTakesBits(d: HuffDecoder, table: nat, k: nat, s: seq<Bit>)
    requires ValidDecoder(d) && DecodeAC(d, table, k, s).Some?
    ensures var r := DecodeAC(d, table, k, s).value; |r.records| + |r.rest| <= |s|
    decreases |s|
  {
    hide DecodeRecord, NextCoeff;
    if k < BLOCK_COEFFS {
      var (r, rest) := DecodeRecord(d, table, false, s).value;
      ACTakesBits(d, table, NextCoeff(r.symbol, k), rest);
    }
  }

  /** Every record takes at least a bit. */
  lemma {:induction false} RecordsTakeBits(dec: Decoders, plan: seq<Component>, s: seq<Bit>)
    requires ValidDecoders(dec) && DecodePlan(dec, plan, s).Done?
    ensures var r := DecodePlan(dec, plan, s).value; |r.records| + |r.rest| <= |s|
  {
    hide DecodeRecord, DecodeAC;
    if plan != [] {
      var c := plan[0];
      var at := TABLES_PER_CLASS + c.acTbl;
      var (r, rest) := DecodeRecord(dec[c.dcTbl].value, c.dcTbl, true, s).value;
      ACTakesBits(dec[at].value, at, 1, rest);
      RecordsTakeBits(dec, plan[1..], DecodeBlock(dec, c, s).value.rest);
    }
  }

  lemma {:induction false} ScanBitsBound(data: seq<Byte>)
    ensures |ScanBits(data)| <= BYTE_BITS * |data|
  {
    if data != [] {
      ScanBitsBound(data[1..]);
      if |data| >= 2 {
        ScanBitsBound(data[2..]);
      }
    }
  }

  lemma {:induction false} ScanIsShorter(j: Jpeg, data: seq<Byte>)
    requires ValidDecoders(j.dec) && ReadFrom(j, data).Done?
    ensures |ReadFrom(j, data).value.scan| <= |data|
    decreases |data|
  {
    hide ReadSos, ReadSegment;
    var size := Be16(data[2..]);
    if data[1] != MARKER_SOS {
      ScanIsShorter(ReadSegment(j, data[1], data[..2 + size]).value, data[2 + size..]);
    }
  }

  lemma {:induction false} SmallListsBuild(records: seq<Record>, t: nat)
    requires t <= TABLE_COUNT && |records| + 1 < UNSAFE_TOTAL
    ensures BuildFrom(records, t).Done?
    decreases TABLE_COUNT - t
  {
    hide BuildTable, UsesTable;
    if t < TABLE_COUNT {
      var freq := FreqOf(records, t);
      FreqTotal(records, t);
      FreqCounts(records, t);
      SumUpdate(freq, RESERVED_SYMBOL, 1);
      SmallTotalsFit(freq);
      SmallListsBuild(records, t + 1);
    }
  }

  // ---- the table selectors of the scan header ----

  /** Selectors that name a slot the reader has. */
  predicate InSlots(c: Component) {
    c.dcTbl < TABLE_COUNT && TABLES_PER_CLASS + c.acTbl < TABLE_COUNT
  }

  /** Decoding comes to a block with a selector out of range: all blocks before it are decoded. */
  ghost predicate MeetsBadSelector(dec: Decoders, plan: seq<Component>, s: seq<Bit>)
    requires ValidDecoders(dec)
  {
    exists k :: 0 <= k < |plan| && BadAt(dec, plan, s, k)
  }

  ghost predicate BadAt(dec: Decoders, plan: seq<Component>, s: seq<Bit>, k: nat)
    requires ValidDecoders(dec) && k < |plan|
  {
    !InSlots(plan[k]) && DecodePlan(dec, plan[..k], s).Done?
  }

  lemma BadStep(dec: Decoders, plan: seq<Component>, s: seq<Bit>, k: nat)
    requires ValidDecoders(dec) && plan != [] && DecodeBlock(dec, plan[0], s).Done? && k < |plan| - 1
    ensures BadAt(dec, plan, s, k + 1) <==> BadAt(dec, plan[1..], DecodeBlock(dec, plan[0], s).value.rest, k)
  {
    hide DecodeRecord, DecodeAC;
    assert plan[..k + 1][1..] == plan[1..][..k];
  }

  lemma BadFirst(dec: Decoders, plan: seq<Component>, s: seq<Bit>)
    requires ValidDecoders(dec) && plan != []
    ensures BadAt(dec, plan, s, 0) <==> DecodeBlock(dec, plan[0], s).Panicked?
    ensures !DecodeBlock(dec, plan[0], s).Done? ==> forall k :: 0 < k < |plan| ==> !BadAt(dec, plan, s, k)
  {
    hide DecodeRecord, DecodeAC;
    assert forall k :: 0 < k < |plan| ==> plan[..k][0] == plan[0];
  }

  /** Decoding runs out of range if and only if it comes to a block with a selector out of range. */
  lemma {:induction false} PlanPanicsOnSelectors(dec: Decoders, plan: seq<Component>, s: seq<Bit>)
    requires ValidDecoders(dec)
    ensures DecodePlan(dec, plan, s).Panicked? <==> MeetsBadSelector(dec, plan, s)
  {
    hide BadAt, DecodeBlock;
    if plan != [] {
      BadFirst(dec, plan, s);
      var first := DecodeBlock(dec, plan[0], s);
      if first.Done? {
        PlanPanicsOnSelectors(dec, plan[1..], first.value.rest);
        forall k | 0 <= k < |plan| - 1
          ensures BadAt(dec, plan, s, k + 1) <==> BadAt(dec, plan[1..], first.value.rest, k)
        {
          BadStep(dec, plan, s, k);
        }
        BadLater(dec, plan, s, plan[1..], first.value.rest);
      } else if first.Panicked? {
        assert BadAt(dec, plan, s, 0);
      }
    }
  }

  lemma BadLater(dec: Decoders, plan: seq<Component>, s: seq<Bit>, more: seq<Component>, rest: seq<Bit>)
    requires ValidDecoders(dec) && plan != [] && more == plan[1..] && !BadAt(dec, plan, s, 0)
    requires forall k :: 0 <= k < |more| ==> (BadAt(dec, plan, s, k + 1) <==> BadAt(dec, more, rest, k))
    ensures MeetsBadSelector(dec, plan, s) <==> MeetsBadSelector(dec, more, rest)
  {
    hide BadAt;
    if MeetsBadSelector(dec, plan, s) {
      var k :| 0 <= k < |plan| && BadAt(dec, plan, s, k);
      assert BadAt(dec, more, rest, k - 1);
    }
    if MeetsBadSelector(dec, more, rest) {
      var k :| 0 <= k < |more| && BadAt(dec, more, rest, k);
      assert BadAt(dec, plan, s, k + 1);
    }
  }

  /** Selectors that are all in range are never met out of range. */
  lemma GoodSelectors(dec: Decoders, plan: seq<Component>, s: seq<Bit>)
    requires ValidDecoders(dec) && forall c :: c in plan ==> InSlots(c)
    ensures !MeetsBadSelector(dec, plan, s)
  {
  }

  lemma {:induction false} RepeatAll(plan: seq<Component>, n: nat)
    ensures forall c :: c in Repeat(plan, n) ==> c in plan
  {
    if n > 0 {
      RepeatAll(plan, n - 1);
    }
  }

  lemma {:induction false} McuPlanAll(comps: seq<Component>)
    ensures forall c :: c in McuPlan(comps) ==> c in comps
  {
    if comps != [] {
      RepeatAll([comps[0]], comps[0].blocks);
      McuPlanAll(comps[1..]);
    }
  }

  /** The scan of a file comes to a block whose table selector is out of range. */
  ghost predicate ScanMeetsBadSelector(j: Jpeg)
    requires ValidDecoders(j.dec)
  {
    MeetsBadSelector(j.dec, ScanPlan(j.comps, j.mcusY * j.mcusX), ScanBits(j.scan))
  }

  /** A table that is used has a code longer than can be counted. */
  ghost predicate HasLongCode(records: seq<Record>, t: nat) {
    UsesTable(records, t) && exists i :: 0 <= i <= SYMBOLS && CodeSizes(Weights(FreqOf(records, t)))[i] > MAX_MERGED_LEN
  }

  lemma {:induction false} BuildPanicsExactly(records: seq<Record>, t: nat)
    requires t <= TABLE_COUNT
    ensures BuildFrom(records, t).Panicked? <==> exists u :: t <= u < TABLE_COUNT && HasLongCode(records, u)
    decreases TABLE_COUNT - t
  {
    hide BuildTable, UsesTable, CodeSizes, Weights;
    if t < TABLE_COUNT {
      BuildPanicsExactly(records, t + 1);
      BuildNeverRefuses(records, t);
      BuildNeverRefuses(records, t + 1);
      TablePanics(FreqOf(records, t));
      assert TableFor(records, t).Panicked? <==> HasLongCode(records, t);
      assert (exists u :: t <= u < TABLE_COUNT && HasLongCode(records, u)) <==>
             HasLongCode(records, t) || (exists u :: t + 1 <= u < TABLE_COUNT && HasLongCode(records, u));
    }
  }

  lemma TablePanics(freq: seq<nat>)
    requires |freq| == SYMBOLS + 1
    ensures BuildTable(freq).Panicked? <==> exists i :: 0 <= i <= SYMBOLS && CodeSizes(Weights(freq))[i] > MAX_MERGED_LEN
  {
    hide CodeSizes;
  }

  /** A file stops the program exactly when its scan comes to a table selector out of range, or is decoded and one of
      its tables gets a code of more than 32 bits. */
  lemma PanicsExactly(data: seq<Byte>)
    ensures Optimized(data).Panicked? <==>
            ReadJpeg(data).Done? &&
            var j := ReadJpeg(data).value;
            ScanMeetsBadSelector(j)
            || (Records(j).Done? && exists t :: 0 <= t < TABLE_COUNT && HasLongCode(Records(j).value.records, t))
  {
    hide BuildFrom, DecodePlan, ReadFrom, Assemble, ScanBits, Uncoded, HasLongCode, MeetsBadSelector;
    ReadNeverPanics(data);
    if ReadJpeg(data).Done? {
      var j := ReadJpeg(data).value;
      PlanPanicsOnSelectors(j.dec, ScanPlan(j.comps, j.mcusY * j.mcusX), ScanBits(j.scan));
      if Records(j).Done? {
        BuildPanicsExactly(Records(j).value.records, 0);
        BuildNeverRefuses(Records(j).value.records, 0);
      }
    }
  }

  /** A file of less than about 1.1 MB stops the program if and only if its scan comes to a table selector out of
      range; with selectors in range it is always either re-coded or declined. */
  lemma SmallFilesNeverPanic(data: seq<Byte>)
    requires BYTE_BITS * |data| + 1 < UNSAFE_TOTAL
    ensures Optimized(data).Panicked? <==> ReadJpeg(data).Done? && ScanMeetsBadSelector(ReadJpeg(data).value)
    ensures ReadJpeg(data).Done? && (forall c :: c in ReadJpeg(data).value.comps ==> InSlots(c)) ==>
              !Optimized(data).Panicked?
  {
    hide BuildFrom, DecodePlan, ReadFrom, Assemble, ScanBits, Uncoded, HasLongCode, MeetsBadSelector, InSlots;
    PanicsExactly(data);
    if ReadJpeg(data).Done? {
      var j := ReadJpeg(data).value;
      var plan, bits := ScanPlan(j.comps, j.mcusY * j.mcusX), ScanBits(j.scan);
      if Records(j).Done? {
        RecordsTakeBits(j.dec, plan, bits);
        ScanBitsBound(j.scan);
        ScanIsShorter(NOTHING_READ, data[2..]);
        SmallListsBuild(Records(j).value.records, 0);
        BuildPanicsExactly(Records(j).value.records, 0);
      }
      if forall c :: c in j.comps ==> InSlots(c) {
        McuPlanAll(j.comps);
        RepeatAll(McuPlan(j.comps), j.mcusY * j.mcusX);
        GoodSelectors(j.dec, plan, bits);
      }
    }
  }
}
