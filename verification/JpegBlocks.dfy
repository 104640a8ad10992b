/** Which blocks the scan of a JPEG file holds. */
module JpegBlocks {
  import opened Sequences
  import opened Numbers
  import opened Outcomes
  import opened BitStream
  import opened JpegScan
  import opened JpegSegments
  import opened JpegLossless

  /** The records of every file that can be decoded are the blocks of its MCUs. */
  lemma RecordsAreBlocks(j: Jpeg)
    requires ValidDecoders(j.dec) && Records(j).Done?
    ensures InBlocks(ScanPlan(j.comps, j.mcusY * j.mcusX), Records(j).value.records)
  {
    hide DecodePlan, ScanPlan, AreBlocks;
    var parts := DecodedAreBlocks(j.dec, ScanPlan(j.comps, j.mcusY * j.mcusX), ScanBits(j.scan));
  }

  /** The blocks an MCU holds before those of component c. */
  function BlocksBefore(comps: seq<Component>, c: nat): nat
    requires c <= |comps|
  {
    if c == 0 then 0 else BlocksBefore(comps, c - 1) + comps[c - 1].blocks
  }

  lemma {:induction false} RepeatAt(plan: seq<Component>, n: nat, i: nat)
    requires i < n * |plan|
    ensures |Repeat(plan, n)| == n * |plan| && Repeat(plan, n)[i] == plan[i % |plan|]
  {
    RepeatLength(plan, n);
    assert n * |plan| == |plan| + (n - 1) * |plan|;
    if i < |plan| {
      assert i % |plan| == i;
    } else {
      RepeatAt(plan, n - 1, i - |plan|);
      assert i % |plan| == (i - |plan|) % |plan| by {
        ModOfRest(i, |plan|);
      }
    }
  }

  lemma ModOfRest(i: nat, n: nat)
    requires n > 0 && i >= n
    ensures i % n == (i - n) % n
  {
    var q, r := (i - n) / n, (i - n) % n;
    assert i == (q + 1) * n + r;
    ModIs(i, q + 1, n, r);
  }

  lemma ModIs(i: nat, q: nat, n: nat, r: nat)
    requires i == q * n + r && r < n
    ensures i % n == r
  {
    var d: int := i / n - q;
    assert i == n * (i / n) + i % n;
    assert n * d == r - i % n;
    assert d > 0 ==> n * d >= n;
    assert d < 0 ==> n * d + n <= 0;
  }

  lemma {:induction false} RepeatLength(plan: seq<Component>, n: nat)
    ensures |Repeat(plan, n)| == n * |plan|
  {
    if n > 0 {
      RepeatLength(plan, n - 1);
      assert n * |plan| == |plan| + (n - 1) * |plan|;
    }
  }

  lemma {:induction false} ShiftedBlocks(comps: seq<Component>, c: nat)
    requires 0 < c <= |comps|
    ensures BlocksBefore(comps, c) == comps[0].blocks + BlocksBefore(comps[1..], c - 1)
  {
    if c > 1 {
      ShiftedBlocks(comps, c - 1);
    }
  }

  lemma {:induction false} McuPlanAt(comps: seq<Component>, c: nat, b: nat)
    requires c < |comps| && b < comps[c].blocks
    ensures |McuPlan(comps)| == BlocksBefore(comps, |comps|)
    ensures BlocksBefore(comps, c) + b < |McuPlan(comps)| && McuPlan(comps)[BlocksBefore(comps, c) + b] == comps[c]
  {
    var one, rest := Repeat([comps[0]], comps[0].blocks), comps[1..];
    McuPlanLength(comps);
    McuPlanLength(rest);
    RepeatLength([comps[0]], comps[0].blocks);
    if c == 0 {
      RepeatAt([comps[0]], comps[0].blocks, b);
    } else {
      ShiftedBlocks(comps, c);
      McuPlanAt(rest, c - 1, b);
    }
  }

  lemma {:induction false} McuPlanLength(comps: seq<Component>)
    ensures |McuPlan(comps)| == BlocksBefore(comps, |comps|)
  {
    if comps != [] {
      hide Repeat, BlocksBefore;
      McuPlanLength(comps[1..]);
      RepeatLength([comps[0]], comps[0].blocks);
      ShiftedBlocks(comps, |comps|);
      assert |McuPlan(comps)| == comps[0].blocks * 1 + |McuPlan(comps[1..])|;
    }
  }

  /** Block b of component c in MCU m: the scan goes MCU by MCU, and in each component by component. */
  lemma ScanPlanAt(comps: seq<Component>, mcus: nat, m: nat, c: nat, b: nat)
    requires m < mcus && c < |comps| && b < comps[c].blocks
    ensures var all, at := BlocksBefore(comps, |comps|), BlocksBefore(comps, c) + b;
            && at < all && |ScanPlan(comps, mcus)| == mcus * all
            && m * all + at < mcus * all && ScanPlan(comps, mcus)[m * all + at] == comps[c]
  {
    hide Repeat, McuPlan, BlocksBefore;
    McuPlanAt(comps, c, b);
    var all, at := BlocksBefore(comps, |comps|), BlocksBefore(comps, c) + b;
    InRow(m, mcus, all, at);
    RepeatLength(McuPlan(comps), mcus);
    RepeatAt(McuPlan(comps), mcus, m * all + at);
    ModIs(m * all + at, m, all, at);
  }

  lemma InRow(m: nat, mcus: nat, all: nat, at: nat)
    requires m < mcus && at < all
    ensures m * all + at < mcus * all
  {
    assert (mcus - m - 1) * all >= 0;
    assert mcus * all == m * all + all + (mcus - m - 1) * all;
  }
}
