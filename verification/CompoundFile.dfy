/** Following sector chains in a compound file: the FAT, the mini FAT and the directory tree. */
module CompoundFile {
  import opened Sequences
  import opened Outcomes
  import opened Numbers

  const END_OF_CHAIN: nat := 0xFFFFFFFE
  const NO_STREAM: nat := 0xFFFFFFFF

  /** What chains are read from: the file with its FAT, where the header takes the place of the first sector,
      or the mini stream with the mini FAT, which has no header. Sector numbers are 32-bit words. */
  datatype Volume = Volume(data: seq<Byte>, sectorSize: nat, header: nat, fat: seq<nat>) {
    ghost predicate Valid() {
      sectorSize > 0 && |fat| <= END_OF_CHAIN
    }

    predicate InFile(i: nat) {
      (i + header) * sectorSize + sectorSize <= |data|
    }

    function Sector(i: nat): (s: seq<Byte>)
      requires InFile(i)
      ensures |s| == sectorSize
    {
      data[(i + header) * sectorSize..(i + header) * sectorSize + sectorSize]
    }

    function MaxSteps(): nat
      requires sectorSize > 0
    {
      |data| / sectorSize
    }
  }

  // ---- what a chain is ----

  /** `path` lists sectors inside the FAT and the file, each the one the FAT gives after the one before;
      `next` is what the FAT gives after the last. */
  ghost predicate Follows(v: Volume, path: seq<nat>, start: nat, next: nat) {
    if path == [] then start == next
    else path[0] == start && start < |v.fat| && v.InFile(start) && Follows(v, path[1..], v.fat[start], next)
  }

  /** A legal chain: following the FAT from `start` comes to the end-of-chain mark. */
  ghost predicate LegalChain(v: Volume, path: seq<nat>, start: nat) {
    Follows(v, path, start, END_OF_CHAIN)
  }

  function Bytes(v: Volume, path: seq<nat>): seq<Byte> {
    if path == [] then []
    else Bytes(v, path[..|path| - 1]) + if v.InFile(path[|path| - 1]) then v.Sector(path[|path| - 1]) else []
  }

  /** The size of n sectors. */
  function Total(v: Volume, n: nat): nat {
    if n == 0 then 0 else Total(v, n - 1) + v.sectorSize
  }

  lemma {:induction false} TotalGrows(v: Volume, m: nat, n: nat)
    requires m <= n
    ensures Total(v, m) <= Total(v, n)
  {
    if m < n {
      TotalGrows(v, m, n - 1);
    }
  }

  lemma {:induction false} TotalIsProduct(v: Volume, n: nat)
    ensures Total(v, n) == n * v.sectorSize
  {
    if n > 0 {
      TotalIsProduct(v, n - 1);
    }
  }

  lemma {:induction false} BytesLength(v: Volume, path: seq<nat>)
    requires forall k :: 0 <= k < |path| ==> v.InFile(path[k])
    ensures |Bytes(v, path)| == Total(v, |path|)
  {
    if path != [] {
      BytesLength(v, path[..|path| - 1]);
    }
  }

  lemma {:induction false} FollowsAppend(v: Volume, path: seq<nat>, start: nat, next: nat)
    requires Follows(v, path, start, next) && next < |v.fat| && v.InFile(next)
    ensures Follows(v, path + [next], start, v.fat[next])
  {
    if path == [] {
      assert [next][1..] == [];
    } else {
      FollowsAppend(v, path[1..], v.fat[start], next);
      assert (path + [next])[1..] == path[1..] + [next];
    }
  }

  lemma {:induction false} FollowsInFile(v: Volume, path: seq<nat>, start: nat, next: nat)
    requires Follows(v, path, start, next)
    ensures forall k :: 0 <= k < |path| ==> path[k] < |v.fat| && v.InFile(path[k])
  {
    if path != [] {
      FollowsInFile(v, path[1..], v.fat[start], next);
    }
  }

  /** Two chains from the same sector agree as far as both go. */
  lemma {:induction false} FollowsAgree(v: Volume, a: seq<nat>, b: seq<nat>, start: nat, x: nat, y: nat)
    requires Follows(v, a, start, x) && Follows(v, b, start, y) && |a| <= |b|
    ensures a == b[..|a|] && Follows(v, b[|a|..], x, y)
  {
    if a != [] {
      FollowsAgree(v, a[1..], b[1..], v.fat[start], x, y);
      assert a == [a[0]] + a[1..];
      assert b[|a|..] == b[1..][|a| - 1..];
    } else {
      assert b[0..] == b;
    }
  }

  /** A legal chain never comes back to a sector: it would then never end. */
  lemma {:induction false} LegalChainIsDistinct(v: Volume, path: seq<nat>, start: nat)
    requires v.Valid() && LegalChain(v, path, start)
    ensures forall i, j :: 0 <= i < j < |path| ==> path[i] != path[j]
  {
    forall i, j | 0 <= i < j < |path|
      ensures path[i] != path[j]
    {
      if path[i] == path[j] {
        ChainFrom(v, path, start, i);
        ChainFrom(v, path, start, j);
        var a, b := path[j..], path[i..];
        FollowsAgree(v, a, b, path[i], END_OF_CHAIN, END_OF_CHAIN);
      }
    }
  }

  lemma {:induction false} ChainFrom(v: Volume, path: seq<nat>, start: nat, i: nat)
    requires LegalChain(v, path, start) && i < |path|
    ensures LegalChain(v, path[i..], path[i])
  {
    if i > 0 {
      ChainFrom(v, path[1..], v.fat[start], i - 1);
      assert path[1..][i - 1..] == path[i..];
    } else {
      assert path[0..] == path;
    }
  }

  /** Distinct numbers below n are at most n. */
  lemma {:induction false} DistinctBelow(path: seq<nat>, n: nat)
    requires forall k :: 0 <= k < |path| ==> path[k] < n
    requires forall i, j :: 0 <= i < j < |path| ==> path[i] != path[j]
    ensures |path| <= n
    decreases n
  {
    if path != [] {
      assert path[0] < n;
      if k :| 0 <= k < |path| && path[k] == n - 1 {
        var rest := path[..k] + path[k + 1..];
        DistinctBelow(rest, n - 1);
      } else {
        DistinctBelow(path, n - 1);
      }
    }
  }

  /** A legal chain is within the step limit. */
  lemma LegalChainIsShort(v: Volume, path: seq<nat>, start: nat)
    requires v.Valid() && LegalChain(v, path, start)
    ensures |path| <= v.MaxSteps()
    ensures |path| <= |v.fat|
  {
    LegalChainIsDistinct(v, path, start);
    FollowsInFile(v, path, start, END_OF_CHAIN);
    DistinctBelow(path, |v.fat|);
    if path != [] {
      forall k | 0 <= k < |path|
        ensures path[k] < v.MaxSteps()
      {
        SectorsFit(path[k] + v.header, v.sectorSize, |v.data|);
      }
      DistinctBelow(path, v.MaxSteps());
    }
  }

  lemma SectorsFit(i: nat, size: nat, len: nat)
    requires size > 0 && i * size + size <= len
    ensures i + 1 <= len / size
  {
    assert (i + 1) * size <= len;
    QuotientAtLeast(len, i + 1, size);
  }

  // ---- reading a chain ----

  /** The loop of `chain`, from sector s on with `out` already read; size < 0 keeps every sector. */
  function ReadChain(v: Volume, s: nat, steps: nat, out: seq<Byte>, size: int): Option<seq<Byte>>
    requires v.sectorSize > 0
    decreases v.MaxSteps() - steps
  {
    if s == END_OF_CHAIN then Some(out)
    else if s >= |v.fat| || steps >= v.MaxSteps() || !v.InFile(s) then None
    else
      var more := out + v.Sector(s);
      if size >= 0 && |more| >= size then Some(more) else ReadChain(v, v.fat[s], steps + 1, more, size)
  }

  function Chain(v: Volume, start: nat, size: int): Option<seq<Byte>>
    requires v.sectorSize > 0
  {
    if size > |v.data| then None
    else
      match ReadChain(v, start, 0, [], size)
      case None => None
      case Some(out) =>
        if size < 0 then Some(out)
        else if |out| < size then None
        else Some(out[..size])
  }

  /** Where the loop stops that has read `n` sectors and then those of `path`: at the end-of-chain mark, or
      with a size as soon as there are enough bytes. */
  ghost predicate Stops(v: Volume, n: nat, path: seq<nat>, next: nat, size: int) {
    && (next == END_OF_CHAIN || (size >= 0 && path != [] && Total(v, n + |path|) >= size))
    && (size >= 0 && |path| > 1 ==> Total(v, n + |path| - 1) < size)
  }

  lemma ChainEnds(v: Volume, steps: nat, out: seq<Byte>, size: int)
    requires v.sectorSize > 0
    ensures ReadChain(v, END_OF_CHAIN, steps, out, size) == Some(out)
  {
  }

  /** One turn of the loop. */
  lemma ChainStep(v: Volume, s: nat, steps: nat, out: seq<Byte>, size: int)
    requires v.sectorSize > 0 && s != END_OF_CHAIN
    ensures !(s < |v.fat| && steps < v.MaxSteps() && v.InFile(s)) ==> ReadChain(v, s, steps, out, size) == None
    ensures s < |v.fat| && steps < v.MaxSteps() && v.InFile(s) ==>
              var more := out + v.Sector(s);
              ReadChain(v, s, steps, out, size) ==
                if size >= 0 && |more| >= size then Some(more) else ReadChain(v, v.fat[s], steps + 1, more, size)
  {
  }

  /** The loop reads the sectors of a path up to where it stops. */
  lemma {:induction false} ReadAlong(v: Volume, done: seq<nat>, path: seq<nat>, s: nat, next: nat, steps: nat, size: int)
    requires v.Valid() && Follows(v, path, s, next) && steps + |path| <= v.MaxSteps()
    requires Stops(v, |done|, path, next, size)
    requires forall k :: 0 <= k < |done| ==> v.InFile(done[k])
    ensures ReadChain(v, s, steps, Bytes(v, done), size) == Some(Bytes(v, done + path))
    decreases |path|
  {
    hide ReadChain, Bytes, Total;
    if path == [] {
      assert done + path == done;
      ChainEnds(v, steps, Bytes(v, done), size);
    } else {
      var more := done + [s];
      OneMoreSector(v, done, s);
      assert more + path[1..] == done + path;
      BytesLength(v, more);
      ChainStep(v, s, steps, Bytes(v, done), size);
      if |path| == 1 && size >= 0 && |Bytes(v, more)| >= size {
        assert more == done + path;
      } else {
        if |path| > 1 {
          TotalGrows(v, |more|, |done| + |path| - 1);
        }
        ReadAlong(v, more, path[1..], v.fat[s], next, steps + 1, size);
      }
    }
  }

  /** When the loop succeeds it has read the sectors of a path. */
  lemma {:induction false} ReadFollows(v: Volume, done: seq<nat>, s: nat, steps: nat, size: int)
      returns (path: seq<nat>, next: nat)
    requires v.Valid() && ReadChain(v, s, steps, Bytes(v, done), size).Some? && steps <= v.MaxSteps()
    requires forall k :: 0 <= k < |done| ==> v.InFile(done[k])
    ensures Follows(v, path, s, next) && steps + |path| <= v.MaxSteps() && Stops(v, |done|, path, next, size)
    decreases v.MaxSteps() - steps
  {
    hide ReadChain, Bytes, Total;
    if s == END_OF_CHAIN {
      path, next := [], s;
    } else {
      var more := done + [s];
      ChainStep(v, s, steps, Bytes(v, done), size);
      OneMoreSector(v, done, s);
      BytesLength(v, more);
      if size >= 0 && |Bytes(v, more)| >= size {
        path, next := [s], v.fat[s];
        assert path[1..] == [];
      } else {
        var rest;
        rest, next := ReadFollows(v, more, v.fat[s], steps + 1, size);
        path := [s] + rest;
        assert path[1..] == rest;
      }
    }
  }

  /** Reading a whole chain succeeds exactly on legal chains, and gives their sectors in order, none twice:
      the step limit refuses every loop and nothing else. */
  lemma ChainReadsLegalChains(v: Volume, start: nat)
    requires v.Valid()
    ensures Chain(v, start, -1).Some? <==> exists path :: LegalChain(v, path, start)
    ensures forall path :: LegalChain(v, path, start) ==>
              && Chain(v, start, -1) == Some(Bytes(v, path))
              && (forall i, j :: 0 <= i < j < |path| ==> path[i] != path[j])
              && |Bytes(v, path)| == Total(v, |path|) <= |v.data|
  {
    if Chain(v, start, -1).Some? {
      var path, next := ReadFollows(v, [], start, 0, -1);
      assert LegalChain(v, path, start);
    }
    forall path | LegalChain(v, path, start)
      ensures Chain(v, start, -1) == Some(Bytes(v, path))
      ensures forall i, j :: 0 <= i < j < |path| ==> path[i] != path[j]
      ensures |Bytes(v, path)| == Total(v, |path|) <= |v.data|
    {
      LegalChainIsDistinct(v, path, start);
      LegalChainFits(v, path, start);
      ReadSome(v, path, start, END_OF_CHAIN, -1);
    }
  }

  lemma LegalChainFits(v: Volume, path: seq<nat>, start: nat)
    requires v.Valid() && LegalChain(v, path, start)
    ensures |path| <= v.MaxSteps() && |Bytes(v, path)| == Total(v, |path|) <= |v.data|
  {
    LegalChainIsShort(v, path, start);
    FollowsInFile(v, path, start, END_OF_CHAIN);
    BytesLength(v, path);
    WholeSectors(|path|, v.sectorSize, |v.data|);
    TotalIsProduct(v, |path|);
  }

  lemma WholeSectors(n: nat, size: nat, len: nat)
    requires size > 0 && n <= len / size
    ensures n * size <= len
  {
    assert n * size <= (len / size) * size;
  }

  // ---- reading a stream of a known size ----

  /** With a size, reading succeeds exactly when enough sectors follow one another within the step limit; the
      result is their first `size` bytes. */
  lemma SizedChainExactly(v: Volume, start: nat, size: nat, out: seq<Byte>)
    requires v.Valid()
    ensures Chain(v, start, size) == Some(out) <==>
            && size <= |v.data|
            && exists path, next ::
                 && Follows(v, path, start, next) && |path| <= v.MaxSteps() && Stops(v, 0, path, next, size)
                 && |Bytes(v, path)| >= size && out == Bytes(v, path)[..size]
  {
    forall path, next | Follows(v, path, start, next) && |path| <= v.MaxSteps() && Stops(v, 0, path, next, size)
      ensures ReadChain(v, start, 0, [], size) == Some(Bytes(v, path))
    {
      ReadSome(v, path, start, next, size);
    }
    if ReadChain(v, start, 0, [], size).Some? {
      var path, next := ReadFollows(v, [], start, 0, size);
    }
  }

  /** On a legal chain that is: the first `size` bytes of the chain, or a refusal when the chain is shorter. */
  lemma SizedStream(v: Volume, path: seq<nat>, start: nat, size: nat)
    requires v.Valid() && LegalChain(v, path, start)
    ensures if size <= Total(v, |path|) then
              |Bytes(v, path)| >= size && Chain(v, start, size) == Some(Bytes(v, path)[..size])
            else Chain(v, start, size) == None
  {
    hide Follows, ReadChain, Bytes, Total;
    LegalChainFits(v, path, start);
    var n := FirstEnough(v, path, size);
    var next := if n < |path| then path[n] else END_OF_CHAIN;
    PathOfSize(v, path, start, n);
    NoBytes(v, path[..n]);
    ReadSome(v, path[..n], start, next, size);
    TotalGrows(v, n, |path|);
    if size <= Total(v, n) {
      assert Bytes(v, path[..n])[..size] == Bytes(v, path)[..size];
    }
  }

  lemma ReadSome(v: Volume, path: seq<nat>, start: nat, next: nat, size: int)
    requires v.Valid() && Follows(v, path, start, next) && |path| <= v.MaxSteps() && Stops(v, 0, path, next, size)
    ensures ReadChain(v, start, 0, [], size) == Some(Bytes(v, path))
  {
    hide ReadChain, Follows;
    ReadAlong(v, [], path, start, next, 0, size);
    NoBytes(v, path);
  }

  lemma NoBytes(v: Volume, path: seq<nat>)
    ensures Bytes(v, []) == [] && [] + path == path
  {
  }

  /** The first n sectors of a legal chain, and their bytes. */
  lemma PathOfSize(v: Volume, path: seq<nat>, start: nat, n: nat)
    requires LegalChain(v, path, start) && n <= |path|
    ensures Follows(v, path[..n], start, if n < |path| then path[n] else END_OF_CHAIN)
    ensures |Bytes(v, path[..n])| == Total(v, n) && Bytes(v, path[..n]) <= Bytes(v, path)
  {
    FollowsPrefix(v, path, start, n);
    BytesPrefix(v, path[..n], path[n..]);
    assert path == path[..n] + path[n..];
    FollowsInFile(v, path[..n], start, if n < |path| then path[n] else END_OF_CHAIN);
    BytesLength(v, path[..n]);
  }

  /** How many sectors of a legal chain the loop reads. */
  lemma FirstEnough(v: Volume, path: seq<nat>, size: nat) returns (n: nat)
    requires v.Valid()
    ensures n <= |path| && (n < |path| ==> n > 0 && Total(v, n) >= size)
    ensures n > 1 ==> Total(v, n - 1) < size
  {
    n := if path == [] then 0 else 1;
    while n < |path| && Total(v, n) < size
      invariant n <= |path| && (path == [] || n > 0)
      invariant n > 1 ==> Total(v, n - 1) < size
    {
      n := n + 1;
    }
  }

  lemma {:induction false} FollowsPrefix(v: Volume, path: seq<nat>, start: nat, n: nat)
    requires LegalChain(v, path, start) && n <= |path|
    ensures Follows(v, path[..n], start, if n < |path| then path[n] else END_OF_CHAIN)
  {
    if n > 0 {
      FollowsPrefix(v, path[1..], v.fat[start], n - 1);
      assert path[1..][..n - 1] == path[..n][1..];
    }
  }

  lemma {:induction false} BytesPrefix(v: Volume, a: seq<nat>, b: seq<nat>)
    ensures Bytes(v, a) <= Bytes(v, a + b)
  {
    if b == [] {
      assert a + b == a;
    } else {
      BytesPrefix(v, a, b[..|b| - 1]);
      assert (a + b)[..|a + b| - 1] == a + b[..|b| - 1];
    }
  }

  // ---- the mini stream ----

  /** The loop of `miniChain`: it checks before each sector and stops once there are `size` bytes. */
  function ReadMini(v: Volume, s: nat, steps: nat, out: seq<Byte>, size: nat): Option<seq<Byte>>
    decreases |v.fat| + 1 - steps
  {
    if |out| >= size then Some(out[..size])
    else if s >= |v.fat| || steps > |v.fat| || !v.InFile(s) then None
    else ReadMini(v, v.fat[s], steps + 1, out + v.Sector(s), size)
  }

  lemma MiniEnds(v: Volume, steps: nat, out: seq<Byte>, size: nat)
    requires v.Valid() && |out| < size
    ensures ReadMini(v, END_OF_CHAIN, steps, out, size) == None
  {
  }

  lemma {:induction false} ReadMiniAlong(v: Volume, done: seq<nat>, path: seq<nat>, s: nat, steps: nat, size: nat)
    requires v.Valid() && LegalChain(v, path, s) && steps + |path| <= |v.fat|
    requires forall k :: 0 <= k < |done| ==> v.InFile(done[k])
    ensures if size <= |Bytes(v, done + path)| then
              ReadMini(v, s, steps, Bytes(v, done), size) == Some(Bytes(v, done + path)[..size])
            else ReadMini(v, s, steps, Bytes(v, done), size) == None
    decreases |path|
  {
    hide ReadMini, Bytes;
    BytesPrefix(v, done, path);
    MiniStep(v, s, steps, Bytes(v, done), size);
    if path == [] {
      assert done + path == done;
      if |Bytes(v, done)| < size {
        MiniEnds(v, steps, Bytes(v, done), size);
      }
    } else if |Bytes(v, done)| >= size {
      assert Bytes(v, done)[..size] == Bytes(v, done + path)[..size];
    } else {
      assert done + [s] + path[1..] == done + path;
      OneMoreSector(v, done, s);
      ReadMiniAlong(v, done + [s], path[1..], v.fat[s], steps + 1, size);
    }
  }

  /** A small stream on a legal chain of the mini FAT gives exactly its first `size` bytes, or is refused when
      the chain is too short; the step limit never refuses it. */
  lemma MiniStreamReadsLegalChains(v: Volume, path: seq<nat>, start: nat, size: nat)
    requires v.Valid() && LegalChain(v, path, start)
    ensures if size <= Total(v, |path|) then
              |Bytes(v, path)| >= size && ReadMini(v, start, 0, [], size) == Some(Bytes(v, path)[..size])
            else ReadMini(v, start, 0, [], size) == None
  {
    LegalChainIsShort(v, path, start);
    LegalChainFits(v, path, start);
    ReadMiniAlong(v, [], path, start, 0, size);
    assert [] + path == path;
  }

  /** Whatever the mini FAT holds, a stream that is read has exactly the size asked for. */
  lemma {:induction false} MiniStreamHasSize(v: Volume, s: nat, steps: nat, out: seq<Byte>, size: nat)
    ensures var r := ReadMini(v, s, steps, out, size); r.Some? ==> |r.value| == size
    decreases |v.fat| + 1 - steps
  {
    if |out| < size && s < |v.fat| && steps <= |v.fat| && v.InFile(s) {
      MiniStreamHasSize(v, v.fat[s], steps + 1, out + v.Sector(s), size);
    }
  }

  /** How far the loop of `miniChain` reads: to the first sector that makes the bytes enough. */
  ghost predicate MiniStops(v: Volume, n: nat, path: seq<nat>, size: nat) {
    && Total(v, n + |path|) >= size
    && (path != [] ==> Total(v, n + |path| - 1) < size)
  }

  lemma {:induction false} ReadMiniPath(v: Volume, done: seq<nat>, path: seq<nat>, s: nat, next: nat, steps: nat, size: nat)
    requires v.Valid() && Follows(v, path, s, next) && steps + |path| <= |v.fat| + 1 && MiniStops(v, |done|, path, size)
    requires forall k :: 0 <= k < |done| ==> v.InFile(done[k])
    ensures |Bytes(v, done + path)| >= size
    ensures ReadMini(v, s, steps, Bytes(v, done), size) == Some(Bytes(v, done + path)[..size])
    decreases |path|
  {
    hide Total, ReadMini, Bytes;
    BytesLength(v, done);
    if path == [] {
      assert done + path == done;
      MiniStep(v, s, steps, Bytes(v, done), size);
    } else {
      TotalGrows(v, |done|, |done| + |path| - 1);
      var more := done + [s];
      assert more + path[1..] == done + path;
      OneMoreSector(v, done, s);
      MiniStep(v, s, steps, Bytes(v, done), size);
      ReadMiniPath(v, more, path[1..], v.fat[s], next, steps + 1, size);
    }
  }

  lemma OneMoreSector(v: Volume, done: seq<nat>, s: nat)
    requires v.InFile(s)
    ensures Bytes(v, done + [s]) == Bytes(v, done) + v.Sector(s)
  {
    assert (done + [s])[..|done|] == done;
  }

  lemma MiniStep(v: Volume, s: nat, steps: nat, out: seq<Byte>, size: nat)
    ensures |out| >= size ==> ReadMini(v, s, steps, out, size) == Some(out[..size])
    ensures |out| < size && s < |v.fat| && steps <= |v.fat| && v.InFile(s) ==>
              ReadMini(v, s, steps, out, size) == ReadMini(v, v.fat[s], steps + 1, out + v.Sector(s), size)
    ensures |out| < size && (s >= |v.fat| || steps > |v.fat| || !v.InFile(s)) ==>
              ReadMini(v, s, steps, out, size) == None
  {
  }

  lemma {:induction false} ReadMiniFollows(v: Volume, done: seq<nat>, s: nat, steps: nat, size: nat)
      returns (path: seq<nat>, next: nat)
    requires v.Valid() && ReadMini(v, s, steps, Bytes(v, done), size).Some? && steps <= |v.fat| + 1
    requires forall k :: 0 <= k < |done| ==> v.InFile(done[k])
    requires done != [] ==> Total(v, |done| - 1) < size
    ensures Follows(v, path, s, next) && steps + |path| <= |v.fat| + 1 && MiniStops(v, |done|, path, size)
    decreases |v.fat| + 1 - steps
  {
    BytesLength(v, done);
    if |Bytes(v, done)| >= size {
      path, next := [], s;
    } else {
      var more := done + [s];
      assert more[..|done|] == done;
      var rest;
      rest, next := ReadMiniFollows(v, more, v.fat[s], steps + 1, size);
      path := [s] + rest;
      assert path[1..] == rest;
    }
  }

  /** The first `size` bytes of the sectors followed until there are enough, one more at most than the mini FAT has
      words. They may repeat: a loop is followed. */
  ghost predicate MiniGives(v: Volume, start: nat, size: nat, path: seq<nat>, next: nat, out: seq<Byte>) {
    && Follows(v, path, start, next) && |path| <= |v.fat| + 1 && MiniStops(v, 0, path, size)
    && |Bytes(v, path)| >= size && out == Bytes(v, path)[..size]
  }

  /** A small stream is read exactly when there are such sectors. */
  lemma MiniStreamExactly(v: Volume, start: nat, size: nat, out: seq<Byte>)
    requires v.Valid()
    ensures ReadMini(v, start, 0, [], size) == Some(out) <==> exists path, next :: MiniGives(v, start, size, path, next, out)
  {
    NoBytes(v, []);
    if ReadMini(v, start, 0, [], size) == Some(out) {
      var path, next := ReadMiniFollows(v, [], start, 0, size);
      MiniPathGives(v, start, size, path, next);
      assert MiniGives(v, start, size, path, next, out);
    }
    forall path, next | MiniGives(v, start, size, path, next, out)
      ensures ReadMini(v, start, 0, [], size) == Some(out)
    {
      MiniPathGives(v, start, size, path, next);
    }
  }

  lemma MiniPathGives(v: Volume, start: nat, size: nat, path: seq<nat>, next: nat)
    requires v.Valid() && Follows(v, path, start, next) && |path| <= |v.fat| + 1 && MiniStops(v, 0, path, size)
    ensures |Bytes(v, path)| >= size && ReadMini(v, start, 0, [], size) == Some(Bytes(v, path)[..size])
  {
    NoBytes(v, path);
    ReadMiniPath(v, [], path, start, next, 0, size);
  }

  /** So a small stream can be larger than the mini stream, but not than one sector for each word of the mini FAT and
      one more. */
  lemma MiniStreamIsBounded(v: Volume, start: nat, size: nat)
    requires v.Valid() && ReadMini(v, start, 0, [], size).Some?
    ensures size <= Total(v, |v.fat| + 1)
  {
    NoBytes(v, []);
    var path, next := ReadMiniFollows(v, [], start, 0, size);
    TotalGrows(v, |path|, |v.fat| + 1);
  }

  /** A first sector that is its own successor is read as often as the limit allows. */
  lemma {:induction false} LoopIsRead(v: Volume, steps: nat, out: seq<Byte>, size: nat)
    requires v.fat != [] && v.fat[0] == 0 && v.InFile(0) && steps <= |v.fat| + 1 && |out| == Total(v, steps)
    requires size <= Total(v, |v.fat| + 1)
    ensures ReadMini(v, 0, steps, out, size).Some?
    decreases |v.fat| + 1 - steps
  {
    if |out| < size {
      LoopIsRead(v, steps + 1, out + v.Sector(0), size);
    }
  }

  // ---- the program's own loops ----

  class Cfb {
    var data: seq<Byte>
    var sectorSize: nat
    var miniSize: nat
    var fat: seq<nat>
    var miniFAT: seq<nat>
    var ministream: seq<Byte>

    constructor (data: seq<Byte>, sectorSize: nat, miniSize: nat, fat: seq<nat>, miniFAT: seq<nat>, ministream: seq<Byte>)
      ensures this.data == data && this.sectorSize == sectorSize && this.miniSize == miniSize
      ensures this.fat == fat && this.miniFAT == miniFAT && this.ministream == ministream
    {
      this.data, this.sectorSize, this.miniSize := data, sectorSize, miniSize;
      this.fat, this.miniFAT, this.ministream := fat, miniFAT, ministream;
    }

    function Whole(): Volume
      reads this
    {
      Volume(data, sectorSize, 1, fat)
    }

    function Mini(): Volume
      reads this
    {
      Volume(ministream, miniSize, 0, miniFAT)
    }

    method ReadSector(i: nat) returns (r: Option<seq<Byte>>)
      ensures r == if Whole().InFile(i) then Some(Whole().Sector(i)) else None
    {
      var off := (i + 1) * sectorSize;
      if off + sectorSize > |data| {
        return None;
      }
      r := Some(data[off..off + sectorSize]);
    }

    /** `size` < 0 keeps every sector. */
    method ReadFatChain(start: nat, size: int) returns (r: Option<seq<Byte>>)
      requires sectorSize > 0
      ensures r == Chain(Whole(), start, size)
    {
      if size > |data| {
        return None;
      }
      var out := [];
      var maxSteps := |data| / sectorSize;
      var s: nat, steps: nat := start, 0;
      while s != END_OF_CHAIN
        invariant 0 <= steps <= maxSteps
        invariant ReadChain(Whole(), s, steps, out, size) == ReadChain(Whole(), start, 0, [], size)
        decreases maxSteps - steps
      {
        if s >= |fat| || steps >= maxSteps {
          return None;
        }
        var sec := ReadSector(s);
        if sec == None {
          return None;
        }
        out := out + sec.value;
        if size >= 0 && |out| >= size {
          break;
        }
        s := fat[s];
        steps := steps + 1;
      }
      if size >= 0 {
        if |out| < size {
          return None;
        }
        out := out[..size];
      }
      r := Some(out);
    }

    method ReadMiniChain(start: nat, size: nat) returns (r: Option<seq<Byte>>)
      ensures r == ReadMini(Mini(), start, 0, [], size)
    {
      hide ReadMini;
      var out := [];
      var s: nat, steps: nat := start, 0;
      while |out| < size
        invariant 0 <= steps <= |miniFAT| + 1
        invariant ReadMini(Mini(), s, steps, out, size) == ReadMini(Mini(), start, 0, [], size)
        decreases |miniFAT| + 1 - steps
      {
        MiniStep(Mini(), s, steps, out, size);
        if s >= |miniFAT| || steps > |miniFAT| {
          return None;
        }
        var off := s * miniSize;
        if off + miniSize > |ministream| {
          return None;
        }
        out := out + ministream[off..off + miniSize];
        s := miniFAT[s];
        steps := steps + 1;
      }
      MiniStep(Mini(), s, steps, out, size);
      r := Some(out[..size]);
    }
  }
}
