/** Opening a compound file: the list of FAT sectors, the FAT, the directory and the mini stream. */
module CompoundOpen {
  import opened Sequences
  import opened Outcomes
  import opened CompoundFile
  import Dir = CompoundDirectory

  const HEADER_SIZE := 512
  const HEADER_DIFAT_LEN := 109
  const HEADER_DIFAT := 0x4C
  const MAX_REG_SECT := 0xFFFFFFFA
  const TYPE_ROOT := 5
  const DIR_ENTRY := 128
  const MAX_DIR_COUNT := 0x10_0000
  const MINI_SIZE := 64
  const SIGNATURE: seq<Byte> := [0xD0, 0xCF, 0x11, 0xE0, 0xA1, 0xB1, 0x1A, 0xE1]

  // ---- little-endian words ----

  function Word16(s: seq<Byte>, at: nat): nat
    requires at + 2 <= |s|
  {
    s[at] as int + 0x100 * (s[at + 1] as int)
  }

  function Word32(s: seq<Byte>, at: nat): nat
    requires at + 4 <= |s|
  {
    Word16(s, at) + 0x1_0000 * Word16(s, at + 2)
  }

  /** The words from the start of `s`, the last of them whole. */
  function Words(s: seq<Byte>): (r: seq<nat>)
    ensures |r| == |s| / 4 && forall k :: 0 <= k < |r| ==> 4 * k + 4 <= |s| && r[k] == Word32(s, 4 * k)
  {
    seq(|s| / 4, k requires 0 <= k < |s| / 4 => Word32(s, 4 * k))
  }

  // ---- the list of FAT sectors ----

  /** The sector ids a DIFAT sector lists, and the next DIFAT sector after them. */
  function Listed(v: Volume, i: nat): seq<nat>
    requires v.InFile(i) && v.sectorSize >= 4
  {
    Words(v.Sector(i)[..v.sectorSize - 4])
  }

  function NextDifat(v: Volume, i: nat): nat
    requires v.InFile(i) && v.sectorSize >= 4
  {
    Word32(v.Sector(i), v.sectorSize - 4)
  }

  /** The loop over the DIFAT sectors, until `want` ids are known or the chain ends. `seen` counts the turns. */
  function ReadDifat(v: Volume, next: nat, have: seq<nat>, want: nat, seen: nat): Option<seq<nat>>
    requires v.sectorSize >= 8 && |have| <= want
    decreases want - |have|
  {
    if |have| >= want || next > MAX_REG_SECT then Some(have)
    else if !v.InFile(next) || seen > want then None
    else
      var more := FirstOnes(Listed(v, next), want - |have|);
      ReadDifat(v, NextDifat(v, next), have + more, want, seen + 1)
  }

  /** DIFAT sectors inside the file, each naming the one after it. */
  ghost predicate DifatFollows(v: Volume, path: seq<nat>, start: nat, next: nat)
    requires v.sectorSize >= 8
  {
    if path == [] then start == next
    else path[0] == start && start <= MAX_REG_SECT && v.InFile(start) && DifatFollows(v, path[1..], NextDifat(v, start), next)
  }

  /** All the ids the DIFAT sectors of a path list. */
  function AllListed(v: Volume, path: seq<nat>): seq<nat>
    requires v.sectorSize >= 8
  {
    if path == [] then [] else (if v.InFile(path[0]) then Listed(v, path[0]) else []) + AllListed(v, path[1..])
  }

  /** The chain is read as far as `path`: it ends there, or there are enough ids, and not before. */
  ghost predicate DifatStops(v: Volume, path: seq<nat>, next: nat, have: nat, want: nat)
    requires v.sectorSize >= 8
  {
    && (next > MAX_REG_SECT || have + |AllListed(v, path)| >= want)
    && (path != [] ==> have + |AllListed(v, path[..|path| - 1])| < want)
  }

  /** The DIFAT is refused only where its chain leaves the file before there are enough ids: the limit on the
      number of turns never refuses it, since every turn finds at least one. */
  lemma {:induction false} DifatWalk(v: Volume, next: nat, have: seq<nat>, want: nat, seen: nat)
      returns (path: seq<nat>, end: nat)
    requires v.sectorSize >= 8 && |have| <= want && seen <= |have|
    ensures DifatFollows(v, path, next, end)
    ensures if ReadDifat(v, next, have, want, seen).Some? then DifatStops(v, path, end, |have|, want)
            else end <= MAX_REG_SECT && !v.InFile(end) && |have| + |AllListed(v, path)| < want
    decreases want - |have|
  {
    if |have| >= want || next > MAX_REG_SECT || !v.InFile(next) {
      path, end := [], next;
    } else {
      hide Listed, NextDifat;
      ListedSome(v, next);
      var listed := Listed(v, next);
      var more := FirstOnes(listed, want - |have|);
      var rest;
      rest, end := DifatWalk(v, NextDifat(v, next), have + more, want, seen + 1);
      if |have| + |listed| >= want {
        FullOrEnded(v, NextDifat(v, next), have + more, want, seen + 1);
        path, end := [next], NextDifat(v, next);
        assert path[..0] == [] && path[1..] == [] && AllListed(v, []) == [];
      } else {
        path := [next] + rest;
        assert path[1..] == rest;
        if rest != [] {
          assert path[..|path| - 1] == [next] + rest[..|rest| - 1];
          assert ([next] + rest[..|rest| - 1])[1..] == rest[..|rest| - 1];
        } else {
          assert path[..0] == [];
        }
      }
    }
  }

  /** Where the DIFAT sectors are all there, the ids are those of the header, then those the sectors list, as
      many as are wanted. */
  lemma {:induction false} DifatIsRead(v: Volume, path: seq<nat>, next: nat, end: nat, have: seq<nat>, want: nat, seen: nat)
    requires v.sectorSize >= 8 && |have| <= want && seen <= |have|
    requires DifatFollows(v, path, next, end) && DifatStops(v, path, end, |have|, want)
    ensures ReadDifat(v, next, have, want, seen) == Some(FirstOnes(have + AllListed(v, path), want))
    decreases |path|
  {
    hide Listed, NextDifat, ReadDifat;
    if path == [] {
      assert have + [] == have;
      FullOrEnded(v, next, have, want, seen);
    } else {
      var listed, rest := Listed(v, next), path[1..];
      ListedSome(v, next);
      ReadOnce(v, next, have, want, seen);
      if |path| == 1 {
        LastSector(v, path, have, want);
        FullOrEnded(v, end, have + FirstOnes(listed, want - |have|), want, seen + 1);
      } else {
        FrontListed(v, path);
        DifatIsRead(v, rest, NextDifat(v, next), end, have + listed, want, seen + 1);
        assert have + AllListed(v, path) == have + listed + AllListed(v, rest);
      }
    }
  }

  /** With enough ids, or none to follow, the loop ends at once. */
  lemma FullOrEnded(v: Volume, next: nat, have: seq<nat>, want: nat, seen: nat)
    requires v.sectorSize >= 8 && |have| <= want && (next > MAX_REG_SECT || |have| >= want)
    ensures ReadDifat(v, next, have, want, seen) == Some(have) && FirstOnes(have, want) == have
  {
  }

  /** One turn of the loop. */
  lemma ReadOnce(v: Volume, next: nat, have: seq<nat>, want: nat, seen: nat)
    requires v.sectorSize >= 8 && |have| < want && seen <= |have| && next <= MAX_REG_SECT && v.InFile(next)
    ensures ReadDifat(v, next, have, want, seen) ==
            ReadDifat(v, NextDifat(v, next), have + FirstOnes(Listed(v, next), want - |have|), want, seen + 1)
  {
    hide Listed, NextDifat;
    ListedSome(v, next);
  }

  lemma LastSector(v: Volume, path: seq<nat>, have: seq<nat>, want: nat)
    requires v.sectorSize >= 8 && |path| == 1 && v.InFile(path[0]) && |have| <= want
    ensures AllListed(v, path) == Listed(v, path[0])
    ensures FirstOnes(have + Listed(v, path[0]), want) == have + FirstOnes(Listed(v, path[0]), want - |have|)
  {
    hide Listed;
    assert path[1..] == [] && Listed(v, path[0]) + [] == Listed(v, path[0]);
  }

  /** The ids of all sectors but the last, the first one's first. */
  lemma FrontListed(v: Volume, path: seq<nat>)
    requires v.sectorSize >= 8 && |path| > 1 && v.InFile(path[0])
    ensures var front, rest := path[..|path| - 1], path[1..];
            AllListed(v, front) == Listed(v, path[0]) + AllListed(v, rest[..|rest| - 1])
  {
    hide Listed;
    assert path[..|path| - 1][1..] == path[1..][..|path| - 2];
  }

  lemma ListedSome(v: Volume, i: nat)
    requires v.InFile(i) && v.sectorSize >= 8
    ensures |Listed(v, i)| >= 1 && |Listed(v, i)| == (v.sectorSize - 4) / 4
  {
  }

  // ---- the FAT ----

  /** The words of the listed sectors, one sector after another. */
  function ReadFat(v: Volume, sectors: seq<nat>): Option<seq<nat>> {
    if sectors == [] then Some([])
    else
      var front, i := ReadFat(v, sectors[..|sectors| - 1]), sectors[|sectors| - 1];
      if front.None? || !v.InFile(i) then None else Some(front.value + Words(v.Sector(i)))
  }

  lemma OneSectorMore(n: nat, sectors: nat, size: nat)
    requires 4 * n == sectors * size && size % 4 == 0
    ensures 4 * (n + size / 4) == (sectors + 1) * size
  {
  }

  /** Every sector gives its words in its place. */
  lemma {:induction false} FatIsRead(v: Volume, sectors: seq<nat>)
    requires v.sectorSize % 4 == 0
    ensures ReadFat(v, sectors).Some? <==> forall k :: 0 <= k < |sectors| ==> v.InFile(sectors[k])
    ensures ReadFat(v, sectors).Some? ==> 4 * |ReadFat(v, sectors).value| == |sectors| * v.sectorSize
  {
    if sectors != [] {
      hide Word32;
      var front, i := sectors[..|sectors| - 1], sectors[|sectors| - 1];
      FatIsRead(v, front);
      if ReadFat(v, sectors).Some? {
        OneSectorMore(|ReadFat(v, front).value|, |front|, v.sectorSize);
      }
    }
  }

  /** The i-th word of the j-th FAT sector. */
  lemma {:induction false} FatEntry(v: Volume, sectors: seq<nat>, j: nat, i: nat)
    requires v.sectorSize % 4 == 0 && ReadFat(v, sectors).Some? && j < |sectors| && 4 * i + 4 <= v.sectorSize
    ensures v.InFile(sectors[j])
    ensures var fat, at := ReadFat(v, sectors).value, j * (v.sectorSize / 4) + i;
            at < |fat| && fat[at] == Word32(v.Sector(sectors[j]), 4 * i)
  {
    var front := sectors[..|sectors| - 1];
    FatIsRead(v, front);
    FatIsRead(v, sectors);
    if j < |front| {
      FatEntry(v, front, j, i);
    } else {
      assert |ReadFat(v, front).value| == j * (v.sectorSize / 4) by {
        QuarterOf(|ReadFat(v, front).value|, j, v.sectorSize / 4);
      }
    }
  }

  lemma QuarterOf(n: nat, j: nat, quarter: nat)
    requires 4 * n == j * (4 * quarter)
    ensures n == j * quarter
  {
  }

  // ---- directory entries ----

  /** Text from 16-bit units; one that is half of a pair alone becomes the replacement character. */
  function Utf16(u: seq<nat>): string
    requires forall k :: 0 <= k < |u| ==> u[k] < 0x1_0000
  {
    if u == [] then ""
    else if 0xD800 <= u[0] < 0xDC00 && |u| > 1 && 0xDC00 <= u[1] < 0xE000 then
      [(0x1_0000 + (u[0] - 0xD800) * 0x400 + (u[1] - 0xDC00)) as char] + Utf16(u[2..])
    else if 0xD800 <= u[0] < 0xE000 then "\U{FFFD}" + Utf16(u[1..])
    else [u[0] as char] + Utf16(u[1..])
  }

  /** The units of a name, without the one that ends it. */
  function Units(e: seq<Byte>, bytes: nat): (r: seq<nat>)
    requires |e| == DIR_ENTRY && 2 <= bytes <= Dir.MAX_ENTRY_NAME_LEN
    ensures forall k :: 0 <= k < |r| ==> r[k] < 0x1_0000
  {
    seq(bytes / 2 - 1, k requires 0 <= k < bytes / 2 - 1 => Word16(e, 2 * k))
  }

  function EntryAt(dir: seq<Byte>, i: nat): Dir.Entry
    requires (i + 1) * DIR_ENTRY <= |dir|
  {
    var e := dir[i * DIR_ENTRY..(i + 1) * DIR_ENTRY];
    var kind, bytes := e[0x42] as int, Word16(e, 0x40);
    Dir.Entry(kind, bytes,
              if kind == Dir.TYPE_STREAM && 2 <= bytes <= Dir.MAX_ENTRY_NAME_LEN then Utf16(Units(e, bytes)) else "",
              Word32(e, 0x44), Word32(e, 0x48), Dir.StreamRef(Word32(e, 0x74), Word32(e, 0x78)))
  }

  function Entries(dir: seq<Byte>): (r: seq<Dir.Entry>)
    ensures |r| == |dir| / DIR_ENTRY
    ensures forall k :: 0 <= k < |r| ==> (k + 1) * DIR_ENTRY <= |dir| && r[k] == EntryAt(dir, k)
  {
    seq(|dir| / DIR_ENTRY, k requires 0 <= k < |dir| / DIR_ENTRY => EntryAt(dir, k))
  }

  // ---- opening ----

  datatype Image = Image(
    sectorSize: nat,
    miniCutoff: nat,
    fat: seq<nat>,
    miniFat: seq<nat>,
    ministream: seq<Byte>,
    streams: Dir.Streams)

  predicate HasHeader(data: seq<Byte>) {
    |data| >= HEADER_SIZE && SIGNATURE <= data
    && Word16(data, 0x1E) in {9, 12} && Word16(data, 0x20) == 6
  }

  function SectorSize(data: seq<Byte>): nat
    requires HasHeader(data)
  {
    if Word16(data, 0x1E) == 9 then 512 else 4096
  }

  /** The file with a FAT. */
  function Whole(data: seq<Byte>, fat: seq<nat>): Volume
    requires HasHeader(data)
  {
    Volume(data, SectorSize(data), 1, fat)
  }

  function HeaderIds(data: seq<Byte>): (r: seq<nat>)
    requires |data| >= HEADER_SIZE
    ensures |r| == HEADER_DIFAT_LEN
  {
    Words(data[HEADER_DIFAT..HEADER_DIFAT + 4 * HEADER_DIFAT_LEN])
  }

  function FatOf(data: seq<Byte>): Option<seq<nat>>
    requires HasHeader(data)
  {
    var want := Word32(data, 0x2C);
    if want > |data| / SectorSize(data) - 1 then None
    else
      var v := Whole(data, []);
      var sectors := ReadDifat(v, Word32(data, 0x44), FirstOnes(HeaderIds(data), want), want, 0);
      if sectors.None? then None else ReadFat(v, sectors.value)
  }

  /** The mini FAT and the mini stream, if the file has any. */
  function MiniOf(data: seq<Byte>, fat: seq<nat>, root: Dir.Entry): Option<(seq<nat>, seq<Byte>)>
    requires HasHeader(data)
  {
    if Word32(data, 0x3C) > MAX_REG_SECT then Some(([], []))
    else
      var raw := Chain(Whole(data, fat), Word32(data, 0x3C), -1);
      var mini := Chain(Whole(data, fat), root.ref.start, root.ref.size);
      if raw.None? || mini.None? then None else Some((Words(raw.value), mini.value))
  }

  /** A file that is no compound file is told from a broken one. */
  datatype Opening = NotCompound | Broken | Opened(image: Image)

  function Open(data: seq<Byte>): Opening {
    if |data| < HEADER_SIZE || !(SIGNATURE <= data) then NotCompound
    else if !HasHeader(data) then Broken
    else
      var fat := FatOf(data);
      if fat.None? then Broken
      else
        var dir := Chain(Whole(data, fat.value), Word32(data, 0x30), -1);
        if dir.None? || |dir.value| / DIR_ENTRY == 0 || |dir.value| / DIR_ENTRY > MAX_DIR_COUNT then Broken
        else
          var entries := Entries(dir.value);
          if entries[0].kind != TYPE_ROOT then Broken
          else
            var mini := MiniOf(data, fat.value, entries[0]);
            var streams := Dir.Walk(entries, [RootChild(dir.value)], {}, map[]);
            if mini.None? || streams.None? then Broken
            else
              Opened(Image(SectorSize(data), Word32(data, 0x38), fat.value, mini.value.0, mini.value.1, streams.value))
  }

  function RootChild(dir: seq<Byte>): nat
    requires |dir| / DIR_ENTRY > 0
  {
    Word32(dir, 0x4C)
  }

  /** The bytes of a stream, and whether there is one of the name. */
  function StreamOf(data: seq<Byte>, c: Image, name: string): Option<Option<seq<Byte>>>
    requires c.sectorSize > 0
  {
    if name !in c.streams then None
    else
      var s := c.streams[name];
      Some(if s.size < c.miniCutoff then ReadMini(Volume(c.ministream, MINI_SIZE, 0, c.miniFat), s.start, 0, [], s.size)
           else Chain(Volume(data, c.sectorSize, 1, c.fat), s.start, s.size))
  }

  // ---- nothing is larger than the file ----

  lemma {:induction false} DifatIsShort(v: Volume, next: nat, have: seq<nat>, want: nat, seen: nat)
    requires v.sectorSize >= 8 && |have| <= want
    ensures var r := ReadDifat(v, next, have, want, seen); r.Some? ==> |r.value| <= want
    decreases want - |have|
  {
    hide Listed, NextDifat;
    if |have| < want && next <= MAX_REG_SECT && v.InFile(next) && seen <= want {
      ListedSome(v, next);
      DifatIsShort(v, NextDifat(v, next), have + FirstOnes(Listed(v, next), want - |have|), want, seen + 1);
    }
  }

  lemma {:induction false} ReadIsShort(v: Volume, s: nat, steps: nat, out: seq<Byte>, size: int)
    requires v.sectorSize > 0 && steps <= v.MaxSteps() && |out| == Total(v, steps)
    ensures var r := ReadChain(v, s, steps, out, size); r.Some? ==> |r.value| <= |v.data|
    decreases v.MaxSteps() - steps
  {
    TotalIsProduct(v, steps);
    WholeSectors(steps, v.sectorSize, |v.data|);
    if s != END_OF_CHAIN && s < |v.fat| && steps < v.MaxSteps() && v.InFile(s) {
      TotalIsProduct(v, steps + 1);
      WholeSectors(steps + 1, v.sectorSize, |v.data|);
      ReadIsShort(v, v.fat[s], steps + 1, out + v.Sector(s), size);
    }
  }

  /** A chain gives no more bytes than the file has. */
  lemma ChainIsShort(v: Volume, start: nat, size: int)
    requires v.sectorSize > 0
    ensures Chain(v, start, size).Some? ==> |Chain(v, start, size).value| <= |v.data|
  {
    hide ReadChain;
    ReadIsShort(v, start, 0, [], size);
  }

  lemma FatIsShort(data: seq<Byte>)
    requires HasHeader(data)
    ensures FatOf(data).Some? ==> 4 * |FatOf(data).value| + SectorSize(data) <= |data|
  {
    hide ReadDifat, ReadFat, HeaderIds;
    var want, size := Word32(data, 0x2C), SectorSize(data);
    if want <= |data| / size - 1 {
      var v, have := Whole(data, []), FirstOnes(HeaderIds(data), want);
      DifatIsShort(v, Word32(data, 0x44), have, want, 0);
      var sectors := ReadDifat(v, Word32(data, 0x44), have, want, 0);
      if sectors.Some? {
        FatIsRead(v, sectors.value);
        WholeSectors(|sectors.value| + 1, size, |data|);
      }
    }
  }

  /** Whatever its header says, an opened file takes no table larger than itself. */
  lemma OpenIsBounded(data: seq<Byte>)
    ensures Open(data).Opened? ==>
              var c := Open(data).image;
              && HasHeader(data) && c.sectorSize == SectorSize(data) && FatOf(data) == Some(c.fat)
              && 4 * |c.fat| + c.sectorSize <= |data|
              && 4 * |c.miniFat| <= |data| && |c.ministream| <= |data|
  {
    hide HasHeader, FatOf, Chain, Entries, SectorSize;
    if Open(data).Opened? {
      FatIsShort(data);
      var v := Whole(data, FatOf(data).value);
      MiniIsShort(data, FatOf(data).value);
    }
  }

  lemma MiniIsShort(data: seq<Byte>, fat: seq<nat>)
    requires HasHeader(data)
    ensures forall root :: MiniOf(data, fat, root).Some? ==>
              4 * |MiniOf(data, fat, root).value.0| <= |data| && |MiniOf(data, fat, root).value.1| <= |data|
  {
    hide Chain;
    forall root | MiniOf(data, fat, root).Some?
      ensures 4 * |MiniOf(data, fat, root).value.0| <= |data| && |MiniOf(data, fat, root).value.1| <= |data|
    {
      var v := Whole(data, fat);
      ChainIsShort(v, Word32(data, 0x3C), -1);
      ChainIsShort(v, root.ref.start, root.ref.size);
    }
  }

  /** A large stream of an opened file on a legal chain is the first bytes of its sectors, as many as its entry
      says; the file must be small enough for its sectors to have numbers. */
  lemma LargeStreamIsRead(data: seq<Byte>, c: Image, name: string, path: seq<nat>)
    requires Open(data) == Opened(c) && |data| <= END_OF_CHAIN && name in c.streams
    requires var v, s := Volume(data, c.sectorSize, 1, c.fat), c.streams[name];
             s.size >= c.miniCutoff && LegalChain(v, path, s.start)
    ensures c.sectorSize > 0
    ensures var v, s := Volume(data, c.sectorSize, 1, c.fat), c.streams[name];
            StreamOf(data, c, name) ==
              Some(if s.size <= |Bytes(v, path)| then Some(Bytes(v, path)[..s.size]) else None)
  {
    hide Open, Chain, LegalChain;
    OpenIsBounded(data);
    var v, s := Volume(data, c.sectorSize, 1, c.fat), c.streams[name];
    SizedStream(v, path, s.start, s.size);
    LegalChainFits(v, path, s.start);
  }

  /** A small one is read from the mini stream in the same way. */
  lemma SmallStreamIsRead(data: seq<Byte>, c: Image, name: string, path: seq<nat>)
    requires Open(data) == Opened(c) && |data| <= END_OF_CHAIN && name in c.streams
    requires var v, s := Volume(c.ministream, MINI_SIZE, 0, c.miniFat), c.streams[name];
             s.size < c.miniCutoff && LegalChain(v, path, s.start)
    ensures c.sectorSize > 0
    ensures var v, s := Volume(c.ministream, MINI_SIZE, 0, c.miniFat), c.streams[name];
            StreamOf(data, c, name) ==
              Some(if s.size <= |Bytes(v, path)| then Some(Bytes(v, path)[..s.size]) else None)
  {
    hide Open, ReadMini, LegalChain;
    OpenIsBounded(data);
    var v, s := Volume(c.ministream, MINI_SIZE, 0, c.miniFat), c.streams[name];
    MiniStreamReadsLegalChains(v, path, s.start, s.size);
    LegalChainFits(v, path, s.start);
  }

  // ---- the program's loops ----

  method ListFatSectors(data: seq<Byte>, want: nat) returns (r: Option<seq<nat>>)
    requires HasHeader(data)
    ensures r == ReadDifat(Whole(data, []), Word32(data, 0x44), FirstOnes(HeaderIds(data), want), want, 0)
  {
    hide Word32, HasHeader, SectorSize;
    var v := Whole(data, []);
    HeaderFacts(data);
    var ids: seq<nat> := [];
    var i: nat := 0;
    while i < HEADER_DIFAT_LEN && |ids| < want
      invariant i <= HEADER_DIFAT_LEN && i == |ids| <= want && ids == HeaderIds(data)[..i]
      decreases HEADER_DIFAT_LEN - i
    {
      HeaderId(data, i);
      ids := ids + [Word32(data, HEADER_DIFAT + 4 * i)];
      i := i + 1;
    }
    assert ids == FirstOnes(HeaderIds(data), want);
    hide ReadDifat, Listed, NextDifat;
    var next: nat, seen: nat := Word32(data, 0x44), 0;
    while |ids| < want && next <= MAX_REG_SECT
      invariant |ids| <= want && seen <= |ids|
      invariant ReadDifat(v, next, ids, want, seen) ==
                ReadDifat(v, Word32(data, 0x44), FirstOnes(HeaderIds(data), want), want, 0)
      decreases want - |ids|
    {
      if !v.InFile(next) || seen > want {
        BrokenDifat(v, next, ids, want, seen);
        return None;
      }
      ListedSome(v, next);
      ReadOnce(v, next, ids, want, seen);
      ids := ListSector(v, next, ids, want);
      next, seen := NextDifat(v, next), seen + 1;
    }
    FullOrEnded(v, next, ids, want, seen);
    r := Some(ids);
  }

  lemma BrokenDifat(v: Volume, next: nat, have: seq<nat>, want: nat, seen: nat)
    requires v.sectorSize >= 8 && |have| < want && next <= MAX_REG_SECT && (!v.InFile(next) || seen > want)
    ensures ReadDifat(v, next, have, want, seen) == None
  {
  }

  /** Adds the ids of one DIFAT sector, as many as are still wanted. */
  method ListSector(v: Volume, sector: nat, have: seq<nat>, want: nat) returns (ids: seq<nat>)
    requires v.sectorSize >= 8 && v.sectorSize % 4 == 0 && v.InFile(sector) && |have| < want
    ensures ids == have + FirstOnes(Listed(v, sector), want - |have|)
  {
    hide Word32;
    var sec := v.Sector(sector);
    var per := v.sectorSize / 4 - 1;
    ghost var listed := Listed(v, sector);
    ids := have;
    var i := 0;
    while i < per && |ids| < want
      invariant 0 <= i <= per && |ids| <= want && ids == have + listed[..i] && |ids| == |have| + i
      decreases per - i
    {
      assert listed[i] == Word32(sec[..v.sectorSize - 4], 4 * i);
      WordInFront(sec, v.sectorSize - 4, 4 * i);
      ids := ids + [Word32(sec, 4 * i)];
      i := i + 1;
    }
  }

  lemma WordInFront(s: seq<Byte>, n: nat, at: nat)
    requires at + 4 <= n <= |s|
    ensures Word32(s[..n], at) == Word32(s, at)
  {
  }

  lemma HeaderFacts(data: seq<Byte>)
    requires HasHeader(data)
    ensures |data| >= HEADER_SIZE && SectorSize(data) in {512, 4096}
  {
  }

  lemma HeaderId(data: seq<Byte>, i: nat)
    requires |data| >= HEADER_SIZE && i < HEADER_DIFAT_LEN
    ensures HeaderIds(data)[i] == Word32(data, HEADER_DIFAT + 4 * i)
  {
    var part := data[HEADER_DIFAT..HEADER_DIFAT + 4 * HEADER_DIFAT_LEN];
    assert part[4 * i] == data[HEADER_DIFAT + 4 * i] && part[4 * i + 1] == data[HEADER_DIFAT + 4 * i + 1];
    assert part[4 * i + 2] == data[HEADER_DIFAT + 4 * i + 2] && part[4 * i + 3] == data[HEADER_DIFAT + 4 * i + 3];
  }

  method LoadFat(v: Volume, sectors: seq<nat>) returns (r: Option<seq<nat>>)
    requires v.sectorSize % 4 == 0
    ensures r == ReadFat(v, sectors)
  {
    hide Word32;
    var fat: seq<nat> := [];
    for j := 0 to |sectors|
      invariant ReadFat(v, sectors[..j]) == Some(fat)
    {
      assert sectors[..j + 1][..j] == sectors[..j];
      if !v.InFile(sectors[j]) {
        FatBreaks(v, sectors, j);
        return None;
      }
      var sec := v.Sector(sectors[j]);
      ghost var before := fat;
      for i := 0 to v.sectorSize / 4
        invariant fat == before + Words(sec)[..i]
      {
        fat := fat + [Word32(sec, 4 * i)];
      }
      assert Words(sec)[..v.sectorSize / 4] == Words(sec);
    }
    assert sectors[..|sectors|] == sectors;
    r := Some(fat);
  }

  lemma {:induction false} FatBreaks(v: Volume, sectors: seq<nat>, j: nat)
    requires j < |sectors| && !v.InFile(sectors[j])
    ensures ReadFat(v, sectors) == None
  {
    if j < |sectors| - 1 {
      FatBreaks(v, sectors[..|sectors| - 1], j);
    }
  }

  method OpenCfb(data: seq<Byte>) returns (r: Opening)
    ensures r == Open(data)
  {
    hide ReadDifat, ReadFat, Chain, Entries, Words, HeaderIds;
    if |data| < HEADER_SIZE || !(SIGNATURE <= data) {
      return NotCompound;
    }
    if !HasHeader(data) {
      return Broken;
    }
    var want, size := Word32(data, 0x2C), SectorSize(data);
    if want > |data| / size - 1 {
      return Broken;
    }
    var sectors := ListFatSectors(data, want);
    if sectors.None? {
      return Broken;
    }
    var fat := LoadFat(Whole(data, []), sectors.value);
    if fat.None? {
      return Broken;
    }
    var c := new Cfb(data, size, MINI_SIZE, fat.value, [], []);
    var dir := c.ReadFatChain(Word32(data, 0x30), -1);
    if dir.None? || |dir.value| / DIR_ENTRY == 0 || |dir.value| / DIR_ENTRY > MAX_DIR_COUNT {
      return Broken;
    }
    var entries := Entries(dir.value);
    if entries[0].kind != TYPE_ROOT {
      return Broken;
    }
    if Word32(data, 0x3C) <= MAX_REG_SECT {
      var raw := c.ReadFatChain(Word32(data, 0x3C), -1);
      if raw.None? {
        return Broken;
      }
      c.miniFAT := Words(raw.value);
      var mini := c.ReadFatChain(entries[0].ref.start, entries[0].ref.size);
      if mini.None? {
        return Broken;
      }
      c.ministream := mini.value;
    }
    var streams := Dir.ReadDirectory(entries, RootChild(dir.value));
    if streams.None? {
      return Broken;
    }
    r := Opened(Image(size, Word32(data, 0x38), c.fat, c.miniFAT, c.ministream, streams.value));
  }
}
