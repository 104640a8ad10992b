/** How large a stream can be against its file, and a small file with a stream larger than itself. */
module CompoundWitness {
  import opened Sequences
  import opened Numbers
  import opened Outcomes
  import opened CompoundFile
  import opened CompoundOpen
  import Dir = CompoundDirectory

  /** A stream that is read has the size its entry declares; it is larger than the file exactly when that size is,
      which takes a small stream, and then less than sixteen times the file and a sector more. */
  lemma StreamIsBounded(data: seq<Byte>, c: Image, name: string)
    requires Open(data) == Opened(c) && |data| <= END_OF_CHAIN
    ensures c.sectorSize > 0
    ensures var r := StreamOf(data, c, name);
            r.Some? && r.value.Some? ==>
              && |r.value.value| == c.streams[name].size <= 16 * |data| + 64
              && (c.streams[name].size > |data| ==> c.streams[name].size < c.miniCutoff)
  {
    hide Open, ReadChain, ReadMini;
    OpenIsBounded(data);
    if name in c.streams {
      var s := c.streams[name];
      var r := StreamOf(data, c, name);
      if r.value.Some? {
        if s.size < c.miniCutoff {
          var v := Volume(c.ministream, MINI_SIZE, 0, c.miniFat);
          MiniStreamIsBounded(v, s.start, s.size);
          MiniStreamHasSize(v, s.start, 0, [], s.size);
          TotalIsProduct(v, |c.miniFat| + 1);
        } else {
          ChainIsShort(Volume(data, c.sectorSize, 1, c.fat), s.start, s.size);
        }
      }
    }
  }

  // ---- a file of five sectors ----

  /** Header, FAT, directory, mini FAT and mini stream; in the mini FAT every sector is followed by the first. */
  function ByteOf(i: nat): Byte {
    if i < 8 then SIGNATURE[i]
    else if i == 0x1E then 9 else if i == 0x20 then 6
    else if i == 0x2C then 1 else if i == 0x30 then 1
    else if i == 0x39 then 0x40 else if i == 0x3C then 2
    else if 516 <= i < 528 then if i % 4 == 0 then 0xFE else 0xFF
    else if i == 1090 then 5 else if i == 1100 then 1 else if i == 1140 then 3 else if i == 1145 then 2
    else if i == 1216 then 2 else if i == 1218 then 2 else if 1220 <= i < 1228 then 0xFF
    else if i == 1272 then 0x40 else if i == 1273 then 0x20
    else 0
  }

  function Looping(): (data: seq<Byte>)
    ensures |data| == 2560 && forall i :: 0 <= i < 2560 ==> data[i] == ByteOf(i)
  {
    seq(2560, i requires 0 <= i < 2560 => ByteOf(i))
  }

  lemma WordAt(i: nat)
    requires i + 4 <= 2560
    ensures Word32(Looping(), i) ==
            ByteOf(i) as int + 0x100 * ByteOf(i + 1) as int + 0x1_0000 * ByteOf(i + 2) as int + 0x100_0000 * ByteOf(i + 3) as int
  {
    hide ByteOf;
  }

  lemma WordIn(from: nat, to: nat, at: nat)
    requires from <= to <= 2560 && at + 4 <= to - from
    ensures Word32(Looping()[from..to], at) == Word32(Looping(), from + at)
  {
    hide ByteOf;
  }

  lemma LoopingHeader()
    ensures HasHeader(Looping()) && SectorSize(Looping()) == 512
    ensures var d := Looping();
            Word32(d, 0x2C) == 1 && Word32(d, 0x30) == 1 && Word32(d, 0x38) == 0x4000 && Word32(d, 0x3C) == 2
            && Word32(d, HEADER_DIFAT) == 0
  {
    var d := Looping();
    assert d[..8] == SIGNATURE;
    WordAt(0x2C);
    WordAt(0x30);
    WordAt(0x38);
    WordAt(0x3C);
    WordAt(HEADER_DIFAT);
  }

  lemma LoopingFat()
    ensures HasHeader(Looping())
    ensures var fat := FatOf(Looping());
            fat.Some? && |fat.value| == 128
            && fat.value[1] == END_OF_CHAIN && fat.value[2] == END_OF_CHAIN && fat.value[3] == END_OF_CHAIN
  {
    hide ByteOf, Word32, HasHeader, SectorSize, Words;
    LoopingHeader();
    var d := Looping();
    var v := Whole(d, []);
    HeaderId(d, 0);
    var ids := FirstOnes(HeaderIds(d), 1);
    assert ids == [0];
    FullOrEnded(v, Word32(d, 0x44), ids, 1, 0);
    assert ReadFat(v, [0]) == Some(Words(v.Sector(0))) by {
      OneFatSector(v);
    }
    FatWords();
  }

  lemma OneFatSector(v: Volume)
    requires v.InFile(0)
    ensures ReadFat(v, [0]) == Some(Words(v.Sector(0)))
  {
    hide Words;
    var one: seq<nat> := [0];
    assert one[..0] == [] && ReadFat(v, one[..0]) == Some([]);
    assert [] + Words(v.Sector(0)) == Words(v.Sector(0));
  }

  lemma FatWords()
    ensures var w := Words(Looping()[512..1024]);
            |w| == 128 && w[1] == END_OF_CHAIN && w[2] == END_OF_CHAIN && w[3] == END_OF_CHAIN
  {
    hide Word32;
    var s := Looping()[512..1024];
    WordIn(512, 1024, 4);
    WordIn(512, 1024, 8);
    WordIn(512, 1024, 12);
    WordAt(516);
    WordAt(520);
    WordAt(524);
  }

  /** A chain of one sector. */
  lemma OneSectorChain(v: Volume, s: nat, size: int)
    requires v.sectorSize > 0 && s < |v.fat| && v.fat[s] == END_OF_CHAIN && s != END_OF_CHAIN && v.InFile(s)
    requires size < 0 || size == v.sectorSize
    ensures v.sectorSize <= |v.data| && Chain(v, s, size) == Some(v.Sector(s))
  {
    hide Volume.Sector, ReadChain;
    SectorsFit(s + v.header, v.sectorSize, |v.data|);
    var sec := v.Sector(s);
    assert [] + sec == sec && sec[..|sec|] == sec;
    ChainStep(v, s, 0, [], size);
    ChainEnds(v, 1, sec, size);
  }

  lemma LoopingChains(fat: seq<nat>)
    requires |fat| == 128 && fat[1] == END_OF_CHAIN && fat[2] == END_OF_CHAIN && fat[3] == END_OF_CHAIN
    ensures HasHeader(Looping())
    ensures var d, v := Looping(), Whole(Looping(), fat);
            && Chain(v, 1, -1) == Some(d[1024..1536]) && Chain(v, 2, -1) == Some(d[1536..2048])
            && Chain(v, 3, 512) == Some(d[2048..2560])
  {
    hide Chain, HasHeader, SectorSize;
    LoopingHeader();
    var v := Whole(Looping(), fat);
    OneSectorChain(v, 1, -1);
    OneSectorChain(v, 2, -1);
    OneSectorChain(v, 3, 512);
  }

  lemma SliceOfSlice(s: seq<Byte>, a: nat, b: nat, c: nat, d: nat)
    requires a + c <= a + d <= b <= |s|
    ensures s[a..b][c..d] == s[a + c..a + d]
  {
    var part := s[a..b];
    assert forall k :: 0 <= k < |part| ==> part[k] == s[a + k];
    assert forall k :: 0 <= k < d - c ==> part[c..d][k] == part[c + k];
    assert part[c..d] == s[a + c..a + d];
  }

  lemma EntryFields(dir: seq<Byte>, i: nat)
    requires dir == Looping()[1024..1536] && i < 4
    ensures var e, at := EntryAt(dir, i), 1024 + i * 128;
            && e.kind == ByteOf(at + 0x42) as int
            && e.nameLen == ByteOf(at + 0x40) as int + 0x100 * ByteOf(at + 0x41) as int
            && e.left == Word32(Looping(), at + 0x44) && e.right == Word32(Looping(), at + 0x48)
            && e.ref == Dir.StreamRef(Word32(Looping(), at + 0x74), Word32(Looping(), at + 0x78))
            && (e.kind == Dir.TYPE_STREAM && e.nameLen == 2 ==> e.name == "")
  {
    hide ByteOf, Word32;
    var e := dir[i * DIR_ENTRY..(i + 1) * DIR_ENTRY];
    var at := 1024 + i * 128;
    SliceOfSlice(Looping(), 1024, 1536, i * DIR_ENTRY, (i + 1) * DIR_ENTRY);
    assert e == Looping()[at..at + 128];
    assert e[0x40] == ByteOf(at + 0x40) && e[0x41] == ByteOf(at + 0x41) && e[0x42] == ByteOf(at + 0x42);
    assert Word16(e, 0x40) == e[0x40] as int + 0x100 * e[0x41] as int;
    WordIn(at, at + 128, 0x44);
    WordIn(at, at + 128, 0x48);
    WordIn(at, at + 128, 0x74);
    WordIn(at, at + 128, 0x78);
  }

  lemma LoopingEntries()
    ensures var dir := Looping()[1024..1536];
            var es := Entries(dir);
            && |es| == 4 && es[0].kind == TYPE_ROOT && es[0].ref == Dir.StreamRef(3, 512) && RootChild(dir) == 1
            && es[1] == Dir.Entry(Dir.TYPE_STREAM, 2, "", NO_STREAM, NO_STREAM, Dir.StreamRef(0, 8256))
  {
    hide Word32, EntryAt;
    var dir := Looping()[1024..1536];
    EntryFields(dir, 0);
    EntryFields(dir, 1);
    WordIn(1024, 1536, 0x4C);
    WordAt(1100);
    WordAt(1140);
    WordAt(1144);
    WordAt(1220);
    WordAt(1224);
    WordAt(1268);
    WordAt(1272);
  }

  lemma OneEntryWalk(es: seq<Dir.Entry>)
    requires |es| == 4 && es[1] == Dir.Entry(Dir.TYPE_STREAM, 2, "", NO_STREAM, NO_STREAM, Dir.StreamRef(0, 8256))
    ensures Dir.Walk(es, [1], {}, map[]) == Some(map["" := Dir.StreamRef(0, 8256)])
  {
    var one: seq<nat>, two: seq<nat> := [NO_STREAM], [NO_STREAM, NO_STREAM];
    var found: Dir.Streams := map["" := Dir.StreamRef(0, 8256)];
    assert one[..0] == [] && two[..1] == one;
    assert Dir.Walk(es, [], {1}, found) == Some(found);
    assert Dir.Walk(es, one, {1}, found) == Some(found);
    assert Dir.Walk(es, two, {1}, found) == Some(found);
    var start: seq<nat> := [1];
    assert start[..0] == [] && [] + [es[1].left, es[1].right] == two && {} + {1} == {1};
  }

  lemma ZeroWords(dir: seq<Byte>)
    requires dir == Looping()[1536..2048]
    ensures |Words(dir)| == 128 && Words(dir)[0] == 0
  {
    hide Word32;
    WordIn(1536, 2048, 0);
    WordAt(1536);
  }

  /** A file of 2560 bytes with a stream of 8256. */
  lemma StreamLargerThanFile()
    ensures var data := Looping();
            Open(data).Opened? &&
            var c := Open(data).image;
            c.sectorSize > 0 && "" in c.streams &&
            var r := StreamOf(data, c, "");
            r.Some? && r.value.Some? && |r.value.value| == 8256 > |data| == 2560
  {
    hide ByteOf, Word32, HasHeader, SectorSize, FatOf, Chain, Entries, Words, RootChild, ReadMini, Looping, Dir.Walk;
    var data := Looping();
    LoopingHeader();
    LoopingFat();
    var fat := FatOf(data).value;
    LoopingChains(fat);
    LoopingEntries();
    var es := Entries(data[1024..1536]);
    OneEntryWalk(es);
    HeaderFacts(data);
    var mini, sectors := Words(data[1536..2048]), data[2048..2560];
    ZeroWords(data[1536..2048]);
    assert MiniOf(data, fat, es[0]) == Some((mini, sectors));
    var c := Image(512, 0x4000, fat, mini, sectors, map["" := Dir.StreamRef(0, 8256)]);
    OpenedAs(data, fat, c);
    var v := Volume(sectors, MINI_SIZE, 0, mini);
    TotalIsProduct(v, 129);
    LoopIsRead(v, 0, [], 8256);
    MiniStreamHasSize(v, 0, 0, [], 8256);
  }

  lemma OpenedAs(data: seq<Byte>, fat: seq<nat>, c: Image)
    requires HasHeader(data) && FatOf(data) == Some(fat) && |data| >= HEADER_SIZE
    requires var dir := Chain(Whole(data, fat), Word32(data, 0x30), -1);
             dir.Some? && 0 < |dir.value| / DIR_ENTRY <= MAX_DIR_COUNT && Entries(dir.value)[0].kind == TYPE_ROOT
             && MiniOf(data, fat, Entries(dir.value)[0]) == Some((c.miniFat, c.ministream))
             && Dir.Walk(Entries(dir.value), [RootChild(dir.value)], {}, map[]) == Some(c.streams)
    requires c.sectorSize == SectorSize(data) && c.miniCutoff == Word32(data, 0x38) && c.fat == fat
    ensures Open(data) == Opened(c)
  {
    hide FatOf, Chain, Entries, MiniOf, Word32, Dir.Walk, RootChild;
  }
}
