/** Directory entries as they are written: a stream is indexed under the text its name spells, with its own place. */
module CompoundNames {
  import opened Sequences
  import opened Outcomes
  import opened CompoundFile
  import opened CompoundOpen
  import Dir = CompoundDirectory

  // ---- text as 16-bit units ----

  /** One unit below 0x10000, and two halves of a pair above. */
  function UnitsOfChar(c: char): (u: seq<nat>)
    ensures forall k :: 0 <= k < |u| ==> u[k] < 0x1_0000
  {
    var n := c as int;
    if n < 0x1_0000 then [n] else [0xD800 + (n - 0x1_0000) / 0x400, 0xDC00 + (n - 0x1_0000) % 0x400]
  }

  function UnitsOf(text: string): (u: seq<nat>)
    ensures forall k :: 0 <= k < |u| ==> u[k] < 0x1_0000
  {
    if text == "" then [] else UnitsOfChar(text[0]) + UnitsOf(text[1..])
  }

  lemma OneCharIsRead(c: char, rest: seq<nat>)
    requires forall k :: 0 <= k < |rest| ==> rest[k] < 0x1_0000
    ensures Utf16(UnitsOfChar(c) + rest) == [c] + Utf16(rest)
  {
    var n, u := c as int, UnitsOfChar(c) + rest;
    if n < 0x1_0000 {
      assert u[0] == n && u[1..] == rest;
    } else {
      var h, l := 0xD800 + (n - 0x1_0000) / 0x400, 0xDC00 + (n - 0x1_0000) % 0x400;
      assert u == [h, l] + rest && u[0] == h && u[1] == l && u[2..] == rest;
      PairOf(n);
      ReadPair(u, c);
    }
  }

  lemma PairOf(n: nat)
    requires 0x1_0000 <= n < 0x11_0000
    ensures var h, l := 0xD800 + (n - 0x1_0000) / 0x400, 0xDC00 + (n - 0x1_0000) % 0x400;
            0xD800 <= h < 0xDC00 <= l < 0xE000 && 0x1_0000 + (h - 0xD800) * 0x400 + (l - 0xDC00) == n
  {
  }

  lemma ReadPair(u: seq<nat>, c: char)
    requires (forall k :: 0 <= k < |u| ==> u[k] < 0x1_0000) && |u| >= 2 && 0xD800 <= u[0] < 0xDC00 <= u[1] < 0xE000
    requires 0x1_0000 + (u[0] - 0xD800) * 0x400 + (u[1] - 0xDC00) == c as int
    ensures Utf16(u) == [c] + Utf16(u[2..])
  {
  }

  /** Decoding the units of a text gives the text. */
  lemma {:induction false} Utf16InvertsUnits(text: string)
    ensures Utf16(UnitsOf(text)) == text
  {
    if text != "" {
      Utf16InvertsUnits(text[1..]);
      OneCharIsRead(text[0], UnitsOf(text[1..]));
      assert text == [text[0]] + text[1..];
    }
  }

  /** Half of a pair alone cannot come from a text; it is read as the replacement character. */
  predicate Lone(u: seq<nat>) {
    u != [] && 0xD800 <= u[0] < 0xE000 && !(u[0] < 0xDC00 && |u| > 1 && 0xDC00 <= u[1] < 0xE000)
  }

  predicate HasLone(u: seq<nat>) {
    u != [] && (Lone(u) || HasLone(if 0xD800 <= u[0] < 0xDC00 && |u| > 1 then u[2..] else u[1..]))
  }

  /** What the first units are read as, and how many they are. */
  lemma FirstChar(u: seq<nat>) returns (c: char, n: nat)
    requires u != [] && forall k :: 0 <= k < |u| ==> u[k] < 0x1_0000
    ensures 1 <= n <= 2 && n <= |u| && Utf16(u) == [c] + Utf16(u[n..])
    ensures Lone(u) ==> UnitsOfChar(c) == [0xFFFD] && u[0] != 0xFFFD
    ensures !Lone(u) ==> UnitsOfChar(c) == u[..n] && (HasLone(u) <==> HasLone(u[n..]))
  {
    if 0xD800 <= u[0] < 0xDC00 && |u| > 1 && 0xDC00 <= u[1] < 0xE000 {
      n := 2;
      c := CharOfPair(u[0], u[1]);
      ReadPair(u, c);
      assert u[..2] == [u[0], u[1]];
    } else {
      n := 1;
      c := if 0xD800 <= u[0] < 0xE000 then '\U{FFFD}' else u[0] as char;
      assert u[..1] == [u[0]];
    }
  }

  lemma CharOfPair(h: nat, l: nat) returns (c: char)
    requires 0xD800 <= h < 0xDC00 <= l < 0xE000
    ensures c as int == 0x1_0000 + (h - 0xD800) * 0x400 + (l - 0xDC00) && UnitsOfChar(c) == [h, l]
  {
    var n := (h - 0xD800) * 0x400 + (l - 0xDC00);
    assert n / 0x400 == h - 0xD800 && n % 0x400 == l - 0xDC00;
    c := (0x1_0000 + n) as char;
  }

  lemma UnitsFirst(c: char, rest: string)
    ensures UnitsOf([c] + rest) == UnitsOfChar(c) + UnitsOf(rest)
  {
    assert ([c] + rest)[1..] == rest;
  }

  lemma NoUnits()
    ensures UnitsOf(Utf16([])) == [] && !HasLone([])
  {
  }

  lemma LoneIsOne(u: seq<nat>)
    ensures Lone(u) ==> HasLone(u)
  {
  }

  lemma {:induction false} UnitsInvertUtf16(u: seq<nat>)
    requires forall k :: 0 <= k < |u| ==> u[k] < 0x1_0000
    ensures UnitsOf(Utf16(u)) == u <==> !HasLone(u)
    decreases |u|
  {
    hide Utf16, UnitsOf, UnitsOfChar, HasLone, Lone;
    if u == [] {
      NoUnits();
    } else {
      var c, n := FirstChar(u);
      UnitsFirst(c, Utf16(u[n..]));
      if Lone(u) {
        LoneIsOne(u);
        assert UnitsOf(Utf16(u))[0] == 0xFFFD;
      } else {
        UnitsInvertUtf16(u[n..]);
        SameTail(u[..n], UnitsOf(Utf16(u[n..])), u[n..]);
        assert u == u[..n] + u[n..];
      }
    }
  }

  lemma SameTail(a: seq<nat>, b: seq<nat>, c: seq<nat>)
    ensures a + b == a + c <==> b == c
  {
    assert (a + b)[|a|..] == b && (a + c)[|a|..] == c;
  }

  // ---- bytes, the low ones first ----

  function Le16(v: nat): (b: seq<Byte>)
    requires v < 0x1_0000
    ensures |b| == 2
  {
    [(v % 0x100) as Byte, (v / 0x100) as Byte]
  }

  function Le32(v: nat): (b: seq<Byte>)
    requires v < 0x1_0000_0000
    ensures |b| == 4
  {
    Le16(v % 0x1_0000) + Le16(v / 0x1_0000)
  }

  lemma WordsInvertBytes(s: seq<Byte>, at: nat)
    ensures at + 2 <= |s| ==> forall v: nat :: v < 0x1_0000 ==> (s[at..at + 2] == Le16(v) <==> Word16(s, at) == v)
    ensures at + 4 <= |s| ==> forall v: nat :: v < 0x1_0000_0000 ==> (s[at..at + 4] == Le32(v) <==> Word32(s, at) == v)
  {
    if at + 2 <= |s| {
      Word16Bytes(s, at);
    }
    if at + 4 <= |s| {
      Word16Bytes(s, at + 2);
      assert s[at..at + 4] == s[at..at + 2] + s[at + 2..at + 4];
      forall v: nat | v < 0x1_0000_0000
        ensures s[at..at + 4] == Le32(v) <==> Word32(s, at) == v
      {
        hide Word16, Le16;
        var lo, hi := v % 0x1_0000, v / 0x1_0000;
        assert s[at..at + 4][..2] == s[at..at + 2] && s[at..at + 4][2..] == s[at + 2..at + 4];
        assert Le32(v)[..2] == Le16(lo) && Le32(v)[2..] == Le16(hi);
        Word16Bound(s, at);
        Word16Bound(s, at + 2);
      }
    }
  }

  lemma Word16Bytes(s: seq<Byte>, at: nat)
    requires at + 2 <= |s|
    ensures forall v: nat :: v < 0x1_0000 ==> (s[at..at + 2] == Le16(v) <==> Word16(s, at) == v)
  {
    assert s[at..at + 2] == [s[at], s[at + 1]];
  }

  lemma Word16Bound(s: seq<Byte>, at: nat)
    requires at + 2 <= |s|
    ensures Word16(s, at) < 0x1_0000
  {
  }

  function LowFirst(u: seq<nat>): (b: seq<Byte>)
    requires forall k :: 0 <= k < |u| ==> u[k] < 0x1_0000
    ensures |b| == 2 * |u|
  {
    if u == [] then [] else LowFirst(u[..|u| - 1]) + Le16(u[|u| - 1])
  }

  lemma {:induction false} LowFirstAt(u: seq<nat>, k: nat)
    requires forall k :: 0 <= k < |u| ==> u[k] < 0x1_0000
    requires k < |u|
    ensures LowFirst(u)[2 * k..2 * k + 2] == Le16(u[k])
  {
    hide Le16;
    if k < |u| - 1 {
      LowFirstAt(u[..|u| - 1], k);
      assert LowFirst(u)[2 * k..2 * k + 2] == LowFirst(u[..|u| - 1])[2 * k..2 * k + 2];
    }
  }

  /** A file that opens begins with the signature, and its sectors have the size its version goes with; the mini
      sectors have 64 bytes. */
  lemma OpenedHeader(data: seq<Byte>, c: Image)
    requires Open(data) == Opened(c)
    ensures |data| >= 512 && data[..8] == [0xD0, 0xCF, 0x11, 0xE0, 0xA1, 0xB1, 0x1A, 0xE1] && data[32..34] == Le16(6)
    ensures if c.sectorSize == 512 then data[30..32] == Le16(9) else c.sectorSize == 4096 && data[30..32] == Le16(12)
    ensures c.miniCutoff < 0x1_0000_0000 && data[56..60] == Le32(c.miniCutoff)
  {
    hide FatOf, Chain, Entries, MiniOf, Word32, Dir.Walk, RootChild, Word16, Le16, Le32;
    WordsInvertBytes(data, 30);
    WordsInvertBytes(data, 32);
    WordsInvertBytes(data, 56);
    Word32Bound(data, 56);
  }

  lemma Word32Bound(s: seq<Byte>, at: nat)
    requires at + 4 <= |s|
    ensures Word32(s, at) < 0x1_0000_0000
  {
  }

  // ---- a stream's directory entry ----

  /** The entry of a stream, as [MS-CFB], section 2.6.1, lays it out: a name, its length in bytes with a closing
      zero, the kind, the links to its siblings, and where the stream begins and how long it is. */
  ghost predicate IsStreamEntry(e: seq<Byte>, name: string, left: nat, right: nat, start: nat, size: nat) {
    var u := UnitsOf(name);
    && |e| == 128 && |u| <= 31
    && left < 0x1_0000_0000 && right < 0x1_0000_0000 && start < 0x1_0000_0000 && size < 0x1_0000_0000
    && e[..2 * |u|] == LowFirst(u) && e[64..66] == Le16(2 * (|u| + 1)) && e[66] == 2
    && e[68..72] == Le32(left) && e[72..76] == Le32(right) && e[116..120] == Le32(start) && e[120..124] == Le32(size)
  }

  lemma NameIsRead(e: seq<Byte>, name: string)
    requires |e| == DIR_ENTRY && |UnitsOf(name)| <= 31 && e[..2 * |UnitsOf(name)|] == LowFirst(UnitsOf(name))
    ensures Utf16(Units(e, 2 * (|UnitsOf(name)| + 1))) == name
  {
    hide UnitsOf, Word16, LowFirst, Utf16, Le16;
    var u := UnitsOf(name);
    var read := Units(e, 2 * (|u| + 1));
    forall k | 0 <= k < |u|
      ensures read[k] == u[k]
    {
      LowFirstAt(u, k);
      assert e[2 * k..2 * k + 2] == e[..2 * |u|][2 * k..2 * k + 2];
      WordsInvertBytes(e, 2 * k);
    }
    assert read == u;
    Utf16InvertsUnits(name);
  }

  /** The entry of a stream is read as what it was written from. */
  lemma StreamEntryIsRead(dir: seq<Byte>, i: nat, name: string, left: nat, right: nat, start: nat, size: nat)
    requires (i + 1) * DIR_ENTRY <= |dir|
    requires IsStreamEntry(dir[i * DIR_ENTRY..(i + 1) * DIR_ENTRY], name, left, right, start, size)
    ensures EntryAt(dir, i) ==
            Dir.Entry(Dir.TYPE_STREAM, 2 * (|UnitsOf(name)| + 1), name, left, right, Dir.StreamRef(start, size))
  {
    hide UnitsOf, Word16, Word32, LowFirst, Le16, Le32, Units, Utf16;
    var e := dir[i * DIR_ENTRY..(i + 1) * DIR_ENTRY];
    WordsInvertBytes(e, 64);
    WordsInvertBytes(e, 68);
    WordsInvertBytes(e, 72);
    WordsInvertBytes(e, 116);
    WordsInvertBytes(e, 120);
    NameIsRead(e, name);
  }

  /** The directory of a file that opens. */
  function DirectoryOf(data: seq<Byte>, c: Image): Option<seq<Byte>>
    requires HasHeader(data)
  {
    Chain(Whole(data, c.fat), Word32(data, 0x30), -1)
  }

  lemma OpenedDirectory(data: seq<Byte>, c: Image)
    requires Open(data) == Opened(c)
    ensures HasHeader(data) && DirectoryOf(data, c).Some?
    ensures var dir := DirectoryOf(data, c).value;
            |dir| / DIR_ENTRY > 0 && Dir.Walk(Entries(dir), [RootChild(dir)], {}, map[]) == Some(c.streams)
  {
    hide FatOf, Chain, Entries, MiniOf, Word32, Dir.Walk, RootChild, Word16;
  }

  /** A stream of an opened file is found under the text its entry spells, with the place its entry gives, unless one
      visited later has the same name; and no other name is found. */
  lemma NamesAreIndexed(data: seq<Byte>, c: Image)
    requires Open(data) == Opened(c)
    ensures HasHeader(data) && DirectoryOf(data, c).Some?
    ensures var dir := DirectoryOf(data, c).value;
            |dir| / DIR_ENTRY > 0 &&
            exists t :: Dir.Legal(Entries(dir), t, RootChild(dir)) && c.streams == Dir.Index(Entries(dir), Dir.Visits(t), map[])
  {
    hide Open, Entries, Dir.Walk, RootChild, Dir.Legal, Dir.Index;
    OpenedDirectory(data, c);
    var dir := DirectoryOf(data, c).value;
    Dir.DirectoryIsRead(Entries(dir), RootChild(dir));
    var t :| Dir.Legal(Entries(dir), t, RootChild(dir));
    assert c.streams == Dir.Index(Entries(dir), Dir.Visits(t), map[]);
  }

  /** The k-th entry visited is that of a stream with this name and place. */
  ghost predicate Written(dir: seq<Byte>, visits: seq<nat>, k: nat, name: string, ref: Dir.StreamRef) {
    k < |visits| && (visits[k] + 1) * DIR_ENTRY <= |dir|
    && IsStreamAt(dir[visits[k] * DIR_ENTRY..(visits[k] + 1) * DIR_ENTRY], name, ref)
  }

  ghost predicate IsStreamAt(e: seq<Byte>, name: string, ref: Dir.StreamRef) {
    exists left, right :: IsStreamEntry(e, name, left, right, ref.start, ref.size)
  }

  /** No stream visited after the k-th is read as this name. */
  ghost predicate LastOfName(dir: seq<Byte>, visits: seq<nat>, k: nat, name: string) {
    forall j :: k < j < |visits| && visits[j] < |Entries(dir)| && Entries(dir)[visits[j]].kind == Dir.TYPE_STREAM ==>
      Entries(dir)[visits[j]].name != name
  }

  lemma WrittenIsIndexed(data: seq<Byte>, c: Image, t: Dir.Tree, k: nat, name: string, ref: Dir.StreamRef)
    requires Open(data) == Opened(c) && HasHeader(data) && DirectoryOf(data, c).Some?
    requires var dir := DirectoryOf(data, c).value;
             |dir| / DIR_ENTRY > 0 && Dir.Legal(Entries(dir), t, RootChild(dir))
             && Written(dir, Dir.Visits(t), k, name, ref) && LastOfName(dir, Dir.Visits(t), k, name)
    ensures name in c.streams && c.streams[name] == ref
  {
    hide Open, Dir.Walk, RootChild, Dir.Legal, Dir.Index, Dir.Visits, IsStreamEntry, EntryAt;
    OpenedDirectory(data, c);
    var dir := DirectoryOf(data, c).value;
    var es, visits := Entries(dir), Dir.Visits(t);
    Dir.DirectoryIsRead(es, RootChild(dir));
    var i := visits[k];
    var left, right :| IsStreamEntry(dir[i * DIR_ENTRY..(i + 1) * DIR_ENTRY], name, left, right, ref.start, ref.size);
    StreamEntryIsRead(dir, i, name, left, right, ref.start, ref.size);
    EntryFits(dir, i);
    assert es[i] == EntryAt(dir, i);
    LaterNames(es, visits, k, name);
    Dir.StreamIsFound(es, visits, map[], k);
  }

  lemma EntryFits(dir: seq<Byte>, i: nat)
    requires (i + 1) * DIR_ENTRY <= |dir|
    ensures i < |dir| / DIR_ENTRY
  {
  }

  lemma LaterNames(es: seq<Dir.Entry>, visits: seq<nat>, k: nat, name: string)
    requires k < |visits|
    requires forall j :: k < j < |visits| && visits[j] < |es| && es[visits[j]].kind == Dir.TYPE_STREAM ==> es[visits[j]].name != name
    ensures Dir.Unnamed(es, visits[k + 1..], name)
  {
    var later := visits[k + 1..];
    assert forall j :: 0 <= j < |later| ==> later[j] == visits[k + 1 + j];
  }
}
