/** A value in normal form is read back from the lines it is written on. */
module SourceValues {
  import opened Outcomes
  import opened SourceText
  import opened SourceMarkers
  import opened SourceCounters
  import opened SourceParser
  import opened SourceComposer

  // ---- normal form ----

  ghost predicate Clean(lines: seq<string>) {
    AllTidy(lines) && forall k :: 0 <= k < |lines| ==> NoCounter(lines[k])
  }

  /** No line from `from` on opens with a dash. */
  predicate DashFree(lines: seq<string>, from: nat) {
    forall k :: from <= k < |lines| ==> !IsDash(lines[k])
  }

  ghost predicate CleanText(s: string) {
    Clean(Lines(s)) && DashFree(Lines(s), 0)
  }

  /** The first line of an item comes after its own dash, and may open with another. */
  ghost predicate CleanItem(s: string) {
    Clean(Lines(s)) && DashFree(Lines(s), 1)
  }

  ghost predicate CleanItems(items: seq<string>) {
    forall k :: 0 <= k < |items| ==> CleanItem(items[k])
  }

  /** Tidy lines without counters and dashes, and lists of two items or more. */
  ghost predicate NormalValue(v: Value) {
    match v
    case Text(s) => CleanText(s)
    case Items(items) => |items| >= 2 && CleanItems(items)
    case Intro(intro, items) => CleanText(intro) && |items| >= 2 && CleanItems(items)
    case Whole(_) => false
  }

  // ---- the lines of a value ----

  function RawItems(items: seq<string>): seq<string> {
    if items == [] then []
    else var ls := Lines(items[0]); ["- " + ls[0]] + ls[1..] + RawItems(items[1..])
  }

  /** The lines a value stands for. */
  function RawLines(v: Value): (r: seq<string>)
    ensures r != []
  {
    match v
    case Text(s) => Lines(s)
    case Items(items) => [""] + RawItems(items)
    case Intro(intro, items) => Lines(intro) + RawItems(items)
    case Whole(n) => [Decimal(n)]
  }

  function Escaped(lines: seq<string>): (r: seq<string>)
    ensures |r| == |lines| && forall k :: 0 <= k < |lines| ==> r[k] == EscapeLine(lines[k])
  {
    seq(|lines|, k requires 0 <= k < |lines| => EscapeLine(lines[k]))
  }

  lemma EscapedBoth(a: seq<string>, b: seq<string>)
    ensures Escaped(a + b) == Escaped(a) + Escaped(b)
  {
  }

  lemma EscapeTailIs(lines: seq<string>)
    requires lines != []
    ensures EscapeTail(lines) == [lines[0]] + Escaped(lines[1..])
  {
  }

  /** Escaping keeps a line tidy and free of counters. */
  lemma EscapedIsTidy(l: string)
    requires Tidy(l)
    ensures Tidy(EscapeLine(l)) && (NoCounter(l) ==> NoCounter(EscapeLine(l)))
  {
    hide LooksLikeMarker;
    if LooksLikeMarker(l) {
      assert EscapeLine(l) == "\\" + l;
      if NoCounter(l) {
        ShortHasNoCounter("");
        NoCounterTogether("", '\\', l);
        assert "" + ['\\'] + l == "\\" + l;
      }
    }
  }

  /** A list item's first line does not look like a marker. */
  lemma DashLine(l: string)
    requires Tidy(l)
    ensures Tidy("- " + l) && IsDash("- " + l) && EscapeLine("- " + l) == "- " + l
    ensures NoCounter(l) ==> NoCounter("- " + l)
  {
    FirstFieldIs("-", " " + l);
    assert "-" + (" " + l) == "- " + l;
    DashIsNoMarker();
    ShortHasNoCounter("-");
    if NoCounter(l) {
      NoCounterTogether("-", ' ', l);
      assert "-" + [' '] + l == "- " + l;
    }
  }

  lemma {:induction false} RawItemsAreClean(items: seq<string>)
    requires CleanItems(items) && items != []
    ensures Clean(RawItems(items)) && IsDash(RawItems(items)[0])
  {
    var ls, more := Lines(items[0]), RawItems(items[1..]);
    assert CleanItem(items[0]);
    DashLine(ls[0]);
    if |items| > 1 {
      RawItemsAreClean(items[1..]);
    }
    var all := RawItems(items);
    assert all == ["- " + ls[0]] + ls[1..] + more;
    forall k | 0 <= k < |all|
      ensures Tidy(all[k]) && NoCounter(all[k])
    {
      if 0 < k < |ls| {
        assert all[k] == ls[k];
      } else if k >= |ls| {
        assert all[k] == more[k - |ls|];
      }
    }
  }

  /** All lines of a normal value but an empty first one are tidy and without counters. */
  lemma RawLinesAreClean(v: Value)
    requires NormalValue(v)
    ensures var r := RawLines(v);
            && (forall k :: 0 < k < |r| ==> Tidy(r[k]) && NoCounter(r[k]))
            && (r[0] == "" || Tidy(r[0])) && NoCounter(r[0]) && (r[0] == "" ==> |r| > 1)
            && (v.Items? || Tidy(r[0]))
  {
    ShortHasNoCounter("");
    match v {
      case Text(s) =>
      case Items(items) => RawItemsAreClean(items);
      case Intro(intro, items) => RawItemsAreClean(items);
    }
  }

  // ---- printing ----

  lemma DoubleBreakLines(s: string)
    requires |s| > 1 && s[0] == '\n' && s[1] == '\n'
    ensures |Lines(s)| > 2 && Lines(s)[1] == ""
  {
    assert Lines(s[1..]) == [""] + Lines(s[1..][1..]);
  }

  /** Text without empty lines inside has no run of line breaks. */
  lemma {:induction false} NothingToSqueeze(s: string)
    requires forall k :: 0 < k < |Lines(s)| - 1 ==> Lines(s)[k] != ""
    ensures Squeezed(s) == s
  {
    if |s| == 1 {
      assert Squeezed(s[1..]) == "";
    } else if |s| > 1 {
      var r, t := Lines(s[1..]), s[1..];
      if s[0] == '\n' {
        assert Lines(s) == [""] + r;
        if t[0] == '\n' {
          DoubleBreakLines(s);
          assert false;
        }
        forall k | 0 < k < |r| - 1
          ensures r[k] != ""
        {
          assert r[k] == Lines(s)[k + 1];
        }
      } else {
        assert Lines(s) == [[s[0]] + r[0]] + r[1..];
        forall k | 0 < k < |r| - 1
          ensures r[k] != ""
        {
          assert r[k] == Lines(s)[k];
        }
      }
      NothingToSqueeze(t);
    }
  }

  /** A clean text is written line by line, with its marker-like lines escaped. */
  lemma CleanValueLines(s: string)
    requires AllTidy(Lines(s))
    ensures Lines(CleanValue(s)) == EscapeTail(Lines(s))
  {
    NothingToSqueeze(s);
    var e := EscapeTail(Lines(s));
    forall k | 0 <= k < |e|
      ensures OneLine(e[k])
    {
      EscapedIsTidy(Lines(s)[k]);
    }
    LinesOfJoined(e);
  }

  /** The lines of one item. */
  function OwnLines(item: string): seq<string> {
    ["- " + Lines(item)[0]] + Lines(item)[1..]
  }

  lemma FirstItemLines(item: string)
    requires CleanItem(item)
    ensures Lines("- " + CleanValue(item)) == Escaped(OwnLines(item))
  {
    hide CleanValue, EscapeLine, NoCounter, IsDash, Lines;
    var ls := Lines(item);
    CleanValueLines(item);
    LinesOfPrefixed("- ", CleanValue(item));
    EscapeTailIs(ls);
    DashLine(ls[0]);
    assert OwnLines(item)[1..] == ls[1..];
  }

  lemma NoItems()
    ensures RawItems([]) == []
  {
  }

  lemma RawItemsBegin(items: seq<string>)
    requires items != []
    ensures RawItems(items) == OwnLines(items[0]) + RawItems(items[1..])
  {
    hide Lines;
  }

  lemma JoinItemsBegin(items: seq<string>)
    requires items != []
    ensures JoinItems(items) ==
            if |items| == 1 then CleanValue(items[0]) else CleanValue(items[0]) + "\n- " + JoinItems(items[1..])
  {
    hide CleanValue;
  }

  lemma DashBetween(a: string, b: string)
    ensures "- " + (a + "\n- " + b) == "- " + a + "\n" + ("- " + b)
  {
  }

  lemma {:induction false} JoinItemsLines(items: seq<string>)
    requires CleanItems(items) && items != []
    ensures Lines("- " + JoinItems(items)) == Escaped(RawItems(items))
  {
    hide Lines, CleanValue, NoCounter, IsDash, JoinItems, RawItems, OwnLines, EscapeLine;
    FirstItemLines(items[0]);
    RawItemsBegin(items);
    JoinItemsBegin(items);
    if |items| == 1 {
      NoItems();
      assert items[1..] == [] && OwnLines(items[0]) + [] == OwnLines(items[0]);
    } else {
      JoinItemsLines(items[1..]);
      DashBetween(CleanValue(items[0]), JoinItems(items[1..]));
      LinesOfBoth("- " + CleanValue(items[0]), "- " + JoinItems(items[1..]));
      EscapedBoth(OwnLines(items[0]), RawItems(items[1..]));
    }
  }

  lemma ItemsLines(items: seq<string>)
    requires items != [] && CleanItems(items)
    ensures Lines("\n- " + JoinItems(items)) == [""] + Escaped(RawItems(items))
  {
    hide EscapeLine, JoinItems, RawItems, Clean;
    JoinItemsLines(items);
    LinesOfBoth("", "- " + JoinItems(items));
    assert "\n- " + JoinItems(items) == "" + "\n" + ("- " + JoinItems(items));
  }

  lemma IntroLines(intro: string, items: seq<string>)
    requires CleanText(intro) && items != [] && CleanItems(items)
    ensures Lines(CleanValue(intro) + "\n- " + JoinItems(items)) == EscapeTail(Lines(intro) + RawItems(items))
  {
    hide CleanValue, EscapeLine, JoinItems, RawItems, Clean, Lines;
    TidyOf(intro);
    JoinItemsLines(items);
    CleanValueLines(intro);
    LinesOfBoth(CleanValue(intro), "- " + JoinItems(items));
    assert CleanValue(intro) + "\n- " + JoinItems(items) == CleanValue(intro) + "\n" + ("- " + JoinItems(items));
    TailTogether(Lines(intro), RawItems(items));
  }

  lemma TailTogether(a: seq<string>, b: seq<string>)
    requires a != []
    ensures EscapeTail(a + b) == EscapeTail(a) + Escaped(b)
  {
    hide EscapeLine;
    assert forall k :: |a| <= k < |a + b| ==> (a + b)[k] == b[k - |a|];
  }

  /** A normal value is written on its own lines, escaped after the first. */
  lemma FormatLines(v: Value)
    requires NormalValue(v)
    ensures Lines(FormatElement(v)) == EscapeTail(RawLines(v))
  {
    hide CleanValue, EscapeLine, JoinItems, RawItems, Clean, Lines;
    match v {
      case Text(s) =>
        TidyOf(s);
        CleanValueLines(s);
      case Items(items) =>
        ItemsLines(items);
        EscapeTailIs([""] + RawItems(items));
        assert ([""] + RawItems(items))[1..] == RawItems(items);
      case Intro(intro, items) =>
        IntroLines(intro, items);
    }
  }

  lemma TidyOf(s: string)
    requires CleanText(s)
    ensures AllTidy(Lines(s))
  {
  }

  // ---- reading lines ----

  lemma RewIsNotEmpty(s: string)
    requires s != "" && !IsSpace(s[0])
    ensures Rew(s) != ""
  {
    RightKeepsHead(s);
  }

  lemma {:induction false} RightKeepsHead(s: string)
    requires s != "" && !IsSpace(s[0])
    ensures WithoutRight(s) != "" && WithoutRight(s)[0] == s[0]
  {
    if IsPadding(s[|s| - 1]) {
      RightKeepsHead(s[..|s| - 1]);
    }
  }

  /** A line with a marker begins an element. */
  lemma HeadLine(raws: seq<Raw>, m: string, k: Kind, h: string)
    requires KindOf(m) == Some(k) && (h == "" || Tidy(h))
    ensures AddLine(raws, m + " " + h) == raws + [Raw(k, h)]
  {
    hide KindOf, Rew;
    MarkersArePlain(m);
    var line := m + " " + h;
    FirstFieldIs(m, " " + h);
    assert line == m + (" " + h);
    assert line[0] == m[0];
    RewIsNotEmpty(line);
    assert line[|m|..] == " " + h;
    if h == "" {
      assert " " + h == " ";
      RewOfBlank();
    } else {
      TidyLineStays(h);
    }
  }

  lemma RewOfBlank()
    ensures Rew(" ") == "" && Rew("") == ""
  {
    assert " "[1..] == "";
  }

  /** An escaped line is taken into the element before it as it was. */
  lemma NextLine(raws: seq<Raw>, last: Raw, l: string)
    requires Tidy(l)
    ensures AddLine(raws + [last], EscapeLine(l)) == raws + [Raw(last.kind, last.content + "\n" + l)]
  {
    hide KindOf, Rew, EscapeLine, UnescapeLine;
    var e := EscapeLine(l);
    EscapedIsTidy(l);
    TidyLineStays(e);
    EscapedIsNoMarker(l);
    UnescapeInvertsEscape(l);
    assert e[0..] == e;
  }

  lemma {:induction false} NextLines(raws: seq<Raw>, last: Raw, lines: seq<string>)
    requires AllTidy(lines)
    ensures AddLines(raws + [last], Escaped(lines)) == raws + [Raw(last.kind, last.content + "\n" + Joined(lines))]
    decreases |lines|
  {
    hide AddLine, EscapeLine;
    NextLine(raws, last, lines[0]);
    assert Escaped(lines)[1..] == Escaped(lines[1..]);
    var next := Raw(last.kind, last.content + "\n" + lines[0]);
    if |lines| > 1 {
      NextLines(raws, next, lines[1..]);
      assert next.content + "\n" + Joined(lines[1..]) == last.content + "\n" + Joined(lines);
    }
  }

  /** The lines an element is written on. */
  function ValueLines(m: string, v: Value): seq<string> {
    [m + " " + RawLines(v)[0]] + Escaped(RawLines(v)[1..])
  }

  /** The written lines of a value are read as one raw element with the value's own lines. */
  lemma ValueIsRead(raws: seq<Raw>, m: string, k: Kind, v: Value)
    requires KindOf(m) == Some(k) && NormalValue(v)
    ensures AddLines(raws, ValueLines(m, v)) == raws + [Raw(k, Joined(RawLines(v)))]
  {
    hide AddLine, EscapeLine, KindOf, RawLines;
    var r := RawLines(v);
    RawLinesAreClean(v);
    HeadLine(raws, m, k, r[0]);
    assert ValueLines(m, v)[1..] == Escaped(r[1..]);
    if |r| > 1 {
      NextLines(raws, Raw(k, r[0]), r[1..]);
    } else {
      assert Escaped(r[1..]) == [];
    }
  }

  // ---- reading lists ----

  lemma {:induction false} JoinedPrefixed(p: string, lines: seq<string>)
    requires lines != []
    ensures Joined([p + lines[0]] + lines[1..]) == p + Joined(lines)
  {
    assert ([p + lines[0]] + lines[1..])[1..] == lines[1..];
  }

  lemma CleanIsTidy(lines: seq<string>)
    requires Clean(lines)
    ensures AllTidy(lines)
  {
  }

  lemma OneItem(s: string)
    requires CleanItem(s)
    ensures var ls := Lines(s); Item(Joined(["- " + ls[0]] + ls[1..])) == s
  {
    hide Rew, Joined, Lines, Clean, DashFree;
    var ls := Lines(s);
    CleanIsTidy(ls);
    JoinedPrefixed("- ", ls);
    JoinedLines(s);
    assert ("- " + s)[1..] == " " + s;
    TidyStays(ls);
  }

  lemma FirstChunk(head: string, tail: seq<string>, more: seq<string>)
    requires DashFree(tail, 0) && (more != [] ==> IsDash(more[0]))
    ensures Chunks([head] + tail + more) == [Item(Joined([head] + tail))] + Chunks(more)
  {
    hide Item, IsDash, Joined;
    var all := [head] + tail + more;
    assert all[1..] == tail + more;
    NextDashIs(tail + more, |tail|);
    assert all[..1 + |tail|] == [head] + tail && all[1 + |tail|..] == more;
  }

  /** The items are cut apart where they were joined. */
  lemma {:induction false} ChunksAreItems(items: seq<string>)
    requires CleanItems(items)
    ensures Chunks(RawItems(items)) == items
  {
    hide Item, IsDash, Joined, Clean;
    if items != [] {
      var ls, more := Lines(items[0]), RawItems(items[1..]);
      assert CleanItem(items[0]);
      assert DashFree(ls[1..], 0);
      if |items| > 1 {
        RawItemsAreClean(items[1..]);
      }
      FirstChunk("- " + ls[0], ls[1..], more);
      OneItem(items[0]);
      ChunksAreItems(items[1..]);
    }
  }

  lemma TrimmedStays(lines: seq<string>)
    requires forall k :: 0 <= k < |lines| ==> lines[k] == "" || Tidy(lines[k])
    ensures Trimmed(lines) == lines
  {
    hide Rew;
    forall k | 0 <= k < |lines|
      ensures Rew(lines[k]) == lines[k]
    {
      if lines[k] == "" {
        RewOfBlank();
      } else {
        TidyLineStays(lines[k]);
      }
    }
  }

  /** A list: the lines before the first dash introduce it. */
  lemma ListIsRead(intro: seq<string>, items: seq<string>)
    requires intro == [""] || (AllTidy(intro) && DashFree(intro, 0))
    requires |items| >= 2 && CleanItems(items)
    ensures Listed(Joined(intro + RawItems(items))) == if intro == [""] then Items(items) else Intro(Joined(intro), items)
  {
    hide Rew, Joined, Lines, Chunks, RawItems, WithoutDashes, Clean;
    var raw := RawItems(items);
    var all := intro + raw;
    RawItemsAreClean(items);
    ListLines(intro, raw);
    NextDashIs(all, |intro|);
    assert all[..|intro|] == intro && all[|intro|..] == raw;
    ChunksAreItems(items);
    JoinedIsEmpty(intro);
  }

  lemma JoinedIsEmpty(intro: seq<string>)
    requires intro == [""] || AllTidy(intro)
    ensures Joined(intro) == "" <==> intro == [""]
  {
    if intro != [""] {
      TidyIsTight(intro);
    }
  }

  lemma ListLines(intro: seq<string>, raw: seq<string>)
    requires intro == [""] || AllTidy(intro)
    requires Clean(raw) && IsDash(raw[0])
    ensures Lines(Joined(intro + raw)) == intro + raw && Trimmed(intro + raw) == intro + raw
    ensures '-' in Joined(intro + raw)
  {
    hide NoCounter, Lines, IsSpace, Joined, Trimmed;
    var all := intro + raw;
    LinesOfJoined(all);
    TrimmedStays(all);
    DashWithin(intro, raw);
  }

  lemma DashWithin(intro: seq<string>, raw: seq<string>)
    requires intro != [] && raw != [] && IsDash(raw[0])
    ensures '-' in Joined(intro + raw)
  {
    JoinedBoth(intro, raw);
    assert Joined(raw)[0] == '-';
    assert Joined(intro + raw)[|Joined(intro)| + 1] == '-';
  }

  /** A normal value is what its lines are read as. */
  lemma ListedReadsBack(v: Value)
    requires NormalValue(v)
    ensures Listed(Joined(RawLines(v))) == v
  {
    hide Rew, Joined, RawItems, Chunks, WithoutDashes, Clean;
    match v {
      case Text(s) =>
        TidyOf(s);
        JoinedLines(s);
        TrimmedStays(Lines(s));
        NextDashIs(Lines(s), |Lines(s)|);
      case Items(items) =>
        ListIsRead([""], items);
      case Intro(intro, items) =>
        TidyOf(intro);
        LinesNotBlank(intro);
        ListIsRead(Lines(intro), items);
        JoinedLines(intro);
    }
  }

  lemma LinesNotBlank(s: string)
    requires AllTidy(Lines(s))
    ensures Lines(s) != [""]
  {
    assert Tidy(Lines(s)[0]);
  }
}
