/** Sources that are not as the printer writes them: lists of one item, labels on lists, marks at the head of a file,
    a missing last line break, and questions whose numbers are counted from somewhere. */
module SourceLaws {
  import opened Sequences
  import opened Outcomes
  import opened SourceText
  import opened SourceMarkers
  import opened SourceCounters
  import opened SourceParser
  import opened SourceComposer
  import opened SourceValues
  import opened SourceRoundTrip
  import opened SourceReparse
  import opened SourceKeeps
  import opened SourceNumbers
  import opened SourceMerge

  // ---- a list of one item ----

  lemma {:induction false} BlanksEnd(l: string, more: string)
    requires OneLine(l) && (more == "" || more[0] == '\n')
    ensures BlankRun(l + more) == BlankRun(l)
  {
    if l == "" {
      assert l + more == more;
    } else {
      assert (l + more)[1..] == l[1..] + more;
      BlanksEnd(l[1..], more);
    }
  }

  lemma DashEnds(l: string, more: string)
    requires OneLine(l) && (more == "" || more[0] == '\n')
    ensures DashRun(l + more) == DashRun(l)
  {
    if l != "" {
      assert (l + more)[1..] == l[1..] + more;
      BlanksEnd(l[1..], more);
    } else {
      assert l + more == more;
    }
  }

  /** A line without the dash and the blanks it opens with. */
  function WithoutDash(l: string): string {
    l[DashRun(l)..]
  }

  function AllWithoutDash(lines: seq<string>): (r: seq<string>)
    ensures |r| == |lines| && forall k :: 0 <= k < |r| ==> r[k] == WithoutDash(lines[k])
  {
    seq(|lines|, k requires 0 <= k < |lines| => WithoutDash(lines[k]))
  }

  /** What follows the first of the lines. */
  function Following(lines: seq<string>): string {
    if lines == [] then "" else "\n" + Joined(lines)
  }

  lemma JoinedFirst(lines: seq<string>)
    requires lines != []
    ensures Joined(lines) == lines[0] + Following(lines[1..])
  {
    if |lines| > 1 {
      assert Joined(lines) == lines[0] + ("\n" + Joined(lines[1..]));
    } else {
      assert lines[0] + "" == lines[0];
    }
  }

  lemma FollowingFirst(lines: seq<string>)
    requires lines != []
    ensures Following(lines) == "\n" + (lines[0] + Following(lines[1..]))
  {
    JoinedFirst(lines);
  }

  lemma DashesFirst(lines: seq<string>)
    requires lines != []
    ensures AllWithoutDash(lines)[0] == WithoutDash(lines[0]) && AllWithoutDash(lines)[1..] == AllWithoutDash(lines[1..])
  {
  }

  /** One step of removing the dashes of later lines. */
  lemma LaterStep(c: char, t: string)
    ensures WithoutLaterDashes([c] + t) ==
            if c == '\n' then "\n" + WithoutLaterDashes(t[DashRun(t)..]) else [c] + WithoutLaterDashes(t)
  {
    hide DashRun;
    var s := [c] + t;
    assert s[1..] == t && s[1 + DashRun(t)..] == t[DashRun(t)..];
  }

  lemma CutInFront(l: string, more: string)
    requires OneLine(l) && (more == "" || more[0] == '\n')
    ensures (l + more)[DashRun(l + more)..] == WithoutDash(l) + more && OneLine(WithoutDash(l))
  {
    hide DashRun;
    DashEnds(l, more);
  }

  lemma FollowingHead(lines: seq<string>)
    ensures Following(lines) == "" || Following(lines)[0] == '\n'
  {
  }

  lemma {:induction false} LaterDashesGo(l: string, lines: seq<string>)
    requires OneLine(l) && forall k :: 0 <= k < |lines| ==> OneLine(lines[k])
    ensures WithoutLaterDashes(l + Following(lines)) == l + Following(AllWithoutDash(lines))
    decreases |lines|, |l|
  {
    hide DashRun, Following, AllWithoutDash, WithoutLaterDashes, WithoutDash;
    if l != "" {
      LaterDashesGo(l[1..], lines);
      assert l == [l[0]] + l[1..];
      LaterStep(l[0], l[1..] + Following(lines));
      InFront(l[0], l[1..], Following(lines));
      InFront(l[0], l[1..], Following(AllWithoutDash(lines)));
    } else if lines == [] {
      NoneFollow();
    } else {
      var first, rest, less := lines[0], lines[1..], AllWithoutDash(lines);
      FollowingFirst(lines);
      FollowingHead(rest);
      LaterStep('\n', first + Following(rest));
      CutInFront(first, Following(rest));
      LaterDashesGo(WithoutDash(first), rest);
      DashesFirst(lines);
      FollowingFirst(less);
      assert "" + Following(lines) == ['\n'] + (first + Following(rest)) && "" + Following(less) == Following(less);
    }
  }

  lemma InFront(c: char, l: string, more: string)
    ensures [c] + (l + more) == [c] + l + more
  {
  }

  lemma NoneFollow()
    ensures AllWithoutDash([]) == [] && Following([]) == "" && WithoutLaterDashes("" + "") == "" + ""
  {
  }

  /** Removing dashes removes the dash of every line. */
  lemma DashesGo(lines: seq<string>)
    requires lines != [] && forall k :: 0 <= k < |lines| ==> OneLine(lines[k])
    ensures WithoutDashes(Joined(lines)) == Joined(AllWithoutDash(lines))
  {
    hide DashRun, Following, AllWithoutDash, WithoutLaterDashes, WithoutDash, Joined;
    var first, rest, less := lines[0], lines[1..], AllWithoutDash(lines);
    JoinedFirst(lines);
    FollowingHead(rest);
    CutInFront(first, Following(rest));
    LaterDashesGo(WithoutDash(first), rest);
    DashesFirst(lines);
    JoinedFirst(less);
  }

  lemma NoDash(l: string)
    requires !IsDash(l)
    ensures WithoutDash(l) == l
  {
  }

  lemma OneDash(l: string)
    requires Tidy(l)
    ensures WithoutDash("- " + l) == l
  {
    var s := "- " + l;
    assert s[1..] == " " + l && (" " + l)[1..] == l && s[2..] == l;
    assert BlankRun(l) == 0;
    assert DashRun(s) == 2;
  }

  /** Lines of which one opens with a dash are no list: the dash goes, and all of them are the text. */
  lemma OneItemIsText(before: seq<string>, item: seq<string>)
    requires (forall k :: 0 <= k < |before| ==> Tidy(before[k]) && !IsDash(before[k]))
    requires AllTidy(item) && forall k :: 0 < k < |item| ==> !IsDash(item[k])
    ensures Listed(Joined(before + ["- " + item[0]] + item[1..])) == Text(Joined(before + item))
  {
    var lines := before + ["- " + item[0]] + item[1..];
    DashedLines(before, item);
    DashesAreGone(before, item);
    TidyAsText(lines, |before|, before + item);
  }

  lemma DashedLines(before: seq<string>, item: seq<string>)
    requires (forall k :: 0 <= k < |before| ==> Tidy(before[k]) && !IsDash(before[k]))
    requires AllTidy(item) && forall k :: 0 < k < |item| ==> !IsDash(item[k])
    ensures var lines := before + ["- " + item[0]] + item[1..];
            AllTidy(lines) && forall k :: 0 <= k < |lines| ==> (IsDash(lines[k]) <==> k == |before|)
  {
    hide Tidy, IsDash;
    var lines := before + ["- " + item[0]] + item[1..];
    DashedIsTidy(item[0]);
    forall k | 0 <= k < |lines|
      ensures Tidy(lines[k]) && (IsDash(lines[k]) <==> k == |before|)
    {
      if k < |before| {
        assert lines[k] == before[k];
      } else if k > |before| {
        assert lines[k] == item[k - |before|];
      }
    }
  }

  lemma TidyAsText(lines: seq<string>, m: nat, all: seq<string>)
    requires AllTidy(lines) && m < |lines| && AllTidy(all) && AllWithoutDash(lines) == all
    requires forall k :: 0 <= k < |lines| ==> (IsDash(lines[k]) <==> k == m)
    ensures Listed(Joined(lines)) == Text(Joined(all))
  {
    hide Rew, Joined, WithoutDashes, Lines, IsDash, Tidy, Chunks, Trimmed, AllWithoutDash, NextDash, Listed;
    LinesOfTidy(lines);
    TrimmedStays(lines);
    NextDashIs(lines, m);
    var rest := lines[m..];
    assert forall k :: 0 < k < |rest| ==> rest[k] == lines[m + k];
    OneChunk(rest);
    DashIsIn(lines, m);
    DashesGo(lines);
    TidyStays(all);
    OneListed(Joined(lines), lines, m);
  }

  lemma OneListed(s: string, lines: seq<string>, m: nat)
    requires '-' in s && Trimmed(Lines(s)) == lines && NextDash(lines) == m < |lines| && |Chunks(lines[m..])| == 1
    ensures Listed(s) == Text(Rew(WithoutDashes(s)))
  {
    hide Rew, WithoutDashes, Lines, IsDash, Chunks, Trimmed, NextDash;
  }

  lemma OneChunk(lines: seq<string>)
    requires lines != [] && forall k :: 0 < k < |lines| ==> !IsDash(lines[k])
    ensures |Chunks(lines)| == 1
  {
    hide Item, Joined, IsDash;
    NextDashIs(lines[1..], |lines| - 1);
  }

  lemma DashesAreGone(before: seq<string>, item: seq<string>)
    requires (forall k :: 0 <= k < |before| ==> Tidy(before[k]) && !IsDash(before[k]))
    requires AllTidy(item) && forall k :: 0 < k < |item| ==> !IsDash(item[k])
    ensures AllWithoutDash(before + ["- " + item[0]] + item[1..]) == before + item && AllTidy(before + item)
  {
    hide WithoutDash, IsDash, Tidy;
    var lines, all := before + ["- " + item[0]] + item[1..], before + item;
    OneDash(item[0]);
    forall k | 0 <= k < |lines|
      ensures AllWithoutDash(lines)[k] == all[k] && Tidy(all[k])
    {
      if k < |before| {
        NoDash(before[k]);
      } else if k > |before| {
        NoDash(item[k - |before|]);
      }
    }
    assert AllWithoutDash(lines) == all;
  }

  lemma DashedIsTidy(l: string)
    requires Tidy(l)
    ensures Tidy("- " + l) && IsDash("- " + l)
  {
  }

  lemma LinesOfTidy(lines: seq<string>)
    requires AllTidy(lines)
    ensures Lines(Joined(lines)) == lines && forall k :: 0 <= k < |lines| ==> OneLine(lines[k])
  {
    hide IsSpace;
    LinesOfJoined(lines);
  }

  lemma {:induction false} DashIsIn(lines: seq<string>, k: nat)
    requires k < |lines| && IsDash(lines[k])
    ensures '-' in Joined(lines)
  {
    JoinedFirst(lines);
    if k == 0 {
      assert Joined(lines)[0] == '-';
    } else {
      DashIsIn(lines[1..], k - 1);
      var i :| 0 <= i < |Joined(lines[1..])| && Joined(lines[1..])[i] == '-';
      assert Joined(lines)[|lines[0]| + 1 + i] == '-';
    }
  }

  // ---- the ends of a source ----

  lemma {:induction false} AddedBlank(st: State, raws: seq<Raw>, game: string)
    ensures Finished(Run(st, raws + [Raw(Blank, "")], game)) == Finished(Run(st, raws, game))
  {
    hide Run, Step, IsComplete, Numbered;
    RunBoth(st, raws, [Raw(Blank, "")], game);
    StepBlank(Run(st, raws, game), game);
    EmittedOrNot(Run(st, raws, game));
  }

  /** A line break at the end of a source changes nothing. */
  lemma LastBreakIsFree(s: string, game: string)
    requires NoCounter(s) && !("\U{FEFF}" <= s)
    ensures Parsed(s + "\n", game) == Parsed(s, game)
  {
    hide NoCounter, Run, AddLines, Lines, OverrideElement, Finished, ReplaceFrom;
    ShortHasNoCounter("");
    NoCounterTogether(s, '\n', "");
    assert s + ['\n'] + "" == s + "\n" && s + "\n" == s + "\n" + "";
    NoCounterStays(s);
    NoCounterStays(s + "\n");
    LinesOfBoth(s, "");
    LinesOfOneLine("");
    AddLinesBoth([], Lines(s), [""]);
    BlankLine(AddLines([], Lines(s)));
    AddedBlank(START, AddLines([], Lines(s)), game);
    if s == "" {
      assert WithoutMark("\n") == "\n";
    } else {
      assert WithoutMark(s + "\n") == s + "\n";
    }
  }

  /** A byte order mark at the head of a source changes nothing. */
  lemma MarkIsFree(s: string, game: string)
    requires s != "" && !("\U{FEFF}" <= s)
    ensures Parsed("\U{FEFF}" + s, game) == Parsed(s, game)
  {
    hide Run, AddLines, Lines, OverrideElement, Finished, ReplaceFrom;
    assert ("\U{FEFF}" + s)[1..] == s;
  }

  // ---- labels ----

  lemma {:induction false} TildesAre(s: string)
    ensures |TildesToBlanks(s)| == |s| && forall k :: 0 <= k < |s| ==> TildesToBlanks(s)[k] == if s[k] == '~' then ' ' else s[k]
  {
    if s != "" {
      TildesAre(s[1..]);
    }
  }

  /** A label on a list is the first word of its introduction or of its first item; a tilde in it stands for a blank. */
  lemma LabelOnList(f: Fields, k: Kind, name: string, s: string, items: seq<string>)
    requires k in f.vals && ' ' !in name
    requires f.vals[k] in {Intro("!!" + name + " " + s, items), Items(["!!" + name + " " + s] + items)}
    ensures var g := Override(f, k);
            && g.keys == f.keys && g.vals.Keys == f.vals.Keys && (forall j :: j in f.vals && j != k ==> g.vals[j] == f.vals[j])
            && g.vals[k] == (if f.vals[k].Intro? then Intro(s, items) else Items([s] + items))
            && g.overrides == f.overrides[k := TildesToBlanks(name)]
  {
    var t := "!!" + name + " " + s;
    BlankAfter("!!" + name, s);
    assert HeadOf(f.vals[k]) == t;
    assert t[2..2 + |name|] == name && t[..2 + |name|] == "!!" + name && t[3 + |name|..] == s;
    assert (["!!" + name + " " + s] + items)[1..] == items;
  }

  // ---- empty lines in a value ----

  function NotEmpty(lines: seq<string>): seq<string> {
    if lines == [] then [] else (if lines[0] == "" then [] else [lines[0]]) + NotEmpty(lines[1..])
  }

  lemma SqueezedHead(s: string)
    ensures Squeezed(s) == "" <==> s == ""
    ensures s != "" ==> Squeezed(s)[0] == s[0]
  {
  }

  /** Printing a value loses its empty lines and nothing else; none is left inside. */
  lemma {:induction false} SqueezedIs(s: string)
    ensures NotEmpty(Lines(Squeezed(s))) == NotEmpty(Lines(s))
    ensures forall k :: 0 <= k < |Squeezed(s)| - 1 ==> !(Squeezed(s)[k] == '\n' && Squeezed(s)[k + 1] == '\n')
    ensures Lines(Squeezed(s))[0] == Lines(s)[0]
  {
    if s != "" {
      var t := Squeezed(s[1..]);
      SqueezedIs(s[1..]);
      SqueezedHead(s[1..]);
      if |s| > 1 && s[0] == '\n' && s[1] == '\n' {
        assert Lines(s) == [""] + Lines(s[1..]);
        assert Lines(s[1..])[0] == "";
        assert Lines(s)[1..] == Lines(s[1..]);
      } else {
        var q := [s[0]] + t;
        assert Squeezed(s) == q && q[1..] == t;
        if s[0] == '\n' {
          assert Lines(q) == [""] + Lines(t) && Lines(q)[1..] == Lines(t);
          assert Lines(s) == [""] + Lines(s[1..]) && Lines(s)[1..] == Lines(s[1..]);
        } else {
          SameTail(Lines(t), Lines(s[1..]), s[0]);
        }
        forall k | 0 <= k < |q| - 1
          ensures !(q[k] == '\n' && q[k + 1] == '\n')
        {
          if k == 0 {
            assert q[1] == t[0] == s[1];
          } else {
            assert q[k] == t[k - 1] && q[k + 1] == t[k];
          }
        }
      }
    }
  }

  lemma SameTail(a: seq<string>, b: seq<string>, c: char)
    requires a != [] && b != [] && NotEmpty(a) == NotEmpty(b) && a[0] == b[0]
    ensures NotEmpty([[c] + a[0]] + a[1..]) == NotEmpty([[c] + b[0]] + b[1..])
  {
    var x, y := [[c] + a[0]] + a[1..], [[c] + b[0]] + b[1..];
    assert x[1..] == a[1..] && y[1..] == b[1..];
    assert NotEmpty(a[1..]) == NotEmpty(b[1..]) by {
      if a[0] != "" {
        assert ([a[0]] + NotEmpty(a[1..]))[1..] == NotEmpty(a[1..]) && ([b[0]] + NotEmpty(b[1..]))[1..] == NotEmpty(b[1..]);
      } else {
        assert [] + NotEmpty(a[1..]) == NotEmpty(a[1..]) && [] + NotEmpty(b[1..]) == NotEmpty(b[1..]);
      }
    }
  }

  // ---- where questions are counted from ----

  /** A question without a number after a heading: numbers start again at 10 after a theme, and at 1 after a battle or
      a section and after a theme where the game has it so; after anything else they go on. */
  lemma NumberAfter(final: seq<Element>, c: int, k: Kind, v: Value, q: Value, a: Value, game: string)
    requires NormalValue(v) && NormalValue(q) && NormalValue(a) && !IsLabel(k) && k != Blank
    ensures var raws := [RawOf(k, v), Raw(Blank, ""), RawOf(Question, q), RawOf(Answer, a), Raw(Blank, "")];
            var n := if k == Theme then if game == "troika" then 1 else 10
                     else if k in {Battle, Section} && game in {"brain", "troika"} then 1 else c;
            Run(State(final, NO_FIELDS, c), raws, game) ==
            State(final + [Plain(k, v), Asked(Fields([Question, Answer, Number], map[Question := q, Answer := a, Number := Whole(n)], map[]))],
                  NO_FIELDS, Wrapped(n + 1))
  {
    hide Listed, RawLines, Joined, NormalValue, Merged;
    ListedReadsBack(v);
    ListedReadsBack(q);
    ListedReadsBack(a);
    var n := CounterAfter(k, game, c);
    var raws := [RawOf(k, v), Raw(Blank, ""), RawOf(Question, q), RawOf(Answer, a), Raw(Blank, "")];
    var s0 := State(final, NO_FIELDS, c);
    var s1 := State(final + [Plain(k, v)], NO_FIELDS, n);
    var f2 := Fields([Question], map[Question := q], map[]);
    var f3 := Fields([Question, Answer], map[Question := q, Answer := a], map[]);
    assert Step(s0, raws[0], game) == s1 && Step(s1, raws[1], game) == s1;
    assert SetField(NO_FIELDS, Question, q) == f2;
    assert SetField(f2, Answer, a) == f3;
    assert Step(s1, raws[2], game) == s1.(current := f2);
    assert Step(s1.(current := f2), raws[3], game) == s1.(current := f3);
    assert SetField(f3, Number, Whole(n)).keys == [Question, Answer, Number];
    var s5 := Emitted(s1.(current := f3));
    assert Step(s1.(current := f3), raws[4], game) == s5;
    RunFive(s0, raws, game);
    assert s5.final == final + [Plain(k, v)] + [Asked(SetField(f3, Number, Whole(n)))];
  }

  lemma RunFive(st: State, raws: seq<Raw>, game: string)
    requires |raws| == 5
    ensures Run(st, raws, game) ==
            Step(Step(Step(Step(Step(st, raws[0], game), raws[1], game), raws[2], game), raws[3], game), raws[4], game)
  {
    hide Step, Run;
    var a, b, c, d := raws[1..], raws[2..], raws[3..], raws[4..];
    assert raws == [raws[0]] + a && a == [raws[1]] + b && b == [raws[2]] + c && c == [raws[3]] + d && d == [raws[4]];
    var s1 := Step(st, raws[0], game);
    var s2 := Step(s1, raws[1], game);
    var s3 := Step(s2, raws[2], game);
    RunOne(st, raws[0], a, game);
    RunOne(s1, raws[1], b, game);
    RunOne(s2, raws[2], c, game);
    RunOne(s3, raws[3], d, game);
    StepRun(Step(s3, raws[3], game), raws[4], game);
  }
}
