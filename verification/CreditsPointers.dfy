/** Where the paragraphs of a joined packet point: to a question of their own tour, except for the preambles of
    later files; and two packets on which joining goes wrong. */
module CreditsPointers {
  import opened CreditsNumbering
  import opened CreditsPacket
  import opened CreditsMerge

  /** The next question of a paragraph lies in the tour it stands in, if it has one. */
  predicate Points(p: Paragraph, tours: seq<Tour>) {
    0 <= p.tour < |tours| && p.next > 0 ==> InTour(tours[p.tour], p.next)
  }

  ghost predicate AllPoint(ps: seq<Paragraph>, tours: seq<Tour>) {
    forall k :: 0 <= k < |ps| ==> Points(ps[k], tours)
  }

  /** A paragraph of the preamble that is kept, and is followed by a question outside the first tour. */
  predicate StraysIn(p: Paragraph, tours: seq<Tour>) {
    |p.text| <= MAX_PARAGRAPH && p.tour < 0 && p.next > 0 && tours != [] && !InTour(tours[0], p.next)
  }

  predicate Strays(f: File) {
    exists k :: 0 <= k < |f.paragraphs| && StraysIn(f.paragraphs[k], f.tours)
  }

  lemma OwnTourPoints(f: Named, later: bool)
    requires Read(f)
    ensures AllPoint(WithOwnTour(f, later).paragraphs, WithOwnTour(f, later).tours)
    ensures Strays(WithOwnTour(f, later)) <==> Strays(f.file)
  {
    var g := WithOwnTour(f, later);
    var marks: seq<nat> :| WellNumbered(f.file, marks);
    forall k | 0 <= k < |g.paragraphs|
      ensures Points(g.paragraphs[k], g.tours)
    {
      NextLiesInTour(f.file, marks, k);
    }
    if g != f.file {
      assert forall k :: 0 <= k < |g.paragraphs| ==> !StraysIn(g.paragraphs[k], g.tours);
      assert forall k :: 0 <= k < |g.paragraphs| ==> !StraysIn(f.file.paragraphs[k], f.file.tours);
    }
  }

  /** A file's tours, seen behind those of the files before it. */
  lemma TourBehind(out: Credits, f: Named, later: bool, i: nat, n: nat)
    requires Read(f) && i < |WithOwnTour(f, later).tours| && n > 0
    ensures var tours := Added(out, f, later).tours;
            |out.tours| + i < |tours|
            && (InTour(tours[|out.tours| + i], n + out.questions) <==> InTour(WithOwnTour(f, later).tours[i], n))
  {
    hide Truncated;
    var g := WithOwnTour(f, later);
    OwnTourKeeps(f, later);
    RangesLieBetween(g.tours, Before(g), i);
    assert Added(out, f, later).tours[|out.tours| + i] == MovedTours(g.tours, out.questions)[i];
  }

  /** A paragraph that stood in a tour points into it still; one of a later preamble does unless it strays. */
  lemma MovedPoints(out: Credits, f: Named, later: bool, p: Paragraph)
    requires Read(f) && Points(p, WithOwnTour(f, later).tours) && |p.text| <= MAX_PARAGRAPH
    requires -1 <= p.tour < |WithOwnTour(f, later).tours|
    ensures var g := WithOwnTour(f, later);
            Points(MovedParagraph(p, g.tours != [], later, |out.tours|, out.questions), Added(out, f, later).tours) <==>
              !(later && StraysIn(p, g.tours))
  {
    hide WithOwnTour, Added, InTour;
    if p.next > 0 {
      if p.tour >= 0 {
        TourBehind(out, f, later, p.tour, p.next);
      } else if later && WithOwnTour(f, later).tours != [] {
        TourBehind(out, f, later, 0, p.next);
      }
    }
  }

  lemma {:induction false} MovedAllPoint(out: Credits, f: Named, later: bool, ps: seq<Paragraph>)
    requires Read(f)
    requires forall k :: 0 <= k < |ps| ==>
      Points(ps[k], WithOwnTour(f, later).tours) && -1 <= ps[k].tour < |WithOwnTour(f, later).tours|
    ensures var g := WithOwnTour(f, later);
            AllPoint(MovedParagraphs(ps, g.tours != [], later, |out.tours|, out.questions), Added(out, f, later).tours) <==>
              !(later && exists k :: 0 <= k < |ps| && StraysIn(ps[k], g.tours))
  {
    hide WithOwnTour, Added, Points, Read, StraysIn, MovedParagraph;
    if ps != [] {
      var front, p, g := ps[..|ps| - 1], ps[|ps| - 1], WithOwnTour(f, later);
      MovedAllPoint(out, f, later, front);
      TooLongStaysOut(p, g.tours);
      if |p.text| <= MAX_PARAGRAPH {
        MovedPoints(out, f, later, p);
      }
      assert forall k :: 0 <= k < |front| ==> front[k] == ps[k];
      assert (exists k :: 0 <= k < |ps| && StraysIn(ps[k], g.tours)) <==>
             (exists k :: 0 <= k < |front| && StraysIn(front[k], g.tours)) || StraysIn(p, g.tours);
      OneMorePoints(MovedParagraphs(front, g.tours != [], later, |out.tours|, out.questions),
                    MovedParagraph(p, g.tours != [], later, |out.tours|, out.questions), Added(out, f, later).tours);
      assert MovedParagraphs(front, g.tours != [], later, |out.tours|, out.questions) + [] ==
             MovedParagraphs(front, g.tours != [], later, |out.tours|, out.questions);
    }
  }

  lemma TooLongStaysOut(p: Paragraph, tours: seq<Tour>)
    ensures StraysIn(p, tours) ==> |p.text| <= MAX_PARAGRAPH
  {
  }

  lemma OneMorePoints(ps: seq<Paragraph>, p: Paragraph, tours: seq<Tour>)
    ensures AllPoint(ps + [p], tours) <==> AllPoint(ps, tours) && Points(p, tours)
  {
    hide Points;
    var all := ps + [p];
    assert all[|ps|] == p;
    assert forall k :: 0 <= k < |ps| ==> all[k] == ps[k];
  }

  lemma BothPoint(a: seq<Paragraph>, b: seq<Paragraph>, tours: seq<Tour>)
    ensures AllPoint(a + b, tours) <==> AllPoint(a, tours) && AllPoint(b, tours)
  {
    hide Points;
    var all := a + b;
    assert forall k :: 0 <= k < |a| ==> all[k] == a[k];
    assert forall k :: 0 <= k < |b| ==> all[|a| + k] == b[k];
  }

  /** More tours behind change nothing for paragraphs that have their place. */
  lemma PointsStays(ps: seq<Paragraph>, tours: seq<Tour>, more: seq<Tour>)
    requires forall k :: 0 <= k < |ps| ==> ps[k].tour < |tours|
    ensures AllPoint(ps, tours + more) <==> AllPoint(ps, tours)
  {
    hide InTour;
    forall k | 0 <= k < |ps|
      ensures Points(ps[k], tours + more) <==> Points(ps[k], tours)
    {
      assert ps[k].tour >= 0 ==> (tours + more)[ps[k].tour] == tours[ps[k].tour];
    }
  }

  lemma AddedPoints(out: Credits, f: Named, later: bool)
    requires Sound(out) && Read(f)
    ensures var c := Added(out, f, later);
            AllPoint(c.paragraphs, c.tours) <==> AllPoint(out.paragraphs, out.tours) && !(later && Strays(f.file))
  {
    hide Points, WithOwnTour, MovedParagraphs, StraysIn, Increasing, EndOf, Consecutive, AuthorsIncrease;
    var g, c := WithOwnTour(f, later), Added(out, f, later);
    OwnTourKeeps(f, later);
    OwnTourPoints(f, later);
    assert forall k :: 0 <= k < |g.paragraphs| ==> Placed(g.paragraphs[k], |g.tours|, g.questions);
    MovedAllPoint(out, f, later, g.paragraphs);
    assert forall k :: 0 <= k < |out.paragraphs| ==> Placed(out.paragraphs[k], |out.tours|, out.questions);
    PointsStays(out.paragraphs, out.tours, MovedTours(g.tours, out.questions));
    BothPoint(out.paragraphs, MovedParagraphs(g.paragraphs, g.tours != [], later, |out.tours|, out.questions), c.tours);
  }

  ghost predicate NoneStrays(files: seq<Named>) {
    forall i :: 0 < i < |files| ==> !Strays(files[i].file)
  }

  /** In the joined packet every paragraph of a tour points to a question of that tour, or to none, if and only if
      no later file has a preamble paragraph whose next question lies outside the file's first tour. */
  lemma {:induction false} JoinedPointsExactly(files: seq<Named>, language: string)
    requires forall k :: 0 <= k < |files| ==> Read(files[k])
    ensures var c := JoinedFiles(files, language); AllPoint(c.paragraphs, c.tours) <==> NoneStrays(files)
  {
    hide Strays, Added, Read, Points, Sound;
    if files != [] {
      var front, f, n := files[..|files| - 1], files[|files| - 1], |files| - 1;
      JoinedPointsExactly(front, language);
      JoinedIsSound(front, language);
      AddedPoints(JoinedFiles(front, language), f, |files| > 1);
      assert forall i :: 0 <= i < |front| ==> front[i] == files[i];
      assert NoneStrays(files) <==> NoneStrays(front) && !(n > 0 && Strays(f.file));
    }
  }

  // ---- a preamble that strays ----

  const ONE_TOUR := [Section("A"), Question(true, "1", "")]
  const WARMUP_FIRST := [Credit("x", false), Section("разминка"), Section("T"), Question(true, "1", "")]

  lemma TitlesHere()
    ensures !IsWarmupTitle("A") && IsWarmupTitle("разминка") && !IsWarmupTitle("T")
  {
  }

  lemma OneTourFile()
    ensures FileOf(ONE_TOUR) == File(1, [Tour("A", 1, 1, false)], [], [])
  {
    hide IsWarmupTitle;
    TitlesHere();
    var w := Step(START, ONE_TOUR[0]);
    assert w == Walk(File(0, [Tour("A", 0, 0, false)], [], []), [], []);
    assert ONE_TOUR[1..] == [ONE_TOUR[1]] && ONE_TOUR[1..][1..] == [];
    assert Step(w, ONE_TOUR[1]).file == File(1, [Tour("A", 1, 1, false)], [], []);
  }

  lemma OneWaits(ps: seq<Paragraph>)
    requires |ps| == 1 && ps[0].tour < 0
    ensures OfPreamble([0], ps) == [0]
  {
    var one: seq<nat> := [0];
    assert one[1..] == [] && OfPreamble(one[1..], ps) == [];
    assert OfPreamble(one, ps) == [0] + [];
  }

  lemma WarmupFirstFile()
    ensures FileOf(WARMUP_FIRST) ==
            File(1, [Tour("разминка", 0, 0, true), Tour("T", 1, 1, false)], [Paragraph("x", -1, 1, false)], [])
  {
    hide IsWarmupTitle;
    TitlesHere();
    var d := WARMUP_FIRST;
    var p := Paragraph("x", -1, 0, false);
    var w1 := Step(START, d[0]);
    assert w1 == Walk(File(0, [], [p], []), [0], [0]);
    OneWaits([p]);
    var w2 := Step(w1, d[1]);
    assert w2 == Walk(File(0, [Tour("разминка", 0, 0, true)], [p], []), [0], [0]);
    var w3 := Step(w2, d[2]);
    assert w3 == Walk(File(0, [Tour("разминка", 0, 0, true), Tour("T", 0, 0, false)], [p], []), [0], [0]);
    var w4 := Step(w3, d[3]);
    assert w4.file.tours == [Tour("разминка", 0, 0, true), Tour("T", 1, 1, false)];
    assert w4.file.paragraphs == [Paragraph("x", -1, 1, false)];
    assert d[1..][0] == d[1] && d[1..][1..] == d[2..] && d[2..][0] == d[2] && d[2..][1..] == d[3..];
    assert d[3..][0] == d[3] && d[3..][1..] == [];
  }

  /** Behind a file of one tour, the credit of a file that begins with a warm-up is put into the warm-up, and
      points to a question of the next tour. */
  lemma PreambleStrays(language: string)
    ensures var files := [Named("a", "a", "", FileOf(ONE_TOUR)), Named("b", "b", "", FileOf(WARMUP_FIRST))];
            var c := JoinedFiles(files, language);
            && (forall k :: 0 <= k < |files| ==> Read(files[k]))
            && |c.paragraphs| == 1 && c.paragraphs[0].tour == 1 && c.paragraphs[0].next == 2
            && |c.tours| == 3 && !InTour(c.tours[1], 2) && InTour(c.tours[2], 2)
            && !AllPoint(c.paragraphs, c.tours)
  {
    var a, b := Named("a", "a", "", FileOf(ONE_TOUR)), Named("b", "b", "", FileOf(WARMUP_FIRST));
    FileIsWellNumbered(ONE_TOUR);
    FileIsWellNumbered(WARMUP_FIRST);
    OneTourFile();
    WarmupFirstFile();
    hide FileOf, WellNumbered, JoinedFiles, Added, InTour;
    var files := [a, b];
    JoinedOne(a, language);
    JoinedTwo(a, b, language);
    AddedOne(language, a);
    AddedTwo(language, b);
    var c := JoinedFiles(files, language);
    WhereTwoIs();
    assert !Points(c.paragraphs[0], c.tours);
  }

  lemma WhereTwoIs()
    ensures !InTour(Tour("разминка", 0, 0, true), 2) && InTour(Tour("T", 2, 2, false), 2)
  {
  }

  lemma JoinedOne(f: Named, language: string)
    ensures JoinedFiles([f], language) == Added(Nothing(language), f, false)
  {
    hide Added;
    assert [f][..0] == [];
  }

  lemma JoinedTwo(a: Named, b: Named, language: string)
    ensures JoinedFiles([a, b], language) == Added(JoinedFiles([a], language), b, true)
  {
    hide Added;
    assert [a, b][..1] == [a];
  }

  lemma AddedOne(language: string, f: Named)
    requires f == Named("a", "a", "", File(1, [Tour("A", 1, 1, false)], [], []))
    ensures Added(Nothing(language), f, false) == Credits(language, 1, [Tour("A", 1, 1, false)], [], [], ["a"])
  {
  }

  lemma AddedTwo(language: string, f: Named)
    requires f.name == "b" && f.file ==
             File(1, [Tour("разминка", 0, 0, true), Tour("T", 1, 1, false)], [Paragraph("x", -1, 1, false)], [])
    ensures var c := Added(Credits(language, 1, [Tour("A", 1, 1, false)], [], [], ["a"]), f, true);
            && c.tours == [Tour("A", 1, 1, false), Tour("разминка", 0, 0, true), Tour("T", 2, 2, false)]
            && c.paragraphs == [Paragraph("x", 1, 2, false)]
  {
    assert f.file.paragraphs[..0] == [];
  }

  // ---- a tour that is cut off ----

  function Warmups(n: nat): seq<Entry> {
    if n == 0 then [] else Warmups(n - 1) + [Section("разминка")]
  }

  function WarmupTours(n: nat): (r: seq<Tour>)
    ensures |r| == n
  {
    if n == 0 then [] else WarmupTours(n - 1) + [Tour("разминка", 0, 0, true)]
  }

  lemma {:induction false} WalkedOn(w: Walk, doc: seq<Entry>, e: Entry)
    ensures Walked(w, doc + [e]) == Step(Walked(w, doc), e)
    decreases |doc|
  {
    hide Step;
    if doc == [] {
      assert [e][1..] == [];
    } else {
      assert (doc + [e])[1..] == doc[1..] + [e];
      WalkedOn(Step(w, doc[0]), doc[1..], e);
    }
  }

  lemma {:induction false} WarmupsWalked(n: nat)
    ensures Walked(START, Warmups(n)) == Walk(File(0, WarmupTours(n), [], []), [], [])
  {
    hide IsWarmupTitle;
    if n > 0 {
      TitlesHere();
      WarmupsWalked(n - 1);
      WalkedOn(START, Warmups(n - 1), Section("разминка"));
    }
  }

  /** A packet of more than a hundred warm-up headings and a credit under the last. */
  lemma CreditIsCutLoose(language: string)
    ensures var files := [Named("a", "a", "", FileOf(Warmups(101) + [Credit("x", false)]))];
            var c := JoinedFiles(files, language);
            Read(files[0]) && Sound(c) && LosesTour(c) && !Sound(Capped(c))
  {
    var doc := Warmups(101) + [Credit("x", false)];
    var f := Named("a", "a", "", FileOf(doc));
    FileIsWellNumbered(doc);
    CutLoose(101, language);
    JoinedIsSound([f], language);
    CappedKeeps(JoinedFiles([f], language));
  }

  lemma LastStays(p: Paragraph, out: Credits, f: Named)
    requires f.file.paragraphs == [p] && |p.text| == 1 && p.tour >= 0 && p.next == 0 && out.tours == [] && out.paragraphs == []
    ensures Added(out, f, false).paragraphs == [p] && |Added(out, f, false).tours| == |f.file.tours|
  {
    hide Truncated;
    assert [p][..0] == [];
    var moved := MovedParagraph(p, f.file.tours != [], false, 0, out.questions);
    assert moved == p;
    assert MovedParagraphs([p], f.file.tours != [], false, 0, out.questions) == [] + [p];
  }

  lemma CutLoose(n: nat, language: string)
    requires n > MAX_TOURS
    ensures LosesTour(JoinedFiles([Named("a", "a", "", FileOf(Warmups(n) + [Credit("x", false)]))], language))
  {
    hide Warmups, WarmupTours, IsWarmupTitle, Truncated;
    var doc := Warmups(n) + [Credit("x", false)];
    var f := Named("a", "a", "", FileOf(doc));
    WarmupsWalked(n);
    WalkedOn(START, Warmups(n), Credit("x", false));
    var p := Paragraph("x", n - 1, 0, false);
    assert FileOf(doc) == File(0, WarmupTours(n), [p], []);
    JoinedOne(f, language);
    var c := JoinedFiles([f], language);
    LastStays(p, Nothing(language), f);
    assert |c.tours| == n && c.paragraphs[0].tour == n - 1;
  }
}
