/** Joining the files of a packet, already in order, and renumbering their questions through. */
module CreditsMerge {
  import opened Sequences
  import opened CreditsNumbering
  import opened CreditsPacket

  /** A file with its name, the name without folders and extension, its language, and its numbering. */
  datatype Named = Named(name: string, stem: string, language: string, file: File)

  datatype Credits = Credits(
    language: string,
    questions: nat,
    tours: seq<Tour>,
    paragraphs: seq<Paragraph>,
    authors: seq<Author>,
    sources: seq<string>)

  const MAX_TOURS := 100
  const MAX_PARAGRAPHS := 500
  const MAX_PARAGRAPH := 3000
  const MAX_AUTHORS := 1000
  const MAX_AUTHOR := 500
  const MAX_TITLE := 200

  function Truncated(s: string, n: nat): string {
    if |s| > n then s[..n] else s
  }

  function Moved(n: nat, offset: nat): nat {
    if n == 0 then 0 else n + offset
  }

  /** A later file without headings becomes a tour of its own. */
  function WithOwnTour(f: Named, later: bool): File {
    var g := f.file;
    if later && g.tours == [] && g.questions > 0 then
      g.(tours := [Tour(f.stem, 1, g.questions, false)], paragraphs := InFirstTour(g.paragraphs))
    else g
  }

  function InFirstTour(ps: seq<Paragraph>): (r: seq<Paragraph>)
    ensures |r| == |ps| && forall k :: 0 <= k < |ps| ==> r[k] == ps[k].(tour := 0)
  {
    seq(|ps|, k requires 0 <= k < |ps| => ps[k].(tour := 0))
  }

  function MovedTours(tours: seq<Tour>, offset: nat): (r: seq<Tour>)
    ensures |r| == |tours|
    ensures forall k :: 0 <= k < |tours| ==>
      r[k] == Tour(Truncated(tours[k].title, MAX_TITLE), Moved(tours[k].first, offset), Moved(tours[k].last, offset), tours[k].warmup)
  {
    seq(|tours|, k requires 0 <= k < |tours| =>
      Tour(Truncated(tours[k].title, MAX_TITLE), Moved(tours[k].first, offset), Moved(tours[k].last, offset), tours[k].warmup))
  }

  /** The tours of a file behind `base` others; a later file's preamble stands in its first tour. */
  function MovedParagraph(p: Paragraph, hasTours: bool, later: bool, base: nat, offset: nat): Paragraph {
    var q := p.(next := Moved(p.next, offset));
    if p.tour >= 0 then q.(tour := p.tour + base) else if later && hasTours then q.(tour := base) else q
  }

  function MovedParagraphs(ps: seq<Paragraph>, hasTours: bool, later: bool, base: nat, offset: nat): seq<Paragraph> {
    if ps == [] then []
    else
      var p := ps[|ps| - 1];
      MovedParagraphs(ps[..|ps| - 1], hasTours, later, base, offset)
      + if |p.text| > MAX_PARAGRAPH then [] else [MovedParagraph(p, hasTours, later, base, offset)]
  }

  function MovedAuthors(authors: seq<Author>, offset: nat): (r: seq<Author>)
    ensures |r| == |authors|
    ensures forall k :: 0 <= k < |authors| ==>
      r[k] == Author(authors[k].question + offset, Truncated(authors[k].text, MAX_AUTHOR))
  {
    seq(|authors|, k requires 0 <= k < |authors| => Author(authors[k].question + offset, Truncated(authors[k].text, MAX_AUTHOR)))
  }

  function Added(out: Credits, f: Named, later: bool): Credits {
    var g, offset, base := WithOwnTour(f, later), out.questions, |out.tours|;
    Credits(out.language, out.questions + g.questions,
            out.tours + MovedTours(g.tours, offset),
            out.paragraphs + MovedParagraphs(g.paragraphs, g.tours != [], later, base, offset),
            out.authors + MovedAuthors(g.authors, offset),
            out.sources + [f.name])
  }

  function Nothing(language: string): Credits {
    Credits(language, 0, [], [], [], [])
  }

  function LanguageOf(files: seq<Named>): string {
    if files != [] && files[0].language != "" then files[0].language else "ru"
  }

  /** The files joined, before anything is cut off. */
  function JoinedFiles(files: seq<Named>, language: string): Credits {
    if files == [] then Nothing(language)
    else Added(JoinedFiles(files[..|files| - 1], language), files[|files| - 1], |files| > 1)
  }

  function Capped(c: Credits): Credits {
    c.(tours := FirstOnes(c.tours, MAX_TOURS),
       paragraphs := FirstOnes(c.paragraphs, MAX_PARAGRAPHS),
       authors := FirstOnes(c.authors, MAX_AUTHORS))
  }

  // ---- the program's loops ----

  method Merge(files: seq<Named>) returns (out: Credits)
    ensures out == Capped(JoinedFiles(files, LanguageOf(files)))
    ensures var c := JoinedFiles(files, out.language);
            && out.tours == FirstOnes(c.tours, 100) && out.paragraphs == FirstOnes(c.paragraphs, 500)
            && out.authors == FirstOnes(c.authors, 1000) && out.questions == c.questions && out.sources == c.sources
    ensures out.language == if files != [] && files[0].language != "" then files[0].language else "ru"
  {
    hide Added;
    out := Nothing(LanguageOf(files));
    for i := 0 to |files|
      invariant out == JoinedFiles(files[..i], LanguageOf(files)) && out.language == LanguageOf(files)
    {
      assert files[..i + 1][..i] == files[..i];
      out := AddFile(out, files[i], i > 0);
    }
    assert files[..|files|] == files;
    if |out.tours| > MAX_TOURS {
      out := out.(tours := out.tours[..MAX_TOURS]);
    }
    if |out.paragraphs| > MAX_PARAGRAPHS {
      out := out.(paragraphs := out.paragraphs[..MAX_PARAGRAPHS]);
    }
    if |out.authors| > MAX_AUTHORS {
      out := out.(authors := out.authors[..MAX_AUTHORS]);
    }
  }

  method AddFile(out: Credits, f: Named, later: bool) returns (r: Credits)
    ensures r == Added(out, f, later) && r.language == out.language
  {
    var offset, base := out.questions, |out.tours|;
    var g := f.file;
    if later && |g.tours| == 0 && g.questions > 0 {
      g := g.(tours := [Tour(f.stem, 1, g.questions, false)], paragraphs := InFirstTour(g.paragraphs));
    }
    assert g == WithOwnTour(f, later);
    var tours: seq<Tour> := [];
    for k := 0 to |g.tours|
      invariant tours == MovedTours(g.tours, offset)[..k]
    {
      var t := g.tours[k];
      tours := tours + [Tour(Truncated(t.title, MAX_TITLE), Moved(t.first, offset), Moved(t.last, offset), t.warmup)];
    }
    var paragraphs := AddParagraphs(g.paragraphs, |g.tours| > 0, later, base, offset);
    var authors: seq<Author> := [];
    for k := 0 to |g.authors|
      invariant authors == MovedAuthors(g.authors, offset)[..k]
    {
      authors := authors + [Author(g.authors[k].question + offset, Truncated(g.authors[k].text, MAX_AUTHOR))];
    }
    r := Credits(out.language, out.questions + g.questions, out.tours + tours, out.paragraphs + paragraphs,
                 out.authors + authors, out.sources + [f.name]);
  }

  method AddParagraphs(ps: seq<Paragraph>, hasTours: bool, later: bool, base: nat, offset: nat) returns (r: seq<Paragraph>)
    ensures r == MovedParagraphs(ps, hasTours, later, base, offset)
  {
    r := [];
    for k := 0 to |ps|
      invariant r == MovedParagraphs(ps[..k], hasTours, later, base, offset)
    {
      assert ps[..k + 1][..k] == ps[..k];
      var p := ps[k];
      if |p.text| > MAX_PARAGRAPH {
        continue;
      }
      if p.tour >= 0 {
        p := p.(tour := p.tour + base);
      } else if later && hasTours {
        p := p.(tour := base);
      }
      p := p.(next := Moved(p.next, offset));
      r := r + [p];
    }
    assert ps[..|ps|] == ps;
  }

  // ---- what the joined numbering keeps ----

  /** Each tour with questions begins after the one before it. */
  predicate Increasing(tours: seq<Tour>, from: nat) {
    tours == [] ||
    var t, before := tours[|tours| - 1], tours[..|tours| - 1];
    Increasing(before, from) &&
    if t.first == 0 then t.last == 0 else t.first > EndOf(before, from) && t.first <= t.last
  }

  /** A paragraph stands in a tour or the preamble, and points to a question of the packet or to none. */
  predicate Placed(p: Paragraph, tours: nat, questions: nat) {
    -1 <= p.tour < tours && p.next <= questions
  }

  ghost predicate Sound(c: Credits) {
    && Increasing(c.tours, 0) && EndOf(c.tours, 0) <= c.questions
    && AuthorsIncrease(c.authors, c.questions)
    && forall k :: 0 <= k < |c.paragraphs| ==> Placed(c.paragraphs[k], |c.tours|, c.questions)
  }

  /** The file is well numbered: it was read and has lost its leading questions, if it had to. */
  ghost predicate Read(f: Named) {
    exists marks: seq<nat> :: WellNumbered(f.file, marks)
  }

  lemma {:induction false} IncreasingIsAfter(tours: seq<Tour>, from: nat)
    requires Increasing(tours, from)
    ensures EndOf(tours, from) >= from
  {
    if tours != [] {
      IncreasingIsAfter(tours[..|tours| - 1], from);
    }
  }

  lemma TourMoved(out: seq<Tour>, tours: seq<Tour>, offset: nat)
    requires tours != []
    ensures var all, t := out + MovedTours(tours, offset), tours[|tours| - 1];
            && all[..|all| - 1] == out + MovedTours(tours[..|tours| - 1], offset)
            && all[|all| - 1].first == Moved(t.first, offset) && all[|all| - 1].last == Moved(t.last, offset)
  {
  }

  /** The tours of a file, moved behind those of the files before it. */
  lemma {:induction false} MovedRanges(out: seq<Tour>, tours: seq<Tour>, from: nat, offset: nat)
    requires Increasing(out, 0) && EndOf(out, 0) <= offset && Consecutive(tours, from)
    ensures var all := out + MovedTours(tours, offset);
            && Increasing(all, 0)
            && EndOf(all, 0) == if FirstOf(tours) == 0 then EndOf(out, 0) else offset + EndOf(tours, from)
    ensures FirstOf(tours) > 0 ==> EndOf(tours, from) > from
    ensures from == 0 && Consecutive(out, 0) && EndOf(out, 0) == offset ==> Consecutive(out + MovedTours(tours, offset), 0)
  {
    hide Truncated;
    var all := out + MovedTours(tours, offset);
    FirstIsSome(tours, from);
    if tours == [] {
      assert all == out;
    } else {
      var before, t := tours[..|tours| - 1], tours[|tours| - 1];
      MovedRanges(out, before, from, offset);
      FirstIsSome(before, from);
      TourMoved(out, tours, offset);
      assert EndOf(out + MovedTours(before, offset), 0) <= offset + EndOf(before, from);
    }
  }

  lemma OneTour(t: Tour)
    requires t.first == 1 <= t.last
    ensures Consecutive([t], 0) && EndOf([t], 0) == t.last && FirstOf([t]) == 1
  {
    assert [t][..0] == [];
  }

  lemma OwnTourKeeps(f: Named, later: bool)
    requires Read(f)
    ensures var g := WithOwnTour(f, later);
            && Consecutive(g.tours, Before(g)) && EndOf(g.tours, Before(g)) == g.questions
            && AuthorsIncrease(g.authors, g.questions)
            && forall k :: 0 <= k < |g.paragraphs| ==> Placed(g.paragraphs[k], |g.tours|, g.questions)
  {
    var marks: seq<nat> :| WellNumbered(f.file, marks);
    forall k | 0 <= k < |f.file.paragraphs|
      ensures Placed(f.file.paragraphs[k], |f.file.tours|, f.file.questions)
    {
      NextLiesInTour(f.file, marks, k);
    }
    var g := WithOwnTour(f, later);
    if later && f.file.tours == [] && f.file.questions > 0 {
      OneTour(g.tours[0]);
    }
  }

  lemma {:induction false} MovedParagraphsArePlaced(
      ps: seq<Paragraph>, tours: nat, questions: nat, later: bool, base: nat, offset: nat, k: nat)
    requires forall i :: 0 <= i < |ps| ==> Placed(ps[i], tours, questions)
    ensures k < |MovedParagraphs(ps, tours > 0, later, base, offset)| ==>
              Placed(MovedParagraphs(ps, tours > 0, later, base, offset)[k], base + tours, offset + questions)
  {
    if ps != [] {
      MovedParagraphsArePlaced(ps[..|ps| - 1], tours, questions, later, base, offset, k);
    }
  }

  lemma AddedIsSound(out: Credits, f: Named, later: bool)
    requires Sound(out) && Read(f)
    ensures Sound(Added(out, f, later))
  {
    hide Consecutive, Increasing, EndOf, MovedParagraphs, WithOwnTour, FirstOf;
    var g, c := WithOwnTour(f, later), Added(out, f, later);
    OwnTourKeeps(f, later);
    MovedRanges(out.tours, g.tours, Before(g), out.questions);
    assert AuthorsIncrease(c.authors, c.questions);
    forall k | 0 <= k < |c.paragraphs|
      ensures Placed(c.paragraphs[k], |c.tours|, c.questions)
    {
      if k < |out.paragraphs| {
        assert Placed(out.paragraphs[k], |out.tours|, out.questions);
      } else {
        MovedParagraphsArePlaced(g.paragraphs, |g.tours|, g.questions, later, |out.tours|, out.questions, k - |out.paragraphs|);
      }
    }
  }

  /** The joined packet is numbered in order, within its questions, and every paragraph has its place. */
  lemma {:induction false} JoinedIsSound(files: seq<Named>, language: string)
    requires forall k :: 0 <= k < |files| ==> Read(files[k])
    ensures Sound(JoinedFiles(files, language))
  {
    hide Sound, Added, Read;
    if files == [] {
      NothingIsSound(language);
    } else {
      JoinedIsSound(files[..|files| - 1], language);
      AddedIsSound(JoinedFiles(files[..|files| - 1], language), files[|files| - 1], |files| > 1);
    }
  }

  lemma NothingIsSound(language: string)
    ensures Sound(Nothing(language))
  {
  }

  /** A file without questions before its tours, once a later one has been given its own tour. */
  predicate StartsWithTour(f: Named, later: bool) {
    Before(WithOwnTour(f, later)) == 0
  }

  /** When every file begins with a tour, the ranges of the joined packet partition its questions. */
  lemma {:induction false} JoinedPartition(files: seq<Named>, language: string)
    requires forall k :: 0 <= k < |files| ==> Read(files[k]) && StartsWithTour(files[k], k > 0)
    ensures var c := JoinedFiles(files, language); Consecutive(c.tours, 0) && EndOf(c.tours, 0) == c.questions
  {
    hide Sound, Increasing, Read, WithOwnTour, MovedParagraphs;
    if files != [] {
      var front, f, later := files[..|files| - 1], files[|files| - 1], |files| > 1;
      JoinedPartition(front, language);
      JoinedIsSound(front, language);
      var out, g := JoinedFiles(front, language), WithOwnTour(f, later);
      assert Sound(out) && Increasing(out.tours, 0) by {
        SoundIncreases(out);
      }
      OwnTourKeeps(f, later);
      assert StartsWithTour(f, later);
      MovedRanges(out.tours, g.tours, 0, out.questions);
      FirstIsSome(g.tours, 0);
    }
  }

  lemma SoundIncreases(c: Credits)
    requires Sound(c)
    ensures Increasing(c.tours, 0)
  {
  }

  /** More tours than are kept, and a paragraph that is kept stands in one that is not. */
  predicate LosesTour(c: Credits) {
    |c.tours| > MAX_TOURS &&
    exists k :: 0 <= k < MAX_PARAGRAPHS && k < |c.paragraphs| && c.paragraphs[k].tour >= MAX_TOURS
  }

  /** Cutting off keeps the order of tours and authors; the paragraphs keep their places if and only if none of the
      first 500 stands beyond the hundredth tour. */
  lemma CappedKeeps(c: Credits)
    requires Sound(c)
    ensures var d := Capped(c);
            && Increasing(d.tours, 0) && EndOf(d.tours, 0) <= d.questions && AuthorsIncrease(d.authors, d.questions)
            && (Sound(d) <==> !LosesTour(c))
  {
    IncreasingFront(c.tours, if |c.tours| > MAX_TOURS then MAX_TOURS else |c.tours|);
    var d := Capped(c);
    assert forall k :: 0 <= k < |d.paragraphs| ==> d.paragraphs[k] == c.paragraphs[k];
    if LosesTour(c) {
      var k :| 0 <= k < MAX_PARAGRAPHS && k < |c.paragraphs| && c.paragraphs[k].tour >= MAX_TOURS;
      assert !Placed(d.paragraphs[k], |d.tours|, d.questions);
    } else {
      forall k | 0 <= k < |d.paragraphs|
        ensures Placed(d.paragraphs[k], |d.tours|, d.questions)
      {
        assert Placed(c.paragraphs[k], |c.tours|, c.questions);
      }
    }
  }

  lemma {:induction false} IncreasingFront(tours: seq<Tour>, n: nat)
    requires Increasing(tours, 0) && n <= |tours|
    ensures Increasing(tours[..n], 0) && EndOf(tours[..n], 0) <= EndOf(tours, 0)
  {
    if n < |tours| {
      IncreasingFront(tours[..|tours| - 1], n);
      assert tours[..|tours| - 1][..n] == tours[..n];
    } else {
      assert tours[..n] == tours;
    }
  }
}
