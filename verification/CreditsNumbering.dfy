/** Numbering the questions of a packet: tours, credits paragraphs and authors. */
module CreditsNumbering {

  // ---- a parsed file ----

  /** A heading and the questions under it; `first` is 0 for a tour without questions. */
  datatype Tour = Tour(title: string, first: nat, last: nat, warmup: bool)

  /** Tour -1 is the preamble; `next` is the first question after the paragraph in its tour, or 0. */
  datatype Paragraph = Paragraph(text: string, tour: int, next: nat, editor: bool)

  datatype Author = Author(question: nat, text: string)

  datatype File = File(questions: nat, tours: seq<Tour>, paragraphs: seq<Paragraph>, authors: seq<Author>)

  /** What the walk reads of a document. A question's content may not be one, and then has no author. */
  datatype Entry =
    | Section(title: string)
    | Credit(text: string, editor: bool)
    | Question(known: bool, number: string, author: string)
    | Other

  function Lower(c: char): char {
    if 'А' <= c <= 'Я' then (c as int + 32) as char else c
  }

  predicate IsWarmupTitle(s: string) {
    |s| >= 7 && (forall k :: 0 <= k < 7 ==> Lower(s[k]) == "разминк"[k])
  }

  const NO_FILE := File(0, [], [], [])

  // ---- the walk as a function ----

  /** `marks` counts, for every paragraph, the questions numbered before it; nothing depends on it. */
  datatype Walk = Walk(file: File, pending: seq<nat>, marks: seq<nat>)

  const START := Walk(NO_FILE, [], [])

  function WithTour(ps: seq<Paragraph>, at: seq<nat>, tour: int): (r: seq<Paragraph>)
    ensures |r| == |ps|
    ensures forall k :: 0 <= k < |ps| ==> r[k] == if k in at then ps[k].(tour := tour) else ps[k]
  {
    seq(|ps|, k requires 0 <= k < |ps| => if k in at then ps[k].(tour := tour) else ps[k])
  }

  function WithNext(ps: seq<Paragraph>, at: seq<nat>, n: nat): (r: seq<Paragraph>)
    ensures |r| == |ps|
    ensures forall k :: 0 <= k < |ps| ==> r[k] == if k in at then ps[k].(next := n) else ps[k]
  {
    seq(|ps|, k requires 0 <= k < |ps| => if k in at then ps[k].(next := n) else ps[k])
  }

  /** The last heading so far has no question, and nor has the packet: it was no tour. */
  predicate IsFalseTour(f: File) {
    f.tours != [] && f.tours[|f.tours| - 1].first == 0 && !f.tours[|f.tours| - 1].warmup && f.questions == 0
  }

  function RolledBack(f: File, pending: seq<nat>): File {
    if IsFalseTour(f) then f.(tours := f.tours[..|f.tours| - 1], paragraphs := WithTour(f.paragraphs, pending, -1)) else f
  }

  function OfPreamble(pending: seq<nat>, ps: seq<Paragraph>): (r: seq<nat>)
    ensures forall i :: i in r <==> i in pending && (i < |ps| ==> ps[i].tour < 0)
  {
    if pending == [] then []
    else
      (if pending[0] < |ps| && ps[pending[0]].tour >= 0 then [] else [pending[0]]) + OfPreamble(pending[1..], ps)
  }

  function Opened(f: File, title: string, pending: seq<nat>): File {
    var g := RolledBack(f, pending);
    g.(tours := g.tours + [Tour(title, 0, 0, IsWarmupTitle(title))])
  }

  function Ranged(tours: seq<Tour>, n: nat): seq<Tour> {
    if tours == [] then []
    else
      var t := tours[|tours| - 1];
      tours[..|tours| - 1] + [t.(first := if t.first == 0 then n else t.first, last := n)]
  }

  function Counted(f: File, e: Entry, pending: seq<nat>): File
    requires e.Question?
  {
    var n := f.questions + 1;
    File(n, Ranged(f.tours, n), WithNext(f.paragraphs, pending, n),
         if e.known && e.author != "" then f.authors + [Author(n, e.author)] else f.authors)
  }

  /** Warm-up questions are not numbered. */
  predicate IsSkipped(f: File, e: Entry) {
    e.Question? && ((f.tours != [] && f.tours[|f.tours| - 1].warmup) || (e.known && e.number == "0"))
  }

  function Step(w: Walk, e: Entry): Walk {
    match e
    case Section(title) =>
      var f := Opened(w.file, title, w.pending);
      w.(file := f, pending := OfPreamble(w.pending, f.paragraphs))
    case Credit(text, editor) =>
      if text == "" then w
      else
        var f := w.file;
        Walk(f.(paragraphs := f.paragraphs + [Paragraph(text, |f.tours| - 1, 0, editor)]),
             w.pending + [|f.paragraphs|], w.marks + [f.questions])
    case Question(_, _, _) =>
      if IsSkipped(w.file, e) then w else w.(file := Counted(w.file, e, w.pending), pending := [])
    case Other => w
  }

  function Walked(w: Walk, doc: seq<Entry>): Walk
    decreases |doc|
  {
    if doc == [] then w else Walked(Step(w, doc[0]), doc[1..])
  }

  function FileOf(doc: seq<Entry>): File {
    Walked(START, doc).file
  }

  // ---- ranges ----

  /** The last question of the tours, when the first of them can begin after `from`. */
  function EndOf(tours: seq<Tour>, from: nat): nat {
    if tours == [] then from
    else if tours[|tours| - 1].first == 0 then EndOf(tours[..|tours| - 1], from)
    else tours[|tours| - 1].last
  }

  /** Each tour with questions begins right after the one before it. */
  predicate Consecutive(tours: seq<Tour>, from: nat) {
    tours == [] ||
    var t, before := tours[|tours| - 1], tours[..|tours| - 1];
    Consecutive(before, from) &&
    if t.first == 0 then t.last == 0 else t.first == EndOf(before, from) + 1 && t.first <= t.last
  }

  /** The first question of any tour, or 0. */
  function FirstOf(tours: seq<Tour>): nat {
    if tours == [] then 0
    else if FirstOf(tours[..|tours| - 1]) > 0 then FirstOf(tours[..|tours| - 1])
    else tours[|tours| - 1].first
  }

  /** The questions before the first tour that has any. */
  function Before(f: File): nat {
    if FirstOf(f.tours) == 0 then f.questions else FirstOf(f.tours) - 1
  }

  predicate InTour(t: Tour, n: nat) {
    t.first > 0 && t.first <= n <= t.last
  }

  lemma {:induction false} EndIsAfter(tours: seq<Tour>, from: nat)
    requires Consecutive(tours, from)
    ensures EndOf(tours, from) >= from
  {
    if tours != [] {
      EndIsAfter(tours[..|tours| - 1], from);
    }
  }

  lemma {:induction false} RangesLieBetween(tours: seq<Tour>, from: nat, i: nat)
    requires Consecutive(tours, from) && i < |tours|
    ensures tours[i].first > 0 ==> from < tours[i].first <= tours[i].last <= EndOf(tours, from)
    ensures tours[i].first == 0 ==> tours[i].last == 0
  {
    var before := tours[..|tours| - 1];
    EndIsAfter(before, from);
    if i < |before| {
      RangesLieBetween(before, from, i);
      assert before[i] == tours[i];
    }
  }

  /** The ranges follow one another. */
  lemma RangesFollow(tours: seq<Tour>, from: nat, i: nat, j: nat)
    requires Consecutive(tours, from) && i < j < |tours|
    ensures tours[i].first > 0 && tours[j].first > 0 ==> tours[i].last < tours[j].first
    decreases |tours|
  {
    var before := tours[..|tours| - 1];
    if j < |before| {
      RangesFollow(before, from, i, j);
      assert before[i] == tours[i] && before[j] == tours[j];
    } else {
      RangesLieBetween(before, from, i);
      assert before[i] == tours[i];
    }
  }

  function TourOf(tours: seq<Tour>, n: nat): (i: int)
    ensures -1 <= i < |tours| && (i >= 0 ==> InTour(tours[i], n))
  {
    if tours == [] then -1
    else if InTour(tours[|tours| - 1], n) then |tours| - 1
    else TourOf(tours[..|tours| - 1], n)
  }

  /** Consecutive ranges are a partition: a number belongs to a tour exactly when it lies between the ends, and
      to one tour only. */
  lemma {:induction false} RangesPartition(tours: seq<Tour>, from: nat, n: nat)
    requires Consecutive(tours, from)
    ensures TourOf(tours, n) >= 0 <==> from < n <= EndOf(tours, from)
    ensures forall i :: 0 <= i < |tours| && InTour(tours[i], n) ==> i == TourOf(tours, n)
  {
    if tours != [] {
      var before, t := tours[..|tours| - 1], tours[|tours| - 1];
      RangesPartition(before, from, n);
      EndIsAfter(before, from);
      forall i | 0 <= i < |tours| && InTour(tours[i], n)
        ensures i == TourOf(tours, n)
      {
        if i < |before| {
          assert before[i] == tours[i];
          RangesLieBetween(before, from, i);
        }
      }
    }
  }

  // ---- the invariant ----

  /** Where the questions after a paragraph of the tour end. */
  function EndFor(f: File, tour: int): nat
    requires -1 <= tour < |f.tours|
  {
    if tour < 0 then f.questions else f.tours[tour].last
  }

  ghost predicate AuthorsIncrease(authors: seq<Author>, upTo: nat) {
    && (forall j, k :: 0 <= j < k < |authors| ==> authors[j].question < authors[k].question)
    && (forall k :: 0 <= k < |authors| ==> 1 <= authors[k].question <= upTo)
  }

  /** The paragraph stands in a tour or the preamble, and its next question is the one after those numbered
      before it, if its tour has that question; no question of its tour was numbered before its tour opened. */
  ghost predicate ParagraphOk(f: File, p: Paragraph, mark: nat) {
    && -1 <= p.tour < |f.tours| && mark <= f.questions
    && p.next == (if mark < EndFor(f, p.tour) then mark + 1 else 0)
    && (if p.tour < 0 then mark <= Before(f)
        else mark >= EndOf(f.tours[..p.tour], Before(f)))
  }

  ghost predicate ParagraphsOk(f: File, marks: seq<nat>) {
    |marks| == |f.paragraphs| && forall k :: 0 <= k < |marks| ==> ParagraphOk(f, f.paragraphs[k], marks[k])
  }

  /** The ranges of the tours partition the questions after the leading ones, authors are in order, and every
      paragraph points to its next question. */
  ghost predicate WellNumbered(f: File, marks: seq<nat>) {
    && Consecutive(f.tours, Before(f)) && EndOf(f.tours, Before(f)) == f.questions
    && AuthorsIncrease(f.authors, f.questions)
    && ParagraphsOk(f, marks)
  }

  /** The waiting paragraphs are those that no question has followed in the open tour or the preamble. */
  ghost predicate Waiting(w: Walk) {
    && |w.marks| == |w.file.paragraphs|
    && (forall i :: i in w.pending ==> i < |w.file.paragraphs|)
    && (forall i :: 0 <= i < |w.marks| ==>
          (i in w.pending <==> w.marks[i] == w.file.questions && w.file.paragraphs[i].tour in {-1, |w.file.tours| - 1}))
  }

  ghost predicate Invariant(w: Walk) {
    WellNumbered(w.file, w.marks) && Waiting(w)
  }

  lemma EmptyTourAdded(tours: seq<Tour>, t: Tour, from: nat)
    requires Consecutive(tours, from) && t.first == 0 && t.last == 0
    ensures var more := tours + [t];
            Consecutive(more, from) && EndOf(more, from) == EndOf(tours, from) && FirstOf(more) == FirstOf(tours)
  {
    assert (tours + [t])[..|tours|] == tours;
  }

  lemma EmptyTourDropped(tours: seq<Tour>, from: nat)
    requires Consecutive(tours, from) && tours != [] && tours[|tours| - 1].first == 0
    ensures var less := tours[..|tours| - 1];
            Consecutive(less, from) && EndOf(less, from) == EndOf(tours, from) && FirstOf(less) == FirstOf(tours)
  {
  }

  lemma RolledParagraph(f: File, p: Paragraph, mark: nat, waiting: bool)
    requires IsFalseTour(f) && Consecutive(f.tours, Before(f)) && EndOf(f.tours, Before(f)) == f.questions
    requires ParagraphOk(f, p, mark) && (waiting <==> mark == f.questions && p.tour in {-1, |f.tours| - 1})
    ensures var g, q := f.(tours := f.tours[..|f.tours| - 1]), if waiting then p.(tour := -1) else p;
            ParagraphOk(g, q, mark) && (q.tour < 0 ==> (waiting <==> mark == f.questions))
  {
    hide Consecutive, FirstOf, EndOf;
    var g := f.(tours := f.tours[..|f.tours| - 1]);
    EmptyTourDropped(f.tours, Before(f));
    FirstIsWithin(f);
    assert 0 <= p.tour < |g.tours| ==> g.tours[..p.tour] == f.tours[..p.tour];
  }

  /** What a paragraph needs of its file are the tours and the number of questions. */
  lemma SameTours(f: File, g: File, p: Paragraph, mark: nat)
    requires f.tours == g.tours && f.questions == g.questions && ParagraphOk(f, p, mark)
    ensures ParagraphOk(g, p, mark)
  {
  }

  lemma ParagraphBasics(f: File, p: Paragraph, mark: nat)
    requires ParagraphOk(f, p, mark)
    ensures mark <= f.questions && -1 <= p.tour < |f.tours|
  {
  }

  lemma BeforeRolled(f: File, pending: seq<nat>)
    requires IsFalseTour(f) && Consecutive(f.tours, Before(f))
    ensures Before(RolledBack(f, pending)) == Before(f)
  {
    hide Consecutive, EndOf, FirstOf;
    EmptyTourDropped(f.tours, Before(f));
  }

  /** A false tour is taken back; its paragraphs are the preamble's, and wait on. */
  lemma RollBackKeeps(w: Walk)
    requires Invariant(w)
    ensures var f := RolledBack(w.file, w.pending);
            && WellNumbered(f, w.marks) && f.questions == w.file.questions
            && (forall k :: 0 <= k < |w.marks| && f.paragraphs[k].tour < 0 ==> w.marks[k] <= f.questions)
            && (forall k :: 0 <= k < |w.marks| && f.paragraphs[k].tour < 0 ==>
                  (k in w.pending <==> w.marks[k] == f.questions))
  {
    hide Consecutive, EndOf, FirstOf, ParagraphOk, Before, AuthorsIncrease;
    var f, g := w.file, RolledBack(w.file, w.pending);
    if IsFalseTour(f) {
      BeforeRolled(f, w.pending);
      EmptyTourDropped(f.tours, Before(f));
      forall k | 0 <= k < |w.marks|
        ensures ParagraphOk(g, g.paragraphs[k], w.marks[k]) && w.marks[k] <= g.questions
        ensures g.paragraphs[k].tour < 0 ==> (k in w.pending <==> w.marks[k] == g.questions)
      {
        assert ParagraphOk(f, f.paragraphs[k], w.marks[k]);
        RolledParagraph(f, f.paragraphs[k], w.marks[k], k in w.pending);
        ParagraphBasics(f, f.paragraphs[k], w.marks[k]);
        SameTours(f.(tours := f.tours[..|f.tours| - 1]), g, g.paragraphs[k], w.marks[k]);
      }
    } else {
      forall k | 0 <= k < |w.marks|
        ensures w.marks[k] <= f.questions && -1 <= f.paragraphs[k].tour < |f.tours|
      {
        assert ParagraphOk(f, f.paragraphs[k], w.marks[k]);
        ParagraphBasics(f, f.paragraphs[k], w.marks[k]);
      }
    }
  }

  lemma HeadingKeeps(w: Walk, title: string)
    requires Invariant(w)
    ensures Invariant(Step(w, Section(title)))
  {
    hide Consecutive, EndOf, FirstOf, IsWarmupTitle, RolledBack;
    RollBackKeeps(w);
    var g := RolledBack(w.file, w.pending);
    var t := Tour(title, 0, 0, IsWarmupTitle(title));
    var f := g.(tours := g.tours + [t]);
    EmptyTourAdded(g.tours, t, Before(g));
    forall k | 0 <= k < |w.marks|
      ensures ParagraphOk(f, f.paragraphs[k], w.marks[k])
    {
      assert ParagraphOk(g, g.paragraphs[k], w.marks[k]);
      var u := g.paragraphs[k].tour;
      assert u >= 0 ==> f.tours[..u] == g.tours[..u];
    }
  }

  lemma LastBegins(tours: seq<Tour>, from: nat)
    requires Consecutive(tours, from)
    ensures tours != [] ==> EndOf(tours[..|tours| - 1], from) <= EndOf(tours, from)
  {
  }

  lemma CreditKeeps(w: Walk, text: string, editor: bool)
    requires Invariant(w)
    ensures Invariant(Step(w, Credit(text, editor)))
  {
    hide Consecutive, EndOf, FirstOf;
    var f, next := w.file, Step(w, Credit(text, editor));
    if text != "" {
      FirstIsWithin(f);
      LastBegins(f.tours, Before(f));
      forall k | 0 <= k < |next.marks|
        ensures ParagraphOk(next.file, next.file.paragraphs[k], next.marks[k])
      {
        if k < |w.marks| {
          assert ParagraphOk(f, f.paragraphs[k], w.marks[k]);
        }
      }
    }
  }

  lemma {:induction false} FirstIsSome(tours: seq<Tour>, from: nat)
    requires Consecutive(tours, from)
    ensures FirstOf(tours) == 0 ==> EndOf(tours, from) == from
    ensures FirstOf(tours) > 0 ==> from < FirstOf(tours) <= EndOf(tours, from)
  {
    if tours != [] {
      FirstIsSome(tours[..|tours| - 1], from);
      EndIsAfter(tours[..|tours| - 1], from);
    }
  }

  /** The leading questions and the range of the open tour lie within the questions. */
  lemma FirstIsWithin(f: File)
    requires Consecutive(f.tours, Before(f)) && EndOf(f.tours, Before(f)) == f.questions
    ensures Before(f) <= f.questions && (f.tours == [] ==> Before(f) == f.questions)
    ensures f.tours != [] ==> f.tours[|f.tours| - 1].last <= f.questions
    ensures forall i :: 0 <= i < |f.tours| && f.tours[i].first > 0 ==> f.tours[i].first <= f.tours[i].last <= f.questions
  {
    FirstIsSome(f.tours, Before(f));
    forall i | 0 <= i < |f.tours| && f.tours[i].first > 0
      ensures f.tours[i].first <= f.tours[i].last <= f.questions
    {
      RangesLieBetween(f.tours, Before(f), i);
    }
    if f.tours != [] {
      RangesLieBetween(f.tours, Before(f), |f.tours| - 1);
    }
  }

  lemma RangeGrows(tours: seq<Tour>, from: nat, n: nat)
    requires Consecutive(tours, from) && EndOf(tours, from) + 1 == n && tours != []
    ensures Consecutive(Ranged(tours, n), from) && EndOf(Ranged(tours, n), from) == n
    ensures FirstOf(Ranged(tours, n)) == if FirstOf(tours) == 0 then n else FirstOf(tours)
  {
    var before := tours[..|tours| - 1];
    assert Ranged(tours, n)[..|tours| - 1] == before;
    EndIsAfter(before, from);
  }

  lemma CountKeeps(w: Walk, e: Entry)
    requires Invariant(w) && e.Question? && !IsSkipped(w.file, e)
    ensures Invariant(Step(w, e))
  {
    hide Consecutive, EndOf, FirstOf, ParagraphOk, Before, Counted;
    var f, g := w.file, Counted(w.file, e, w.pending);
    CountedRanges(f, e, w.pending);
    CountedAuthors(f, e, w.pending);
    forall k | 0 <= k < |w.marks|
      ensures ParagraphOk(g, g.paragraphs[k], w.marks[k])
      ensures w.marks[k] <= f.questions
    {
      assert ParagraphOk(f, f.paragraphs[k], w.marks[k]);
      CountedParagraph(f, e, w.pending, k, w.marks[k]);
    }
  }

  lemma CountedAuthors(f: File, e: Entry, pending: seq<nat>)
    requires AuthorsIncrease(f.authors, f.questions) && e.Question?
    ensures var g := Counted(f, e, pending);
            AuthorsIncrease(g.authors, g.questions) && g.questions == f.questions + 1 && |g.paragraphs| == |f.paragraphs|
  {
  }

  /** A question gives every waiting paragraph its number, and leaves the others alone. */
  lemma CountedParagraph(f: File, e: Entry, pending: seq<nat>, k: nat, mark: nat)
    requires e.Question? && k < |f.paragraphs| && ParagraphOk(f, f.paragraphs[k], mark)
    requires Consecutive(f.tours, Before(f)) && EndOf(f.tours, Before(f)) == f.questions
    requires k in pending <==> mark == f.questions && f.paragraphs[k].tour in {-1, |f.tours| - 1}
    ensures var g := Counted(f, e, pending); ParagraphOk(g, g.paragraphs[k], mark) && mark <= f.questions
  {
    hide Consecutive, FirstOf;
    FirstIsWithin(f);
    CountedRanges(f, e, pending);
    var u := f.paragraphs[k].tour;
    assert u >= 0 ==> Counted(f, e, pending).tours[..u] == f.tours[..u];
  }

  lemma CountedRanges(f: File, e: Entry, pending: seq<nat>)
    requires Consecutive(f.tours, Before(f)) && EndOf(f.tours, Before(f)) == f.questions && e.Question?
    ensures var g := Counted(f, e, pending);
            && Consecutive(g.tours, Before(g)) && EndOf(g.tours, Before(g)) == g.questions
            && Before(g) == if f.tours == [] then Before(f) + 1 else Before(f)
  {
    if f.tours != [] {
      RangeGrows(f.tours, Before(f), f.questions + 1);
      FirstIsSome(f.tours, Before(f));
    }
  }

  lemma StepKeeps(w: Walk, e: Entry)
    requires Invariant(w)
    ensures Invariant(Step(w, e))
  {
    hide Invariant;
    match e {
      case Section(title) => HeadingKeeps(w, title);
      case Credit(text, editor) => CreditKeeps(w, text, editor);
      case Question(_, _, _) =>
        if !IsSkipped(w.file, e) {
          CountKeeps(w, e);
        }
      case Other =>
    }
  }

  lemma {:induction false} WalkKeeps(w: Walk, doc: seq<Entry>)
    requires Invariant(w)
    ensures Invariant(Walked(w, doc))
    decreases |doc|
  {
    hide Invariant, Step;
    if doc != [] {
      StepKeeps(w, doc[0]);
      WalkKeeps(Step(w, doc[0]), doc[1..]);
    }
  }

  /** Every parsed document is well numbered. */
  lemma FileIsWellNumbered(doc: seq<Entry>)
    ensures WellNumbered(FileOf(doc), Walked(START, doc).marks)
  {
    WalkKeeps(START, doc);
  }
}
