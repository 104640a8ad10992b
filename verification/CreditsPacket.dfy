/** The walk over a document as the program does it, and dropping the questions before the first tour. */
module CreditsPacket {
  import opened CreditsNumbering

  /** A packet while its document is walked. */
  class Packet {
    var questions: nat
    var tours: seq<Tour>
    var paragraphs: seq<Paragraph>
    var authors: seq<Author>

    function Contents(): File
      reads this
    {
      File(questions, tours, paragraphs, authors)
    }

    constructor ()
      ensures Contents() == NO_FILE
    {
      questions, tours, paragraphs, authors := 0, [], [], [];
    }

    method SetTour(pending: seq<nat>, tour: int)
      requires forall i :: i in pending ==> i < |paragraphs|
      modifies this`paragraphs
      ensures paragraphs == WithTour(old(paragraphs), pending, tour)
    {
      for j := 0 to |pending|
        invariant |paragraphs| == |old(paragraphs)|
        invariant forall k :: 0 <= k < |paragraphs| ==>
          paragraphs[k] == if k in pending[..j] then old(paragraphs)[k].(tour := tour) else old(paragraphs)[k]
      {
        assert pending[j] in pending;
        paragraphs := paragraphs[pending[j] := paragraphs[pending[j]].(tour := tour)];
      }
      assert pending[..|pending|] == pending;
    }

    method SetNext(pending: seq<nat>, n: nat)
      requires forall i :: i in pending ==> i < |paragraphs|
      modifies this`paragraphs
      ensures paragraphs == WithNext(old(paragraphs), pending, n)
    {
      for j := 0 to |pending|
        invariant |paragraphs| == |old(paragraphs)|
        invariant forall k :: 0 <= k < |paragraphs| ==>
          paragraphs[k] == if k in pending[..j] then old(paragraphs)[k].(next := n) else old(paragraphs)[k]
      {
        assert pending[j] in pending;
        paragraphs := paragraphs[pending[j] := paragraphs[pending[j]].(next := n)];
      }
      assert pending[..|pending|] == pending;
    }

    /** Starts a tour; returns the paragraphs still waiting for a question. */
    method OpenTour(title: string, tour: int, pending: seq<nat>) returns (waiting: seq<nat>)
      requires tour == |tours| - 1 && forall i :: i in pending ==> i < |paragraphs|
      modifies this
      ensures Contents() == Opened(old(Contents()), title, pending)
      ensures waiting == OfPreamble(pending, paragraphs)
    {
      if tour >= 0 && tours[tour].first == 0 && !tours[tour].warmup && questions == 0 {
        SetTour(pending, -1);
        tours := tours[..tour];
      }
      tours := tours + [Tour(title, 0, 0, IsWarmupTitle(title))];
      waiting := OfPreamble(pending, paragraphs);
    }

    /** Numbers the next question: the paragraphs waiting for it, the open tour's range and its author. */
    method AddQuestion(e: Entry, tour: int, pending: seq<nat>)
      requires e.Question? && tour == |tours| - 1 && forall i :: i in pending ==> i < |paragraphs|
      modifies this
      ensures Contents() == Counted(old(Contents()), e, pending)
    {
      questions := questions + 1;
      var n := questions;
      SetNext(pending, n);
      if tour >= 0 {
        if tours[tour].first == 0 {
          tours := tours[tour := tours[tour].(first := n)];
        }
        tours := tours[tour := tours[tour].(last := n)];
        assert tours == Ranged(old(tours), n);
      }
      if e.known && e.author != "" {
        authors := authors + [Author(n, e.author)];
      }
    }
  }

  lemma OpenedHasTour(f: File, title: string, pending: seq<nat>)
    ensures var g := Opened(f, title, pending);
            g.tours != [] && g.tours[|g.tours| - 1].warmup == IsWarmupTitle(title)
            && |g.paragraphs| == |f.paragraphs|
  {
  }

  method FromDoc(doc: seq<Entry>) returns (f: File, ghost marks: seq<nat>)
    ensures f == FileOf(doc) && WellNumbered(f, marks)
  {
    hide WellNumbered, Opened, Counted, IsWarmupTitle, OfPreamble;
    var p := new Packet();
    var tour, warmup := -1, false;
    var pending: seq<nat> := [];
    marks := [];
    StartHolds();
    for i := 0 to |doc|
      invariant fresh(p) && Invariant(Walk(p.Contents(), pending, marks))
      invariant tour == |p.tours| - 1 && warmup == (p.tours != [] && p.tours[|p.tours| - 1].warmup)
      invariant Walked(Walk(p.Contents(), pending, marks), doc[i..]) == Walked(START, doc)
    {
      ghost var w, e := Walk(p.Contents(), pending, marks), doc[i];
      assert doc[i..][0] == e && doc[i..][1..] == doc[i + 1..];
      StepKeeps(w, e);
      assert forall k :: k in pending ==> k < |p.paragraphs|;
      match doc[i] {
        case Section(title) =>
          OpenedHasTour(p.Contents(), title, pending);
          pending := p.OpenTour(title, tour, pending);
          warmup := p.tours[|p.tours| - 1].warmup;
          tour := |p.tours| - 1;
        case Credit(text, editor) =>
          if text != "" {
            marks := marks + [p.questions];
            p.paragraphs := p.paragraphs + [Paragraph(text, tour, 0, editor)];
            pending := pending + [|p.paragraphs| - 1];
          }
        case Question(known, number, _) =>
          if !(warmup || (known && number == "0")) {
            CountedWarmup(p.Contents(), doc[i], pending);
            p.AddQuestion(doc[i], tour, pending);
            pending := [];
          }
        case Other =>
      }
      assert Walk(p.Contents(), pending, marks) == Step(w, e);
    }
    FileIsWellNumbered(doc);
    f := p.Contents();
  }

  lemma StartHolds()
    ensures Invariant(START)
  {
  }

  lemma CountedWarmup(f: File, e: Entry, pending: seq<nat>)
    requires e.Question?
    ensures var g := Counted(f, e, pending);
            |g.tours| == |f.tours| && (f.tours != [] ==> g.tours[|g.tours| - 1].warmup == f.tours[|f.tours| - 1].warmup)
  {
  }

  // ---- dropping the leading questions ----

  /** The questions before the first tour that has any, or 0 when no tour has. */
  function QuestionsBeforeTours(f: File): nat {
    if FirstOf(f.tours) == 0 then 0 else FirstOf(f.tours) - 1
  }

  function Shift(n: nat, pre: nat): nat {
    if n == 0 then 0 else if n - pre > 1 then n - pre else 1
  }

  function ShiftedTours(tours: seq<Tour>, pre: nat): (r: seq<Tour>)
    ensures |r| == |tours|
    ensures forall k :: 0 <= k < |tours| ==>
      r[k] == tours[k].(first := Shift(tours[k].first, pre), last := Shift(tours[k].last, pre))
  {
    seq(|tours|, k requires 0 <= k < |tours| =>
      tours[k].(first := Shift(tours[k].first, pre), last := Shift(tours[k].last, pre)))
  }

  function ShiftedParagraphs(ps: seq<Paragraph>, pre: nat): (r: seq<Paragraph>)
    ensures |r| == |ps| && forall k :: 0 <= k < |ps| ==> r[k] == ps[k].(next := Shift(ps[k].next, pre))
  {
    seq(|ps|, k requires 0 <= k < |ps| => ps[k].(next := Shift(ps[k].next, pre)))
  }

  function KeptAuthors(authors: seq<Author>, pre: nat): seq<Author> {
    if authors == [] then []
    else
      var a := authors[|authors| - 1];
      KeptAuthors(authors[..|authors| - 1], pre) + if a.question > pre then [a.(question := a.question - pre)] else []
  }

  /** Whether the leading questions lose their numbers; `want` is the count the tournament has, or 0. */
  predicate DropsLeading(f: File, want: nat) {
    QuestionsBeforeTours(f) > 0 && !(want > 0 && f.questions == want)
  }

  function Dropped(f: File, want: nat): File {
    var pre := QuestionsBeforeTours(f);
    if !DropsLeading(f, want) then f
    else
      File(if f.questions >= pre then f.questions - pre else 0, ShiftedTours(f.tours, pre),
           ShiftedParagraphs(f.paragraphs, pre), KeptAuthors(f.authors, pre))
  }

  method CountBeforeTours(tours: seq<Tour>) returns (pre: nat)
    ensures pre == if FirstOf(tours) == 0 then 0 else FirstOf(tours) - 1
  {
    for i := 0 to |tours|
      invariant FirstOf(tours[..i]) == 0
    {
      assert tours[..i + 1][..i] == tours[..i];
      if tours[i].first > 0 {
        FirstStays(tours, i + 1);
        return tours[i].first - 1;
      }
    }
    assert tours[..|tours|] == tours;
    return 0;
  }

  lemma {:induction false} FirstStays(tours: seq<Tour>, n: nat)
    requires n <= |tours| && FirstOf(tours[..n]) > 0
    ensures FirstOf(tours) == FirstOf(tours[..n])
  {
    if n < |tours| {
      assert tours[..|tours| - 1][..n] == tours[..n];
      FirstStays(tours[..|tours| - 1], n);
    } else {
      assert tours[..n] == tours;
    }
  }

  /** The authors that are kept are those of the later questions, with their new numbers. */
  lemma {:induction false} KeptExactly(authors: seq<Author>, pre: nat, a: Author)
    ensures a in KeptAuthors(authors, pre) <==> a.question > 0 && a.(question := a.question + pre) in authors
  {
    if authors != [] {
      var front, b := authors[..|authors| - 1], authors[|authors| - 1];
      KeptExactly(front, pre, a);
      assert authors == front + [b];
    }
  }

  method DropAuthors(authors: seq<Author>, pre: nat) returns (kept: seq<Author>)
    ensures kept == KeptAuthors(authors, pre)
  {
    kept := [];
    for i := 0 to |authors|
      invariant kept == KeptAuthors(authors[..i], pre)
    {
      assert authors[..i + 1][..i] == authors[..i];
      if authors[i].question > pre {
        kept := kept + [authors[i].(question := authors[i].question - pre)];
      }
    }
    assert authors[..|authors|] == authors;
  }

  method DropLeadingWarmup(f: File, want: nat, ghost marks: seq<nat>) returns (g: File, ghost after: seq<nat>)
    requires WellNumbered(f, marks)
    ensures g == Dropped(f, want) && WellNumbered(g, after)
    ensures want > 0 && f.questions == want ==> g == f
    ensures FirstOf(f.tours) > 0 && !(want > 0 && f.questions == want) ==>
              Before(g) == 0 && g.questions == f.questions - Before(f) && |g.tours| == |f.tours|
  {
    hide KeptAuthors, ParagraphOk, Consecutive, EndOf, Shift, AuthorsIncrease;
    after := marks;
    var pre := CountBeforeTours(f.tours);
    if pre == 0 || |f.tours| == 0 || (want > 0 && f.questions == want) {
      return f, after;
    }
    var tours, paragraphs := f.tours, f.paragraphs;
    for i := 0 to |tours|
      invariant |tours| == |f.tours|
      invariant forall k :: 0 <= k < i ==> tours[k] == ShiftedTours(f.tours, pre)[k]
      invariant forall k :: i <= k < |tours| ==> tours[k] == f.tours[k]
    {
      tours := tours[i := tours[i].(first := Shift(tours[i].first, pre), last := Shift(tours[i].last, pre))];
    }
    for i := 0 to |paragraphs|
      invariant |paragraphs| == |f.paragraphs|
      invariant forall k :: 0 <= k < i ==> paragraphs[k] == ShiftedParagraphs(f.paragraphs, pre)[k]
      invariant forall k :: i <= k < |paragraphs| ==> paragraphs[k] == f.paragraphs[k]
    {
      paragraphs := paragraphs[i := paragraphs[i].(next := Shift(paragraphs[i].next, pre))];
    }
    FirstIsWithin(f);
    FirstIsSome(f.tours, Before(f));
    var authors := DropAuthors(f.authors, pre);
    assert tours == ShiftedTours(f.tours, pre) && paragraphs == ShiftedParagraphs(f.paragraphs, pre);
    g := File(f.questions - pre, tours, paragraphs, authors);
    DroppingKeeps(f, marks, want);
    after := ShiftedMarks(marks, pre);
  }

  function ShiftedMarks(marks: seq<nat>, pre: nat): (r: seq<nat>)
    ensures |r| == |marks|
    ensures forall k :: 0 <= k < |marks| ==> r[k] == if marks[k] < pre then 0 else marks[k] - pre
  {
    seq(|marks|, k requires 0 <= k < |marks| => if marks[k] < pre then 0 else marks[k] - pre)
  }

  lemma {:induction false} ShiftedRanges(tours: seq<Tour>, pre: nat)
    requires Consecutive(tours, pre)
    ensures var r := ShiftedTours(tours, pre);
            Consecutive(r, 0) && EndOf(r, 0) == EndOf(tours, pre) - pre
    ensures var r := ShiftedTours(tours, pre);
            FirstOf(r) == if FirstOf(tours) == 0 then 0 else FirstOf(tours) - pre
    ensures FirstOf(tours) == 0 || FirstOf(tours) > pre
  {
    FirstIsSome(tours, pre);
    EndIsAfter(tours, pre);
    if tours != [] {
      var before, r := tours[..|tours| - 1], ShiftedTours(tours, pre);
      ShiftedRanges(before, pre);
      EndIsAfter(before, pre);
      assert r[..|r| - 1] == ShiftedTours(before, pre);
    }
  }

  lemma AuthorAppended(authors: seq<Author>, a: Author, upTo: nat)
    requires AuthorsIncrease(authors, upTo) && 1 <= a.question <= upTo
    requires authors != [] ==> authors[|authors| - 1].question < a.question
    ensures AuthorsIncrease(authors + [a], upTo)
  {
  }

  lemma AuthorsFront(authors: seq<Author>, upTo: nat)
    requires AuthorsIncrease(authors, upTo) && authors != []
    ensures var front, last := authors[..|authors| - 1], authors[|authors| - 1];
            && AuthorsIncrease(front, upTo) && 1 <= last.question <= upTo
            && (front != [] ==> front[|front| - 1].question < last.question)
  {
  }

  lemma KeptStep(authors: seq<Author>, pre: nat)
    ensures KeptAuthors(authors, pre) ==
            if authors == [] then []
            else
              var front, a := KeptAuthors(authors[..|authors| - 1], pre), authors[|authors| - 1];
              if a.question > pre then front + [a.(question := a.question - pre)] else front
  {
  }

  lemma NoAuthors(upTo: nat)
    ensures AuthorsIncrease([], upTo)
  {
  }

  /** The last author kept, with the number he had. */
  function LastKept(authors: seq<Author>, pre: nat): nat {
    if authors == [] then 0 else authors[|authors| - 1].question + pre
  }

  lemma {:induction false} KeptIncrease(authors: seq<Author>, pre: nat, upTo: nat)
    requires AuthorsIncrease(authors, upTo) && pre <= upTo
    ensures AuthorsIncrease(KeptAuthors(authors, pre), upTo - pre)
    ensures LastKept(KeptAuthors(authors, pre), pre) <= LastKept(authors, 0)
  {
    hide AuthorsIncrease, KeptAuthors;
    KeptStep(authors, pre);
    if authors == [] {
      NoAuthors(upTo - pre);
    } else {
      var front, a := authors[..|authors| - 1], authors[|authors| - 1];
      AuthorsFront(authors, upTo);
      KeptIncrease(front, pre, upTo);
      if a.question > pre {
        AuthorAppended(KeptAuthors(front, pre), a.(question := a.question - pre), upTo - pre);
      }
    }
  }

  /** Dropping keeps the packet well numbered, and nothing is left before the first tour. */
  lemma DroppingKeeps(f: File, marks: seq<nat>, want: nat)
    requires WellNumbered(f, marks) && DropsLeading(f, want)
    ensures WellNumbered(Dropped(f, want), ShiftedMarks(marks, QuestionsBeforeTours(f)))
    ensures Before(Dropped(f, want)) == 0 && Dropped(f, want).questions == f.questions - QuestionsBeforeTours(f) > 0
  {
    hide Consecutive, KeptAuthors, EndOf, FirstOf, ParagraphOk;
    var pre, g := QuestionsBeforeTours(f), Dropped(f, want);
    var after := ShiftedMarks(marks, pre);
    FirstIsSome(f.tours, Before(f));
    ShiftedRanges(f.tours, pre);
    KeptIncrease(f.authors, pre, f.questions);
    forall k | 0 <= k < |marks|
      ensures ParagraphOk(g, g.paragraphs[k], after[k])
    {
      assert ParagraphOk(f, f.paragraphs[k], marks[k]);
      ShiftedParagraph(f, want, f.paragraphs[k], marks[k]);
    }
  }

  lemma ShiftedParagraph(f: File, want: nat, p: Paragraph, mark: nat)
    requires Consecutive(f.tours, Before(f)) && EndOf(f.tours, Before(f)) == f.questions && DropsLeading(f, want)
    requires ParagraphOk(f, p, mark)
    ensures var pre := QuestionsBeforeTours(f);
            ParagraphOk(Dropped(f, want), p.(next := Shift(p.next, pre)), if mark < pre then 0 else mark - pre)
  {
    hide Consecutive, KeptAuthors, EndOf, FirstOf;
    var pre, g := QuestionsBeforeTours(f), Dropped(f, want);
    FirstIsSome(f.tours, pre);
    FirstIsWithin(f);
    ShiftedRanges(f.tours, pre);
    if p.tour >= 0 {
      RangesLieBetween(f.tours, pre, p.tour);
      var front := f.tours[..p.tour];
      ConsecutiveFront(f.tours, pre, p.tour);
      ShiftedRanges(front, pre);
      EndIsAfter(front, pre);
      assert g.tours[..p.tour] == ShiftedTours(front, pre);
    }
  }

  lemma {:induction false} ConsecutiveFront(tours: seq<Tour>, from: nat, n: nat)
    requires Consecutive(tours, from) && n <= |tours|
    ensures Consecutive(tours[..n], from) && EndOf(tours[..n], from) <= EndOf(tours, from)
  {
    if n < |tours| {
      ConsecutiveFront(tours[..|tours| - 1], from, n);
      assert tours[..|tours| - 1][..n] == tours[..n];
    } else {
      assert tours[..n] == tours;
    }
  }

  /** A paragraph of a tour points into that tour, or to no question. */
  lemma NextLiesInTour(f: File, marks: seq<nat>, k: nat)
    requires WellNumbered(f, marks) && k < |marks|
    ensures var p := f.paragraphs[k];
            && -1 <= p.tour < |f.tours|
            && (p.tour >= 0 && p.next > 0 ==> InTour(f.tours[p.tour], p.next))
            && (p.tour < 0 && p.next > 0 ==> p.next <= Before(f) + 1)
            && p.next <= f.questions
  {
    hide EndOf;
    var p := f.paragraphs[k];
    assert ParagraphOk(f, p, marks[k]);
    FirstIsWithin(f);
    if p.tour >= 0 {
      TourBegins(f.tours, Before(f), p.tour);
      RangesLieBetween(f.tours, Before(f), p.tour);
    }
  }

  lemma {:induction false} TourBegins(tours: seq<Tour>, from: nat, i: nat)
    requires Consecutive(tours, from) && i < |tours|
    ensures tours[i].first > 0 ==> tours[i].first == EndOf(tours[..i], from) + 1
  {
    if i < |tours| - 1 {
      TourBegins(tours[..|tours| - 1], from, i);
      assert tours[..|tours| - 1][..i] == tours[..i];
    }
  }
}
