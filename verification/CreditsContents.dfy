/** What a document's credits hold, told from the document alone: which questions are numbered, whose authors are
    kept, which headings are tours, and where each paragraph stands. */
module CreditsContents {
  import opened CreditsNumbering
  import opened CreditsPacket

  // ---- the document ----

  /** The last heading before entry n, or -1. */
  function LastSection(doc: seq<Entry>, n: nat): (s: int)
    requires n <= |doc|
    ensures -1 <= s < n && (s >= 0 ==> doc[s].Section?)
    ensures forall i :: s < i < n ==> !doc[i].Section?
  {
    if n == 0 then -1 else if doc[n - 1].Section? then n - 1 else LastSection(doc, n - 1)
  }

  /** A question has a number unless it stands under a warm-up heading or is numbered 0. */
  predicate HasNumber(doc: seq<Entry>, i: nat)
    requires i < |doc|
  {
    && doc[i].Question? && !(doc[i].known && doc[i].number == "0")
    && (LastSection(doc, i) >= 0 ==> !IsWarmupTitle(doc[LastSection(doc, i)].title))
  }

  function NumbersBefore(doc: seq<Entry>, n: nat): nat
    requires n <= |doc|
  {
    if n == 0 then 0 else NumbersBefore(doc, n - 1) + if HasNumber(doc, n - 1) then 1 else 0
  }

  /** Entry i is the question with number m. */
  predicate IsNumbered(doc: seq<Entry>, i: nat, m: nat)
    requires i < |doc|
  {
    HasNumber(doc, i) && NumbersBefore(doc, i) + 1 == m
  }

  /** Another heading follows before any question is numbered: the heading is no tour. */
  ghost predicate IsFalseHeading(doc: seq<Entry>, i: nat, n: nat)
    requires i < n <= |doc|
  {
    doc[i].Section? && !IsWarmupTitle(doc[i].title)
    && exists j :: i < j < n && doc[j].Section? && NumbersBefore(doc, j) == 0
  }

  ghost predicate HasAuthor(doc: seq<Entry>, n: nat, a: Author)
    requires n <= |doc|
  {
    exists i :: 0 <= i < n && IsNumbered(doc, i, a.question) && doc[i].known && doc[i].author == a.text != ""
  }

  // ---- what the packet holds of it ----

  predicate Ascending(s: seq<nat>, n: nat) {
    (forall i, j :: 0 <= i < j < |s| ==> s[i] < s[j]) && forall i :: 0 <= i < |s| ==> s[i] < n
  }

  /** The tours are the headings at `at`: all but the false ones, in their order. */
  ghost predicate ToursAre(doc: seq<Entry>, n: nat, f: File, at: seq<nat>)
    requires n <= |doc|
  {
    && |at| == |f.tours| && Ascending(at, n)
    && (forall t :: 0 <= t < |at| ==>
          doc[at[t]] == Section(f.tours[t].title) && f.tours[t].warmup == IsWarmupTitle(f.tours[t].title))
    && (forall i :: 0 <= i < n ==> (i in at <==> doc[i].Section? && !IsFalseHeading(doc, i, n)))
    && (if LastSection(doc, n) < 0 then at == [] else at != [] && at[|at| - 1] == LastSection(doc, n))
  }

  /** A number lies in a tour exactly when its question stands under the tour's heading. */
  ghost predicate RangesAre(doc: seq<Entry>, n: nat, f: File, at: seq<nat>)
    requires n <= |doc|
  {
    |at| == |f.tours| &&
    forall t, m: nat :: 0 <= t < |at| ==> (InTour(f.tours[t], m) <==> IsUnder(doc, n, at[t], m))
  }

  ghost predicate IsUnder(doc: seq<Entry>, n: nat, s: nat, m: nat)
    requires n <= |doc|
  {
    exists i :: 0 <= i < n && IsNumbered(doc, i, m) && LastSection(doc, i) == s
  }

  /** A paragraph stands in the tour of the heading before it, or in the preamble when there is none or a false one. */
  ghost predicate StandsIn(doc: seq<Entry>, n: nat, p: Paragraph, c: nat, at: seq<nat>)
    requires c < n <= |doc|
  {
    var s := LastSection(doc, c);
    if p.tour >= 0 then p.tour < |at| && at[p.tour] == s else s < 0 || IsFalseHeading(doc, s, n)
  }

  /** The paragraphs are the credits at `cs`: all that are not empty, in their order. */
  ghost predicate ParagraphsAre(doc: seq<Entry>, n: nat, w: Walk, at: seq<nat>, cs: seq<nat>)
    requires n <= |doc|
  {
    var ps := w.file.paragraphs;
    && |cs| == |ps| == |w.marks| && Ascending(cs, n)
    && (forall k :: 0 <= k < |cs| ==>
          && doc[cs[k]] == Credit(ps[k].text, ps[k].editor) && w.marks[k] == NumbersBefore(doc, cs[k])
          && StandsIn(doc, n, ps[k], cs[k], at))
    && (forall i :: 0 <= i < n ==> (i in cs <==> doc[i].Credit? && doc[i].text != ""))
  }

  ghost predicate AuthorsAre(doc: seq<Entry>, n: nat, authors: seq<Author>)
    requires n <= |doc|
  {
    forall a :: a in authors <==> HasAuthor(doc, n, a)
  }

  ghost predicate Tells(doc: seq<Entry>, n: nat, w: Walk, at: seq<nat>, cs: seq<nat>)
    requires n <= |doc|
  {
    && w.file.questions == NumbersBefore(doc, n) && AuthorsAre(doc, n, w.file.authors)
    && ToursAre(doc, n, w.file, at) && RangesAre(doc, n, w.file, at) && ParagraphsAre(doc, n, w, at, cs)
  }

  // ---- entries that change nothing of one kind ----

  lemma {:induction false} FewerBefore(doc: seq<Entry>, i: nat, n: nat)
    requires i <= n <= |doc|
    ensures NumbersBefore(doc, i) <= NumbersBefore(doc, n)
  {
    if i < n {
      FewerBefore(doc, i, n - 1);
    }
  }

  lemma SameHeadings(doc: seq<Entry>, n: nat)
    requires n < |doc| && !doc[n].Section?
    ensures forall i :: 0 <= i < n ==> (IsFalseHeading(doc, i, n + 1) <==> IsFalseHeading(doc, i, n))
    ensures LastSection(doc, n + 1) == LastSection(doc, n)
  {
  }

  lemma SameNumbers(doc: seq<Entry>, n: nat)
    requires n < |doc| && !HasNumber(doc, n)
    ensures forall s: nat, m: nat :: IsUnder(doc, n + 1, s, m) <==> IsUnder(doc, n, s, m)
    ensures forall a :: HasAuthor(doc, n + 1, a) <==> HasAuthor(doc, n, a)
    ensures NumbersBefore(doc, n + 1) == NumbersBefore(doc, n)
  {
  }

  lemma SameTours(doc: seq<Entry>, n: nat, f: File, at: seq<nat>)
    requires n < |doc| && !doc[n].Section? && ToursAre(doc, n, f, at)
    ensures ToursAre(doc, n + 1, f, at)
  {
    hide IsFalseHeading, IsWarmupTitle, LastSection;
    SameHeadings(doc, n);
  }

  lemma SameParagraphs(doc: seq<Entry>, n: nat, w: Walk, at: seq<nat>, cs: seq<nat>)
    requires n < |doc| && !doc[n].Section? && !(doc[n].Credit? && doc[n].text != "") && ParagraphsAre(doc, n, w, at, cs)
    ensures ParagraphsAre(doc, n + 1, w, at, cs)
  {
    hide IsFalseHeading, LastSection, NumbersBefore;
    SameHeadings(doc, n);
  }

  // ---- a heading ----

  /** The headings at `at`, all but the false ones. */
  ghost predicate KeptHeadings(doc: seq<Entry>, n: nat, at: seq<nat>)
    requires n <= |doc|
  {
    && Ascending(at, n)
    && (forall i :: 0 <= i < n ==> (i in at <==> doc[i].Section? && !IsFalseHeading(doc, i, n)))
    && (if LastSection(doc, n) < 0 then at == [] else at != [] && at[|at| - 1] == LastSection(doc, n))
  }

  /** The last heading is false once another follows before any question is numbered. */
  predicate Falls(doc: seq<Entry>, n: nat)
    requires n <= |doc|
  {
    LastSection(doc, n) >= 0 && !IsWarmupTitle(doc[LastSection(doc, n)].title) && NumbersBefore(doc, n) == 0
  }

  /** A new heading makes a false one only of the heading right before it, when nothing has been numbered. */
  lemma HeadingFalse(doc: seq<Entry>, i: nat, n: nat)
    requires i < n < |doc| && doc[n].Section? && doc[i].Section?
    ensures i != LastSection(doc, n) ==> (IsFalseHeading(doc, i, n + 1) <==> IsFalseHeading(doc, i, n))
    ensures i == LastSection(doc, n) ==> !IsFalseHeading(doc, i, n) && (IsFalseHeading(doc, i, n + 1) <==> Falls(doc, n))
  {
    hide IsWarmupTitle, NumbersBefore;
    if i != LastSection(doc, n) {
      var s := LastSection(doc, n);
      FewerBefore(doc, s, n);
      assert i < s < n && doc[s].Section?;
    }
  }

  lemma NewIsKept(doc: seq<Entry>, n: nat)
    requires n < |doc| && doc[n].Section?
    ensures !IsFalseHeading(doc, n, n + 1) && LastSection(doc, n + 1) == n
  {
  }

  lemma InFront(at: seq<nat>, n: nat, i: nat)
    requires Ascending(at, n) && at != []
    ensures i in at[..|at| - 1] <==> i in at && i != at[|at| - 1]
  {
    var front := at[..|at| - 1];
    if i in at && i != at[|at| - 1] {
      var k :| 0 <= k < |at| && at[k] == i;
      assert front[k] == i;
    }
  }

  lemma HeadingsGoOn(doc: seq<Entry>, n: nat, at: seq<nat>)
    requires n < |doc| && doc[n].Section? && KeptHeadings(doc, n, at)
    ensures Falls(doc, n) ==> at != [] && at[|at| - 1] == LastSection(doc, n)
    ensures KeptHeadings(doc, n + 1, (if Falls(doc, n) then at[..|at| - 1] else at) + [n])
  {
    hide IsWarmupTitle, NumbersBefore, IsFalseHeading, Falls;
    FallsFrom(doc, n);
    var kept := if Falls(doc, n) then at[..|at| - 1] else at;
    assert Ascending(kept, n);
    NewIsKept(doc, n);
    forall i | 0 <= i < n
      ensures i in kept <==> doc[i].Section? && !IsFalseHeading(doc, i, n + 1)
    {
      if doc[i].Section? {
        HeadingFalse(doc, i, n);
      }
      if at != [] {
        InFront(at, n, i);
      }
    }
    AscendingOn(kept, n);
  }

  lemma AscendingOn(at: seq<nat>, n: nat)
    requires Ascending(at, n)
    ensures Ascending(at + [n], n + 1) && forall i :: i in at + [n] <==> i in at || i == n
  {
  }

  lemma FallsFrom(doc: seq<Entry>, n: nat)
    requires n <= |doc|
    ensures Falls(doc, n) ==> LastSection(doc, n) >= 0
  {
  }

  lemma FalseTourFalls(doc: seq<Entry>, n: nat, w: Walk, at: seq<nat>)
    requires n <= |doc| && Invariant(w) && ToursAre(doc, n, w.file, at) && w.file.questions == NumbersBefore(doc, n)
    ensures IsFalseTour(w.file) <==> Falls(doc, n)
  {
    hide Invariant, IsWarmupTitle, NumbersBefore, IsFalseHeading;
    LastTourEmpty(w);
  }

  lemma LastTourEmpty(w: Walk)
    requires Invariant(w)
    ensures w.file.tours != [] && w.file.questions == 0 ==> w.file.tours[|w.file.tours| - 1].first == 0
  {
    FirstIsWithin(w.file);
  }

  function NextHeadings(doc: seq<Entry>, n: nat, at: seq<nat>): seq<nat>
    requires n <= |doc|
  {
    (if Falls(doc, n) && at != [] then at[..|at| - 1] else at) + [n]
  }

  /** Tours with the titles of the headings at `at`. */
  ghost predicate TitlesAre(doc: seq<Entry>, f: File, at: seq<nat>) {
    |at| == |f.tours| && forall t :: 0 <= t < |at| ==>
      at[t] < |doc| && doc[at[t]] == Section(f.tours[t].title) && f.tours[t].warmup == IsWarmupTitle(f.tours[t].title)
  }

  lemma ToursInParts(doc: seq<Entry>, n: nat, f: File, at: seq<nat>)
    requires n <= |doc|
    ensures ToursAre(doc, n, f, at) <==> KeptHeadings(doc, n, at) && TitlesAre(doc, f, at)
  {
    hide IsWarmupTitle, IsFalseHeading, LastSection;
  }

  lemma TitlesGoOn(doc: seq<Entry>, n: nat, w: Walk, at: seq<nat>, drop: bool)
    requires n < |doc| && doc[n].Section? && TitlesAre(doc, w.file, at) && (drop <==> IsFalseTour(w.file)) && (drop ==> at != [])
    ensures TitlesAre(doc, Step(w, doc[n]).file, (if drop then at[..|at| - 1] else at) + [n])
  {
    hide IsWarmupTitle, IsFalseTour, Step;
    OpenedTours(w, doc[n].title);
    assert doc[n] == Section(doc[n].title);
  }

  lemma HeadingTours(doc: seq<Entry>, n: nat, w: Walk, at: seq<nat>)
    requires n < |doc| && doc[n].Section? && ToursAre(doc, n, w.file, at) && w.file.questions == NumbersBefore(doc, n)
    requires Invariant(w)
    ensures ToursAre(doc, n + 1, Step(w, doc[n]).file, NextHeadings(doc, n, at))
  {
    hide Invariant, NumbersBefore, Falls, LastSection, IsFalseTour, ToursAre, KeptHeadings, TitlesAre, Step;
    FalseTourFalls(doc, n, w, at);
    ToursInParts(doc, n, w.file, at);
    HeadingsGoOn(doc, n, at);
    TitlesGoOn(doc, n, w, at, Falls(doc, n));
    ToursInParts(doc, n + 1, Step(w, doc[n]).file, NextHeadings(doc, n, at));
  }

  lemma OpenedTours(w: Walk, title: string)
    ensures IsFalseTour(w.file) ==> w.file.tours != []
    ensures var g := Step(w, Section(title)).file;
            && g.tours == (if IsFalseTour(w.file) then w.file.tours[..|w.file.tours| - 1] else w.file.tours)
                          + [Tour(title, 0, 0, IsWarmupTitle(title))]
            && g.questions == w.file.questions && g.authors == w.file.authors
            && |g.paragraphs| == |w.file.paragraphs| && Step(w, Section(title)).marks == w.marks
  {
    hide IsWarmupTitle;
  }

  lemma HeadingRanges(doc: seq<Entry>, n: nat, w: Walk, at: seq<nat>)
    requires n < |doc| && doc[n].Section? && ToursAre(doc, n, w.file, at) && RangesAre(doc, n, w.file, at)
    requires w.file.questions == NumbersBefore(doc, n) && Invariant(w)
    ensures RangesAre(doc, n + 1, Step(w, doc[n]).file, NextHeadings(doc, n, at))
  {
    hide Invariant, IsWarmupTitle, NumbersBefore, Falls, IsUnder, IsFalseTour, ToursAre;
    FalseTourFalls(doc, n, w, at);
    OpenedTours(w, doc[n].title);
    assert |at| == |w.file.tours|;
    NoNumber(doc, n);
    SameNumbers(doc, n);
    var next, g := NextHeadings(doc, n, at), Step(w, doc[n]).file;
    assert doc[n] == Section(doc[n].title);
    forall t, m: nat | 0 <= t < |next|
      ensures InTour(g.tours[t], m) <==> IsUnder(doc, n + 1, next[t], m)
    {
      if t < |next| - 1 {
        assert next[t] == at[t] && g.tours[t] == w.file.tours[t];
      } else {
        NothingUnder(doc, n, m);
      }
    }
  }

  lemma NoNumber(doc: seq<Entry>, n: nat)
    requires n < |doc| && !doc[n].Question?
    ensures !HasNumber(doc, n)
  {
  }

  lemma NothingUnder(doc: seq<Entry>, n: nat, m: nat)
    requires n < |doc|
    ensures !IsUnder(doc, n, n, m)
  {
    hide IsNumbered;
  }

  /** A paragraph under a heading that falls stands in the preamble; any other stays. */
  lemma StandsOn(doc: seq<Entry>, n: nat, p: Paragraph, c: nat, at: seq<nat>)
    requires c < n < |doc| && doc[n].Section? && KeptHeadings(doc, n, at) && StandsIn(doc, n, p, c, at)
    ensures var q := if Falls(doc, n) && p.tour == |at| - 1 then p.(tour := -1) else p;
            StandsIn(doc, n + 1, q, c, NextHeadings(doc, n, at))
  {
    hide IsFalseHeading, Falls, LastSection;
    var s := LastSection(doc, c);
    if p.tour >= 0 {
      StillFalse(doc, s, n);
      HeadingsGoOn(doc, n, at);
    } else if s >= 0 {
      StillFalse(doc, s, n);
    }
    if p.tour >= 0 && Falls(doc, n) && p.tour < |at| - 1 {
      assert NextHeadings(doc, n, at)[p.tour] == at[p.tour];
    }
  }

  lemma StillFalse(doc: seq<Entry>, s: nat, n: nat)
    requires s < n < |doc| && doc[s].Section? && doc[n].Section?
    ensures IsFalseHeading(doc, s, n) ==> IsFalseHeading(doc, s, n + 1)
    ensures s == LastSection(doc, n) && Falls(doc, n) ==> IsFalseHeading(doc, s, n + 1)
  {
    hide IsWarmupTitle, NumbersBefore;
    HeadingFalse(doc, s, n);
  }

  lemma HeadingParagraph(doc: seq<Entry>, n: nat, w: Walk, at: seq<nat>, cs: seq<nat>, k: nat)
    requires n < |doc| && doc[n].Section? && ToursAre(doc, n, w.file, at) && ParagraphsAre(doc, n, w, at, cs)
    requires w.file.questions == NumbersBefore(doc, n) && Invariant(w) && k < |cs|
    ensures var f, g := w.file, Step(w, doc[n]).file;
            && g.paragraphs[k] == f.paragraphs[k].(tour := g.paragraphs[k].tour)
            && StandsIn(doc, n + 1, g.paragraphs[k], cs[k], NextHeadings(doc, n, at))
  {
    hide IsWarmupTitle, NumbersBefore, Falls, IsFalseHeading, IsFalseTour, WellNumbered, StandsIn, Waiting, NextHeadings, Step, LastSection;
    FalseTourFalls(doc, n, w, at);
    assert KeptHeadings(doc, n, at) && |at| == |w.file.tours|;
    FewerBefore(doc, cs[k], n);
    assert StandsIn(doc, n, w.file.paragraphs[k], cs[k], at);
    TourIsOne(doc, n, w.file.paragraphs[k], cs[k], at);
    WaitingStays(w, doc[n].title, k);
    assert doc[n] == Section(doc[n].title);
    StandsOn(doc, n, w.file.paragraphs[k], cs[k], at);
    FallsFrom(doc, n);
    HeadingsGoOn(doc, n, at);
  }

  lemma TourIsOne(doc: seq<Entry>, n: nat, p: Paragraph, c: nat, at: seq<nat>)
    requires c < n <= |doc| && StandsIn(doc, n, p, c, at)
    ensures p.tour < |at|
  {
  }

  /** Only a paragraph that waits in a false tour is moved. */
  lemma WaitingStays(w: Walk, title: string, k: nat)
    requires Waiting(w) && k < |w.marks| && w.marks[k] <= w.file.questions && w.file.paragraphs[k].tour < |w.file.tours|
    ensures var f, g := w.file, Step(w, Section(title)).file;
            g.paragraphs[k] ==
              if IsFalseTour(f) && f.paragraphs[k].tour == |f.tours| - 1 then f.paragraphs[k].(tour := -1) else f.paragraphs[k]
  {
    hide IsWarmupTitle;
  }

  lemma HeadingParagraphs(doc: seq<Entry>, n: nat, w: Walk, at: seq<nat>, cs: seq<nat>)
    requires n < |doc| && doc[n].Section? && ToursAre(doc, n, w.file, at) && ParagraphsAre(doc, n, w, at, cs)
    requires w.file.questions == NumbersBefore(doc, n) && Invariant(w)
    ensures ParagraphsAre(doc, n + 1, Step(w, doc[n]), NextHeadings(doc, n, at), cs)
  {
    hide Invariant, StandsIn, ToursAre, NumbersBefore, NextHeadings, Opened, OfPreamble;
    var next := Step(w, doc[n]);
    OpenedTours(w, doc[n].title);
    assert doc[n] == Section(doc[n].title);
    forall k | 0 <= k < |cs|
      ensures doc[cs[k]] == Credit(next.file.paragraphs[k].text, next.file.paragraphs[k].editor)
      ensures StandsIn(doc, n + 1, next.file.paragraphs[k], cs[k], NextHeadings(doc, n, at))
    {
      HeadingParagraph(doc, n, w, at, cs, k);
    }
  }

  lemma HeadingTells(doc: seq<Entry>, n: nat, w: Walk, at: seq<nat>, cs: seq<nat>)
    requires n < |doc| && doc[n].Section? && Tells(doc, n, w, at, cs) && Invariant(w)
    ensures Tells(doc, n + 1, Step(w, doc[n]), NextHeadings(doc, n, at), cs)
  {
    hide Invariant, ToursAre, RangesAre, ParagraphsAre, NextHeadings, Step, HasAuthor;
    HeadingTours(doc, n, w, at);
    HeadingRanges(doc, n, w, at);
    HeadingParagraphs(doc, n, w, at, cs);
    NoNumber(doc, n);
    SameNumbers(doc, n);
    assert doc[n] == Section(doc[n].title);
    OpenedTours(w, doc[n].title);
  }

  // ---- an entry that is passed over ----

  lemma PassedTells(doc: seq<Entry>, n: nat, w: Walk, at: seq<nat>, cs: seq<nat>)
    requires n < |doc| && Tells(doc, n, w, at, cs)
    requires !doc[n].Section? && !HasNumber(doc, n) && !(doc[n].Credit? && doc[n].text != "")
    ensures Tells(doc, n + 1, w, at, cs)
  {
    hide ToursAre, ParagraphsAre, HasAuthor, IsUnder, HasNumber;
    SameTours(doc, n, w.file, at);
    SameNumbers(doc, n);
    SameParagraphs(doc, n, w, at, cs);
  }

  // ---- a paragraph ----

  lemma StandsStill(doc: seq<Entry>, n: nat, p: Paragraph, c: nat, at: seq<nat>)
    requires c < n < |doc| && !doc[n].Section? && StandsIn(doc, n, p, c, at)
    ensures StandsIn(doc, n + 1, p, c, at)
  {
    hide IsFalseHeading, LastSection;
    SameHeadings(doc, n);
  }

  lemma NewParagraph(doc: seq<Entry>, n: nat, w: Walk, at: seq<nat>, text: string, editor: bool)
    requires n < |doc| && ToursAre(doc, n, w.file, at)
    ensures StandsIn(doc, n + 1, Paragraph(text, |w.file.tours| - 1, 0, editor), n, at)
  {
    hide IsFalseHeading;
  }

  lemma CreditParagraphs(doc: seq<Entry>, n: nat, w: Walk, at: seq<nat>, cs: seq<nat>)
    requires n < |doc| && doc[n].Credit? && doc[n].text != "" && ToursAre(doc, n, w.file, at)
    requires ParagraphsAre(doc, n, w, at, cs) && w.file.questions == NumbersBefore(doc, n)
    ensures ParagraphsAre(doc, n + 1, Step(w, doc[n]), at, cs + [n])
  {
    hide ToursAre, StandsIn, NumbersBefore;
    var next, more := Step(w, doc[n]), cs + [n];
    NewParagraph(doc, n, w, at, doc[n].text, doc[n].editor);
    forall k | 0 <= k < |more|
      ensures StandsIn(doc, n + 1, next.file.paragraphs[k], more[k], at)
      ensures doc[more[k]] == Credit(next.file.paragraphs[k].text, next.file.paragraphs[k].editor)
      ensures next.marks[k] == NumbersBefore(doc, more[k])
    {
      if k < |cs| {
        StandsStill(doc, n, w.file.paragraphs[k], cs[k], at);
      }
    }
  }

  lemma CreditTells(doc: seq<Entry>, n: nat, w: Walk, at: seq<nat>, cs: seq<nat>)
    requires n < |doc| && doc[n].Credit? && doc[n].text != "" && Tells(doc, n, w, at, cs)
    ensures Tells(doc, n + 1, Step(w, doc[n]), at, cs + [n])
  {
    hide ParagraphsAre, HasAuthor, IsUnder, IsFalseHeading, LastSection, NumbersBefore;
    var f, g := w.file, Step(w, doc[n]).file;
    assert g.tours == f.tours && g.authors == f.authors && g.questions == f.questions;
    SameTours(doc, n, f, at);
    NoNumber(doc, n);
    SameNumbers(doc, n);
    CreditParagraphs(doc, n, w, at, cs);
  }

  // ---- a question ----

  lemma SkippedHasNoNumber(doc: seq<Entry>, n: nat, f: File, at: seq<nat>)
    requires n < |doc| && doc[n].Question? && ToursAre(doc, n, f, at)
    ensures IsSkipped(f, doc[n]) <==> !HasNumber(doc, n)
  {
    hide IsWarmupTitle, IsFalseHeading, LastSection;
    if at != [] {
      assert doc[at[|at| - 1]] == Section(f.tours[|at| - 1].title);
    }
  }

  lemma OneMoreNumber(doc: seq<Entry>, n: nat)
    requires n < |doc| && HasNumber(doc, n)
    ensures NumbersBefore(doc, n + 1) == NumbersBefore(doc, n) + 1
    ensures forall a :: HasAuthor(doc, n + 1, a) <==>
              HasAuthor(doc, n, a) || (a.question == NumbersBefore(doc, n) + 1 && doc[n].known && doc[n].author == a.text != "")
  {
    hide LastSection, IsWarmupTitle;
    assert forall m :: IsNumbered(doc, n, m) <==> m == NumbersBefore(doc, n) + 1;
  }

  lemma OneMoreUnder(doc: seq<Entry>, n: nat, s: nat, m: nat)
    requires n < |doc| && HasNumber(doc, n)
    ensures IsUnder(doc, n + 1, s, m) <==>
            IsUnder(doc, n, s, m) || (m == NumbersBefore(doc, n) + 1 && LastSection(doc, n) == s)
  {
    hide LastSection, HasNumber, NumbersBefore;
    assert IsNumbered(doc, n, m) <==> m == NumbersBefore(doc, n) + 1;
  }

  /** Counting a question moves the end of the open tour to it. */
  lemma CountedTours(w: Walk, e: Entry, t: nat, m: nat)
    requires Invariant(w) && e.Question? && t < |w.file.tours|
    ensures var f, g := w.file, Counted(w.file, e, w.pending);
            && |g.tours| == |f.tours| && g.tours[t].title == f.tours[t].title && g.tours[t].warmup == f.tours[t].warmup
            && (InTour(g.tours[t], m) <==> InTour(f.tours[t], m) || (t == |f.tours| - 1 && m == f.questions + 1))
  {
    var f := w.file;
    FirstIsWithin(f);
    RangesLieBetween(f.tours, Before(f), t);
  }

  lemma CountedRest(f: File, e: Entry, pending: seq<nat>)
    requires e.Question?
    ensures var g := Counted(f, e, pending);
            && g.questions == f.questions + 1 && |g.paragraphs| == |f.paragraphs|
            && (forall k :: 0 <= k < |g.paragraphs| ==> g.paragraphs[k] == f.paragraphs[k].(next := g.paragraphs[k].next))
            && forall a :: a in g.authors <==>
                 a in f.authors || (a.question == f.questions + 1 && e.known && e.author == a.text != "")
  {
    hide Ranged;
    if e.known && e.author != "" {
      assert forall a: Author :: a == Author(f.questions + 1, e.author) <==> a.question == f.questions + 1 && a.text == e.author;
    }
  }

  lemma QuestionTours(doc: seq<Entry>, n: nat, w: Walk, at: seq<nat>)
    requires n < |doc| && HasNumber(doc, n) && ToursAre(doc, n, w.file, at) && Invariant(w)
    ensures ToursAre(doc, n + 1, Counted(w.file, doc[n], w.pending), at)
  {
    hide Invariant, Counted, IsWarmupTitle, IsFalseHeading, LastSection, HasNumber;
    OnlyQuestions(doc, n);
    var f, g := w.file, Counted(w.file, doc[n], w.pending);
    CountedWarmup(f, doc[n], w.pending);
    SameTours(doc, n, f, at);
    forall t | 0 <= t < |at|
      ensures g.tours[t].title == f.tours[t].title && g.tours[t].warmup == f.tours[t].warmup
    {
      CountedTours(w, doc[n], t, 0);
    }
  }

  lemma OnlyQuestions(doc: seq<Entry>, n: nat)
    requires n < |doc| && HasNumber(doc, n)
    ensures doc[n].Question?
  {
  }

  lemma QuestionRanges(doc: seq<Entry>, n: nat, w: Walk, at: seq<nat>)
    requires n < |doc| && HasNumber(doc, n) && ToursAre(doc, n, w.file, at) && RangesAre(doc, n, w.file, at)
    requires w.file.questions == NumbersBefore(doc, n) && Invariant(w)
    ensures RangesAre(doc, n + 1, Counted(w.file, doc[n], w.pending), at)
  {
    hide Invariant, Counted, IsWarmupTitle, IsFalseHeading, LastSection, HasNumber, IsUnder, NumbersBefore, InTour;
    OnlyQuestions(doc, n);
    var g := Counted(w.file, doc[n], w.pending);
    CountedWarmup(w.file, doc[n], w.pending);
    forall t, m: nat | 0 <= t < |at|
      ensures InTour(g.tours[t], m) <==> IsUnder(doc, n + 1, at[t], m)
    {
      CountedTours(w, doc[n], t, m);
      OneMoreUnder(doc, n, at[t], m);
      assert t < |at| - 1 ==> at[t] < at[|at| - 1];
    }
  }

  lemma QuestionParagraphs(doc: seq<Entry>, n: nat, w: Walk, at: seq<nat>, cs: seq<nat>, f: File)
    requires n < |doc| && doc[n].Question? && ParagraphsAre(doc, n, w, at, cs) && |f.paragraphs| == |w.file.paragraphs|
    requires forall k :: 0 <= k < |f.paragraphs| ==> f.paragraphs[k] == w.file.paragraphs[k].(next := f.paragraphs[k].next)
    ensures ParagraphsAre(doc, n + 1, Walk(f, [], w.marks), at, cs)
  {
    hide IsFalseHeading, LastSection, NumbersBefore, StandsIn;
    forall k | 0 <= k < |cs|
      ensures StandsIn(doc, n + 1, f.paragraphs[k], cs[k], at)
      ensures doc[cs[k]] == Credit(f.paragraphs[k].text, f.paragraphs[k].editor)
    {
      StandsStill(doc, n, w.file.paragraphs[k], cs[k], at);
      NextIsNoPlace(doc, n + 1, w.file.paragraphs[k], f.paragraphs[k], cs[k], at);
    }
  }

  lemma NextIsNoPlace(doc: seq<Entry>, n: nat, p: Paragraph, q: Paragraph, c: nat, at: seq<nat>)
    requires c < n <= |doc| && StandsIn(doc, n, p, c, at) && q.tour == p.tour
    ensures StandsIn(doc, n, q, c, at)
  {
  }

  lemma QuestionTells(doc: seq<Entry>, n: nat, w: Walk, at: seq<nat>, cs: seq<nat>)
    requires n < |doc| && HasNumber(doc, n) && doc[n].Question? && !IsSkipped(w.file, doc[n])
    requires Tells(doc, n, w, at, cs) && Invariant(w)
    ensures Tells(doc, n + 1, Step(w, doc[n]), at, cs)
  {
    hide Invariant, ToursAre, RangesAre, ParagraphsAre, Counted, HasAuthor, NumbersBefore, IsSkipped, HasNumber;
    var g := Counted(w.file, doc[n], w.pending);
    assert Step(w, doc[n]) == Walk(g, [], w.marks);
    QuestionTours(doc, n, w, at);
    QuestionRanges(doc, n, w, at);
    CountedRest(w.file, doc[n], w.pending);
    ParagraphCount(doc, n, w, at, cs);
    QuestionParagraphs(doc, n, w, at, cs, g);
    OneMoreNumber(doc, n);
  }

  lemma ParagraphCount(doc: seq<Entry>, n: nat, w: Walk, at: seq<nat>, cs: seq<nat>)
    requires n <= |doc| && ParagraphsAre(doc, n, w, at, cs)
    ensures |w.file.paragraphs| == |cs|
  {
  }

  // ---- the whole document ----

  lemma EntryTells(doc: seq<Entry>, n: nat, w: Walk, at: seq<nat>, cs: seq<nat>) returns (at': seq<nat>, cs': seq<nat>)
    requires n < |doc| && Tells(doc, n, w, at, cs) && Invariant(w)
    ensures Tells(doc, n + 1, Step(w, doc[n]), at', cs')
  {
    hide Invariant, ToursAre, RangesAre, ParagraphsAre, AuthorsAre, HasNumber, Counted, Opened, NextHeadings, NumbersBefore, IsSkipped;
    at', cs' := at, cs;
    match doc[n] {
      case Section(_) =>
        HeadingTells(doc, n, w, at, cs);
        at' := NextHeadings(doc, n, at);
      case Credit(text, _) =>
        if text == "" {
          NoNumber(doc, n);
          PassedTells(doc, n, w, at, cs);
        } else {
          CreditTells(doc, n, w, at, cs);
          cs' := cs + [n];
        }
      case Question(_, _, _) =>
        SkippedHasNoNumber(doc, n, w.file, at);
        if IsSkipped(w.file, doc[n]) {
          PassedTells(doc, n, w, at, cs);
        } else {
          QuestionTells(doc, n, w, at, cs);
        }
      case Other =>
        NoNumber(doc, n);
        PassedTells(doc, n, w, at, cs);
    }
  }

  lemma {:induction false} WalkedTo(doc: seq<Entry>, w: Walk, n: nat)
    requires n < |doc|
    ensures Walked(w, doc[..n + 1]) == Step(Walked(w, doc[..n]), doc[n])
    decreases n
  {
    hide Step;
    if n == 0 {
      assert doc[..1][1..] == [];
    } else {
      assert doc[..n + 1][1..] == doc[1..][..n] && doc[..n][1..] == doc[1..][..n - 1];
      WalkedTo(doc[1..], Step(w, doc[0]), n - 1);
    }
  }

  lemma {:induction false} WalkTells(doc: seq<Entry>, n: nat) returns (at: seq<nat>, cs: seq<nat>)
    requires n <= |doc|
    ensures Tells(doc, n, Walked(START, doc[..n]), at, cs)
  {
    hide Invariant, Step;
    if n == 0 {
      at, cs := [], [];
    } else {
      hide Tells, Walked;
      var w := Walked(START, doc[..n - 1]);
      at, cs := WalkTells(doc, n - 1);
      FileIsWellNumbered(doc[..n - 1]);
      StartHolds();
      WalkKeeps(START, doc[..n - 1]);
      at, cs := EntryTells(doc, n - 1, w, at, cs);
      WalkedTo(doc, START, n - 1);
    }
  }

  /** What the credits of a document hold: its numbered questions, their authors, its headings but the false ones as
      tours with the numbers under them, and its paragraphs, each with its place and the questions numbered before it. */
  lemma FileTells(doc: seq<Entry>) returns (at: seq<nat>, cs: seq<nat>)
    ensures Tells(doc, |doc|, Walked(START, doc), at, cs)
  {
    hide Tells, Walked;
    at, cs := WalkTells(doc, |doc|);
    assert doc[..|doc|] == doc;
  }

  /** The authors of a document: those of its numbered questions that have one, each with the question's number. */
  lemma AuthorsExactly(doc: seq<Entry>)
    ensures FileOf(doc).questions == NumbersBefore(doc, |doc|)
    ensures forall a :: a in FileOf(doc).authors <==> HasAuthor(doc, |doc|, a)
    ensures AuthorsIncrease(FileOf(doc).authors, FileOf(doc).questions)
  {
    hide ToursAre, RangesAre, ParagraphsAre, HasAuthor, NumbersBefore, Walked, WellNumbered;
    var at, cs := FileTells(doc);
    FileIsWellNumbered(doc);
    AuthorsInOrder(FileOf(doc), Walked(START, doc).marks);
  }

  lemma AuthorsInOrder(f: File, marks: seq<nat>)
    requires WellNumbered(f, marks)
    ensures AuthorsIncrease(f.authors, f.questions)
  {
  }

  /** A single question is numbered, and its author kept. */
  lemma OneAuthor(number: string, author: string)
    requires number != "0" && author != ""
    ensures FileOf([Question(true, number, author)]) == File(1, [], [], [Author(1, author)])
  {
    var doc := [Question(true, number, author)];
    assert doc[1..] == [];
    assert WithNext([], [], 1) == [];
    var w := Step(START, doc[0]);
    assert w.file == File(1, [], [], [Author(1, author)]);
    assert Walked(w, doc[1..]) == w;
  }
}
