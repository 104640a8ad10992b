/** What a joined packet holds of its files: their names, authors, tours and paragraphs, in order and renumbered. */
module CreditsJoined {
  import opened Sequences
  import opened CreditsNumbering
  import opened CreditsPacket
  import opened CreditsMerge

  predicate IsCutTo(t: string, s: string, n: nat) {
    if |s| <= n then t == s else t == s[..n]
  }

  /** The questions of the files before file i. */
  function QuestionsBefore(files: seq<Named>, i: nat): nat
    requires i <= |files|
  {
    if i == 0 then 0 else QuestionsBefore(files, i - 1) + files[i - 1].file.questions
  }

  /** A later file without a heading has one tour when it has questions. */
  function ToursIn(f: Named, later: bool): nat {
    if later && f.file.tours == [] && f.file.questions > 0 then 1 else |f.file.tours|
  }

  function ToursBefore(files: seq<Named>, i: nat): nat
    requires i <= |files|
  {
    if i == 0 then 0 else ToursBefore(files, i - 1) + ToursIn(files[i - 1], i > 1)
  }

  lemma {:induction false} SameBefore(files: seq<Named>, n: nat, i: nat)
    requires i <= n <= |files|
    ensures QuestionsBefore(files[..n], i) == QuestionsBefore(files, i) && ToursBefore(files[..n], i) == ToursBefore(files, i)
  {
    if i > 0 {
      SameBefore(files, n, i - 1);
    }
  }

  /** The questions are those of all files, and the sources their names. */
  lemma {:induction false} JoinedSources(files: seq<Named>, language: string)
    ensures var c := JoinedFiles(files, language);
            && c.language == language && c.questions == QuestionsBefore(files, |files|) && |c.tours| == ToursBefore(files, |files|)
            && |c.sources| == |files| && forall i :: 0 <= i < |files| ==> c.sources[i] == files[i].name
  {
    hide MovedParagraphs, Truncated;
    if files != [] {
      var n := |files| - 1;
      JoinedSources(files[..n], language);
      SameBefore(files, n, n);
      assert forall i :: 0 <= i < n ==> files[..n][i] == files[i];
    }
  }

  // ---- authors ----

  ghost predicate ComesFrom(a: Author, b: Author, offset: nat) {
    a.question == b.question + offset && IsCutTo(a.text, b.text, 500)
  }

  ghost predicate InFile(files: seq<Named>, i: nat, a: Author)
    requires i < |files|
  {
    exists k :: 0 <= k < |files[i].file.authors| && ComesFrom(a, files[i].file.authors[k], QuestionsBefore(files, i))
  }

  lemma AddedAuthors(authors: seq<Author>, offset: nat, a: Author)
    ensures a in MovedAuthors(authors, offset) <==> exists k :: 0 <= k < |authors| && ComesFrom(a, authors[k], offset)
  {
    var moved := MovedAuthors(authors, offset);
    forall k | 0 <= k < |authors|
      ensures ComesFrom(a, authors[k], offset) <==> a == moved[k]
    {
      assert moved[k] == Author(authors[k].question + offset, Truncated(authors[k].text, 500));
    }
  }

  /** The authors are those of the files, with the questions numbered through and long names cut to 500. */
  lemma {:induction false} JoinedAuthors(files: seq<Named>, language: string, a: Author)
    ensures a in JoinedFiles(files, language).authors <==> exists i :: 0 <= i < |files| && InFile(files, i, a)
  {
    hide InFile, MovedAuthors, ComesFrom;
    if files != [] {
      var n := |files| - 1;
      var front, last := files[..n], files[n];
      JoinedAuthors(front, language, a);
      JoinedSources(front, language);
      SameBefore(files, n, n);
      AddedAuthors(last.file.authors, QuestionsBefore(files, n), a);
      LastFileHas(files, a);
      forall i | 0 <= i < n
        ensures InFile(files, i, a) <==> InFile(front, i, a)
      {
        SameFile(files, n, i, a);
      }
      assert JoinedFiles(files, language).authors ==
             JoinedFiles(front, language).authors + MovedAuthors(last.file.authors, QuestionsBefore(files, n)) by {
        AddedHas(JoinedFiles(front, language), last, n > 0);
      }
    }
  }

  lemma AddedHas(out: Credits, f: Named, later: bool)
    ensures Added(out, f, later).authors == out.authors + MovedAuthors(f.file.authors, out.questions)
  {
    hide MovedParagraphs, Truncated;
  }

  lemma LastFileHas(files: seq<Named>, a: Author)
    requires files != []
    ensures var n := |files| - 1;
            InFile(files, n, a) <==>
            exists k :: 0 <= k < |files[n].file.authors| && ComesFrom(a, files[n].file.authors[k], QuestionsBefore(files, n))
  {
  }

  lemma SameFile(files: seq<Named>, n: nat, i: nat, a: Author)
    requires i < n <= |files|
    ensures InFile(files, i, a) <==> InFile(files[..n], i, a)
  {
    SameBefore(files, n, i);
  }

  // ---- tours ----

  /** The k-th tour of a file, with its questions numbered through. */
  ghost predicate IsTourOf(t: Tour, f: Named, k: nat, offset: nat) {
    if f.file.tours == [] then t.first == offset + 1 && t.last == offset + f.file.questions && !t.warmup && IsCutTo(t.title, f.stem, 200)
    else
      && k < |f.file.tours| && IsCutTo(t.title, f.file.tours[k].title, 200) && t.warmup == f.file.tours[k].warmup
      && t.first == (if f.file.tours[k].first == 0 then 0 else f.file.tours[k].first + offset)
      && t.last == (if f.file.tours[k].last == 0 then 0 else f.file.tours[k].last + offset)
  }

  lemma AddedTour(out: Credits, f: Named, later: bool, k: nat)
    requires k < ToursIn(f, later)
    ensures var tours := Added(out, f, later).tours;
            |tours| == |out.tours| + ToursIn(f, later) && IsTourOf(tours[|out.tours| + k], f, k, out.questions)
  {
    hide MovedParagraphs;
  }

  lemma EarlierTours(out: Credits, f: Named, later: bool, t: nat)
    requires t < |out.tours|
    ensures t < |Added(out, f, later).tours| && Added(out, f, later).tours[t] == out.tours[t]
  {
    hide MovedParagraphs, Truncated;
  }

  /** The tours are those of the files, one file after the other; a later file without headings is a tour named
      after it. */
  lemma {:induction false} JoinedTours(files: seq<Named>, language: string, i: nat, k: nat)
    requires i < |files| && k < ToursIn(files[i], i > 0)
    ensures var c := JoinedFiles(files, language); var t := ToursBefore(files, i) + k;
            t < |c.tours| && IsTourOf(c.tours[t], files[i], k, QuestionsBefore(files, i))
    decreases |files|
  {
    hide Added, IsTourOf;
    var n := |files| - 1;
    var out := JoinedFiles(files[..n], language);
    JoinedSources(files[..n], language);
    SameBefore(files, n, n);
    if i < n {
      JoinedTours(files[..n], language, i, k);
      SameBefore(files, n, i);
      EarlierTours(out, files[n], n > 0, ToursBefore(files, i) + k);
    } else {
      AddedTour(out, files[n], n > 0, k);
    }
  }

  // ---- paragraphs ----

  function Texts(ps: seq<Paragraph>): (r: seq<(string, bool)>)
    ensures |r| == |ps| && forall k :: 0 <= k < |r| ==> r[k] == (ps[k].text, ps[k].editor)
  {
    seq(|ps|, k requires 0 <= k < |ps| => (ps[k].text, ps[k].editor))
  }

  function NotTooLong(texts: seq<(string, bool)>): seq<(string, bool)> {
    if texts == [] then []
    else NotTooLong(texts[..|texts| - 1]) + if |texts[|texts| - 1].0| <= 3000 then [texts[|texts| - 1]] else []
  }

  lemma {:induction false} MovedTexts(ps: seq<Paragraph>, hasTours: bool, later: bool, base: nat, offset: nat)
    ensures Texts(MovedParagraphs(ps, hasTours, later, base, offset)) == NotTooLong(Texts(ps))
  {
    if ps != [] {
      var front := ps[..|ps| - 1];
      MovedTexts(front, hasTours, later, base, offset);
      assert Texts(ps)[..|ps| - 1] == Texts(front);
    }
  }

  function TextsOf(files: seq<Named>): (r: seq<seq<(string, bool)>>)
    ensures |r| == |files| && forall i :: 0 <= i < |r| ==> r[i] == NotTooLong(Texts(files[i].file.paragraphs))
  {
    seq(|files|, i requires 0 <= i < |files| => NotTooLong(Texts(files[i].file.paragraphs)))
  }

  /** The paragraphs are those of the files in order, but for those of more than 3000 characters. */
  lemma {:induction false} JoinedTexts(files: seq<Named>, language: string)
    ensures Texts(JoinedFiles(files, language).paragraphs) == Flattened(TextsOf(files))
  {
    hide MovedParagraphs, NotTooLong;
    if files != [] {
      var n := |files| - 1;
      var out, g := JoinedFiles(files[..n], language), WithOwnTour(files[n], n > 0);
      JoinedTexts(files[..n], language);
      MovedTexts(g.paragraphs, g.tours != [], n > 0, |out.tours|, out.questions);
      assert Texts(g.paragraphs) == Texts(files[n].file.paragraphs);
      assert TextsOf(files)[..n] == TextsOf(files[..n]);
      TextsBoth(out.paragraphs, MovedParagraphs(g.paragraphs, g.tours != [], n > 0, |out.tours|, out.questions));
    }
  }

  lemma TextsBoth(a: seq<Paragraph>, b: seq<Paragraph>)
    ensures Texts(a + b) == Texts(a) + Texts(b)
  {
  }
}
