/** The package of a presentation: parts, slides, pictures and relationships are added and removed, and every name
    and id stays unique. */
module SlidePackage {
  import opened Sequences
  import opened Outcomes
  import opened SourceCounters

  type Data = seq<bv8>

  datatype Rel = Rel(id: string, relType: string, target: string, external: bool)

  const REL_SLIDE := "http://schemas.openxmlformats.org/officeDocument/2006/relationships/slide"
  const REL_LAYOUT := "http://schemas.openxmlformats.org/officeDocument/2006/relationships/slideLayout"
  const REL_IMAGE := "http://schemas.openxmlformats.org/officeDocument/2006/relationships/image"

  const SLIDES := "ppt/slides/"
  const MEDIA := "ppt/media/"
  const IMAGES := "ppt/media/image"
  const MIN_SLIDE_ID := 256

  // ---- names ----

  function SlideName(n: nat): string {
    "ppt/slides/slide" + Digits(n) + ".xml"
  }

  function ImageName(n: nat, ext: string): string {
    IMAGES + Digits(n) + "." + ext
  }

  function RelId(n: nat): string {
    "rId" + Digits(n)
  }

  /** Digits tell numbers apart. */
  lemma DigitsDiffer(a: nat, b: nat)
    requires Digits(a) == Digits(b)
    ensures a == b
  {
    DigitsAreDigits(a);
    DigitsAreDigits(b);
  }

  lemma RelIdsDiffer(a: nat, b: nat)
    requires RelId(a) == RelId(b)
    ensures a == b
  {
    assert RelId(a)[3..] == Digits(a) && RelId(b)[3..] == Digits(b);
    DigitsDiffer(a, b);
  }

  lemma SlideNamesDiffer(a: nat, b: nat)
    requires SlideName(a) == SlideName(b)
    ensures a == b
  {
    assert |Digits(a)| == |Digits(b)|;
    assert SlideName(a)[16..16 + |Digits(a)|] == Digits(a) && SlideName(b)[16..16 + |Digits(b)|] == Digits(b);
    DigitsDiffer(a, b);
  }

  function LastSlash(s: string): (i: int)
    ensures -1 <= i < |s| && (i >= 0 ==> s[i] == '/')
  {
    if s == "" then -1 else if s[|s| - 1] == '/' then |s| - 1 else LastSlash(s[..|s| - 1])
  }

  lemma {:induction false} LastSlashIsLast(s: string, k: nat)
    requires k < |s| && s[k] == '/'
    ensures LastSlash(s) >= k
  {
    if s[|s| - 1] != '/' {
      LastSlashIsLast(s[..|s| - 1], k);
    }
  }

  /** Where the relationships of a part are kept; every part has a folder. */
  function RelsPath(part: string): string {
    var i := LastSlash(part);
    if i < 0 then part else part[..i] + "/_rels" + part[i..] + ".rels"
  }

  predicate IsSlideName(name: string) {
    SLIDES <= name && |name| >= 15 && name[|name| - 4..] == ".xml"
  }

  /** The relationships of a slide lie beside the slides, and are no slide and no picture. */
  lemma RelsAreApart(name: string)
    requires IsSlideName(name)
    ensures SLIDES <= RelsPath(name) && !IsSlideName(RelsPath(name)) && !(IMAGES <= RelsPath(name))
  {
    var i, r := LastSlash(name), RelsPath(name);
    assert name[10] == '/';
    LastSlashIsLast(name, 10);
    assert r[|r| - 5..] == ".rels";
    assert r[|r| - 4..] == r[|r| - 5..][1..] == "rels";
    assert r[..10] == name[..10] == SLIDES[..10] && r[10] == '/';
    assert r[..11] == SLIDES;
    assert r[4] == 's' && IMAGES[4] == 'm';
  }

  lemma SlideNameIsOne(n: nat)
    ensures IsSlideName(SlideName(n))
  {
    DigitsAreDigits(n);
    var s := SlideName(n);
    assert s[|s| - 4..] == ".xml";
    assert s[..11] == SLIDES;
  }

  lemma SlideIsNoImage(name: string)
    requires IsSlideName(name)
    ensures !(IMAGES <= name)
  {
    assert name[4] == 's' && IMAGES[4] == 'm';
  }

  // ---- the lowest free number ----

  /** A name for every number, all different, cannot all be taken. */
  lemma {:induction false} SomeAreFree<T>(taken: set<T>, name: nat -> T, n: nat)
    requires forall a, b :: 0 <= a < n && 0 <= b < n && name(a) == name(b) ==> a == b
    requires forall a :: 0 <= a < n ==> name(a) in taken
    ensures n <= |taken|
  {
    if n > 0 {
      var less := taken - {name(n - 1)};
      SomeAreFree(less, name, n - 1);
      assert |less| == |taken| - 1;
    }
  }

  /** The first number from 1 on whose name is free. */
  ghost predicate IsLowestFree<T>(taken: set<T>, name: nat -> T, n: nat) {
    n >= 1 && name(n) !in taken && forall m :: 1 <= m < n ==> name(m) in taken
  }

  method LowestFree<T(==)>(taken: set<T>, name: nat -> T) returns (n: nat)
    requires forall a, b :: name(a) == name(b) ==> a == b
    ensures IsLowestFree(taken, name, n) && n <= |taken| + 1
  {
    n := 1;
    ghost var shifted := (k: nat) => name(k + 1);
    while name(n) in taken
      invariant 1 <= n <= |taken| + 1 && forall m :: 1 <= m < n ==> name(m) in taken
      decreases |taken| + 1 - n
    {
      forall a | 0 <= a < n
        ensures shifted(a) in taken
      {
        assert name(a + 1) in taken;
      }
      SomeAreFree(taken, shifted, n);
      n := n + 1;
    }
  }

  // ---- image numbers ----

  function DotAt(s: string): (i: nat)
    ensures i <= |s| && (i < |s| ==> s[i] == '.') && '.' !in s[..i]
  {
    if s == "" || s[0] == '.' then 0
    else (assert s[..1 + DotAt(s[1..])] == [s[0]] + s[1..][..DotAt(s[1..])]; 1 + DotAt(s[1..]))
  }

  /** The number of an image part, whatever its extension. */
  function ImageNumber(name: string): Option<int> {
    if !(IMAGES <= name) then None
    else
      var rest := name[|IMAGES|..];
      var dot := DotAt(rest);
      if dot == |rest| || !Atoi(rest[..dot]).1 then None else Some(Atoi(rest[..dot]).0)
  }

  lemma {:induction false} DotAfterDigits(s: string, rest: string)
    requires forall k :: 0 <= k < |s| ==> IsDigit(s[k])
    ensures DotAt(s + "." + rest) == |s|
  {
    if s != "" {
      assert (s + "." + rest)[1..] == s[1..] + "." + rest;
      DotAfterDigits(s[1..], rest);
    }
  }

  lemma ImageNumberOf(n: nat, ext: string)
    requires n <= MAX_INT
    ensures IMAGES <= ImageName(n, ext) && ImageNumber(ImageName(n, ext)) == Some(n)
  {
    DigitsAreDigits(n);
    AtoiOfDecimal(n);
    var name, rest := ImageName(n, ext), Digits(n) + "." + ext;
    assert name == IMAGES + rest && name[|IMAGES|..] == rest;
    DotAfterDigits(Digits(n), ext);
    assert rest[..|Digits(n)|] == Digits(n);
  }

  // ---- slides ----

  function Ids(rels: seq<Rel>): (r: seq<string>)
    ensures |r| == |rels| && forall k :: 0 <= k < |rels| ==> r[k] == rels[k].id
  {
    seq(|rels|, k requires 0 <= k < |rels| => rels[k].id)
  }

  function IdSet(rels: seq<Rel>): (r: set<string>)
    ensures forall id :: id in r <==> id in Ids(rels)
  {
    var ids := Ids(rels);
    assert forall k :: 0 <= k < |rels| ==> ids[k] == rels[k].id;
    set k | 0 <= k < |rels| :: rels[k].id
  }

  /** The relationships of a slide that was added carry the numbers 1, 2, ... */
  predicate Numbered(rels: seq<Rel>) {
    forall k :: 0 <= k < |rels| ==> rels[k].id == RelId(k + 1)
  }

  lemma NumberedAreDistinct(rels: seq<Rel>)
    requires Numbered(rels)
    ensures Distinct(Ids(rels))
  {
    forall j, k | 0 <= j < k < |rels|
      ensures Ids(rels)[j] != Ids(rels)[k]
    {
      if rels[j].id == rels[k].id {
        RelIdsDiffer(j + 1, k + 1);
      }
    }
  }

  /** One slide. Its ids are given once; its relationships grow. `added` tells the export's own slides from the
      template's. */
  class Slide {
    const name: string
    const layout: string
    const slideId: int
    const relId: string
    ghost const added: bool
    var rels: seq<Rel>

    constructor (name: string, layout: string, slideId: int, relId: string, rels: seq<Rel>, ghost added: bool)
      ensures this.name == name && this.layout == layout && this.slideId == slideId && this.relId == relId
      ensures this.rels == rels && this.added == added
    {
      this.name, this.layout, this.slideId, this.relId := name, layout, slideId, relId;
      this.rels := rels;
      this.added := added;
    }

    method AddRel(relType: string, target: string, external: bool) returns (id: string)
      modifies this
      ensures id == RelId(|old(rels)| + 1) && rels == old(rels) + [Rel(id, relType, target, external)]
      ensures Numbered(old(rels)) ==> Numbered(rels)
    {
      id := RelId(|rels| + 1);
      rels := rels + [Rel(id, relType, target, external)];
    }
  }

  function SlideRel(s: Slide): Rel {
    Rel(s.relId, REL_SLIDE, if |s.name| >= 4 then s.name[4..] else s.name, false)
  }

  function WithoutRel(rels: seq<Rel>, id: string): (r: seq<Rel>)
    ensures forall x :: x in r <==> x in rels && x.id != id
  {
    if rels == [] then []
    else (if rels[0].id == id then [] else [rels[0]]) + WithoutRel(rels[1..], id)
  }

  lemma HeadAdded(r: Rel, more: seq<Rel>)
    requires Distinct(Ids(more)) && forall k :: 0 <= k < |more| ==> more[k].id != r.id
    ensures Distinct(Ids([r] + more))
  {
    assert Ids([r] + more) == [r.id] + Ids(more);
  }

  lemma {:induction false} WithoutRelIsDistinct(rels: seq<Rel>, id: string)
    requires Distinct(Ids(rels))
    ensures Distinct(Ids(WithoutRel(rels, id)))
  {
    if rels != [] {
      var more, less := WithoutRel(rels[1..], id), Ids(rels[1..]);
      assert forall k :: 0 <= k < |less| ==> less[k] == Ids(rels)[k + 1];
      WithoutRelIsDistinct(rels[1..], id);
      forall k | 0 <= k < |more|
        ensures more[k].id != rels[0].id
      {
        assert more[k] in rels[1..];
        var j :| 0 <= j < |rels[1..]| && rels[1..][j] == more[k];
        assert Ids(rels)[j + 1] == more[k].id;
      }
      if rels[0].id != id {
        HeadAdded(rels[0], more);
      }
    }
  }

  function WithoutName(order: seq<string>, name: string): (r: seq<string>)
    ensures forall x :: x in r <==> x in order && x != name
  {
    if order == [] then []
    else (if order[0] == name then [] else [order[0]]) + WithoutName(order[1..], name)
  }

  lemma {:induction false} WithoutNameIsDistinct(order: seq<string>, name: string)
    requires Distinct(order)
    ensures Distinct(WithoutName(order, name))
  {
    if order != [] {
      var more := WithoutName(order[1..], name);
      assert forall k :: 0 <= k < |order[1..]| ==> order[1..][k] == order[k + 1];
      WithoutNameIsDistinct(order[1..], name);
      if order[0] != name {
        assert order[0] !in order[1..];
        assert forall k :: 0 <= k < |more| ==> more[k] in order[1..];
      }
    }
  }

  // ---- the package ----

  /** The slide is a part, and the presentation has a relationship of its own to it. */
  ghost predicate SlideFits(s: Slide, names: set<string>, presRels: seq<Rel>)
    reads s
  {
    && IsSlideName(s.name) && s.name in names && s.slideId >= MIN_SLIDE_ID
    && SlideRel(s) in presRels && (s.added ==> Numbered(s.rels))
  }

  predicate Apart(s: Slide, t: Slide) {
    s != t && s.name != t.name && s.slideId != t.slideId && s.relId != t.relId
  }

  ghost predicate SlidesFit(slides: seq<Slide>, names: set<string>, presRels: seq<Rel>)
    reads slides
  {
    && (forall k :: 0 <= k < |slides| ==> SlideFits(slides[k], names, presRels))
    && (forall j, k :: 0 <= j < k < |slides| ==> Apart(slides[j], slides[k]))
  }

  /** Every picture has a part of its own. */
  ghost predicate MediaFits(media: map<string, string>, names: set<string>) {
    && (forall d :: d in media ==> IMAGES <= media[d] && media[d] in names)
    && (forall d, e :: d in media && e in media && d != e ==> media[d] != media[e])
  }

  lemma SlideAdded(slides: seq<Slide>, s: Slide, names: set<string>, presRels: seq<Rel>)
    requires SlidesFit(slides, names, presRels) && IsSlideName(s.name) && s.name !in names
    requires s.slideId >= MIN_SLIDE_ID && (forall k :: 0 <= k < |slides| ==> slides[k].slideId < s.slideId)
    requires Distinct(Ids(presRels)) && s.relId !in Ids(presRels) && Numbered(s.rels) && s !in slides
    ensures SlidesFit(slides + [s], names + {s.name}, presRels + [SlideRel(s)])
    ensures Distinct(Ids(presRels + [SlideRel(s)]))
  {
    hide IsSlideName, Numbered;
    var more := presRels + [SlideRel(s)];
    assert Ids(more) == Ids(presRels) + [s.relId];
    assert more[|presRels|] == SlideRel(s);
    forall k | 0 <= k < |slides|
      ensures Apart(slides[k], s) && SlideFits(slides[k], names + {s.name}, more)
    {
      assert SlideFits(slides[k], names, presRels);
      var j :| 0 <= j < |presRels| && presRels[j] == SlideRel(slides[k]);
      assert Ids(presRels)[j] == slides[k].relId;
      assert more[j] == SlideRel(slides[k]);
    }
  }

  lemma SlideIsFit(slides: seq<Slide>, i: nat, names: set<string>, presRels: seq<Rel>)
    requires SlidesFit(slides, names, presRels) && i < |slides|
    ensures IsSlideName(slides[i].name) && slides[i].name in names
  {
    assert SlideFits(slides[i], names, presRels);
  }

  lemma SlideRemoved(slides: seq<Slide>, i: nat, names: set<string>, presRels: seq<Rel>)
    requires SlidesFit(slides, names, presRels) && i < |slides|
    ensures var s := slides[i];
            SlidesFit(slides[..i] + slides[i + 1..], names - {s.name} - {RelsPath(s.name)}, WithoutRel(presRels, s.relId))
  {
    hide IsSlideName, Numbered, RelsPath, WithoutRel;
    var s := slides[i];
    var less := slides[..i] + slides[i + 1..];
    assert SlideFits(s, names, presRels);
    RelsAreApart(s.name);
    forall k | 0 <= k < |less|
      ensures SlideFits(less[k], names - {s.name} - {RelsPath(s.name)}, WithoutRel(presRels, s.relId))
    {
      var k0 := if k < i then k else k + 1;
      assert less[k] == slides[k0] && SlideFits(slides[k0], names, presRels);
      assert if k0 < i then Apart(slides[k0], s) else Apart(s, slides[k0]);
    }
    forall j, k | 0 <= j < k < |less|
      ensures Apart(less[j], less[k])
    {
      assert Apart(slides[if j < i then j else j + 1], slides[if k < i then k else k + 1]);
    }
  }

  /** Removing a slide leaves all pictures. */
  lemma MediaStays(media: map<string, string>, names: set<string>, name: string)
    requires MediaFits(media, names) && IsSlideName(name)
    ensures MediaFits(media, names - {name} - {RelsPath(name)})
  {
    hide RelsPath;
    SlideIsNoImage(name);
    RelsAreApart(name);
  }

  lemma MediaMore(media: map<string, string>, names: set<string>, name: string)
    requires MediaFits(media, names)
    ensures MediaFits(media, names + {name})
  {
  }

  lemma OrderGrows(order: seq<string>, name: string)
    requires Distinct(order) && name !in order
    ensures Distinct(order + [name])
  {
  }

  lemma MediaAdded(media: map<string, string>, names: set<string>, digest: string, name: string)
    requires MediaFits(media, names) && IMAGES <= name && name !in names
    ensures MediaFits(media[digest := name], names + {name})
  {
  }

  lemma SlidesFitMore(slides: seq<Slide>, names: set<string>, more: set<string>, presRels: seq<Rel>)
    requires SlidesFit(slides, names, presRels) && names <= more
    ensures SlidesFit(slides, more, presRels)
  {
    forall k | 0 <= k < |slides|
      ensures SlideFits(slides[k], more, presRels)
    {
      assert SlideFits(slides[k], names, presRels);
    }
  }

  class Package {
    var parts: map<string, Data>
    var order: seq<string>
    var slides: seq<Slide>
    /** From the digest of a picture's bytes to its part. */
    var media: map<string, string>
    var presRels: seq<Rel>

    ghost predicate OrderIsParts()
      reads this
    {
      Distinct(order) && forall n :: n in order <==> n in parts
    }

    /** What a template has to begin with, and every step keeps. */
    ghost predicate Valid()
      reads this, slides
    {
      && OrderIsParts() && Distinct(Ids(presRels))
      && SlidesFit(slides, parts.Keys, presRels) && MediaFits(media, parts.Keys)
    }

    constructor (parts: map<string, Data>, order: seq<string>, slides: seq<Slide>, presRels: seq<Rel>)
      ensures this.parts == parts && this.order == order && this.slides == slides && this.presRels == presRels
      ensures media == map[]
    {
      this.parts, this.order, this.slides, this.media, this.presRels := parts, order, slides, map[], presRels;
    }

    method NextPartName() returns (name: string)
      ensures exists n: nat :: name == SlideName(n) && IsLowestFree(parts.Keys, SlideName, n)
    {
      forall a, b | SlideName(a) == SlideName(b)
        ensures a == b
      {
        SlideNamesDiffer(a, b);
      }
      var n := LowestFree(parts.Keys, SlideName);
      name := SlideName(n);
    }

    method NextSlideId() returns (next: int)
      ensures next >= 256 && forall k :: 0 <= k < |slides| ==> slides[k].slideId < next
      ensures next > 256 ==> exists k :: 0 <= k < |slides| && slides[k].slideId == next - 1
    {
      next := MIN_SLIDE_ID;
      for i := 0 to |slides|
        invariant next >= MIN_SLIDE_ID && forall k :: 0 <= k < i ==> slides[k].slideId < next
        invariant next > MIN_SLIDE_ID ==> exists k :: 0 <= k < i && slides[k].slideId == next - 1
      {
        if slides[i].slideId >= next {
          next := slides[i].slideId + 1;
        }
      }
    }

    method NextPresRelId() returns (id: string)
      ensures exists n: nat :: id == RelId(n) && IsLowestFree(IdSet(presRels), RelId, n)
    {
      forall a, b | RelId(a) == RelId(b)
        ensures a == b
      {
        RelIdsDiffer(a, b);
      }
      var n := LowestFree(IdSet(presRels), RelId);
      id := RelId(n);
    }

    method AddSlide(layout: string) returns (s: Slide)
      requires Valid()
      modifies this
      ensures fresh(s) && s.added && s.layout == layout && s.rels == [Rel(RelId(1), REL_LAYOUT, layout, false)]
      ensures slides == old(slides) + [s] && media == old(media)
      ensures s.name !in old(parts) && parts == old(parts)[s.name := []] && order == old(order) + [s.name]
      ensures presRels == old(presRels) + [SlideRel(s)]
      ensures forall k :: 0 <= k < |slides| - 1 ==> slides[k].slideId < s.slideId
      ensures Valid()
    {
      hide Ids, Distinct, IsSlideName, SlidesFit, MediaFits, IdSet, SlideRel, SlideName;
      var name := NextPartName();
      ghost var n: nat :| name == SlideName(n) && IsLowestFree(parts.Keys, SlideName, n);
      SlideNameIsOne(n);
      var slideId := NextSlideId();
      var relId := NextPresRelId();
      assert RelId(1) == "rId" + Digits(1);
      s := new Slide(name, layout, slideId, relId, [Rel(RelId(1), REL_LAYOUT, layout, false)], true);
      SlideAdded(slides, s, parts.Keys, presRels);
      MediaMore(media, parts.Keys, name);
      OrderGrows(order, name);
      presRels := presRels + [SlideRel(s)];
      parts := parts[name := []];
      order := order + [name];
      slides := slides + [s];
      assert parts.Keys == old(parts).Keys + {name};
    }

    method Drop(name: string)
      modifies this`parts, this`order
      ensures parts == old(parts) - {name} && order == WithoutName(old(order), name)
    {
      parts := parts - {name};
      order := WithoutName(order, name);
    }

    method Put(name: string, data: Data)
      requires OrderIsParts()
      modifies this`parts, this`order
      ensures OrderIsParts() && parts == old(parts)[name := data]
      ensures order == if name in old(parts) then old(order) else old(order) + [name]
    {
      if name !in parts {
        order := order + [name];
      }
      parts := parts[name := data];
    }

    method DropBoth(a: string, b: string)
      requires OrderIsParts()
      modifies this`parts, this`order
      ensures OrderIsParts() && parts == old(parts) - {a} - {b} && order == WithoutName(WithoutName(old(order), a), b)
    {
      hide Distinct, WithoutName;
      WithoutNameIsDistinct(order, a);
      WithoutNameIsDistinct(WithoutName(order, a), b);
      Drop(a);
      Drop(b);
    }

    /** Takes a slide out; a position that is none changes nothing. */
    method RemoveSlide(i: int)
      requires Valid()
      modifies this
      ensures media == old(media) && Valid()
      ensures !(0 <= i < |old(slides)|) ==>
        slides == old(slides) && parts == old(parts) && order == old(order) && presRels == old(presRels)
      ensures 0 <= i < |old(slides)| ==>
        var s := old(slides)[i];
        && slides == old(slides)[..i] + old(slides)[i + 1..]
        && presRels == WithoutRel(old(presRels), s.relId)
        && parts == old(parts) - {s.name} - {RelsPath(s.name)}
        && order == WithoutName(WithoutName(old(order), s.name), RelsPath(s.name))
    {
      if i < 0 || i >= |slides| {
        return;
      }
      RemoveAt(i);
    }

    method RemoveAt(i: nat)
      requires Valid() && i < |slides|
      modifies this
      ensures media == old(media) && Valid()
      ensures slides == old(slides)[..i] + old(slides)[i + 1..]
      ensures var s := old(slides)[i];
        && presRels == WithoutRel(old(presRels), s.relId)
        && parts == old(parts) - {s.name} - {RelsPath(s.name)}
        && order == WithoutName(WithoutName(old(order), s.name), RelsPath(s.name))
    {
      hide RelsPath, WithoutRel, WithoutName, IsSlideName, Ids, Distinct, Numbered, SlidesFit, MediaFits, IdSet, SlideRel;
      var s := slides[i];
      SlideIsFit(slides, i, parts.Keys, presRels);
      SlideRemoved(slides, i, parts.Keys, presRels);
      MediaStays(media, parts.Keys, s.name);
      WithoutRelIsDistinct(presRels, s.relId);
      slides := slides[..i] + slides[i + 1..];
      presRels := WithoutRel(presRels, s.relId);
      DropBoth(s.name, RelsPath(s.name));
      assert parts.Keys == old(parts).Keys - {s.name} - {RelsPath(s.name)};
    }

    /** Stores a picture once, by the digest of its bytes, and relates it to the slide. */
    method AddImage(s: Slide, data: Data, digest: string, ext: string) returns (id: string)
      requires Valid() && s in slides && |parts| < MAX_INT
      modifies this, s
      ensures slides == old(slides) && presRels == old(presRels) && Valid()
      ensures digest in media && media == old(media)[digest := media[digest]]
      ensures digest in old(media) ==> media == old(media) && parts == old(parts) && order == old(order)
      ensures digest !in old(media) ==>
        var name := media[digest];
        && name !in old(parts) && parts == old(parts)[name := data] && order == old(order) + [name]
        && exists n: nat :: name == ImageName(n, ext) && IsLowestFree(UsedNumbers(old(parts).Keys), AsInt, n)
      ensures Related(s.rels, id, media[digest])
      ensures s.rels == old(s.rels) || s.rels == old(s.rels) + [Rel(id, REL_IMAGE, ImageTarget(media[digest]), false)]
      ensures (exists x :: x in old(s.rels) && x.relType == REL_IMAGE && x.target == ImageTarget(media[digest])) ==>
        s.rels == old(s.rels)
    {
      hide Distinct, Ids, ImageNumber, IsLowestFree, UsedNumbers, IsSlideName;
      StorePicture(data, digest, ext);
      var target := ImageTarget(media[digest]);
      for j := 0 to |s.rels|
        invariant forall k :: 0 <= k < j ==> !(s.rels[k].relType == REL_IMAGE && s.rels[k].target == target)
      {
        if s.rels[j].relType == REL_IMAGE && s.rels[j].target == target {
          return s.rels[j].id;
        }
      }
      id := s.AddRel(REL_IMAGE, target, false);
      assert s.rels[|s.rels| - 1] == Rel(id, REL_IMAGE, target, false);
    }

    method StorePicture(data: Data, digest: string, ext: string)
      requires Valid() && |parts| < MAX_INT
      modifies this
      ensures slides == old(slides) && presRels == old(presRels) && Valid()
      ensures digest in media && media == old(media)[digest := media[digest]]
      ensures digest in old(media) ==> media == old(media) && parts == old(parts) && order == old(order)
      ensures digest !in old(media) ==>
        var name := media[digest];
        && name !in old(parts) && parts == old(parts)[name := data] && order == old(order) + [name]
        && exists n: nat :: name == ImageName(n, ext) && IsLowestFree(UsedNumbers(old(parts).Keys), AsInt, n)
    {
      hide Distinct, Ids, ImageNumber, IsLowestFree, UsedNumbers, IsSlideName, SlidesFit, MediaFits;
      if digest !in media {
        var name := NextImageName(ext);
        SlidesFitMore(slides, parts.Keys, parts.Keys + {name}, presRels);
        MediaAdded(media, parts.Keys, digest, name);
        media := media[digest := name];
        Put(name, data);
        assert parts.Keys == old(parts).Keys + {name};
      }
    }

    method NextImageName(ext: string) returns (name: string)
      requires |parts| < MAX_INT
      ensures IMAGES <= name && name !in parts
      ensures exists n: nat :: name == ImageName(n, ext) && IsLowestFree(UsedNumbers(parts.Keys), AsInt, n)
    {
      UsedAreFew(parts.Keys);
      var n := LowestFree(UsedNumbers(parts.Keys), AsInt);
      ImageNumberOf(n, ext);
      name := ImageName(n, ext);
    }
  }

  function AsInt(n: nat): int {
    n
  }

  /** The numbers of the pictures among the parts. */
  function UsedNumbers(names: set<string>): (r: set<int>)
    ensures forall name :: name in names && ImageNumber(name).Some? ==> ImageNumber(name).value in r
  {
    set name | name in names && ImageNumber(name).Some? :: ImageNumber(name).value
  }

  lemma {:induction false} UsedAreFew(names: set<string>)
    ensures |UsedNumbers(names)| <= |names|
  {
    hide ImageNumber;
    if names != {} {
      var name :| name in names;
      UsedAreFew(names - {name});
      var more := if ImageNumber(name).Some? then {ImageNumber(name).value} else {};
      assert UsedNumbers(names) == UsedNumbers(names - {name}) + more;
    }
  }

  function ImageTarget(name: string): string {
    "../media/" + if |name| >= |MEDIA| then name[|MEDIA|..] else ""
  }

  /** The slide refers to the picture by the id. */
  predicate Related(rels: seq<Rel>, id: string, name: string) {
    exists x :: x in rels && x.id == id && x.relType == REL_IMAGE && x.target == ImageTarget(name)
  }

  /** On a slide that was added, an id names one relationship only. */
  lemma RelatedOnce(rels: seq<Rel>, id: string, a: string, b: string)
    requires Numbered(rels) && Related(rels, id, a) && Related(rels, id, b)
    requires IMAGES <= a && IMAGES <= b
    ensures a == b
  {
    hide Numbered, ImageTarget;
    NumberedAreDistinct(rels);
    var x :| x in rels && x.id == id && x.relType == REL_IMAGE && x.target == ImageTarget(a);
    var y :| y in rels && y.id == id && y.relType == REL_IMAGE && y.target == ImageTarget(b);
    var i :| 0 <= i < |rels| && rels[i] == x;
    var j :| 0 <= j < |rels| && rels[j] == y;
    assert Ids(rels)[i] == Ids(rels)[j];
    assert x == y;
    TargetTells(a, b);
  }

  lemma TargetTells(a: string, b: string)
    requires IMAGES <= a && IMAGES <= b && ImageTarget(a) == ImageTarget(b)
    ensures a == b
  {
    assert ImageTarget(a)[9..] == a[|MEDIA|..] && ImageTarget(b)[9..] == b[|MEDIA|..];
    assert a == IMAGES[..|MEDIA|] + a[|MEDIA|..] && b == IMAGES[..|MEDIA|] + b[|MEDIA|..];
  }
}
