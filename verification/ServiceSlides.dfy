/** The template's service slides: cloned while the deck is built, and taken out at the end. */
module ServiceSlides {
  import opened Sequences
  import opened Outcomes
  import opened SlidePackage

  // ---- clones ----

  /** The relationships of a slide but the one to its layout. */
  function Content(rels: seq<Rel>): seq<Rel> {
    if rels == [] then []
    else Content(rels[..|rels| - 1]) + if rels[|rels| - 1].relType == REL_LAYOUT then [] else [rels[|rels| - 1]]
  }

  /** The same relationships under the numbers from `from` on. */
  function Renamed(rels: seq<Rel>, from: nat): (r: seq<Rel>)
    ensures |r| == |rels| && forall k :: 0 <= k < |rels| ==> r[k] == rels[k].(id := RelId(from + k))
  {
    seq(|rels|, k requires 0 <= k < |rels| => rels[k].(id := RelId(from + k)))
  }

  /** The id each relationship has on the clone. */
  ghost predicate Maps(remap: map<string, string>, content: seq<Rel>, from: nat) {
    && (forall k :: 0 <= k < |content| ==> content[k].id in remap)
    && (Distinct(Ids(content)) ==> forall k :: 0 <= k < |content| ==> remap[content[k].id] == RelId(from + k))
  }

  lemma MapsMore(remap: map<string, string>, content: seq<Rel>, r: Rel, from: nat)
    requires Maps(remap, content, from)
    ensures Maps(remap[r.id := RelId(from + |content|)], content + [r], from)
  {
    var more := content + [r];
    var ids := Ids(more);
    assert forall k :: 0 <= k < |content| ==> Ids(content)[k] == ids[k];
    if Distinct(ids) {
      assert Distinct(Ids(content));
      assert ids[|content|] == r.id;
      assert forall k :: 0 <= k < |content| ==> ids[k] == content[k].id != r.id;
    }
  }

  /** Relates the slide to all that another slide refers to. */
  method CopyRels(s: Slide, rels: seq<Rel>) returns (remap: map<string, string>)
    modifies s
    ensures s.rels == old(s.rels) + Renamed(Content(rels), |old(s.rels)| + 1)
    ensures Maps(remap, Content(rels), |old(s.rels)| + 1)
    ensures Numbered(old(s.rels)) ==> Numbered(s.rels)
  {
    hide Maps, RelId, Numbered;
    remap := map[];
    var n := |s.rels| + 1;
    assert rels[..0] == [] && Renamed(Content([]), n) == [];
    NothingMaps(n);
    for j := 0 to |rels|
      invariant s.rels == old(s.rels) + Renamed(Content(rels[..j]), n)
      invariant Maps(remap, Content(rels[..j]), n)
      invariant Numbered(old(s.rels)) ==> Numbered(s.rels)
    {
      assert rels[..j + 1][..j] == rels[..j];
      var r := rels[j];
      if r.relType == REL_LAYOUT {
        assert Content(rels[..j]) + [] == Content(rels[..j]);
        continue;
      }
      ghost var before := Content(rels[..j]);
      MapsMore(remap, before, r, n);
      assert Renamed(before + [r], n) == Renamed(before, n) + [r.(id := RelId(n + |before|))];
      var id := s.AddRel(r.relType, r.target, r.external);
      assert id == RelId(n + |before|);
      remap := remap[r.id := id];
    }
    assert rels[..|rels|] == rels;
  }

  /** A slide with the same layout, pictures and links; `remap` tells what their ids became. */
  method CloneSlide(p: Package, src: Slide) returns (s: Slide, remap: map<string, string>)
    requires p.Valid()
    modifies p
    ensures fresh(s) && s.added && s.layout == src.layout && p.slides == old(p.slides) + [s] && p.Valid()
    ensures s.rels == [Rel(RelId(1), REL_LAYOUT, src.layout, false)] + Renamed(Content(old(src.rels)), 2)
    ensures Maps(remap, Content(old(src.rels)), 2)
  {
    hide Maps, RelId, Content, Renamed, Numbered, IsSlideName, SlideRel, MediaFits, Distinct, Ids;
    s := p.AddSlide(src.layout);
    ghost var names, rels := p.parts.Keys, p.presRels;
    assert SlidesFit(p.slides, names, rels) && SlideFits(p.slides[|p.slides| - 1], names, rels);
    remap := CopyRels(s, src.rels);
    assert SlidesFit(p.slides, names, rels) by {
      forall k | 0 <= k < |p.slides|
        ensures SlideFits(p.slides[k], names, rels)
      {
        assert k < |p.slides| - 1 ==> Apart(p.slides[k], s);
      }
    }
  }

  lemma NothingMaps(n: nat)
    ensures Maps(map[], [], n)
  {
  }

  // ---- sorting ----

  predicate Descending(v: seq<int>) {
    forall j, k :: 0 <= j < k < |v| ==> v[j] >= v[k]
  }

  /** The first i elements are sorted, and no later one is above them. */
  predicate SortedUpTo(v: seq<int>, i: nat) {
    forall j, k :: 0 <= j < i && j < k < |v| ==> v[j] >= v[k]
  }

  /** The element at i is not below those from there to j. */
  predicate TopUpTo(v: seq<int>, i: nat, j: nat) {
    i < |v| && forall k :: i < k < j && k < |v| ==> v[i] >= v[k]
  }

  method SortDesc(v: array<int>)
    modifies v
    ensures Descending(v[..]) && multiset(v[..]) == multiset(old(v[..]))
  {
    hide SortedUpTo, TopUpTo;
    SortedFrom(v[..]);
    for i := 0 to v.Length
      invariant SortedUpTo(v[..], i) && multiset(v[..]) == multiset(old(v[..]))
    {
      TopFrom(v[..], i);
      for j := i + 1 to v.Length
        invariant SortedUpTo(v[..], i) && multiset(v[..]) == multiset(old(v[..]))
        invariant TopUpTo(v[..], i, j)
      {
        TopStep(v[..], i, j);
        if v[j] > v[i] {
          SwapKeepsSorted(v[..], i, j);
          ghost var was := v[..];
          v[i], v[j] := v[j], v[i];
          assert v[..] == was[i := was[j]][j := was[i]];
        }
      }
      SortedStep(v[..], i);
    }
    SortedWhole(v[..]);
  }

  lemma SortedFrom(v: seq<int>)
    ensures SortedUpTo(v, 0)
  {
  }

  lemma SortedWhole(v: seq<int>)
    requires SortedUpTo(v, |v|)
    ensures Descending(v)
  {
  }

  lemma TopFrom(v: seq<int>, i: nat)
    requires i < |v|
    ensures TopUpTo(v, i, i + 1)
  {
  }

  lemma TopStep(v: seq<int>, i: nat, j: nat)
    requires i < j < |v| && TopUpTo(v, i, j)
    ensures v[i] >= v[j] ==> TopUpTo(v, i, j + 1)
  {
  }

  lemma SortedStep(v: seq<int>, i: nat)
    requires SortedUpTo(v, i) && TopUpTo(v, i, |v|)
    ensures SortedUpTo(v, i + 1)
  {
  }

  lemma SwapKeepsSorted(v: seq<int>, i: nat, j: nat)
    requires i < j < |v| && SortedUpTo(v, i) && TopUpTo(v, i, j) && v[j] > v[i]
    ensures var w := v[i := v[j]][j := v[i]];
            SortedUpTo(w, i) && TopUpTo(w, i, j + 1) && multiset(w) == multiset(v)
  {
  }

  // ---- which slides go ----

  predicate StrictlyDescending(v: seq<int>) {
    forall j, k :: 0 <= j < k < |v| ==> v[j] > v[k]
  }

  /** The configured positions, each once and the highest first; one that is no position is refused. */
  method PrepareIndices(configured: seq<int>, count: nat) returns (r: Outcome<seq<int>>)
    ensures r.Refused? <==> exists k :: 0 <= k < |configured| && !(0 <= configured[k] < count)
    ensures r.Refused? || (r.Done? && StrictlyDescending(r.value) && forall i :: i in r.value <==> i in configured)
  {
    for k := 0 to |configured|
      invariant forall j :: 0 <= j < k ==> 0 <= configured[j] < count
    {
      if configured[k] < 0 || configured[k] >= count {
        return Refused;
      }
    }
    var once: seq<int> := [];
    for k := 0 to |configured|
      invariant Distinct(once) && forall i :: i in once <==> i in configured[..k]
    {
      if configured[k] !in once {
        once := once + [configured[k]];
      }
    }
    assert configured[..|configured|] == configured;
    var v := new int[|once|](i requires 0 <= i < |once| => once[i]);
    assert v[..] == once;
    SortDesc(v);
    SortedOnce(once, v[..]);
    r := Done(v[..]);
  }

  /** Sorting what is there once gives a strict order. */
  lemma SortedOnce(once: seq<int>, v: seq<int>)
    requires Distinct(once) && Descending(v) && multiset(v) == multiset(once)
    ensures StrictlyDescending(v) && forall i :: i in v <==> i in once
  {
    forall i
      ensures i in v <==> i in once
    {
      assert i in multiset(v) <==> i in multiset(once);
    }
    forall j, k | 0 <= j < k < |v|
      ensures v[j] > v[k]
    {
      if v[j] == v[k] {
        TwiceIsTwo(v, j, k);
        OnceIsOne(once, v[j]);
      }
    }
  }

  lemma TwiceIsTwo(v: seq<int>, j: nat, k: nat)
    requires j < k < |v| && v[j] == v[k]
    ensures multiset(v)[v[j]] >= 2
  {
    assert v == v[..k] + [v[k]] + v[k + 1..];
    assert v[..k] == v[..j] + [v[j]] + v[j + 1..k];
  }

  lemma {:induction false} OnceIsOne(once: seq<int>, x: int)
    requires Distinct(once)
    ensures multiset(once)[x] <= 1
  {
    if once != [] {
      var front := once[..|once| - 1];
      assert once == front + [once[|once| - 1]];
      OnceIsOne(front, x);
      if x == once[|once| - 1] {
        assert x !in front;
      }
    }
  }

  /** The elements whose position is not among the dropped ones. */
  function Without<T>(s: seq<T>, drop: set<int>): (r: seq<T>)
    ensures |r| <= |s|
  {
    if s == [] then []
    else Without(s[..|s| - 1], drop) + if |s| - 1 in drop then [] else [s[|s| - 1]]
  }

  lemma CutBefore<T>(w: seq<T>, tail: seq<T>, i: nat)
    requires i < |w|
    ensures (w + tail)[..i] + (w + tail)[i + 1..] == w[..i] + w[i + 1..] + tail && (w + tail)[i] == w[i]
  {
  }

  /** Dropping a position below all dropped before is dropping it from what is left. */
  lemma {:induction false} DropLower<T>(s: seq<T>, drop: set<int>, i: nat)
    requires i < |s| && forall d :: d in drop ==> d > i
    ensures var w := Without(s, drop);
            i < |w| && w[i] == s[i] && Without(s, drop + {i}) == w[..i] + w[i + 1..]
  {
    var front, last := s[..|s| - 1], |s| - 1;
    if i < last {
      DropLower(front, drop, i);
      CutBefore(Without(front, drop), if last in drop then [] else [s[last]], i);
    } else {
      DropsNothing(front, drop);
      DropsNothing(front, drop + {i});
      assert (front + [s[last]])[..i] == front && (front + [s[last]])[i + 1..] == [];
    }
  }

  lemma {:induction false} DropsNothing<T>(s: seq<T>, drop: set<int>)
    requires forall d :: d in drop ==> d >= |s|
    ensures Without(s, drop) == s
  {
    if s != [] {
      DropsNothing(s[..|s| - 1], drop);
    }
  }

  function IndexSet(v: seq<int>): set<int> {
    set k | 0 <= k < |v| :: v[k]
  }

  /** Taking the service slides out leaves the other slides of the template, then those added, all in order. */
  method RemoveServiceSlides(p: Package, indices: seq<int>, ghost template: seq<Slide>, ghost added: seq<Slide>)
    requires p.Valid() && p.slides == template + added
    requires StrictlyDescending(indices) && forall k :: 0 <= k < |indices| ==> 0 <= indices[k] < |template|
    modifies p
    ensures p.Valid() && p.slides == Without(template, IndexSet(indices)) + added
  {
    hide Without, IndexSet;
    NoneDropped(template);
    assert indices[..0] == [];
    for j := 0 to |indices|
      invariant p.Valid() && p.slides == Without(template, IndexSet(indices[..j])) + added
    {
      var i := indices[j];
      ghost var drop := IndexSet(indices[..j]);
      LaterIsLower(indices, j);
      DropLower(template, drop, i);
      ghost var w := Without(template, drop);
      assert (w + added)[..i] + (w + added)[i + 1..] == w[..i] + w[i + 1..] + added;
      p.RemoveSlide(i);
    }
    assert indices[..|indices|] == indices;
  }

  lemma NoneDropped(template: seq<Slide>)
    ensures Without(template, IndexSet([])) == template
  {
    DropsNothing(template, IndexSet([]));
  }

  lemma LaterIsLower(indices: seq<int>, j: nat)
    requires StrictlyDescending(indices) && j < |indices|
    ensures IndexSet(indices[..j + 1]) == IndexSet(indices[..j]) + {indices[j]}
    ensures forall d :: d in IndexSet(indices[..j]) ==> d > indices[j]
  {
    var more, less := indices[..j + 1], indices[..j];
    forall d
      ensures d in IndexSet(more) <==> d in IndexSet(less) || d == indices[j]
    {
      if d in IndexSet(more) {
        var k :| 0 <= k < |more| && more[k] == d;
        assert k < j ==> less[k] == d;
      }
      if d in IndexSet(less) {
        var k :| 0 <= k < |less| && less[k] == d;
        assert more[k] == d;
      }
      assert more[j] == indices[j];
    }
  }
}
