/** Walking the directory of a compound file: the root's children are a binary tree over sibling links. */
module CompoundDirectory {
  import opened Sequences
  import opened Outcomes
  import CompoundFile

  const TYPE_STREAM := 2
  const MAX_ENTRY_NAME_LEN := 64

  datatype StreamRef = StreamRef(start: nat, size: nat)

  /** One directory entry; `name` is its text once decoded. */
  datatype Entry = Entry(kind: nat, nameLen: nat, name: string, left: nat, right: nat, ref: StreamRef)

  // ---- legal directories ----

  datatype Tree = Leaf | Node(entry: nat, left: Tree, right: Tree)

  /** The sibling links from entry i spell out the tree. */
  ghost predicate Spells(dir: seq<Entry>, t: Tree, i: nat) {
    match t
    case Leaf => i == CompoundFile.NO_STREAM
    case Node(e, l, r) =>
      && e == i && i != CompoundFile.NO_STREAM && i < |dir|
      && Spells(dir, l, dir[i].left) && Spells(dir, r, dir[i].right)
  }

  /** The entries in the order a stack visits them: an entry, its right subtree, its left subtree. */
  function Visits(t: Tree): seq<nat> {
    match t
    case Leaf => []
    case Node(e, l, r) => [e] + (Visits(r) + Visits(l))
  }

  /** A stream must have a name of a legal length; other entries are not looked at. */
  predicate NameOk(e: Entry) {
    e.kind == TYPE_STREAM ==> 2 <= e.nameLen <= MAX_ENTRY_NAME_LEN
  }

  ghost predicate NamesOk(dir: seq<Entry>, s: seq<nat>) {
    forall k :: 0 <= k < |s| ==> s[k] < |dir| && NameOk(dir[s[k]])
  }

  /** No entry is shared or visited again, and every stream is named. */
  ghost predicate Legal(dir: seq<Entry>, t: Tree, root: nat) {
    Spells(dir, t, root) && Distinct(Visits(t)) && NamesOk(dir, Visits(t))
  }

  type Streams = map<string, StreamRef>

  function Index(dir: seq<Entry>, s: seq<nat>, streams: Streams): Streams {
    if s == [] then streams
    else if s[0] < |dir| && dir[s[0]].kind == TYPE_STREAM then Index(dir, s[1..], streams[dir[s[0]].name := dir[s[0]].ref])
    else Index(dir, s[1..], streams)
  }

  // ---- the walk ----

  function Below(n: nat): (s: set<nat>)
    ensures forall i: nat :: i in s <==> i < n
  {
    if n == 0 then {} else Below(n - 1) + {n - 1}
  }

  function Unvisited(dir: seq<Entry>, visited: set<nat>): set<nat> {
    Below(|dir|) - visited
  }

  function Walk(dir: seq<Entry>, stack: seq<nat>, visited: set<nat>, streams: Streams): Option<Streams>
    decreases Unvisited(dir, visited), |stack|
  {
    if stack == [] then Some(streams)
    else
      var i, rest := stack[|stack| - 1], stack[..|stack| - 1];
      if i == CompoundFile.NO_STREAM then Walk(dir, rest, visited, streams)
      else if i >= |dir| || i in visited || !NameOk(dir[i]) then None
      else
        var e := dir[i];
        assert i in Unvisited(dir, visited) && i !in Unvisited(dir, visited + {i});
        Walk(dir, rest + [e.left, e.right], visited + {i},
             if e.kind == TYPE_STREAM then streams[e.name := e.ref] else streams)
  }

  method ReadDirectory(dir: seq<Entry>, root: nat) returns (r: Option<Streams>)
    ensures r == Walk(dir, [root], {}, map[])
  {
    var visited: set<nat>, streams: Streams, stack := {}, map[], [root];
    while |stack| > 0
      invariant Walk(dir, stack, visited, streams) == Walk(dir, [root], {}, map[])
      decreases Unvisited(dir, visited), |stack|
    {
      var i := stack[|stack| - 1];
      stack := stack[..|stack| - 1];
      if i == CompoundFile.NO_STREAM {
        continue;
      }
      if i >= |dir| || i in visited {
        return None;
      }
      assert i in Unvisited(dir, visited) && i !in Unvisited(dir, visited + {i});
      visited := visited + {i};
      var e := dir[i];
      stack := stack + [e.left, e.right];
      if e.kind != TYPE_STREAM {
        continue;
      }
      if e.nameLen < 2 || e.nameLen > MAX_ENTRY_NAME_LEN {
        return None;
      }
      streams := streams[e.name := e.ref];
    }
    r := Some(streams);
  }

  // ---- the walk succeeds exactly on legal trees ----

  ghost predicate SpellAll(dir: seq<Entry>, ts: seq<Tree>, stack: seq<nat>) {
    |ts| == |stack| && forall k :: 0 <= k < |ts| ==> Spells(dir, ts[k], stack[k])
  }

  /** The visits a stack of trees stands for, the top first. */
  function VisitAll(ts: seq<Tree>): seq<nat> {
    if ts == [] then [] else Visits(ts[|ts| - 1]) + VisitAll(ts[..|ts| - 1])
  }

  ghost predicate Fresh(s: seq<nat>, visited: set<nat>) {
    Distinct(s) && forall k :: 0 <= k < |s| ==> s[k] !in visited
  }

  lemma VisitOne(ts: seq<Tree>, t: Tree)
    ensures VisitAll(ts + [t]) == Visits(t) + VisitAll(ts)
  {
    assert (ts + [t])[..|ts|] == ts;
  }

  lemma VisitNode(t: Tree)
    requires t.Node?
    ensures Visits(t) == [t.entry] + (Visits(t.right) + Visits(t.left))
  {
  }

  lemma PushChildren(ts: seq<Tree>)
    requires ts != [] && ts[|ts| - 1].Node?
    ensures var t := ts[|ts| - 1];
            VisitAll(ts) == [t.entry] + VisitAll(ts[..|ts| - 1] + [t.left, t.right])
  {
    hide Visits, VisitAll;
    var t, rest := ts[|ts| - 1], ts[..|ts| - 1];
    VisitOne(rest, t);
    VisitOne(rest, t.left);
    VisitOne(rest + [t.left], t.right);
    assert rest + [t] == ts && rest + [t.left] + [t.right] == rest + [t.left, t.right];
    VisitNode(t);
    Regroup([t.entry], Visits(t.right), Visits(t.left), VisitAll(rest));
  }

  lemma Regroup(a: seq<nat>, b: seq<nat>, c: seq<nat>, d: seq<nat>)
    ensures a + (b + c) + d == a + (b + (c + d))
  {
  }

  lemma {:induction false} WalkOfTrees(dir: seq<Entry>, ts: seq<Tree>, stack: seq<nat>, visited: set<nat>, streams: Streams)
    requires SpellAll(dir, ts, stack) && Fresh(VisitAll(ts), visited) && NamesOk(dir, VisitAll(ts))
    ensures Walk(dir, stack, visited, streams) == Some(Index(dir, VisitAll(ts), streams))
    decreases |VisitAll(ts)|, |ts|
  {
    if ts != [] {
      var t, rest := ts[|ts| - 1], ts[..|ts| - 1];
      var i, under := stack[|stack| - 1], stack[..|stack| - 1];
      assert Spells(dir, t, i);
      match t {
        case Leaf =>
          assert VisitAll(ts) == VisitAll(rest);
          WalkOfTrees(dir, rest, under, visited, streams);
        case Node(e, l, r) =>
          var all, more := VisitAll(ts), rest + [l, r];
          PushChildren(ts);
          assert all[0] == i && all[1..] == VisitAll(more);
          assert SpellAll(dir, more, under + [dir[i].left, dir[i].right]);
          assert forall k :: 0 <= k < |all| - 1 ==> all[1..][k] == all[k + 1];
          WalkOfTrees(dir, more, under + [dir[i].left, dir[i].right], visited + {i},
                      if dir[i].kind == TYPE_STREAM then streams[dir[i].name := dir[i].ref] else streams);
      }
    }
  }

  /** The trees of an entry's two children make its tree. */
  lemma JoinChildren(dir: seq<Entry>, more: seq<Tree>, under: seq<nat>, i: nat, visited: set<nat>)
    requires i < |dir| && i != CompoundFile.NO_STREAM && i !in visited && NameOk(dir[i])
    requires SpellAll(dir, more, under + [dir[i].left, dir[i].right])
    requires Fresh(VisitAll(more), visited + {i}) && NamesOk(dir, VisitAll(more))
    ensures var ts := more[..|under|] + [Node(i, more[|under|], more[|under| + 1])];
            SpellAll(dir, ts, under + [i]) && Fresh(VisitAll(ts), visited) && NamesOk(dir, VisitAll(ts))
  {
    var n := |under|;
    var rest, l, r := more[..n], more[n], more[n + 1];
    var ts, stack := rest + [Node(i, l, r)], under + [dir[i].left, dir[i].right];
    assert ts[..n] == rest && more == rest + [l, r];
    PushChildren(ts);
    assert VisitAll(ts) == [i] + VisitAll(more);
    assert Spells(dir, more[n], stack[n]) && Spells(dir, more[n + 1], stack[n + 1]);
    assert forall k :: 0 <= k < n ==> more[k] == ts[k] && stack[k] == under[k];
  }

  lemma LeafOnTop(dir: seq<Entry>, ts: seq<Tree>, stack: seq<nat>)
    requires SpellAll(dir, ts, stack)
    ensures SpellAll(dir, ts + [Leaf], stack + [CompoundFile.NO_STREAM]) && VisitAll(ts + [Leaf]) == VisitAll(ts)
  {
    VisitOne(ts, Leaf);
  }

  lemma {:induction false} TreesOfWalk(dir: seq<Entry>, stack: seq<nat>, visited: set<nat>, streams: Streams)
      returns (ts: seq<Tree>)
    requires Walk(dir, stack, visited, streams).Some?
    ensures SpellAll(dir, ts, stack) && Fresh(VisitAll(ts), visited) && NamesOk(dir, VisitAll(ts))
    decreases Unvisited(dir, visited), |stack|
  {
    if stack == [] {
      ts := [];
    } else {
      hide Spells, NamesOk, VisitAll, Fresh;
      var i, under := stack[|stack| - 1], stack[..|stack| - 1];
      if i == CompoundFile.NO_STREAM {
        var rest := TreesOfWalk(dir, under, visited, streams);
        ts := rest + [Leaf];
        LeafOnTop(dir, rest, under);
        assert stack == under + [i];
      } else {
        var e := dir[i];
        assert i in Unvisited(dir, visited) && i !in Unvisited(dir, visited + {i});
        var more := TreesOfWalk(dir, under + [e.left, e.right], visited + {i},
                                if e.kind == TYPE_STREAM then streams[e.name := e.ref] else streams);
        var n := |under|;
        ts := more[..n] + [Node(i, more[n], more[n + 1])];
        JoinChildren(dir, more, under, i, visited);
        assert stack == under + [i];
      }
    }
  }

  /** The directory is read exactly when its sibling links are a tree without sharing and every stream in it is
      properly named; then every stream of the tree is indexed, each entry looked at once. */
  lemma DirectoryIsRead(dir: seq<Entry>, root: nat)
    ensures Walk(dir, [root], {}, map[]).Some? <==> exists t :: Legal(dir, t, root)
    ensures forall t :: Legal(dir, t, root) ==> Walk(dir, [root], {}, map[]) == Some(Index(dir, Visits(t), map[]))
  {
    forall t | Legal(dir, t, root)
      ensures Walk(dir, [root], {}, map[]) == Some(Index(dir, Visits(t), map[]))
    {
      OneTree(t);
      WalkOfTrees(dir, [t], [root], {}, map[]);
    }
    if Walk(dir, [root], {}, map[]).Some? {
      var ts := TreesOfWalk(dir, [root], {}, map[]);
      assert ts == [ts[0]];
      OneTree(ts[0]);
      assert Legal(dir, ts[0], root);
    }
  }

  lemma OneTree(t: Tree)
    ensures VisitAll([t]) == Visits(t)
  {
    assert [t][..0] == [];
  }

  /** A name is in the index exactly when a visited stream has it. */
  lemma {:induction false} IndexedNames(dir: seq<Entry>, s: seq<nat>, streams: Streams)
    requires forall k :: 0 <= k < |s| ==> s[k] < |dir|
    ensures forall name :: name in Index(dir, s, streams) <==>
              name in streams || exists k :: 0 <= k < |s| && dir[s[k]].kind == TYPE_STREAM && dir[s[k]].name == name
  {
    if s != [] {
      var e := dir[s[0]];
      IndexedNames(dir, s[1..], if e.kind == TYPE_STREAM then streams[e.name := e.ref] else streams);
    }
  }

  ghost predicate Unnamed(dir: seq<Entry>, s: seq<nat>, name: string) {
    forall k :: 0 <= k < |s| && s[k] < |dir| && dir[s[k]].kind == TYPE_STREAM ==> dir[s[k]].name != name
  }

  lemma {:induction false} IndexKeeps(dir: seq<Entry>, s: seq<nat>, streams: Streams, name: string)
    requires name in streams && Unnamed(dir, s, name)
    ensures name in Index(dir, s, streams) && Index(dir, s, streams)[name] == streams[name]
  {
    if s != [] {
      var rest := s[1..];
      assert forall k :: 0 <= k < |rest| ==> rest[k] == s[k + 1];
      if s[0] < |dir| && dir[s[0]].kind == TYPE_STREAM {
        IndexKeeps(dir, rest, streams[dir[s[0]].name := dir[s[0]].ref], name);
      } else {
        IndexKeeps(dir, rest, streams, name);
      }
    }
  }

  /** A stream is found under its name, unless one visited later has the same name. */
  lemma {:induction false} StreamIsFound(dir: seq<Entry>, s: seq<nat>, streams: Streams, k: nat)
    requires k < |s| && s[k] < |dir| && dir[s[k]].kind == TYPE_STREAM
    requires Unnamed(dir, s[k + 1..], dir[s[k]].name)
    ensures dir[s[k]].name in Index(dir, s, streams) && Index(dir, s, streams)[dir[s[k]].name] == dir[s[k]].ref
  {
    var e := dir[s[k]];
    if k == 0 {
      IndexKeeps(dir, s[1..], streams[e.name := e.ref], e.name);
    } else {
      assert s[1..][k..] == s[k + 1..];
      if s[0] < |dir| && dir[s[0]].kind == TYPE_STREAM {
        StreamIsFound(dir, s[1..], streams[dir[s[0]].name := dir[s[0]].ref], k - 1);
      } else {
        StreamIsFound(dir, s[1..], streams, k - 1);
      }
    }
  }
}
