/** Writing thread paths into the matches of the sorted threads. */
module UpdatingTable {
  import opened Wrappers
  import opened Forests
  import opened ThreadPaths
  import opened ThreadHeap
  import opened Containers
  import opened SortingTable
  import PruneHeap

  /** The path and level written in each match of the table. */
  ghost function Written(h: Heap): map<Id, (string, nat)>
    reads set x | x in h && h[x].stored != null :: h[x].stored
  {
    map x | x in h && h[x].stored != null :: (h[x].stored.threadPath, h[x].stored.threadLevel)
  }

  /** No match is stored in two containers. */
  ghost predicate OwnMatches(h: Heap) {
    forall x <- h, y <- h :: h[x].stored != null && h[x].stored == h[y].stored ==> x == y
  }

  ghost function MatchSet(h: Heap): set<QueryMatch> {
    set x | x in h && h[x].stored != null :: h[x].stored
  }

  /** m with the entries written over it. */
  function Write(m: map<Id, (string, nat)>, es: seq<Entry>): map<Id, (string, nat)> {
    if es == [] then m
    else Write(m, es[..|es| - 1])[es[|es| - 1].id := (es[|es| - 1].key, es[|es| - 1].level)]
  }

  lemma {:induction false} WriteMore(m: map<Id, (string, nat)>, a: seq<Entry>, b: seq<Entry>)
    ensures Write(Write(m, a), b) == Write(m, a + b)
  {
    if b == [] {
      assert a + b == a;
    } else {
      assert (a + b)[..|a + b| - 1] == a + b[..|b| - 1];
      WriteMore(m, a, b[..|b| - 1]);
    }
  }

  /** The segments joined by colons, each padded with zeros. */
  method PathToString(tpath: seq<nat>, digits: nat) returns (str: string)
    ensures str == ToString(tpath, digits)
  {
    str := "";
    var first := true;
    for i := 0 to |tpath|
      invariant str == ToString(tpath[..i], digits) && first == (i == 0)
    {
      assert tpath[..i + 1][..i] == tpath[..i];
      str := str + (if first then "" else ":") + Segment(tpath[i], digits);
      first := false;
    }
    assert tpath[..|tpath|] == tpath;
  }

  method SetPath(ghost h: Heap, ghost x: Id, qm: QueryMatch, path: string, level: nat)
    requires x in h && h[x].stored == qm && OwnMatches(h)
    modifies qm
    ensures Written(h) == old(Written(h))[x := (path, level)]
  {
    qm.threadPath, qm.threadLevel := path, level;
    forall y | y in h && h[y].stored != null && y != x
      ensures h[y].stored.threadPath == old(h[y].stored.threadPath) &&
              h[y].stored.threadLevel == old(h[y].stored.threadLevel)
    {}
  }

  /** Writes the path of one container; a child's last segment is inverted in a
      descending sort, and stays so for what follows below it. */
  method UpdateContainer(ghost h: Heap, c: Container, descending: bool, tpath: seq<nat>, segSize: nat)
    returns (updated: bool, tpath': seq<nat>)
    requires c.id in h && h[c.id] == CellOf(c) && OwnMatches(h) && tpath != []
    modifies MatchSet(h)
    ensures updated <==> c.queryMatch != null
    ensures var last := |tpath| - 1;
            tpath' == if updated && descending && c.parent != null then tpath[last := Inverse(tpath[last], segSize)]
              else tpath
    ensures Written(h) == Write(old(Written(h)), Own(c.id, PruneHeap.Full(h), tpath', descending, segSize))
  {
    tpath' := tpath;
    if c.queryMatch == null { return false, tpath; }
    if descending && c.parent != null {
      tpath' := tpath[|tpath| - 1 := Inverse(tpath[|tpath| - 1], segSize)];
    }
    var path := PathToString(tpath', segSize);
    if descending { path := path + ":z"; }
    assert path == PathKey(tpath', descending, segSize);
    assert c.queryMatch in MatchSet(h);
    SetPath(h, c.id, c.queryMatch, path, |tpath'| - 1);
    updated := true;
  }

  /** f without its first i trees. */
  function Drop(f: Forest, i: nat): Forest {
    if i == 0 || f.Nil? then f else Drop(f.rest, i - 1)
  }

  lemma {:induction false} DropStep(h: Heap, f: Forest, p: Option<Id>, i: nat)
    requires Rep(h, f, p) && i < |Roots(f)|
    ensures var t := Drop(f, i);
            && t.Tree? && t.root == Roots(f)[i] && t.kids < f && t.rest == Drop(f, i + 1)
            && t.root in h && h[t.root].parent == p && h[t.root].children == Roots(t.kids) &&
               Rep(h, t.kids, Some(t.root))
  {
    if i > 0 {
      assert Roots(f)[i] == Roots(f.rest)[i - 1];
      DropStep(h, f.rest, p, i - 1);
    }
  }

  lemma {:induction false} DropAll(f: Forest)
    ensures Drop(f, |Roots(f)|) == Nil
  {
    if f.Tree? { DropAll(f.rest); }
  }

  /** One child at position i of its siblings, with all that is below it. */
  method UpdateChild(table: IdTable, c: Container, i: nat, descending: bool, tpath: seq<nat>, segSize: nat,
      ghost k: Forest)
    requires Linked(table) && OwnMatches(Snap(table)) && Stored(table, c)
    requires c.parent != null && Snap(table)[c.id].children == Roots(k) && Rep(Snap(table), k, Some(c.id))
    modifies MatchSet(Snap(table))
    ensures Linked(table) && Snap(table) == old(Snap(table))
    ensures var h, full := Snap(table), PruneHeap.Full(Snap(table));
            Written(h) == Write(old(Written(h)), PathsOfTree(c.id, k, full,
                                tpath + [ChildSegment(c.id, full, i, descending, segSize)], descending, segSize))
    decreases k, 1
  {
    hide Linked, Written, Write, PathsBelow, Rep, OwnMatches, MatchSet, Inverse;
    ghost var h, full := Snap(table), PruneHeap.Full(Snap(table));
    StoredChildren(table, c);
    ghost var w, own := Written(h), Own(c.id, full, tpath + [ChildSegment(c.id, full, i, descending, segSize)],
        descending, segSize);
    var here := tpath + [i];
    var _, here' := UpdateContainer(h, c, descending, here, segSize);
    assert here' == tpath + [ChildSegment(c.id, full, i, descending, segSize)];
    assert Snap(table) == h;
    assert Written(h) == Write(w, own);
    UpdateContainers(table, c.children, descending, here', segSize, k, c.id);
    WriteMore(w, own, PathsBelow(k, full, here', 0, descending, segSize));
  }

  /** The children of a container, with all that is below them. */
  method UpdateContainers(table: IdTable, children: seq<Container>, descending: bool, tpath: seq<nat>, segSize: nat,
                          ghost f: Forest, ghost p: Id)
    requires Linked(table) && Rep(Snap(table), f, Some(p)) && OwnMatches(Snap(table))
    requires Names(children) == Roots(f) && forall c <- children :: Stored(table, c)
    modifies MatchSet(Snap(table))
    ensures Linked(table) && Snap(table) == old(Snap(table))
    ensures var h, full := Snap(table), PruneHeap.Full(Snap(table));
            Written(h) == Write(old(Written(h)), PathsBelow(f, full, tpath, 0, descending, segSize))
    decreases f, 0
  {
    hide Snap, Linked, Written, Write, PathsBelow, Rep, OwnMatches, MatchSet, Stored, PathsOfTree;
    ghost var h, full, done := Snap(table), PruneHeap.Full(Snap(table)), [];
    ghost var total := PathsBelow(f, full, tpath, 0, descending, segSize);
    ghost var w := Written(h);
    WriteNothing(w);
    for i := 0 to |children|
      invariant Snap(table) == h && Linked(table)
      invariant Written(h) == Write(w, done)
      invariant done + PathsBelow(Drop(f, i), full, tpath, i, descending, segSize) == total
    {
      DropStep(h, f, Some(p), i);
      NamesAt(children, i);
      StoredChildren(table, children[i]);
      ghost var t := Drop(f, i);
      UpdateChild(table, children[i], i, descending, tpath, segSize, t.kids);
      ghost var es := PathsOfTree(t.root, t.kids, full, tpath + [ChildSegment(t.root, full, i, descending, segSize)],
          descending, segSize);
      PathsStep(t, full, tpath, i, descending, segSize);
      WriteMore(w, done, es);
      done := done + es;
    }
    DropAll(f);
    PathsNil(full, tpath, |children|, descending, segSize);
    assert done + [] == done;
  }

  lemma WriteNothing(m: map<Id, (string, nat)>)
    ensures Write(m, []) == m
  {}

  lemma PathsStep(t: Forest, full: set<Id>, tpath: seq<nat>, i: nat, descending: bool, segSize: nat)
    requires t.Tree?
    ensures PathsBelow(t, full, tpath, i, descending, segSize) ==
            PathsOfTree(t.root, t.kids, full, tpath + [ChildSegment(t.root, full, i, descending, segSize)],
              descending, segSize)
            + PathsBelow(t.rest, full, tpath, i + 1, descending, segSize)
  {}

  lemma PathsNil(full: set<Id>, tpath: seq<nat>, i: nat, descending: bool, segSize: nat)
    ensures PathsBelow(Nil, full, tpath, i, descending, segSize) == []
  {}

  /** One root at position i, with its thread. */
  method UpdateRoot(table: IdTable, c: Container, i: nat, descending: bool, segSize: nat, ghost k: Forest)
    requires Linked(table) && OwnMatches(Snap(table)) && Stored(table, c)
    requires c.parent == null && Snap(table)[c.id].children == Roots(k) && Rep(Snap(table), k, Some(c.id))
    modifies MatchSet(Snap(table))
    ensures Linked(table) && Snap(table) == old(Snap(table))
    ensures var h, full := Snap(table), PruneHeap.Full(Snap(table));
            Written(h) == Write(old(Written(h)), PathsOfRoot(c.id, k, full, i, descending, segSize))
  {
    hide Linked, Written, Write, PathsBelow, Rep, OwnMatches, MatchSet, Inverse;
    ghost var h, full := Snap(table), PruneHeap.Full(Snap(table));
    StoredChildren(table, c);
    ghost var w, own := Written(h), Own(c.id, full, [i], descending, segSize);
    var _, here := UpdateContainer(h, c, descending, [i], segSize);
    assert here == [i] && Snap(table) == h;
    UpdateContainers(table, c.children, descending, here, segSize, k, c.id);
    WriteMore(w, own, PathsBelow(k, full, here, 0, descending, segSize));
  }

  /** All threads, with the segment size for n containers. */
  method UpdateThreads(table: IdTable, roots: seq<Container>, descending: bool, n: nat, ghost f: Forest)
    requires Linked(table) && Rep(Snap(table), f, None) && OwnMatches(Snap(table))
    requires Names(roots) == Roots(f) && forall c <- roots :: Stored(table, c)
    modifies MatchSet(Snap(table))
    ensures Linked(table) && Snap(table) == old(Snap(table))
    ensures var h, full := Snap(table), PruneHeap.Full(Snap(table));
            Written(h) == Write(old(Written(h)), PathsTop(f, full, 0, descending, SegSize(n)))
  {
    hide Snap, Linked, Written, Write, PathsTop, Rep, OwnMatches, MatchSet, Stored, PathsOfRoot, SegSize;
    var segSize := SegSize(n);
    ghost var h, full, done := Snap(table), PruneHeap.Full(Snap(table)), [];
    ghost var total := PathsTop(f, full, 0, descending, segSize);
    ghost var w := Written(h);
    WriteNothing(w);
    for i := 0 to |roots|
      invariant Snap(table) == h && Linked(table)
      invariant Written(h) == Write(w, done)
      invariant done + PathsTop(Drop(f, i), full, i, descending, segSize) == total
    {
      DropStep(h, f, None, i);
      NamesAt(roots, i);
      StoredChildren(table, roots[i]);
      ghost var t := Drop(f, i);
      UpdateRoot(table, roots[i], i, descending, segSize, t.kids);
      ghost var es := PathsOfRoot(t.root, t.kids, full, i, descending, segSize);
      TopStep(t, full, i, descending, segSize);
      WriteMore(w, done, es);
      done := done + es;
    }
    DropAll(f);
    assert PathsTop(Nil, full, |roots|, descending, segSize) == [] by { TopNil(full, |roots|, descending, segSize); }
    assert done + [] == done;
  }

  lemma TopStep(t: Forest, full: set<Id>, i: nat, descending: bool, segSize: nat)
    requires t.Tree?
    ensures PathsTop(t, full, i, descending, segSize) ==
            PathsOfRoot(t.root, t.kids, full, i, descending, segSize) +
              PathsTop(t.rest, full, i + 1, descending, segSize)
  {}

  lemma TopNil(full: set<Id>, i: nat, descending: bool, segSize: nat)
    ensures PathsTop(Nil, full, i, descending, segSize) == []
  {}
}
