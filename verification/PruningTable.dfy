/** Pruning the empty containers of the id-table. */
module PruningTable {
  import opened Wrappers
  import opened Forests
  import opened Pruning
  import opened ThreadHeap
  import opened PruneHeap
  import opened PruneRoots
  import opened Containers

  /** Makes p the parent of c, and c the last child of p, if there is a p. */
  method MoveTo(table: IdTable, p: Container?, c: Container)
    requires Linked(table) && Stored(table, c) && (p != null ==> Stored(table, p))
    modifies Just(p)`children, c`parent
    ensures Linked(table) && Snap(table) == Move(old(Snap(table)), c.id, IdOf(p))
  {
    if p != null {
      Hang(table, p, c);
    } else {
      ghost var h := Move(Snap(table), c.id, None);
      c.parent := null;
      forall x | x in table ensures LinkedAt(table, x) { assert old(LinkedAt(table, x)); }
      forall x | x in table ensures CellOf(table[x]) == h[x] { assert LinkedAt(table, x); }
      SnapIs(table, h);
    }
  }

  ghost function Just(c: Container?): set<Container> { if c == null then {} else {c} }

  /** Moves all of cs to p, in order. */
  method MoveAllTo(table: IdTable, p: Container?, cs: seq<Container>)
    requires Linked(table) && (forall c <- cs :: Stored(table, c)) && (p != null ==> Stored(table, p))
    requires forall y <- Names(cs) :: y in table
    modifies Just(p)`children, cs`parent
    ensures Linked(table) && Snap(table) == MoveAll(old(Snap(table)), Names(cs), IdOf(p))
  {
    assert Snap(table).Keys == table.Keys && (p != null ==> p.id in table);
    hide Snap, Linked, MoveAll, Move;
    ghost var ids, h := Names(cs), old(Snap(table));
    MoveNone(h, ids, IdOf(p));
    for i := 0 to |cs|
      invariant Linked(table) && Snap(table) == MoveAll(h, ids[..i], IdOf(p))
    {
      MoveAllStep(h, ids, i, IdOf(p));
      MoveTo(table, p, cs[i]);
    }
    assert ids[..|cs|] == ids;
  }

  lemma MoveNone(h: Heap, ys: seq<Id>, p: Option<Id>)
    requires p.Some? ==> p.value in h
    ensures MoveAll(h, ys[..0], p) == h
  {}

  lemma MoveAllStep(h: Heap, ys: seq<Id>, i: nat, p: Option<Id>)
    requires (forall y <- ys :: y in h) && (p.Some? ==> p.value in h) && i < |ys|
    ensures MoveAll(h, ys[..i + 1], p) == Move(MoveAll(h, ys[..i], p), ys[i], p)
  {
    assert ys[..i + 1][..i] == ys[..i];
  }

  method Nuke(table: IdTable, c: Container)
    requires Linked(table) && Stored(table, c)
    modifies c`children, c`isNuked
    ensures Linked(table)
    ensures Snap(table) == var h := old(Snap(table)); h[c.id := h[c.id].(children := [], nuked := true)]
  {
    ghost var h := Snap(table)[c.id := Snap(table)[c.id].(children := [], nuked := true)];
    c.children := [];
    c.isNuked := true;
    forall x | x in table ensures LinkedAt(table, x) { assert old(LinkedAt(table, x)); }
    forall x | x in table ensures CellOf(table[x]) == h[x] { assert LinkedAt(table, x); }
    SnapIs(table, h);
  }

  lemma {:induction false} NamesWithout(cs: seq<Container>, c: Container)
    requires forall d <- cs :: d.id == c.id ==> d == c
    ensures Names(WithoutFirst(cs, c)) == Without(Names(cs), c.id)
  {
    if cs != [] {
      assert Names(cs)[1..] == Names(cs[1..]);
      if cs[0] != c {
        NamesWithout(cs[1..], c);
        assert Names([cs[0]] + WithoutFirst(cs[1..], c)) == [cs[0].id] + Names(WithoutFirst(cs[1..], c));
      }
    }
  }

  method TakeOut(table: IdTable, p: Container, c: Container)
    requires Linked(table) && Stored(table, p) && Stored(table, c) && c.id in Snap(table)[p.id].children
    modifies p`children
    ensures Linked(table)
    ensures Snap(table) == var h := old(Snap(table)); h[p.id := h[p.id].(children := Without(h[p.id].children, c.id))]
  {
    assert LinkedAt(table, p.id);
    assert c.id in Names(p.children);
    forall d | d in p.children ensures Stored(table, d) {
      var i :| 0 <= i < |p.children| && p.children[i] == d;
      assert Stored(table, table[p.id].children[i]);
    }
    NamesWithout(p.children, c);
    ghost var cs := p.children;
    ghost var h := Snap(table)[p.id := Snap(table)[p.id].(children := Without(Names(p.children), c.id))];
    p.RemoveChild(c);
    WithoutIsSubset(cs, c);
    assert Names(p.children) == Without(Names(cs), c.id);
    forall x | x in table ensures LinkedAt(table, x) { assert old(LinkedAt(table, x)); }
    forall x | x in table ensures CellOf(table[x]) == h[x] {
      assert LinkedAt(table, x);
      assert x != p.id ==> table[x] != p;
    }
    SnapIs(table, h);
  }

  lemma WithoutIsSubset(cs: seq<Container>, c: Container)
    ensures forall d <- WithoutFirst(cs, c) :: d in cs
  {}

  lemma ListedAfterMoving(h: Heap, x: Id)
    requires Spliceable(h, x) && h[x].parent.Some?
    ensures var p := h[x].parent.value; x in MoveAll(h, h[x].children, Some(p))[p].children
  {
    MovedAt(h, h[x].children, h[x].parent, h[x].parent.value);
  }

  /** Splices child out: its children go to its parent, or become roots. */
  method Prune(table: IdTable, child: Container)
    requires Linked(table) && Stored(table, child) && Spliceable(Snap(table), child.id)
    modifies table.Values`children, table.Values`parent, table.Values`isNuked
    ensures Linked(table) && Snap(table) == SpliceCell(old(Snap(table)), child.id)
  {
    ghost var h := Snap(table);
    assert LinkedAt(table, child.id) && table[child.id] in table.Values;
    assert h[child.id] == CellOf(child);
    MovingSplices(h, child.id);
    var container, grandchildren := child.parent, child.children;
    forall c | c in grandchildren ensures Stored(table, c) && c in table.Values && c != child {
      var i :| 0 <= i < |grandchildren| && grandchildren[i] == c;
      assert Stored(table, table[child.id].children[i]) && Names(grandchildren)[i] == c.id;
    }
    forall y | y in Names(grandchildren) ensures y in table {}
    assert container != null ==> table[container.id] in table.Values;
    if container != null { ListedAfterMoving(h, child.id); }
    hide Snap, Linked, Spliceable, MoveAll, SpliceCell;
    MoveAllTo(table, container, grandchildren);
    Nuke(table, child);
    if container != null { TakeOut(table, container, child); }
  }

  /** Prunes everything below the container; tells whether it is to go itself. */
  method PruneEmptyContainer(table: IdTable, container: Container, ghost k: Forest) returns (empty: bool)
    requires Linked(table) && Stored(table, container) && Level(Snap(table), container.id, k)
    modifies table.Values`children, table.Values`parent, table.Values`isNuked
    ensures Linked(table)
    ensures var h := old(Snap(table)); PrunedTo(h, Snap(table), container.id, k, PruneLevel(k, Full(h)))
    ensures empty <==> ToGo(CellOf(container))
    decreases k, 2
  {
    ghost var h, full, c := Snap(table), Full(Snap(table)), container.id;
    var toPrune := PruneChildren(table, container, k);
    EmptiesDiffer(k, full);
    SplicingPrunes(k, full);
    SpliceEach(table, h, container, k, PrunedFrom(k, 0, full), toPrune);
    empty := container.queryMatch == null && (container.parent != null || |container.children| <= 1);
  }

  /** Prunes below each child, last one first, and lists those that are to go. */
  method PruneChildren(table: IdTable, container: Container, ghost k: Forest) returns (toPrune: seq<Container>)
    requires Linked(table) && Stored(table, container) && Level(Snap(table), container.id, k)
    modifies table.Values`children, table.Values`parent, table.Values`isNuked
    ensures Linked(table)
    ensures var h := old(Snap(table)); PrunedTo(h, Snap(table), container.id, k, PrunedFrom(k, 0, Full(h)))
    ensures Names(toPrune) == Empties(k, 0, Full(old(Snap(table)))) && forall p <- toPrune :: Stored(table, p)
    decreases k, 1
  {
    ghost var h, full, c := Snap(table), Full(Snap(table)), container.id;
    toPrune := [];
    PrunedToStart(h, c, k, full);
    assert Level(h, c, k) && |h[c].children| == |container.children| == |Roots(k)|;
    var i := |container.children|;
    assert Names(toPrune) == [];
    hide Snap, Linked, PrunedTo, PrunedFrom, PruneLevel, Full, Level, Names, Empties;
    while i > 0
      invariant Linked(table) && 0 <= i <= |Roots(k)|
      invariant PrunedTo(h, Snap(table), c, k, PrunedFrom(k, i, full))
      invariant Names(toPrune) == Empties(k, i, full)
      invariant forall p <- toPrune :: Stored(table, p)
    {
      i := i - 1;
      var prune, child := PruneChild(table, container, k, i, h, full);
      NamesSnoc(toPrune, child);
      if prune { toPrune := toPrune + [child]; }
    }
  }

  /** Prunes below the child at position i; tells whether it is to go. */
  method PruneChild(table: IdTable, container: Container, ghost k: Forest, i: nat, ghost h: Heap, ghost full: set<Id>)
    returns (prune: bool, child: Container)
    requires Linked(table) && Stored(table, container) && full == Full(h) && Distinct(k) && i < |Roots(k)|
    requires PrunedTo(h, Snap(table), container.id, k, PrunedFrom(k, i + 1, full))
    modifies table.Values`children, table.Values`parent, table.Values`isNuked
    ensures Linked(table) && Stored(table, child) && child.id == Roots(k)[i]
    ensures PrunedTo(h, Snap(table), container.id, k, PrunedFrom(k, i, full))
    ensures Empties(k, i, full) == Empties(k, i + 1, full) + (if prune then [child.id] else [])
    decreases k, 0
  {
    ghost var h1, c := Snap(table), container.id;
    NextChild(h, h1, c, k, i, full);
    SameFull(h, h1, c, Nodes(k), Nodes(PrunedFrom(k, i + 1, full)));
    ChildAt(table, container, i);
    child := container.children[i];
    prune := PruneEmptyContainer(table, child, RootKids(k, child.id));
    ChildPruned(h, h1, Snap(table), c, k, i, full);
    SameFull(h, Snap(table), c, Nodes(k), Nodes(PrunedFrom(k, i, full)));
    assert Snap(table)[child.id] == CellOf(child);
  }

  /** Splices the listed children of the container out. */
  method SpliceEach(table: IdTable, ghost h: Heap, container: Container, ghost k: Forest, ghost m: Forest,
      toPrune: seq<Container>)
    requires Linked(table) && PrunedTo(h, Snap(table), container.id, k, m)
    requires DistinctRoots(m, Names(toPrune)) && forall p <- toPrune :: Stored(table, p)
    modifies table.Values`children, table.Values`parent, table.Values`isNuked
    ensures Linked(table) && PrunedTo(h, Snap(table), container.id, k, SpliceAll(m, Names(toPrune)))
  {
    ghost var xs, m' := Names(toPrune), m;
    hide Snap, Linked, PrunedTo, SpliceAll, Splice;
    for i := 0 to |toPrune|
      invariant Linked(table) && PrunedTo(h, Snap(table), container.id, k, m')
      invariant DistinctRoots(m', xs[i..]) && SpliceAll(m', xs[i..]) == SpliceAll(m, xs)
    {
      SpliceAllStep(m', xs, i);
      NextSplice(h, Snap(table), container.id, k, m', xs[i..]);
      Prune(table, toPrune[i]);
      m' := Splice(m', xs[i]);
    }
    SpliceAllEnd(m', xs);
  }

  lemma SpliceAllStep(m: Forest, xs: seq<Id>, i: nat)
    requires i < |xs|
    ensures SpliceAll(m, xs[i..]) == SpliceAll(Splice(m, xs[i]), xs[i + 1..])
    ensures xs[i..] != [] && xs[i..][0] == xs[i] && xs[i..][1..] == xs[i + 1..]
  {}

  lemma SpliceAllEnd(m: Forest, xs: seq<Id>)
    ensures SpliceAll(m, xs[|xs|..]) == m
  {}

  /** The first i entries. */
  ghost function Seen(order: seq<Id>, i: nat): set<Id>
    requires i <= |order|
  {
    if i == 0 then {} else Seen(order, i - 1) + {order[i - 1]}
  }

  /** order lists each of the keys once. */
  ghost predicate Enumerates(order: seq<Id>, keys: set<Id>) {
    (forall x :: x in order <==> x in keys) && forall i, j :: 0 <= i < j < |order| ==> order[i] != order[j]
  }

  lemma {:induction false} SeenAre(order: seq<Id>, i: nat, x: Id)
    requires i <= |order|
    ensures x in Seen(order, i) <==> exists j :: 0 <= j < i && order[j] == x
  {
    if i > 0 { SeenAre(order, i - 1, x); }
  }

  lemma NextEntry(order: seq<Id>, i: nat, keys: set<Id>)
    requires Enumerates(order, keys) && i < |order|
    ensures order[i] in keys && order[i] !in Seen(order, i)
  {
    SeenAre(order, i, order[i]);
  }

  lemma AllSeen(order: seq<Id>, keys: set<Id>)
    requires Enumerates(order, keys)
    ensures keys <= Seen(order, |order|)
  {
    forall x | x in keys ensures x in Seen(order, |order|) { SeenAre(order, |order|, x); }
  }

  /** Prunes the empty containers of the whole table, walked in the given order. */
  method PruneEmptyContainers(table: IdTable, order: seq<Id>, ghost f: Forest)
    requires Linked(table) && Holds(Snap(table), f) && Enumerates(order, table.Keys)
    modifies table.Values`children, table.Values`parent, table.Values`isNuked
    ensures Linked(table) && Pruned(old(Snap(table)), Snap(table), f)
  {
    hide Snap, Linked, Visiting, Pruned, Holds, Enumerates;
    ghost var h := Snap(table);
    SnapKeys(table);
    NoneVisited(h, f);
    for i := 0 to |order|
      invariant Linked(table) && Visiting(h, Snap(table), f, Seen(order, i))
    {
      NextEntry(order, i, table.Keys);
      VisitItem(table, order[i], f, h, Seen(order, i));
    }
    AllSeen(order, table.Keys);
    AllVisited(h, Snap(table), f, Seen(order, |order|));
  }

  /** One entry of the table: a root is pruned, anything else is left alone. */
  method VisitItem(table: IdTable, x: Id, ghost f: Forest, ghost h: Heap, ghost visited: set<Id>)
    requires Linked(table) && Visiting(h, Snap(table), f, visited) && x in table && x !in visited
    modifies table.Values`children, table.Values`parent, table.Values`isNuked
    ensures Linked(table) && Visiting(h, Snap(table), f, visited + {x})
  {
    ghost var h1, g := Snap(table), PruneSome(f, visited, Full(h));
    assert LinkedAt(table, x);
    var child := table[x];
    assert h1[x] == CellOf(child) && h1[x].parent == IdOf(child.parent);
    if child.parent != null {
      VisitOther(h, h1, f, visited, x);
    } else {
      VisitRoot(h, h1, f, visited, x);
      hide Visiting, Linked, PruneSome, Full, PruneLevel, Level, PrunedTo;
      var empty := PruneEmptyContainer(table, child, RootKids(g, x));
      ghost var h2 := Snap(table);
      assert h2[x] == CellOf(child);
      if empty {
        RootDissolves(h, h1, h2, f, visited, x);
        Prune(table, child);
      } else {
        RootStays(h, h1, h2, f, visited, x);
      }
    }
  }
}
