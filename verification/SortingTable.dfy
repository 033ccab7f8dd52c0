/** Sorting the threads of the id-table. */
module SortingTable {
  import opened Wrappers
  import opened Forests
  import opened ThreadHeap
  import opened PruneHeap
  import opened SortHeap
  import opened Containers
  import ByteStrings

  ghost predicate InOrder(cs: seq<Container>)
    reads cs
  {
    forall i, j :: 0 <= i < j < |cs| ==> ByteStrings.Le(cs[i].threadDateKey, cs[j].threadDateKey)
  }

  /** Puts c behind the last container whose key is not greater. */
  method InsertByKey(cs: seq<Container>, c: Container) returns (r: seq<Container>)
    requires InOrder(cs)
    ensures InOrder(r) && multiset(Names(r)) == multiset(Names(cs)) + multiset{c.id}
    ensures forall d <- r :: d == c || d in cs
  {
    var p := |cs|;
    while p > 0 && ByteStrings.Lt(c.threadDateKey, cs[p - 1].threadDateKey)
      invariant 0 <= p <= |cs|
      invariant forall i :: p <= i < |cs| ==> ByteStrings.Lt(c.threadDateKey, cs[i].threadDateKey)
    {
      p := p - 1;
    }
    r := cs[..p] + [c] + cs[p..];
    InsertedInOrder(cs, c, p);
    InsertedNames(cs, c, p);
  }

  lemma InsertedInOrder(cs: seq<Container>, c: Container, p: nat)
    requires p <= |cs| && InOrder(cs)
    requires p > 0 ==> ByteStrings.Le(cs[p - 1].threadDateKey, c.threadDateKey)
    requires forall i :: p <= i < |cs| ==> ByteStrings.Lt(c.threadDateKey, cs[i].threadDateKey)
    ensures InOrder(cs[..p] + [c] + cs[p..])
  {
    var r := cs[..p] + [c] + cs[p..];
    forall i, j | 0 <= i < j < |r| ensures ByteStrings.Le(r[i].threadDateKey, r[j].threadDateKey) {
      ByteStrings.Total(c.threadDateKey, r[j].threadDateKey);
      if j == p && i < p - 1 { ByteStrings.LeTransitive(r[i].threadDateKey, cs[p - 1].threadDateKey, c.threadDateKey); }
    }
  }

  lemma InsertedNames(cs: seq<Container>, c: Container, p: nat)
    requires p <= |cs|
    ensures multiset(Names(cs[..p] + [c] + cs[p..])) == multiset(Names(cs)) + multiset{c.id}
  {
    assert Names(cs[..p] + [c] + cs[p..]) == Names(cs)[..p] + [c.id] + Names(cs)[p..];
    assert Names(cs) == Names(cs)[..p] + Names(cs)[p..];
  }

  /** Sorts containers by date key.  Callers only know that the result is a sorted
      permutation. */
  method SortByKey(cs: seq<Container>) returns (r: seq<Container>)
    ensures InOrder(r) && multiset(Names(r)) == multiset(Names(cs))
    ensures forall d <- r :: d in cs
  {
    r := [];
    for i := 0 to |cs|
      invariant InOrder(r) && multiset(Names(r)) == multiset(Names(cs)[..i])
      invariant forall d <- r :: d in cs
    {
      r := InsertByKey(r, cs[i]);
      assert Names(cs)[..i + 1] == Names(cs)[..i] + [cs[i].id];
    }
    assert Names(cs)[..|cs|] == Names(cs);
  }

  lemma NamesAt(cs: seq<Container>, i: nat)
    requires i < |cs|
    ensures Names(cs)[i] == cs[i].id
  {}

  /** Sets the order of the children of c, and bubbles their newest date up. */
  method ReorderChildren(table: IdTable, c: Container, cs: seq<Container>)
    requires Linked(table) && Stored(table, c) && forall d <- cs :: Stored(table, d)
    requires forall x <- Names(cs) :: x in table
    modifies c`children, c`threadDateKey
    ensures Linked(table) && Snap(table) == Reorder(old(Snap(table)), c.id, Names(cs))
  {
    hide Stored, Names;
    StoredAt(table, c);
    ghost var h := Reorder(Snap(table), c.id, Names(cs));
    c.children := cs;
    if |cs| > 0 {
      StoredAt(table, cs[|cs| - 1]);
      NamesAt(cs, |cs| - 1);
      var newest := cs[|cs| - 1].threadDateKey;
      if newest != "" { c.threadDateKey := newest; }
    }
    forall x | x in table ensures LinkedAt(table, x) { assert old(LinkedAt(table, x)); }
    forall x | x in table ensures CellOf(table[x]) == h[x] {
      assert LinkedAt(table, x);
      assert x != c.id ==> table[x] != c;
    }
    SnapIs(table, h);
  }

  lemma StoredChildren(table: IdTable, c: Container)
    requires Linked(table) && Stored(table, c)
    ensures forall d <- c.children :: Stored(table, d)
    ensures c.id in Snap(table) && Snap(table)[c.id] == CellOf(c)
    ensures forall d :: Stored(table, d) ==> d.id in Snap(table) && Snap(table)[d.id].key == d.threadDateKey
  {
    forall d | d in c.children ensures Stored(table, d) {
      var i :| 0 <= i < |c.children| && c.children[i] == d;
      ChildAt(table, c, i);
    }
  }

  lemma BeforeReordering(table: IdTable, keys: map<Id, string>, h: Heap, c: Container, k: Forest, m: Forest,
      cs: seq<Container>)
    requires Linked(table) && Stored(table, c) && Distinct(k) && KeysAre(h, keys, {c.id})
    requires SortingLevel(keys, h, Snap(table), c.id, k, m, |Roots(k)|)
    requires InOrder(cs) && multiset(Names(cs)) == multiset(Names(c.children)) && forall d <- cs :: d in c.children
    ensures (forall d <- cs :: Stored(table, d)) && forall x <- Names(cs) :: x in Snap(table)
    ensures SortedLevel(keys, h, Reorder(Snap(table), c.id, Names(cs)), c.id, k, Arrange(m, Names(cs)))
  {
    hide Linked, Snap, SortedLevel, SomeSorted, Stored, Rep, Distinct, SortOnly, KeysAre;
    var xs, h' := Names(cs), Snap(table);
    StoredChildren(table, c);
    forall i | 0 <= i < |xs| ensures xs[i] in h' && h'[xs[i]].key == cs[i].threadDateKey { assert cs[i] in c.children; }
    LevelSorted(keys, h, h', c.id, k, m, xs);
  }

  /** Sorts below each child in turn. */
  method SortChildren(table: IdTable, container: Container, ghost k: Forest, ghost keys: map<Id, string>)
    returns (ghost m: Forest)
    requires Linked(table) && Stored(table, container)
    requires Level(Snap(table), container.id, k) && KeysAre(Snap(table), keys, {container.id} + Nodes(k))
    modifies table.Values`children, table.Values`threadDateKey
    ensures Linked(table) && SortingLevel(keys, old(Snap(table)), Snap(table), container.id, k, m, |Roots(k)|)
    decreases k, 0
  {
    hide Snap, Linked, Level, KeysAre, SortingLevel, SortedLevel, Stored;
    ghost var h, c, n := Snap(table), container.id, |Roots(k)|;
    StoredChildren(table, container);
    SortingStarts(keys, h, c, k);
    LevelCount(h, c, k);
    m := k;
    for i := 0 to |container.children|
      invariant Linked(table) && SortingLevel(keys, h, Snap(table), c, k, m, i)
    {
      ghost var h1 := Snap(table);
      SortingCount(keys, h, h1, c, k, m, i);
      StoredChildren(table, container);
      ChildAt(table, container, i);
      ChildBefore(keys, h, h1, c, k, m, i);
      ghost var m' := SortContainer(table, container.children[i], RootKids(k, Roots(k)[i]), keys);
      ChildAfter(keys, h, h1, Snap(table), c, k, m, i, m');
      m := ReplaceKids(m, Roots(k)[i], m');
    }
  }

  lemma LevelCount(h: Heap, c: Id, k: Forest)
    requires Level(h, c, k)
    ensures c in h && |h[c].children| == |Roots(k)| && Distinct(k)
  {}

  lemma SortingCount(keys: map<Id, string>, h0: Heap, h: Heap, c: Id, k: Forest, m: Forest, i: nat)
    requires SortingLevel(keys, h0, h, c, k, m, i)
    ensures c in h && h[c].children == Roots(k)
  {}

  /** Sorts the children of a container, and theirs, and bubbles dates up. */
  method SortContainer(table: IdTable, container: Container, ghost k: Forest, ghost keys: map<Id, string>)
    returns (ghost sorted: Forest)
    requires Linked(table) && Stored(table, container)
    requires Level(Snap(table), container.id, k) && KeysAre(Snap(table), keys, {container.id} + Nodes(k))
    modifies table.Values`children, table.Values`threadDateKey
    ensures Linked(table) && SortedLevel(keys, old(Snap(table)), Snap(table), container.id, k, sorted)
    decreases k, 1
  {
    hide Snap, Linked, Level, SortedLevel, SortingLevel;
    ghost var h, c := Snap(table), container.id;
    LevelCount(h, c, k);
    ghost var m := SortChildren(table, container, k, keys);
    StoredAt(table, container);
    var children := SortByKey(container.children);
    sorted := Arrange(m, Names(children));
    BeforeReordering(table, keys, h, container, k, m, children);
    SnapKeys(table);
    assert table[c] in table.Values;
    ReorderChildren(table, container, children);
  }

  /** The containers that are roots and not nuked, in table order. */
  method RootContainers(table: IdTable, order: seq<Id>) returns (roots: seq<Container>)
    requires Linked(table) && forall x <- order :: x in table
    ensures forall c <- roots :: Stored(table, c)
    ensures Names(roots) == LiveRoots(Snap(table), order)
  {
    hide Linked, Snap;
    roots := [];
    for i := 0 to |order|
      invariant forall c <- roots :: Stored(table, c)
      invariant Names(roots) == LiveRoots(Snap(table), order[..i])
    {
      var c := table[order[i]];
      EntryAt(table, order[i]);
      LiveRootsStep(Snap(table), order, i);
      NamesSnoc(roots, c);
      if c.parent == null && !c.isNuked { roots := roots + [c]; }
    }
    assert order[..|order|] == order;
  }

  lemma EntryAt(table: IdTable, x: Id)
    requires Linked(table) && x in table
    ensures Stored(table, table[x]) && table[x].id == x && x in Snap(table) && Snap(table)[x] == CellOf(table[x])
    ensures table[x] in table.Values
  {
    assert LinkedAt(table, x);
  }

  function LiveRoots(h: Heap, order: seq<Id>): seq<Id> {
    if order == [] then []
    else
      var x := order[|order| - 1];
      LiveRoots(h, order[..|order| - 1]) + (if x in h && h[x].parent.None? && !h[x].nuked then [x] else [])
  }

  lemma LiveRootsStep(h: Heap, order: seq<Id>, i: nat)
    requires i < |order|
    ensures LiveRoots(h, order[..i + 1]) ==
            LiveRoots(h, order[..i]) + (if order[i] in h && h[order[i]].parent.None? && !h[order[i]].nuked
              then [order[i]] else [])
  {
    assert order[..i + 1][..i] == order[..i];
  }

  /** Sorts all threads, and the root set by date. */
  method SortThreads(table: IdTable, order: seq<Id>, ghost g: Forest, ghost keys: map<Id, string>)
    returns (roots: seq<Container>, ghost f: Forest)
    requires Linked(table) && Rep(Snap(table), g, None) && Distinct(g) && KeysAre(Snap(table), keys, Nodes(g))
    requires (forall x <- order :: x in table)
    requires multiset(LiveRoots(Snap(table), order)) == multiset(Roots(g))
    modifies table.Values`children, table.Values`threadDateKey
    ensures Linked(table) && SortedThreads(keys, old(Snap(table)), Snap(table), g, f)
    ensures Names(roots) == Roots(f) && forall c <- roots :: Stored(table, c)
  {
    hide Snap, Linked, Stored, Rep, Distinct, KeysAre, SortingThreads, SortedThreads, SortedLevel, Level, LiveRoots;
    ghost var h := Snap(table);
    var rootVec := RootContainers(table, order);
    ghost var xs := Names(rootVec);
    RootSet(h, g, xs);
    ghost var k := Arrange(g, xs);
    ThreadsStart(keys, h, k);
    ghost var m := k;
    for i := 0 to |rootVec|
      invariant Linked(table) && SortingThreads(keys, h, Snap(table), k, m, i)
    {
      ghost var h1 := Snap(table);
      NamesAt(rootVec, i);
      ThreadBefore(keys, h, h1, k, m, i);
      ghost var m' := SortContainer(table, rootVec[i], RootKids(k, Roots(k)[i]), keys);
      ThreadAfter(keys, h, h1, Snap(table), k, m, i, m');
      m := ReplaceKids(m, Roots(k)[i], m');
    }
    roots := SortByKey(rootVec);
    f := Arrange(m, Names(roots));
    RootsInKeyOrder(table, roots);
    ThreadsSorted(keys, h, Snap(table), g, xs, m, Names(roots));
  }

  lemma RootsInKeyOrder(table: IdTable, cs: seq<Container>)
    requires Linked(table) && InOrder(cs) && forall c <- cs :: Stored(table, c)
    ensures InKeyOrder(Snap(table), Names(cs))
  {
    forall i | 0 <= i < |cs| ensures cs[i].id in Snap(table) && Snap(table)[cs[i].id].key == cs[i].threadDateKey {
      StoredChildren(table, cs[i]);
    }
  }
}
