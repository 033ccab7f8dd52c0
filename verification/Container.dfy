/** The containers of the threader, and the building of the id-table from query
    results. */
module Containers {
  import opened Wrappers
  import opened Forests
  import opened IdTableSpec
  import opened ThreadHeap

  class Container {
    /** The key of this container in the id-table. */
    ghost const id: Id

    var threadDateKey: string
    var queryMatch: QueryMatch?
    var isNuked: bool
    var parent: Container?
    var children: seq<Container>

    constructor (ghost id: Id, queryMatch: QueryMatch?)
      ensures this.id == id && this.queryMatch == queryMatch
      ensures threadDateKey == "" && !isNuked && parent == null && children == []
    {
      this.id, this.queryMatch := id, queryMatch;
      threadDateKey, isNuked, parent, children := "", false, null, [];
    }

    method AddChild(newChild: Container)
      modifies this`children, newChild`parent
      ensures newChild.parent == this && children == old(children) + [newChild]
    {
      newChild.parent := this;
      children := children + [newChild];
    }

    /** Erases the first occurrence of child. */
    method RemoveChild(child: Container)
      requires child in children
      modifies this`children
      ensures children == WithoutFirst(old(children), child)
    {
      var i := 0;
      while children[i] != child
        invariant 0 <= i < |children| && child !in children[..i]
        decreases |children| - i
      {
        assert children[..i + 1] == children[..i] + [children[i]];
        assert child in children[i + 1..];
        i := i + 1;
      }
      WithoutFirstAt(children, child, i);
      children := children[..i] + children[i + 1..];
    }

    /** The root of the tree that holds this container. */
    method UrParent(ghost table: IdTable, ghost f: Forest) returns (r: Container)
      requires Linked(table) && Holds(Snap(table), f) && Stored(table, this)
      ensures r.id == RootOf(f, id) && Stored(table, r)
      decreases Depth(f, id)
    {
      assert LinkedAt(table, id);
      RepCell(Snap(table), f, None, id);
      ParentOfRoot(f, id);
      if parent != null {
        ParentIsNearer(f, id, None);
        r := parent.UrParent(table, f);
      } else {
        r := this;
      }
    }

    method IsReachable(other: Container, ghost table: IdTable, ghost f: Forest) returns (b: bool)
      requires Linked(table) && Holds(Snap(table), f) && Stored(table, this)
      requires Stored(table, other)
      ensures b <==> RootOf(f, id) == RootOf(f, other.id)
    {
      var up := UrParent(table, f);
      var otherUp := other.UrParent(table, f);
      b := up == otherUp;
    }
  }

  type IdTable = map<Id, Container>

  ghost function WithoutFirst(cs: seq<Container>, c: Container): seq<Container> {
    if cs == [] then [] else if cs[0] == c then cs[1..] else [cs[0]] + WithoutFirst(cs[1..], c)
  }

  lemma {:induction false} WithoutFirstAt(cs: seq<Container>, c: Container, i: nat)
    requires i < |cs| && cs[i] == c && c !in cs[..i]
    ensures WithoutFirst(cs, c) == cs[..i] + cs[i + 1..]
  {
    if i > 0 {
      assert cs[0] == cs[..i][0] && cs[..i][1..] == cs[1..][..i - 1];
      WithoutFirstAt(cs[1..], c, i - 1);
    }
  }

  // The table as a value

  /** Containers are stored under their id, and point only into the table. */
  ghost predicate Linked(table: IdTable)
    reads table.Values
  {
    forall x {:trigger LinkedAt(table, x)} :: x in table ==> LinkedAt(table, x)
  }

  ghost predicate LinkedAt(table: IdTable, x: Id)
    requires x in table
    reads table.Values
  {
    && table[x].id == x
    && (table[x].parent != null ==> Stored(table, table[x].parent))
    && (forall i :: 0 <= i < |table[x].children| ==> Stored(table, table[x].children[i]))
  }

  /** Every container of table is still there. */
  ghost predicate Keeps(table: IdTable, table': IdTable) {
    forall x <- table :: x in table' && table'[x] == table[x]
  }

  ghost predicate Stored(table: IdTable, c: Container) { c.id in table && table[c.id] == c }

  ghost function Names(cs: seq<Container>): (r: seq<Id>)
    ensures |r| == |cs|
  {
    seq(|cs|, i requires 0 <= i < |cs| => cs[i].id)
  }

  lemma NamesSnoc(cs: seq<Container>, c: Container)
    ensures Names(cs + [c]) == Names(cs) + [c.id]
  {}

  ghost function CellOf(c: Container): Cell
    reads c
  {
    Cell(if c.parent == null then None else Some(c.parent.id), Names(c.children), c.isNuked,
         c.threadDateKey, c.queryMatch)
  }

  ghost function Snap(table: IdTable): Heap
    reads table.Values
  {
    map x | x in table :: CellOf(table[x])
  }

  lemma StoredAt(table: IdTable, c: Container)
    requires Stored(table, c)
    ensures c.id in table && table[c.id] == c
  {}

  lemma SnapKeys(table: IdTable)
    ensures Snap(table).Keys == table.Keys
  {}

  lemma SnapIs(table: IdTable, h: Heap)
    requires h.Keys == table.Keys && forall x <- table :: CellOf(table[x]) == h[x]
    ensures Snap(table) == h
  {}

  lemma ChildAt(table: IdTable, c: Container, i: nat)
    requires Linked(table) && Stored(table, c) && i < |c.children|
    ensures Stored(table, c.children[i]) && c.id in Snap(table) && |Snap(table)[c.id].children| == |c.children|
    ensures Snap(table)[c.id].children[i] == c.children[i].id
  {
    assert LinkedAt(table, c.id);
    assert Stored(table, table[c.id].children[i]);
  }

  // Building

  /** The container for x, made on the spot if there is none. */
  method FindOrCreate(table: IdTable, x: Id) returns (table': IdTable, c: Container)
    requires Linked(table)
    ensures Linked(table') && Stored(table', c) && c.id == x
    ensures Snap(table') == EnsureCell(Snap(table), x)
    ensures if x in table then table' == table else table' == table[x := c] && fresh(c)
  {
    if x in table {
      assert LinkedAt(table, x);
      table', c := table, table[x];
    } else {
      c := new Container(x, null);
      table' := table[x := c];
      forall y | y in table' ensures LinkedAt(table', y) { assert y in table ==> LinkedAt(table, y); }
    }
  }

  /** Hangs c below p. */
  method Hang(table: IdTable, p: Container, c: Container)
    requires Linked(table) && Stored(table, p) && Stored(table, c)
    modifies p`children, c`parent
    ensures Linked(table)
    ensures Snap(table) == AddChild(old(Snap(table)), p.id, c.id)
  {
    assert table[p.id] == p && table[c.id] == c;
    hide Stored;
    ghost var h := AddChild(Snap(table), p.id, c.id);
    p.AddChild(c);
    forall x | x in table ensures LinkedAt(table, x) { assert old(LinkedAt(table, x)); }
    forall x | x in table ensures CellOf(table[x]) == h[x] {
      assert x != p.id ==> table[x] != p;
      assert x != c.id ==> table[x] != c;
    }
    SnapIs(table, h);
  }

  /** Hangs c below p, unless c hangs already or the link would close a loop. */
  method LinkUnlessLoop(table: IdTable, p: Container, c: Container, ghost f: Forest)
    requires Linked(table) && Holds(Snap(table), f) && Stored(table, p) && Stored(table, c)
    modifies p`children, c`parent
    ensures Linked(table)
    ensures Snap(table) == var h := old(Snap(table)); if CanLink(f, p.id, c.id) then AddChild(h, p.id, c.id) else h
  {
    CanLinkCell(Snap(table), f, p.id, c.id);
    if c.parent == null {
      var loop := p.IsReachable(c, table, f);
      if !loop { Hang(table, p, c); }
    }
  }

  ghost function IdOf(c: Container?): Option<Id> { if c == null then None else Some(c.id) }

  /** One reference: its container, hung below the previous one. */
  method FollowReference(table: IdTable, prev: Container?, ref: Id, ghost f: Forest)
    returns (table': IdTable, c: Container)
    requires Linked(table) && Holds(Snap(table), f) && (prev != null ==> Stored(table, prev))
    modifies table.Values`children, table.Values`parent
    ensures Linked(table') && Stored(table', c) && c.id == ref
    ensures Snap(table') == AddReference(old(Snap(table)), f, IdOf(prev), ref)
    ensures Keeps(table, table') && forall x <- table' :: x !in table ==> fresh(table'[x])
  {
    hide Linked, Holds, Snap, Ensure, CanLink, AddChild;
    EnsureHolds(Snap(table), f, ref);
    table', c := FindOrCreate(table, ref);
    if prev != null {
      assert table[prev.id] in table.Values && (ref in table ==> table[ref] in table.Values);
      LinkUnlessLoop(table', prev, c, Ensure(f, ref));
    }
  }

  /** Walks a References chain, linking each container below its predecessor;
      returns the last one. */
  method LinkReferences(table: IdTable, refs: seq<Id>, ghost f: Forest)
    returns (table': IdTable, parentRef: Container?)
    requires Linked(table) && Holds(Snap(table), f)
    modifies table.Values`children, table.Values`parent
    ensures Linked(table') && Snap(table') == AddReferences(old(Snap(table)), f, None, refs)
    ensures parentRef == null <==> refs == []
    ensures parentRef != null ==> Stored(table', parentRef) && parentRef.id == refs[|refs| - 1]
    ensures Keeps(table, table') && forall x <- table' :: x !in table ==> fresh(table'[x])
  {
    hide Linked, Holds, Snap, Connect, AddReference, AddReferences;
    assert refs[0..] == refs && refs[|refs|..] == [];
    table', parentRef := table, null;
    SnapKeys(table);
    ghost var g := f;
    for i := 0 to |refs|
      invariant Linked(table') && Holds(Snap(table'), g) && Snap(table').Keys == table'.Keys
      invariant parentRef == null <==> i == 0
      invariant parentRef != null ==> Stored(table', parentRef) && parentRef.id == refs[i - 1]
      invariant Keeps(table, table') && forall x <- table' :: x !in table ==> fresh(table'[x])
      invariant AddReferences(Snap(table'), g, IdOf(parentRef), refs[i..]) ==
               AddReferences(old(Snap(table)), f, None, refs)
    {
      ghost var prev := IdOf(parentRef);
      HoldsNodes(Snap(table'), g);
      ReferencesStep(Snap(table'), g, prev, refs, i);
      table', parentRef := FollowReference(table', parentRef, refs[i], g);
      g := Connect(g, prev, refs[i]);
      SnapKeys(table');
    }
    NoMoreReferences(Snap(table'), g, IdOf(parentRef));
  }

  lemma HoldsNodes(h: Heap, f: Forest)
    requires Holds(h, f)
    ensures h.Keys == Nodes(f)
  {}

  lemma NoMoreReferences(h: Heap, f: Forest, prev: Option<Id>)
    requires Holds(h, f) && (prev.Some? ==> prev.value in h)
    ensures AddReferences(h, f, prev, []) == h
  {}

  lemma ReferencesStep(h: Heap, f: Forest, prev: Option<Id>, refs: seq<Id>, i: nat)
    requires Holds(h, f) && (prev.Some? ==> prev.value in h) && i < |refs|
    ensures Holds(AddReference(h, f, prev, refs[i]), Connect(f, prev, refs[i]))
    ensures AddReferences(h, f, prev, refs[i..]) ==
            AddReferences(AddReference(h, f, prev, refs[i]), Connect(f, prev, refs[i]), Some(refs[i]), refs[i + 1..])
  {
    ReferenceHolds(h, f, prev, refs[i]);
    assert refs[i..][0] == refs[i] && refs[i..][1..] == refs[i + 1..];
  }
}
