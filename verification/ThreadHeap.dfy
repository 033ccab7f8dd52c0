/** Container heaps, seen as maps from ids to cells, and the forests they hold. */
module ThreadHeap {
  import opened Wrappers
  import opened Forests
  import opened IdTableSpec

  /** What the threader adds to a match. */
  class QueryMatch {
    var threadPath: string
    var threadLevel: nat
    var threadDate: string

    constructor ()
      ensures threadPath == "" && threadLevel == 0 && threadDate == ""
    {
      threadPath, threadLevel, threadDate := "", 0, "";
    }
  }

  /** A container: its links, its date key and the match it holds, if any. */
  datatype Cell = Cell(parent: Option<Id>, children: seq<Id>, nuked: bool, key: string, stored: QueryMatch?)

  const BLANK := Cell(None, [], false, "", null)

  type Heap = map<Id, Cell>

  /** The live containers of h are laid out as f, below the parent p. */
  predicate Rep(h: Heap, f: Forest, p: Option<Id>) {
    match f
    case Nil => true
    case Tree(c, k, s) =>
      && c in h && h[c].parent == p && h[c].children == Roots(k) && !h[c].nuked
      && Rep(h, k, Some(c)) && Rep(h, s, p)
  }

  predicate SameLinks(a: Cell, b: Cell) {
    a.parent == b.parent && a.children == b.children && a.nuked == b.nuked
  }

  lemma RepNodes(h: Heap, f: Forest, p: Option<Id>)
    requires Rep(h, f, p)
    ensures Nodes(f) <= h.Keys
  {}

  lemma {:induction false} RepFrame(h: Heap, h': Heap, f: Forest, p: Option<Id>)
    requires Rep(h, f, p)
    requires forall x <- Nodes(f) :: x in h ==> x in h' && SameLinks(h[x], h'[x])
    ensures Rep(h', f, p)
  {
    if f.Tree? {
      RepFrame(h, h', f.kids, Some(f.root));
      RepFrame(h, h', f.rest, p);
    }
  }

  lemma RepAppend(h: Heap, f: Forest, g: Forest, p: Option<Id>)
    ensures Rep(h, Append(f, g), p) <==> Rep(h, f, p) && Rep(h, g, p)
  {}

  /** What the cell of x holds. */
  lemma {:induction false} RepCell(h: Heap, f: Forest, p: Option<Id>, x: Id)
    requires Rep(h, f, p) && Distinct(f) && x in Nodes(f)
    ensures x in h && h[x].parent == ParentIn(f, x, p) && h[x].children == Roots(KidsOf(f, x)) && !h[x].nuked
    ensures Rep(h, KidsOf(f, x), Some(x))
  {
    var Tree(c, k, s) := f;
    if x == c {}
    else if x in Nodes(k) { RepCell(h, k, Some(c), x); }
    else { RepCell(h, s, p, x); }
  }

  lemma {:induction false} RepDetach(h: Heap, f: Forest, p: Option<Id>, x: Id)
    requires Rep(h, f, p) && x in Roots(f)
    ensures Rep(h, Detach(f, x), p)
  {
    if f.root != x { RepDetach(h, f.rest, p, x); }
  }

  lemma {:induction false} RootKidsRep(h: Heap, f: Forest, p: Option<Id>, x: Id)
    requires Rep(h, f, p) && x in Roots(f)
    ensures Rep(h, RootKids(f, x), Some(x))
    ensures x in h && h[x].parent == p && h[x].children == Roots(RootKids(f, x)) && !h[x].nuked
  {
    if f.root != x { RootKidsRep(h, f.rest, p, x); }
  }

  lemma {:induction false} ParentIsNearer(f: Forest, x: Id, p: Option<Id>)
    requires Distinct(f) && x in Nodes(f) && x !in Roots(f)
    requires p.Some? ==> p.value !in Nodes(f)
    ensures var y := ParentIn(f, x, p);
            && y.Some? && y.value in Nodes(f)
            && Depth(f, y.value) < Depth(f, x) && RootOf(f, y.value) == RootOf(f, x)
  {
    var Tree(c, k, s) := f;
    if x in Nodes(k) {
      if x in Roots(k) { ParentOfARoot(k, x, Some(c)); }
      else { ParentIsNearer(k, x, Some(c)); }
    } else {
      ParentIsNearer(s, x, p);
    }
  }

  lemma ParentOfARoot(f: Forest, x: Id, p: Option<Id>)
    requires Distinct(f) && x in Roots(f)
    ensures ParentIn(f, x, p) == p
  {}

  // Adding a child

  function AddChild(h: Heap, p: Id, c: Id): Heap
    requires p in h && c in h
  {
    var h1 := h[c := h[c].(parent := Some(p))];
    h1[p := h1[p].(children := h1[p].children + [c])]
  }

  lemma {:induction false} RepInsert(h: Heap, h': Heap, f: Forest, up: Option<Id>, p: Id, g: Forest)
    requires Rep(h, f, up) && Rep(h', g, Some(p))
    requires Distinct(f) && Distinct(g) && Nodes(f) !! Nodes(g)
    requires forall x <- Nodes(f) :: x in h ==>
               x in h' && h'[x] == if x == p then h[x].(children := h[x].children + Roots(g)) else h[x]
    ensures Rep(h', Insert(f, p, g), up)
  {
    if f.Tree? {
      var Tree(c, k, s) := f;
      InsertNodes(k, p, g);
      RepInsert(h, h', s, up, p, g);
      if c == p {
        RepFrame(h, h', k, Some(c));
        RepAppend(h', k, g, Some(c));
        InsertNodes(s, p, g);
      } else {
        RepInsert(h, h', k, Some(c), p, g);
      }
    }
  }

  lemma AddChildAt(h: Heap, p: Id, c: Id)
    requires p in h && c in h && p != c
    ensures AddChild(h, p, c).Keys == h.Keys
    ensures forall y <- h :: AddChild(h, p, c)[y] == if y == p then h[y].(children := h[y].children + [c])
                                                   else if y == c then h[y].(parent := Some(p)) else h[y]
  {}

  lemma RepNode(h: Heap, x: Id, k: Forest, p: Option<Id>)
    requires x in h && h[x].parent == p && h[x].children == Roots(k) && !h[x].nuked && Rep(h, k, Some(x))
    ensures Rep(h, Tree(x, k, Nil), p)
  {}

  lemma NodeOf(x: Id, k: Forest)
    requires Distinct(k) && x !in Nodes(k)
    ensures Nodes(Tree(x, k, Nil)) == {x} + Nodes(k) && Distinct(Tree(x, k, Nil)) && Roots(Tree(x, k, Nil)) == [x]
  {}

  lemma LinkRep(h: Heap, f: Forest, p: Id, x: Id)
    requires Rep(h, f, None) && Distinct(f) && p in Nodes(f) && CanLink(f, p, x)
    ensures p in h && x in h
    ensures Rep(AddChild(h, p, x), Link(f, p, x), None)
  {
    hide Insert, Detach, RootKids, RootOf, AddChild, Rep, Nodes, Distinct, Roots;
    RepNodes(h, f, None);
    RootKidsRep(h, f, None, x);
    var h', kids, others := AddChild(h, p, x), RootKids(f, x), Detach(f, x);
    DetachSplits(f, x);
    UnderRoot(f, x, p);
    AddChildAt(h, p, x);
    RepDetach(h, f, None, x);
    NodeOf(x, kids);
    RepFrame(h, h', kids, Some(x));
    RepNode(h', x, kids, Some(p));
    RepInsert(h, h', others, None, p, Tree(x, kids, Nil));
  }

  /** h is exactly the forest f. */
  predicate Holds(h: Heap, f: Forest) { Distinct(f) && h.Keys == Nodes(f) && Rep(h, f, None) }

  // Walking a References chain

  function EnsureCell(h: Heap, x: Id): Heap { if x in h then h else h[x := BLANK] }

  /** One reference: its container, hung below the previous one if f allows it. */
  function AddReference(h: Heap, f: Forest, prev: Option<Id>, x: Id): Heap
    requires h.Keys == Nodes(f) && (prev.Some? ==> prev.value in h)
  {
    var h1 := EnsureCell(h, x);
    if prev.Some? && CanLink(Ensure(f, x), prev.value, x) then AddChild(h1, prev.value, x) else h1
  }

  function AddReferences(h: Heap, f: Forest, prev: Option<Id>, ids: seq<Id>): Heap
    requires Holds(h, f) && (prev.Some? ==> prev.value in h)
    decreases |ids|
  {
    if ids == [] then h
    else
      ReferenceHolds(h, f, prev, ids[0]);
      AddReferences(AddReference(h, f, prev, ids[0]), Connect(f, prev, ids[0]), Some(ids[0]), ids[1..])
  }

  lemma EnsureHolds(h: Heap, f: Forest, x: Id)
    requires Holds(h, f)
    ensures Holds(EnsureCell(h, x), Ensure(f, x))
  {
    if x !in h { RepFrame(h, h[x := BLANK], f, None); }
  }

  lemma ReferenceHolds(h: Heap, f: Forest, prev: Option<Id>, x: Id)
    requires Holds(h, f) && (prev.Some? ==> prev.value in h)
    ensures Holds(AddReference(h, f, prev, x), Connect(f, prev, x))
    ensures x in AddReference(h, f, prev, x)
  {
    EnsureHolds(h, f, x);
    var g := Ensure(f, x);
    if prev.Some? && CanLink(g, prev.value, x) {
      LinkKeepsForest(g, prev.value, x);
      LinkRep(EnsureCell(h, x), g, prev.value, x);
    }
  }

  /** The key and match of x; blank where there is no such container. */
  function Content(h: Heap, x: Id): (string, QueryMatch?) {
    if x in h then (h[x].key, h[x].stored) else ("", null)
  }

  /** Old containers keep their contents, new ones are empty. */
  ghost predicate SameContents(h: Heap, h': Heap) {
    h.Keys <= h'.Keys && forall x :: Content(h', x) == Content(h, x)
  }

  lemma EnsureKeepsContents(h: Heap, x: Id)
    ensures SameContents(h, EnsureCell(h, x))
  {}

  lemma ReferenceKeepsContents(h: Heap, f: Forest, prev: Option<Id>, x: Id)
    requires h.Keys == Nodes(f) && (prev.Some? ==> prev.value in h)
    ensures SameContents(h, AddReference(h, f, prev, x))
  {
    var h1, h2 := EnsureCell(h, x), AddReference(h, f, prev, x);
    EnsureKeepsContents(h, x);
    forall y ensures Content(h2, y) == Content(h1, y) {}
  }

  lemma {:induction false} ReferencesHold(h: Heap, f: Forest, prev: Option<Id>, ids: seq<Id>)
    requires Holds(h, f) && (prev.Some? ==> prev.value in h)
    ensures Holds(AddReferences(h, f, prev, ids), Chain(f, prev, ids))
    ensures SameContents(h, AddReferences(h, f, prev, ids))
    decreases |ids|
  {
    if ids != [] {
      ReferenceHolds(h, f, prev, ids[0]);
      ReferenceKeepsContents(h, f, prev, ids[0]);
      ReferencesHold(AddReference(h, f, prev, ids[0]), Connect(f, prev, ids[0]), Some(ids[0]), ids[1..]);
    }
  }

  /** Whether a container without parent may be hung below p. */
  lemma CanLinkCell(h: Heap, f: Forest, p: Id, x: Id)
    requires Holds(h, f) && p in h && x in h
    ensures CanLink(f, p, x) <==> h[x].parent == None && RootOf(f, p) != RootOf(f, x)
  {
    RepCell(h, f, None, x);
    ParentOfRoot(f, x);
  }
}
