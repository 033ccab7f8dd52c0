/** Thread forests as values.

    A forest is a list of sibling trees: the first tree is a root with its
    children, `rest` holds the siblings that follow.  Containers are named by
    the message-id under which the id-table stores them. */
module Forests {
  import opened Wrappers

  type Id = string

  datatype Forest = Nil | Tree(root: Id, kids: Forest, rest: Forest)

  function Nodes(f: Forest): set<Id> {
    match f
    case Nil => {}
    case Tree(c, k, s) => {c} + Nodes(k) + Nodes(s)
  }

  /** The roots, in sibling order. */
  function Roots(f: Forest): (r: seq<Id>)
    ensures forall x :: x in r ==> x in Nodes(f)
  {
    match f
    case Nil => []
    case Tree(c, _, s) => [c] + Roots(s)
  }

  /** No id occurs twice. */
  predicate Distinct(f: Forest) {
    match f
    case Nil => true
    case Tree(c, k, s) =>
      && c !in Nodes(k) && c !in Nodes(s) && Nodes(k) !! Nodes(s)
      && Distinct(k) && Distinct(s)
  }

  function Append(f: Forest, g: Forest): (r: Forest)
    ensures Nodes(r) == Nodes(f) + Nodes(g)
    ensures Roots(r) == Roots(f) + Roots(g)
    ensures Distinct(r) <==> Distinct(f) && Distinct(g) && Nodes(f) !! Nodes(g)
  {
    match f
    case Nil => g
    case Tree(c, k, s) => Tree(c, k, Append(s, g))
  }

  /** a is a proper ancestor of b. */
  predicate Above(f: Forest, a: Id, b: Id) {
    match f
    case Nil => false
    case Tree(c, k, s) => (a == c && b in Nodes(k)) || Above(k, a, b) || Above(s, a, b)
  }

  /** a and b hang under the same root. */
  predicate SameTree(f: Forest, a: Id, b: Id) {
    match f
    case Nil => false
    case Tree(c, k, s) => (a in {c} + Nodes(k) && b in {c} + Nodes(k)) || SameTree(s, a, b)
  }

  /** The parent of x, where the roots of f have parent p. */
  function ParentIn(f: Forest, x: Id, p: Option<Id>): Option<Id> {
    match f
    case Nil => None
    case Tree(c, k, s) =>
      if x == c then p
      else if x in Nodes(k) then ParentIn(k, x, Some(c))
      else ParentIn(s, x, p)
  }

  /** The root of the tree that holds x. */
  function RootOf(f: Forest, x: Id): (r: Id)
    requires x in Nodes(f)
    ensures r in Roots(f)
  {
    if x == f.root || x in Nodes(f.kids) then f.root else RootOf(f.rest, x)
  }

  /** How far below its root x is. */
  function Depth(f: Forest, x: Id): nat {
    match f
    case Nil => 0
    case Tree(c, k, s) =>
      if x == c then 0 else if x in Nodes(k) then 1 + Depth(k, x) else Depth(s, x)
  }

  /** The children of x, as a forest. */
  function KidsOf(f: Forest, x: Id): (k: Forest)
    ensures Nodes(k) <= Nodes(f)
    ensures Distinct(f) ==> Distinct(k) && x !in Nodes(k)
  {
    match f
    case Nil => Nil
    case Tree(c, k, s) =>
      if x == c then k else if x in Nodes(k) then KidsOf(k, x) else KidsOf(s, x)
  }

  /** The children of the root x. */
  function RootKids(f: Forest, x: Id): Forest {
    match f
    case Nil => Nil
    case Tree(c, k, s) => if x == c then k else RootKids(s, x)
  }

  /** f without the root x and everything under it. */
  function Detach(f: Forest, x: Id): (r: Forest)
    ensures Nodes(r) <= Nodes(f)
  {
    match f
    case Nil => Nil
    case Tree(c, k, s) => if x == c then s else Tree(c, k, Detach(s, x))
  }

  /** f with the forest g added behind the children of p. */
  function Insert(f: Forest, p: Id, g: Forest): (r: Forest) {
    match f
    case Nil => Nil
    case Tree(c, k, s) =>
      if p == c then Tree(c, Append(k, g), s)
      else Tree(c, Insert(k, p, g), Insert(s, p, g))
  }

  lemma RootsAreDistinct(f: Forest, i: nat, j: nat)
    requires Distinct(f) && i < j < |Roots(f)|
    ensures Roots(f)[i] != Roots(f)[j]
  {
    if i > 0 { RootsAreDistinct(f.rest, i - 1, j - 1); }
    else { assert Roots(f)[j] == Roots(f.rest)[j - 1]; }
  }

  lemma {:induction false} DetachSplits(f: Forest, x: Id)
    requires Distinct(f) && x in Roots(f)
    ensures Distinct(Detach(f, x)) && Distinct(RootKids(f, x))
    ensures Nodes(f) == {x} + Nodes(RootKids(f, x)) + Nodes(Detach(f, x))
    ensures x !in Nodes(Detach(f, x)) && x !in Nodes(RootKids(f, x)) && Nodes(RootKids(f, x)) !! Nodes(Detach(f, x))
  {
    if f.root != x { DetachSplits(f.rest, x); }
  }

  lemma InsertNodes(f: Forest, p: Id, g: Forest)
    requires Distinct(f) && Distinct(g) && Nodes(f) !! Nodes(g)
    ensures Nodes(Insert(f, p, g)) == if p in Nodes(f) then Nodes(f) + Nodes(g) else Nodes(f)
    ensures Distinct(Insert(f, p, g))
    ensures Roots(Insert(f, p, g)) == Roots(f)
    ensures p !in Nodes(f) ==> Insert(f, p, g) == f
  {}

  lemma SameTreeIsSameRoot(f: Forest, a: Id, b: Id)
    requires Distinct(f) && a in Nodes(f) && b in Nodes(f)
    ensures SameTree(f, a, b) <==> RootOf(f, a) == RootOf(f, b)
  {
    match f
    case Tree(c, k, s) =>
      if a in Nodes(s) && b in Nodes(s) { SameTreeIsSameRoot(s, a, b); }
      else { SameTreeNodes(s, a, b); }
  }

  lemma {:induction false} SameTreeNodes(f: Forest, a: Id, b: Id)
    ensures SameTree(f, a, b) ==> a in Nodes(f) && b in Nodes(f)
  {
    if f.Tree? { SameTreeNodes(f.rest, a, b); }
  }

  lemma {:induction false} AboveNodes(f: Forest, a: Id, b: Id)
    ensures Above(f, a, b) ==> a in Nodes(f) && b in Nodes(f)
  {
    if f.Tree? { AboveNodes(f.kids, a, b); AboveNodes(f.rest, a, b); }
  }

  lemma ParentOfRoot(f: Forest, x: Id)
    requires Distinct(f) && x in Nodes(f)
    ensures ParentIn(f, x, None).None? <==> x in Roots(f)
    ensures x in Roots(f) ==> RootOf(f, x) == x
  {
    match f
    case Tree(c, k, s) =>
      if x in Nodes(k) { ParentBelowSome(k, x, c); }
      else if x in Nodes(s) { ParentOfRoot(s, x); }
  }

  lemma {:induction false} ParentBelowSome(f: Forest, x: Id, p: Id)
    requires x in Nodes(f)
    ensures ParentIn(f, x, Some(p)).Some?
    ensures ParentIn(f, x, Some(p)).value in Nodes(f) + {p}
  {
    match f
    case Tree(c, k, s) =>
      if x == c {}
      else if x in Nodes(k) { ParentBelowSome(k, x, c); }
      else { ParentBelowSome(s, x, p); }
  }

  lemma AboveAppend(f: Forest, g: Forest, a: Id, b: Id)
    ensures Above(Append(f, g), a, b) <==> Above(f, a, b) || Above(g, a, b)
  {}

  lemma {:induction false} SameTreeAppend(f: Forest, g: Forest, a: Id, b: Id)
    ensures SameTree(Append(f, g), a, b) <==> SameTree(f, a, b) || SameTree(g, a, b)
  {
    if f.Tree? { SameTreeAppend(f.rest, g, a, b); }
  }

  lemma DetachAbove(f: Forest, x: Id, a: Id, b: Id)
    requires Distinct(f) && x in Roots(f)
    ensures Above(f, a, b) <==>
            Above(Detach(f, x), a, b) || (a == x && b in Nodes(RootKids(f, x))) || Above(RootKids(f, x), a, b)
  {
    if f.root != x { DetachAbove(f.rest, x, a, b); }
  }
}
