/** Pruning empty containers, as a function on forests, and what it preserves.
    `full` is the set of containers that hold a message. */
module Pruning {
  import opened Forests

  // The children of one container, after pruning

  /** The trees of f that stay in place. */
  function Kept(f: Forest, full: set<Id>): Forest
    decreases f, 0
  {
    match f
    case Nil => Nil
    case Tree(c, k, s) =>
      if c in full then Tree(c, PruneLevel(k, full), Kept(s, full)) else Kept(s, full)
  }

  /** The trees that move up: the last empty sibling's children come first. */
  function Promoted(f: Forest, full: set<Id>): Forest
    decreases f, 0
  {
    match f
    case Nil => Nil
    case Tree(c, k, s) =>
      if c in full then Promoted(s, full) else Append(Promoted(s, full), PruneLevel(k, full))
  }

  function PruneLevel(f: Forest, full: set<Id>): Forest
    decreases f, 1
  {
    Append(Kept(f, full), Promoted(f, full))
  }

  // The root set

  predicate Dissolves(c: Id, pruned: Forest, full: set<Id>) {
    c !in full && |Roots(pruned)| <= 1
  }

  /** What a root with the children k is replaced by. */
  function PruneRoot(c: Id, k: Forest, full: set<Id>): Forest {
    var p := PruneLevel(k, full);
    if Dissolves(c, p, full) then p else Tree(c, p, Nil)
  }

  function PruneTop(f: Forest, full: set<Id>): Forest {
    match f
    case Nil => Nil
    case Tree(c, k, s) => Append(PruneRoot(c, k, full), PruneTop(s, full))
  }

  // What pruning keeps

  /** Below a container, exactly the messages are left. */
  lemma {:induction false} PruneLevelNodes(f: Forest, full: set<Id>)
    ensures Nodes(PruneLevel(f, full)) == Nodes(f) * full
    decreases f, 1
  {
    KeptAndPromotedNodes(f, full);
  }

  lemma {:induction false} KeptAndPromotedNodes(f: Forest, full: set<Id>)
    ensures Nodes(Kept(f, full)) + Nodes(Promoted(f, full)) == Nodes(f) * full
    decreases f, 0
  {
    match f
    case Nil =>
    case Tree(c, k, s) =>
      PruneLevelNodes(k, full);
      KeptAndPromotedNodes(s, full);
      Shares(c, Nodes(k), Nodes(s), Nodes(PruneLevel(k, full)), Nodes(Kept(s, full)), Nodes(Promoted(s, full)), full);
      if c in full { assert Promoted(f, full) == Promoted(s, full); }
      else { assert Kept(f, full) == Kept(s, full); }
  }

  lemma Shares(c: Id, k: set<Id>, s: set<Id>, l: set<Id>, a: set<Id>, b: set<Id>, full: set<Id>)
    requires l == k * full && a + b == s * full
    ensures (if c in full then {c} + l + a + b else a + (b + l)) == ({c} + k + s) * full
  {
    assert {c} * full == if c in full then {c} else {};
    assert ({c} + k + s) * full == {c} * full + k * full + s * full;
  }

  lemma {:induction false} PruneLevelDistinct(f: Forest, full: set<Id>)
    requires Distinct(f)
    ensures Distinct(PruneLevel(f, full))
    decreases f, 1
  {
    KeptAndPromotedDistinct(f, full);
  }

  lemma {:induction false} KeptAndPromotedDistinct(f: Forest, full: set<Id>)
    requires Distinct(f)
    ensures Nodes(Kept(f, full)) !! Nodes(Promoted(f, full))
    ensures Distinct(Kept(f, full)) && Distinct(Promoted(f, full))
    decreases f, 0
  {
    match f
    case Nil =>
    case Tree(c, k, s) =>
      PruneLevelNodes(k, full);
      PruneLevelDistinct(k, full);
      KeptAndPromotedNodes(s, full);
      KeptAndPromotedDistinct(s, full);
  }

  /** They keep their order of descent. */
  lemma {:induction false} PruneLevelAbove(f: Forest, full: set<Id>, a: Id, b: Id)
    requires Distinct(f)
    ensures Above(PruneLevel(f, full), a, b) <==> Above(f, a, b) && a in full && b in full
    decreases f, 1
  {
    KeptAndPromotedAbove(f, full, a, b);
    AboveAppend(Kept(f, full), Promoted(f, full), a, b);
  }

  lemma {:induction false} KeptAndPromotedAbove(f: Forest, full: set<Id>, a: Id, b: Id)
    requires Distinct(f)
    ensures Above(Kept(f, full), a, b) || Above(Promoted(f, full), a, b)
            <==> Above(f, a, b) && a in full && b in full
    decreases f, 0
  {
    match f
    case Nil =>
    case Tree(c, k, s) =>
      PruneLevelNodes(k, full);
      PruneLevelAbove(k, full, a, b);
      KeptAndPromotedAbove(s, full, a, b);
      AboveAppend(Promoted(s, full), PruneLevel(k, full), a, b);
      AboveNodes(k, a, b);
  }

  /** An empty container is left only as a root with two or more children. */
  predicate EmptiesAreBranchingRoots(f: Forest, full: set<Id>) {
    match f
    case Nil => true
    case Tree(c, k, s) =>
      (c in full || |Roots(k)| >= 2) && Nodes(k) <= full && EmptiesAreBranchingRoots(s, full)
  }

  lemma {:induction false} EmptiesAppend(f: Forest, g: Forest, full: set<Id>)
    ensures EmptiesAreBranchingRoots(Append(f, g), full) <==>
            EmptiesAreBranchingRoots(f, full) && EmptiesAreBranchingRoots(g, full)
  {
    if f.Tree? { EmptiesAppend(f.rest, g, full); }
  }

  lemma FullIsBranching(f: Forest, full: set<Id>)
    requires Nodes(f) <= full
    ensures EmptiesAreBranchingRoots(f, full)
  {}

  lemma SingleTree(f: Forest, a: Id, b: Id)
    requires |Roots(f)| <= 1
    ensures SameTree(f, a, b) <==> a in Nodes(f) && b in Nodes(f)
  {
    if f.Tree? { assert Roots(f.rest) == []; assert f.rest == Nil; }
  }

  lemma {:induction false} PruneRootKeeps(c: Id, k: Forest, full: set<Id>, a: Id, b: Id)
    requires Distinct(Tree(c, k, Nil))
    ensures var r := PruneRoot(c, k, full);
            && Distinct(r)
            && (Nodes(k) + {c}) * full <= Nodes(r) <= Nodes(k) + {c}
            && EmptiesAreBranchingRoots(r, full)
            && (a in full && b in full ==>
                (Above(r, a, b) <==> Above(Tree(c, k, Nil), a, b))
                && (SameTree(r, a, b) <==> SameTree(Tree(c, k, Nil), a, b)))
  {
    PruneLevelNodes(k, full);
    PruneLevelDistinct(k, full);
    PruneLevelAbove(k, full, a, b);
    FullIsBranching(PruneLevel(k, full), full);
    if Dissolves(c, PruneLevel(k, full), full) { SingleTree(PruneLevel(k, full), a, b); }
  }

  /** Pruning loses no message, keeps who descends from whom and who shares a
      thread, and leaves no other empty container than branching roots. */
  lemma {:induction false} PruningPreservesThreads(f: Forest, full: set<Id>, a: Id, b: Id)
    requires Distinct(f)
    ensures var r := PruneTop(f, full);
            && Distinct(r)
            && Nodes(f) * full <= Nodes(r) <= Nodes(f)
            && EmptiesAreBranchingRoots(r, full)
            && (a in full && b in full ==>
                (Above(r, a, b) <==> Above(f, a, b)) && (SameTree(r, a, b) <==> SameTree(f, a, b)))
  {
    match f
    case Nil =>
    case Tree(c, k, s) =>
      PruneRootKeeps(c, k, full, a, b);
      PruningPreservesThreads(s, full, a, b);
      var r, t := PruneRoot(c, k, full), PruneTop(s, full);
      AboveAppend(r, t, a, b);
      SameTreeAppend(r, t, a, b);
      EmptiesAppend(r, t, full);
  }
}
