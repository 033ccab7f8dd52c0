/** Pruning the root set in the order a table happens to be walked. */
module PruneRoots {
  import opened Wrappers
  import opened Forests
  import opened Pruning
  import opened ThreadHeap
  import opened PruneHeap

  /** f with the roots in `visited` pruned. */
  function PruneSome(f: Forest, visited: set<Id>, full: set<Id>): Forest {
    match f
    case Nil => Nil
    case Tree(c, k, s) =>
      Append(if c in visited then PruneRoot(c, k, full) else Tree(c, k, Nil), PruneSome(s, visited, full))
  }

  /** f with the tree of the root x replaced by g. */
  function ReplaceTree(f: Forest, x: Id, g: Forest): Forest {
    match f
    case Nil => Nil
    case Tree(c, k, s) => if c == x then Append(g, s) else Tree(c, k, ReplaceTree(s, x, g))
  }

  function Visit(g: Forest, x: Id, full: set<Id>): Forest {
    if x in Roots(g) then ReplaceTree(g, x, PruneRoot(x, RootKids(g, x), full)) else g
  }

  lemma {:induction false} PruneNone(f: Forest, full: set<Id>)
    ensures PruneSome(f, {}, full) == f
  {
    if f.Tree? {
      PruneNone(f.rest, full);
      assert Append(Nil, f.rest) == f.rest;
    }
  }

  lemma {:induction false} PruneEvery(f: Forest, visited: set<Id>, full: set<Id>)
    requires forall x <- Roots(f) :: x in visited
    ensures PruneSome(f, visited, full) == PruneTop(f, full)
  {
    if f.Tree? { PruneEvery(f.rest, visited, full); }
  }

  /** Only containers of f are left, and every message. */
  lemma {:induction false} PruneSomeNodes(f: Forest, visited: set<Id>, full: set<Id>)
    requires Distinct(f)
    ensures Distinct(PruneSome(f, visited, full)) && Nodes(PruneSome(f, visited, full)) <= Nodes(f)
    ensures forall x <- Roots(f) :: x !in visited ==> x in Roots(PruneSome(f, visited, full))
  {
    if f.Tree? {
      PruneSomeNodes(f.rest, visited, full);
      PruneLevelNodes(f.kids, full);
      PruneLevelDistinct(f.kids, full);
    }
  }

  // Pruning a pruned tree again changes nothing

  lemma {:induction false} PruneFullLevel(k: Forest, full: set<Id>)
    requires Nodes(k) <= full
    ensures Kept(k, full) == k && Promoted(k, full) == Nil && PruneLevel(k, full) == k
  {
    if k.Tree? {
      PruneFullLevel(k.kids, full);
      PruneFullLevel(k.rest, full);
    }
    AppendNil(k);
  }

  lemma {:induction false} AppendNil(f: Forest)
    ensures Append(f, Nil) == f
  {
    if f.Tree? { AppendNil(f.rest); }
  }

  lemma {:induction false} ReplaceInAppend(f: Forest, g: Forest, x: Id, t: Forest)
    requires x in Roots(f) || x in Roots(g)
    ensures ReplaceTree(Append(f, g), x, t) ==
            if x in Roots(f) then Append(ReplaceTree(f, x, t), g) else Append(f, ReplaceTree(g, x, t))
    ensures RootKids(Append(f, g), x) == if x in Roots(f) then RootKids(f, x) else RootKids(g, x)
  {
    if f.Tree? {
      if f.root == x { AppendAssociates(t, f.rest, g); } else { ReplaceInAppend(f.rest, g, x, t); }
    }
  }

  lemma {:induction false} ReplaceBySame(f: Forest, x: Id)
    requires x in Roots(f)
    ensures ReplaceTree(f, x, Tree(x, RootKids(f, x), Nil)) == f
  {
    if f.root != x { ReplaceBySame(f.rest, x); } else { assert Append(Nil, f.rest) == f.rest; }
  }

  lemma FullRootKids(k: Forest, x: Id, full: set<Id>)
    requires Nodes(k) <= full && x in Roots(k)
    ensures Visit(k, x, full) == k
  {
    RootKidsNodes(k, x);
    PruneFullLevel(RootKids(k, x), full);
    ReplaceBySame(k, x);
  }

  lemma {:induction false} RootKidsNodes(k: Forest, x: Id)
    ensures Nodes(RootKids(k, x)) <= Nodes(k)
  {
    if k.Tree? { RootKidsNodes(k.rest, x); }
  }

  /** What a visited root was replaced by is not changed by another visit. */
  lemma VisitPrunedRoot(c: Id, k: Forest, x: Id, full: set<Id>)
    requires Distinct(Tree(c, k, Nil)) && x != c && x in Roots(PruneRoot(c, k, full))
    ensures Visit(PruneRoot(c, k, full), x, full) == PruneRoot(c, k, full)
  {
    PruneLevelNodes(k, full);
    FullRootKids(PruneRoot(c, k, full), x, full);
  }

  /** Visiting a container that was not visited before prunes its tree if it is a
      root of the original forest, and changes nothing otherwise. */
  lemma {:induction false} VisitPrunes(f: Forest, visited: set<Id>, x: Id, full: set<Id>)
    requires Distinct(f) && x !in visited
    ensures Visit(PruneSome(f, visited, full), x, full) == PruneSome(f, visited + {x}, full)
  {
    match f
    case Nil =>
    case Tree(c, k, s) =>
      var t, g := if c in visited then PruneRoot(c, k, full) else Tree(c, k, Nil), PruneSome(s, visited, full);
      VisitPrunes(s, visited, x, full);
      PruneSomeNodes(s, visited, full);
      PruneLevelNodes(k, full);
      if x in Roots(t) + Roots(g) {
        ReplaceInAppend(t, g, x, PruneRoot(x, RootKids(if x in Roots(t) then t else g, x), full));
        if x in Roots(t) && c in visited { VisitPrunedRoot(c, k, x, full); }
        if c == x { AppendNil(PruneRoot(c, k, full)); }
      }
      if x in Roots(t) { NotARoot(s, visited, x, full); }
  }

  lemma {:induction false} NotARoot(s: Forest, visited: set<Id>, x: Id, full: set<Id>)
    requires x !in Nodes(s)
    ensures PruneSome(s, visited + {x}, full) == PruneSome(s, visited, full)
  {
    if s.Tree? { NotARoot(s.rest, visited, x, full); }
  }

  // The heap while the roots are visited

  /** Whether a container is to be spliced out, once its children are pruned. */
  predicate ToGo(c: Cell) { c.stored == null && (c.parent.Some? || |c.children| <= 1) }

  /** From h0, which holds f, the visited roots have been pruned. */
  ghost predicate Visiting(h0: Heap, h: Heap, f: Forest, visited: set<Id>) {
    var g := PruneSome(f, visited, Full(h0));
    && Holds(h0, f) && h.Keys == h0.Keys && Rep(h, g, None)
    && (forall y <- h :: Left(y, h0[y], h[y], Nodes(g), visited))
  }

  predicate Left(y: Id, was: Cell, now: Cell, live: set<Id>, visited: set<Id>) {
    && now.key == was.key && now.stored == was.stored
    && (y !in live ==> now.nuked && (now.parent.Some? || y in visited))
  }

  /** The live containers of h are those of the pruned forest; all others are
      nuked, and nothing but the links has changed. */
  ghost predicate Pruned(h0: Heap, h: Heap, f: Forest) {
    var g := PruneTop(f, Full(h0));
    && Distinct(g) && h.Keys == h0.Keys && Rep(h, g, None)
    && (forall y :: Content(h, y) == Content(h0, y))
    && (forall y <- h :: h[y].nuked <==> y !in Nodes(g))
  }

  lemma NoneVisited(h: Heap, f: Forest)
    requires Holds(h, f)
    ensures Visiting(h, h, f, {})
  {
    PruneNone(f, Full(h));
  }

  lemma {:induction false} LiveAreNotNuked(h: Heap, f: Forest, p: Option<Id>)
    requires Rep(h, f, p)
    ensures forall y <- Nodes(f) :: y in h && !h[y].nuked
  {
    if f.Tree? {
      LiveAreNotNuked(h, f.kids, Some(f.root));
      LiveAreNotNuked(h, f.rest, p);
    }
  }

  lemma AllVisited(h0: Heap, h: Heap, f: Forest, visited: set<Id>)
    requires Visiting(h0, h, f, visited) && h0.Keys <= visited
    ensures Pruned(h0, h, f)
  {
    var full, g := Full(h0), PruneTop(f, Full(h0));
    PruneEvery(f, visited, full);
    PruneSomeNodes(f, visited, full);
    LiveAreNotNuked(h, g, None);
    forall y | y in h ensures h[y].nuked <==> y !in Nodes(g) { assert Left(y, h0[y], h[y], Nodes(g), visited); }
    forall y ensures Content(h, y) == Content(h0, y) {
      if y in h { assert Left(y, h0[y], h[y], Nodes(g), visited); }
    }
  }

  /** An entry with a parent is no root of the original forest that is still to be
      visited. */
  lemma VisitOther(h0: Heap, h: Heap, f: Forest, visited: set<Id>, x: Id)
    requires Visiting(h0, h, f, visited) && x in h && x !in visited && h[x].parent.Some?
    ensures Visiting(h0, h, f, visited + {x})
  {
    var g := PruneSome(f, visited, Full(h0));
    PruneSomeNodes(f, visited, Full(h0));
    if x in Roots(g) { RootKidsRep(h, g, None, x); }
    VisitPrunes(f, visited, x, Full(h0));
    Visited(h0, h, g, visited, x);
  }

  lemma Visited(h0: Heap, h: Heap, g: Forest, visited: set<Id>, x: Id)
    requires h.Keys == h0.Keys
    requires forall y <- h :: Left(y, h0[y], h[y], Nodes(g), visited)
    ensures forall y <- h :: Left(y, h0[y], h[y], Nodes(g), visited + {x})
  {
    forall y | y in h ensures Left(y, h0[y], h[y], Nodes(g), visited + {x}) {
      assert Left(y, h0[y], h[y], Nodes(g), visited);
    }
  }

  /** An entry without a parent that is not visited yet is a root. */
  lemma VisitRoot(h0: Heap, h: Heap, f: Forest, visited: set<Id>, x: Id)
    requires Visiting(h0, h, f, visited) && x in h && x !in visited && h[x].parent.None?
    ensures var g := PruneSome(f, visited, Full(h0)); x in Roots(g) && Level(h, x, RootKids(g, x))
    ensures Full(h) == Full(h0)
  {
    var g := PruneSome(f, visited, Full(h0));
    PruneSomeNodes(f, visited, Full(h0));
    assert Left(x, h0[x], h[x], Nodes(g), visited);
    RepCell(h, g, None, x);
    ParentOfRoot(g, x);
    RootKidsRep(h, g, None, x);
    DetachSplits(g, x);
    forall y | y in h ensures h[y].stored == h0[y].stored { assert Left(y, h0[y], h[y], Nodes(g), visited); }
  }

  lemma {:induction false} ReplaceTreeRep(h: Heap, h': Heap, g: Forest, p: Option<Id>, x: Id, r: Forest)
    requires Rep(h, g, p) && Distinct(g) && x in Roots(g) && Rep(h', r, p)
    requires forall y <- h :: y in Nodes(g) && y != x && y !in Nodes(RootKids(g, x)) ==> y in h' && h'[y] == h[y]
    ensures Rep(h', ReplaceTree(g, x, r), p)
  {
    DetachSplits(g, x);
    if g.root == x {
      RepFrame(h, h', g.rest, p);
      RepAppend(h', r, g.rest, p);
    } else {
      RepFrame(h, h', g.kids, Some(g.root));
      DetachSplits(g.rest, x);
      ReplaceTreeRep(h, h', g.rest, p, x, r);
    }
  }

  lemma {:induction false} ReplaceTreeNodes(g: Forest, x: Id, r: Forest)
    requires Distinct(g) && x in Roots(g)
    ensures Nodes(ReplaceTree(g, x, r)) == Nodes(g) - {x} - Nodes(RootKids(g, x)) + Nodes(r)
  {
    DetachSplits(g, x);
    if g.root != x { DetachSplits(g.rest, x); ReplaceTreeNodes(g.rest, x, r); }
  }

  /** A root that stays, after its children are pruned. */
  lemma RootStays(h0: Heap, h: Heap, h1: Heap, f: Forest, visited: set<Id>, x: Id)
    requires Visiting(h0, h, f, visited) && x in h && x !in visited && h[x].parent.None?
    requires var k, full := RootKids(PruneSome(f, visited, Full(h0)), x), Full(h0);
             PrunedTo(h, h1, x, k, PruneLevel(k, full)) && !ToGo(h1[x])
    ensures Visiting(h0, h1, f, visited + {x})
  {
    var full, g := Full(h0), PruneSome(f, visited, Full(h0));
    var k := RootKids(g, x);
    var k' := PruneLevel(k, full);
    VisitRoot(h0, h, f, visited, x);
    PruneSomeNodes(f, visited, full);
    VisitPrunes(f, visited, x, full);
    OutsideSame(h, h1, x, k, k');
    RootKidsRep(h, g, None, x);
    DetachSplits(g, x);
    assert Tree(x, k', Nil) == PruneRoot(x, k, full);
    ReplaceTreeRep(h, h1, g, None, x, Tree(x, k', Nil));
    ReplaceTreeNodes(g, x, Tree(x, k', Nil));
    forall y | y in h1 ensures Left(y, h0[y], h1[y], Nodes(Visit(g, x, full)), visited + {x}) {
      assert Left(y, h0[y], h[y], Nodes(g), visited);
      assert Tame(y, h[y], h1[y], x, Nodes(k), Nodes(k'));
    }
  }

  lemma OutsideSame(h: Heap, h1: Heap, x: Id, k: Forest, k': Forest)
    requires PrunedTo(h, h1, x, k, k')
    ensures h1.Keys == h.Keys && x in h && h1[x] == h[x].(children := h1[x].children) && h1[x].children == Roots(k')
    ensures forall y <- h :: y != x && y !in Nodes(k) ==> y in h1 && h1[y] == h[y]
  {
    forall y | y in h ensures Tame(y, h[y], h1[y], x, Nodes(k), Nodes(k')) {}
  }

  /** Dissolving a root makes its children roots. */
  lemma DissolveCells(h: Heap, x: Id, k: Forest)
    requires Level(h, x, k) && h[x].parent.None?
    ensures Spliceable(h, x) && Rep(SpliceCell(h, x), k, None) && SpliceCell(h, x).Keys == h.Keys
    ensures forall y <- h :: SpliceCell(h, x)[y] ==
              if y == x then h[x].(children := [], nuked := true)
              else if y in Roots(k) then h[y].(parent := None) else h[y]
  {
    var h2 := SpliceCell(h, x);
    RepNodes(h, k, Some(x));
    forall y | y in h ensures h2[y] == if y == x then h[x].(children := [], nuked := true)
                                       else if y in Roots(k) then h[y].(parent := None) else h[y]
    { SpliceAt(h, x, y); }
    RepAdopt(h, h2, k, Some(x), None);
  }

  /** A root that dissolves: its only child, if any, becomes a root. */
  lemma RootDissolves(h0: Heap, h: Heap, h1: Heap, f: Forest, visited: set<Id>, x: Id)
    requires Visiting(h0, h, f, visited) && x in h && x !in visited && h[x].parent.None?
    requires var k, full := RootKids(PruneSome(f, visited, Full(h0)), x), Full(h0);
             PrunedTo(h, h1, x, k, PruneLevel(k, full)) && ToGo(h1[x])
    ensures Spliceable(h1, x) && Visiting(h0, SpliceCell(h1, x), f, visited + {x})
  {
    hide Rep, Distinct, PruneSome, PruneLevel, Level, SpliceCell, OnlyBelow, Left, Spliceable;
    var full, g := Full(h0), PruneSome(f, visited, Full(h0));
    var k := RootKids(g, x);
    var k' := PruneLevel(k, full);
    VisitRoot(h0, h, f, visited, x);
    VisitPrunes(f, visited, x, full);
    OutsideSame(h, h1, x, k, k');
    DissolveCells(h1, x, k');
    var h2 := SpliceCell(h1, x);
    assert k' == PruneRoot(x, k, full);
    assert x in Roots(g) && Visit(g, x, full) == ReplaceTree(g, x, k');
    PruneLevelNodes(k, full);
    PruneSomeNodes(f, visited, full);
    DissolvedRep(h, h1, h2, g, x, k');
    ReplaceTreeNodes(g, x, k');
    DissolvedLeft(h0, h, h1, h2, Nodes(g), Nodes(Visit(g, x, full)), visited, x, k, k');
  }

  lemma DissolvedLeft(h0: Heap, h: Heap, h1: Heap, h2: Heap, live: set<Id>, live': set<Id>, visited: set<Id>,
                      x: Id, k: Forest, k': Forest)
    requires h.Keys == h0.Keys == h2.Keys && OnlyBelow(h, h1, x, Nodes(k), Nodes(k'))
    requires live' == live - {x} - Nodes(k) + Nodes(k')
    requires forall y <- h :: Left(y, h0[y], h[y], live, visited)
    requires forall y <- h1 :: h2[y] == if y == x then h1[x].(children := [], nuked := true)
                                         else if y in Roots(k') then h1[y].(parent := None) else h1[y]
    ensures forall y <- h2 :: Left(y, h0[y], h2[y], live', visited + {x})
  {
    forall y | y in h2 ensures Left(y, h0[y], h2[y], live', visited + {x}) {
      assert Left(y, h0[y], h[y], live, visited);
      assert Tame(y, h[y], h1[y], x, Nodes(k), Nodes(k'));
    }
  }

  lemma DissolvedRep(h: Heap, h1: Heap, h2: Heap, g: Forest, x: Id, k': Forest)
    requires Rep(h, g, None) && Distinct(g) && x in Roots(g) && h1.Keys == h2.Keys
    requires Nodes(k') <= Nodes(RootKids(g, x)) && Rep(h2, k', None)
    requires forall y <- h :: y != x && y !in Nodes(RootKids(g, x)) ==> y in h1 && h1[y] == h[y]
    requires forall y <- h1 :: y != x && y !in Roots(k') ==> h2[y] == h1[y]
    ensures Rep(h2, ReplaceTree(g, x, k'), None)
  {
    DetachSplits(g, x);
    ReplaceTreeRep(h, h2, g, None, x, k');
  }
}
