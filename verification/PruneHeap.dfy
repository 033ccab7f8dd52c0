/** Pruning on the heap: what splicing one container out does, and that pruning
    the children of a container one after the other, as the threader does, leaves
    the forest that Pruning describes. */
module PruneHeap {
  import opened Wrappers
  import opened Forests
  import opened Pruning
  import opened ThreadHeap

  /** The containers that hold a message. */
  function Full(h: Heap): set<Id> { set x | x in h && h[x].stored != null }

  // The trees of one level, pruned one after the other

  /** f with the children of its roots from position i on pruned. */
  function PrunedFrom(f: Forest, i: nat, full: set<Id>): Forest {
    match f
    case Nil => Nil
    case Tree(c, k, s) =>
      if i == 0 then Tree(c, PruneLevel(k, full), PrunedFrom(s, 0, full)) else Tree(c, k, PrunedFrom(s, i - 1, full))
  }

  /** f with the children of the root x replaced. */
  function ReplaceKids(f: Forest, x: Id, k': Forest): Forest {
    match f
    case Nil => Nil
    case Tree(c, k, s) => if x == c then Tree(c, k', s) else Tree(c, k, ReplaceKids(s, x, k'))
  }

  /** f with the root x spliced out: its children become the last roots. */
  function Splice(f: Forest, x: Id): Forest { Append(Detach(f, x), RootKids(f, x)) }

  function SpliceAll(f: Forest, xs: seq<Id>): Forest
    decreases |xs|
  {
    if xs == [] then f else SpliceAll(Splice(f, xs[0]), xs[1..])
  }

  /** The empty roots of f from position i on, last one first. */
  function Empties(f: Forest, i: nat, full: set<Id>): seq<Id> {
    match f
    case Nil => []
    case Tree(c, k, s) =>
      if i == 0 then Empties(s, 0, full) + (if c in full then [] else [c]) else Empties(s, i - 1, full)
  }

  lemma {:induction false} PrunedFromEnd(f: Forest, full: set<Id>)
    ensures PrunedFrom(f, |Roots(f)|, full) == f && Empties(f, |Roots(f)|, full) == []
  {
    if f.Tree? { PrunedFromEnd(f.rest, full); }
  }

  /** Pruning the children of root i extends the pruned part by one. */
  lemma {:induction false} PrunedFromStep(f: Forest, i: nat, full: set<Id>)
    requires Distinct(f) && i < |Roots(f)|
    ensures var x := Roots(f)[i];
            && RootKids(PrunedFrom(f, i + 1, full), x) == RootKids(f, x)
            && ReplaceKids(PrunedFrom(f, i + 1, full), x, PruneLevel(RootKids(f, x), full)) == PrunedFrom(f, i, full)
  {
    if i > 0 {
      assert Roots(f)[i] == Roots(f.rest)[i - 1];
      PrunedFromStep(f.rest, i - 1, full);
    } else if f.rest.Tree? {
      assert PrunedFrom(f, 1, full) == Tree(f.root, f.kids, PrunedFrom(f.rest, 0, full));
    }
  }

  lemma {:induction false} EmptiesStep(f: Forest, i: nat, full: set<Id>)
    requires i < |Roots(f)|
    ensures Empties(f, i, full) == Empties(f, i + 1, full) + (if Roots(f)[i] in full then [] else [Roots(f)[i]])
  {
    if i > 0 {
      assert Roots(f)[i] == Roots(f.rest)[i - 1];
      EmptiesStep(f.rest, i - 1, full);
    }
  }

  lemma {:induction false} PrunedFromRoots(f: Forest, i: nat, full: set<Id>)
    ensures Roots(PrunedFrom(f, i, full)) == Roots(f)
  {
    if f.Tree? { PrunedFromRoots(f.rest, if i == 0 then 0 else i - 1, full); }
  }

  lemma {:induction false} EmptiesAreRoots(f: Forest, full: set<Id>)
    requires Distinct(f)
    ensures forall x <- Empties(f, 0, full) :: x in Roots(f) && x !in full
  {
    if f.Tree? { EmptiesAreRoots(f.rest, full); }
  }

  // Splicing the empty ones out, last one first

  lemma {:induction false} SpliceRest(c: Id, k: Forest, s: Forest, xs: seq<Id>)
    requires c !in xs
    ensures SpliceAll(Tree(c, k, s), xs) == Tree(c, k, SpliceAll(s, xs))
    decreases |xs|
  {
    if xs != [] {
      assert c != xs[0];
      SpliceRest(c, k, Splice(s, xs[0]), xs[1..]);
    }
  }

  lemma {:induction false} SpliceLast(f: Forest, xs: seq<Id>, x: Id)
    ensures SpliceAll(f, xs + [x]) == Splice(SpliceAll(f, xs), x)
    decreases |xs|
  {
    if xs == [] {
      assert xs + [x] == [x];
      assert [x][1..] == [];
    } else {
      assert (xs + [x])[1..] == xs[1..] + [x];
      SpliceLast(Splice(f, xs[0]), xs[1..], x);
    }
  }

  lemma AppendAssociates(f: Forest, g: Forest, h: Forest)
    ensures Append(Append(f, g), h) == Append(f, Append(g, h))
  {}

  /** Pruning every child, then splicing out the empty ones from the last to the
      first, leaves the pruned level. */
  lemma {:induction false} SplicingPrunes(f: Forest, full: set<Id>)
    requires Distinct(f)
    ensures SpliceAll(PrunedFrom(f, 0, full), Empties(f, 0, full)) == PruneLevel(f, full)
  {
    if f.Tree? {
      var Tree(c, k, s) := f;
      EmptiesAreRoots(s, full);
      SplicingPrunes(s, full);
      SpliceRest(c, PruneLevel(k, full), PrunedFrom(s, 0, full), Empties(s, 0, full));
      if c !in full {
        SpliceLast(PrunedFrom(f, 0, full), Empties(s, 0, full), c);
        AppendAssociates(Kept(s, full), Promoted(s, full), PruneLevel(k, full));
      } else {
        assert Empties(f, 0, full) == Empties(s, 0, full);
      }
    }
  }

  // One splice on the heap

  /** The first x taken out of s. */
  function Without(s: seq<Id>, x: Id): seq<Id> {
    if s == [] then [] else if s[0] == x then s[1..] else [s[0]] + Without(s[1..], x)
  }

  /** The containers xs get the parent p. */
  function Adopt(h: Heap, xs: seq<Id>, p: Option<Id>): Heap {
    map y | y in h :: if y in xs then h[y].(parent := p) else h[y]
  }

  /** x is spliced out: its children go to its parent, or become roots. */
  function SpliceCell(h: Heap, x: Id): Heap
    requires x in h && (h[x].parent.Some? ==> h[x].parent.value in h)
  {
    var p, cs := h[x].parent, h[x].children;
    var h1 := Adopt(h, cs, p);
    var h2 := h1[x := h1[x].(children := [], nuked := true)];
    if p.None? then h2 else h2[p.value := h2[p.value].(children := Without(h2[p.value].children + cs, x))]
  }

  lemma {:induction false} RepAdopt(h: Heap, h': Heap, f: Forest, p: Option<Id>, q: Option<Id>)
    requires Rep(h, f, p) && Distinct(f)
    requires forall y <- Nodes(f) :: y in h ==>
               y in h' && SameLinks(h'[y], if y in Roots(f) then h[y].(parent := q) else h[y])
    ensures Rep(h', f, q)
  {
    if f.Tree? {
      RepFrame(h, h', f.kids, Some(f.root));
      RepAdopt(h, h', f.rest, p, q);
    }
  }

  lemma {:induction false} WithoutRoot(f: Forest, x: Id, more: seq<Id>)
    requires x in Roots(f)
    ensures Without(Roots(f) + more, x) == Roots(Detach(f, x)) + more
  {
    assert (Roots(f) + more)[1..] == Roots(f.rest) + more;
    if f.root != x { WithoutRoot(f.rest, x, more); }
  }

  /** What splicing out x does to each container. */
  lemma SpliceAt(h: Heap, x: Id, y: Id)
    requires x in h && y in h && x !in h[x].children
    requires h[x].parent.Some? ==> h[x].parent.value in h && h[x].parent.value !in h[x].children + [x]
    ensures var h', p, cs := SpliceCell(h, x), h[x].parent, h[x].children;
            h'[y] == if y == x then h[x].(children := [], nuked := true)
                     else if Some(y) == p then h[y].(children := Without(h[y].children + cs, x))
                     else if y in cs then h[y].(parent := p)
                     else h[y]
  {}

  /** Splicing a child x of p out of the level f. */
  lemma SpliceRep(h: Heap, f: Forest, p: Id, x: Id)
    requires Rep(h, f, Some(p)) && Distinct(f) && x in Roots(f) && p in h && p !in Nodes(f)
    ensures x in h && h[x].parent == Some(p) && h[x].children == Roots(RootKids(f, x)) && x !in h[x].children &&
            p !in h[x].children
    ensures Rep(SpliceCell(h, x), Splice(f, x), Some(p))
  {
    RootKidsRep(h, f, Some(p), x);
    DetachSplits(f, x);
    var k, d, h' := RootKids(f, x), Detach(f, x), SpliceCell(h, x);
    RepDetach(h, f, Some(p), x);
    RepFrame(h, h', d, Some(p));
    RepAdopt(h, h', k, Some(x), Some(p));
    RepAppend(h', d, k, Some(p));
  }

  // A level while it is pruned

  /** The children of c are laid out as m. */
  ghost predicate Level(h: Heap, c: Id, m: Forest) {
    Rep(h, m, Some(c)) && Distinct(m) && c in h && c !in Nodes(m) && h[c].children == Roots(m)
  }

  /** From h0 to h only c's child list and the containers below, `under`, have
      changed: they keep their contents and a parent, and all but the live ones
      are nuked. */
  ghost predicate OnlyBelow(h0: Heap, h: Heap, c: Id, under: set<Id>, live: set<Id>) {
    && h.Keys == h0.Keys && c in h && c !in under && under <= h.Keys && live <= under
    && (forall y <- h :: Tame(y, h0[y], h[y], c, under, live))
  }

  predicate Tame(y: Id, was: Cell, now: Cell, c: Id, under: set<Id>, live: set<Id>) {
    if y == c then now == was.(children := now.children)
    else if y !in under then now == was
    else now.key == was.key && now.stored == was.stored && now.parent.Some? && (y !in live ==> now.nuked)
  }

  lemma {:induction false} ChildrenHaveParents(h: Heap, f: Forest, p: Id)
    requires Rep(h, f, Some(p))
    ensures forall y <- Nodes(f) :: y in h && h[y].parent.Some?
  {
    if f.Tree? {
      ChildrenHaveParents(h, f.kids, f.root);
      ChildrenHaveParents(h, f.rest, p);
    }
  }

  lemma LevelStart(h: Heap, c: Id, k: Forest)
    requires Level(h, c, k)
    ensures OnlyBelow(h, h, c, Nodes(k), Nodes(k))
  {
    ChildrenHaveParents(h, k, c);
  }

  lemma SpliceLevel(h: Heap, c: Id, m: Forest, x: Id)
    requires Level(h, c, m) && x in Roots(m)
    ensures x in h && h[x].parent == Some(c)
    ensures Level(SpliceCell(h, x), c, Splice(m, x))
  {
    SpliceRep(h, m, c, x);
    DetachSplits(m, x);
    SpliceAt(h, x, c);
    WithoutRoot(m, x, Roots(RootKids(m, x)));
  }

  lemma SpliceKeys(h: Heap, x: Id)
    requires x in h && (h[x].parent.Some? ==> h[x].parent.value in h)
    ensures SpliceCell(h, x).Keys == h.Keys
  {}

  lemma LevelSplice(h: Heap, c: Id, m: Forest, x: Id)
    requires Level(h, c, m) && x in Roots(m)
    ensures x in h && h[x].parent == Some(c) && Nodes(Splice(m, x)) == Nodes(m) - {x}
    ensures x in Nodes(m) && x !in h[x].children && c !in h[x].children + [x] &&
            forall y <- h[x].children :: y in Nodes(m)
  {
    SpliceRep(h, m, c, x);
    DetachSplits(m, x);
  }

  lemma SpliceOnlyBelow(h0: Heap, h: Heap, c: Id, under: set<Id>, m: Forest, x: Id)
    requires Level(h, c, m) && x in Roots(m) && OnlyBelow(h0, h, c, under, Nodes(m))
    ensures x in h && h[x].parent == Some(c)
    ensures OnlyBelow(h0, SpliceCell(h, x), c, under, Nodes(Splice(m, x)))
  {
    hide Rep, Splice, Distinct, SpliceCell;
    LevelSplice(h, c, m, x);
    SpliceKeys(h, x);
    forall y | y in h ensures Tame(y, h0[y], SpliceCell(h, x)[y], c, under, Nodes(m) - {x}) {
      SpliceAt(h, x, y);
      assert Tame(y, h0[y], h[y], c, under, Nodes(m));
    }
  }

  /** Pruning below the child x of c prunes the level of c by as much. */
  lemma ChildLevel(h: Heap, h': Heap, c: Id, m: Forest, x: Id, k': Forest)
    requires Level(h, c, m) && x in Roots(m) && Level(h', x, k')
    requires OnlyBelow(h, h', x, Nodes(RootKids(m, x)), Nodes(k'))
    ensures Level(h', c, ReplaceKids(m, x, k'))
  {
    DetachSplits(m, x);
    RootKidsRep(h, m, Some(c), x);
    assert Tame(x, h[x], h'[x], x, Nodes(RootKids(m, x)), Nodes(k'));
    forall y | y in h && y != x && y !in Nodes(RootKids(m, x)) ensures h'[y] == h[y] {
      assert Tame(y, h[y], h'[y], x, Nodes(RootKids(m, x)), Nodes(k'));
    }
    ReplaceKidsRep(h, h', m, Some(c), x, k');
    ReplaceKidsNodes(m, x, k');
  }

  lemma {:induction false} ReplaceKidsRep(h: Heap, h': Heap, m: Forest, p: Option<Id>, x: Id, k': Forest)
    requires Rep(h, m, p) && x in Roots(m) && Distinct(m) && Rep(h', k', Some(x)) && x in h'
    requires h'[x].children == Roots(k') && h'[x].parent == p && !h'[x].nuked
    requires forall y <- h :: y in Nodes(m) && y != x && y !in Nodes(RootKids(m, x)) ==> y in h' && h'[y] == h[y]
    ensures Rep(h', ReplaceKids(m, x, k'), p)
  {
    DetachSplits(m, x);
    if m.root == x {
      RepFrame(h, h', m.rest, p);
    } else {
      RepFrame(h, h', m.kids, Some(m.root));
      DetachSplits(m.rest, x);
      ReplaceKidsRep(h, h', m.rest, p, x, k');
    }
  }

  lemma {:induction false} ReplaceKidsNodes(m: Forest, x: Id, k': Forest)
    requires Distinct(m) && x in Roots(m) && Distinct(k') && Nodes(k') <= Nodes(RootKids(m, x))
    ensures Distinct(ReplaceKids(m, x, k')) && Roots(ReplaceKids(m, x, k')) == Roots(m)
    ensures Nodes(ReplaceKids(m, x, k')) == Nodes(m) - (Nodes(RootKids(m, x)) - Nodes(k'))
  {
    DetachSplits(m, x);
    if m.root != x { DetachSplits(m.rest, x); ReplaceKidsNodes(m.rest, x, k'); }
  }

  lemma ChildOnlyBelow(h0: Heap, h: Heap, h': Heap, c: Id, under: set<Id>, m: Forest, x: Id, k': Forest)
    requires Level(h, c, m) && x in Roots(m) && OnlyBelow(h0, h, c, under, Nodes(m))
    requires Distinct(k') && OnlyBelow(h, h', x, Nodes(RootKids(m, x)), Nodes(k'))
    ensures OnlyBelow(h0, h', c, under, Nodes(ReplaceKids(m, x, k')))
  {
    DetachSplits(m, x);
    ReplaceKidsNodes(m, x, k');
    RootKidsRep(h, m, Some(c), x);
    forall y | y in h ensures Tame(y, h0[y], h'[y], c, under, Nodes(ReplaceKids(m, x, k'))) {
      assert Tame(y, h0[y], h[y], c, under, Nodes(m));
      assert Tame(y, h[y], h'[y], x, Nodes(RootKids(m, x)), Nodes(k'));
    }
  }

  /** The empty containers stay the same while a level is pruned. */
  lemma SameFull(h0: Heap, h: Heap, c: Id, under: set<Id>, live: set<Id>)
    requires OnlyBelow(h0, h, c, under, live)
    ensures Full(h) == Full(h0)
  {
    forall y | y in h ensures h[y].stored == h0[y].stored { assert Tame(y, h0[y], h[y], c, under, live); }
  }

  lemma {:induction false} RootKidsSmaller(f: Forest, x: Id)
    requires x in Roots(f)
    ensures RootKids(f, x) < f
  {
    if f.root != x { RootKidsSmaller(f.rest, x); }
  }

  // Moving the children one after the other

  /** y gets the parent p and becomes its last child. */
  function Move(h: Heap, y: Id, p: Option<Id>): Heap
    requires y in h && (p.Some? ==> p.value in h)
  {
    if p.Some? then AddChild(h, p.value, y) else h[y := h[y].(parent := None)]
  }

  function MoveAll(h: Heap, ys: seq<Id>, p: Option<Id>): (r: Heap)
    requires (forall y <- ys :: y in h) && (p.Some? ==> p.value in h)
    ensures r.Keys == h.Keys
  {
    if ys == [] then h else Move(MoveAll(h, ys[..|ys| - 1], p), ys[|ys| - 1], p)
  }

  lemma {:induction false} MovedAt(h: Heap, ys: seq<Id>, p: Option<Id>, y: Id)
    requires (forall y <- ys :: y in h) && (p.Some? ==> p.value in h && p.value !in ys) && y in h
    ensures MoveAll(h, ys, p)[y] == if Some(y) == p then h[y].(children := h[y].children + ys)
                                    else if y in ys then h[y].(parent := p) else h[y]
  {
    if ys != [] {
      var init, last := ys[..|ys| - 1], ys[|ys| - 1];
      MovedAt(h, init, p, y);
      MovedAt(h, init, p, last);
      assert ys == init + [last];
    }
  }

  /** Moving the children of x up, and taking x out, is a splice. */
  lemma MovingSplices(h: Heap, x: Id)
    requires x in h && (forall y <- h[x].children :: y in h) && x !in h[x].children
    requires h[x].parent.Some? ==> h[x].parent.value in h && h[x].parent.value !in h[x].children + [x]
    ensures var p := h[x].parent;
            var h1 := MoveAll(h, h[x].children, p);
            var h2 := h1[x := h1[x].(children := [], nuked := true)];
            SpliceCell(h, x) == if p.None? then h2
                                else h2[p.value := h2[p.value].(children := Without(h2[p.value].children, x))]
  {
    hide SpliceCell, MoveAll;
    SpliceKeys(h, x);
    var p := h[x].parent;
    var h1 := MoveAll(h, h[x].children, p);
    var h2 := h1[x := h1[x].(children := [], nuked := true)];
    var h3 := if p.None? then h2 else h2[p.value := h2[p.value].(children := Without(h2[p.value].children, x))];
    var h' := SpliceCell(h, x);
    forall y | y in h ensures h3[y] == h'[y] {
      SpliceAt(h, x, y);
      MovedAt(h, h[x].children, p, y);
    }
  }

  /** x can be spliced out: it is neither its own nor its parent's ancestor, and
      its parent lists it. */
  ghost predicate Spliceable(h: Heap, x: Id) {
    && x in h && (forall y <- h[x].children :: y in h) && x !in h[x].children
    && (h[x].parent.Some? ==> h[x].parent.value in h && h[x].parent.value !in h[x].children + [x]
                              && x in h[h[x].parent.value].children)
  }

  /** The children of c have become m, pruned out of k; nothing else changed. */
  ghost predicate PrunedTo(h0: Heap, h: Heap, c: Id, k: Forest, m: Forest) {
    Level(h, c, m) && OnlyBelow(h0, h, c, Nodes(k), Nodes(m))
  }

  lemma PrunedToStart(h: Heap, c: Id, k: Forest, full: set<Id>)
    requires Level(h, c, k)
    ensures PrunedTo(h, h, c, k, PrunedFrom(k, |h[c].children|, full))
    ensures Empties(k, |h[c].children|, full) == []
  {
    LevelStart(h, c, k);
    PrunedFromEnd(k, full);
  }

  /** A child of c, before it is pruned itself. */
  lemma NextChild(h0: Heap, h: Heap, c: Id, k: Forest, i: nat, full: set<Id>)
    requires Distinct(k) && i < |Roots(k)| && PrunedTo(h0, h, c, k, PrunedFrom(k, i + 1, full))
    ensures var x := Roots(k)[i]; x in h && h[x].parent == Some(c) && Level(h, x, RootKids(k, x)) && RootKids(k, x) < k
    ensures h[c].children == Roots(k)
  {
    var x, m := Roots(k)[i], PrunedFrom(k, i + 1, full);
    PrunedFromRoots(k, i + 1, full);
    PrunedFromStep(k, i, full);
    RootKidsRep(h, m, Some(c), x);
    DetachSplits(m, x);
    RootKidsSmaller(k, x);
  }

  /** ... and after. */
  lemma ChildPruned(h0: Heap, h: Heap, h': Heap, c: Id, k: Forest, i: nat, full: set<Id>)
    requires Distinct(k) && i < |Roots(k)| && PrunedTo(h0, h, c, k, PrunedFrom(k, i + 1, full))
    requires var x := Roots(k)[i]; PrunedTo(h, h', x, RootKids(k, x), PruneLevel(RootKids(k, x), full))
    ensures PrunedTo(h0, h', c, k, PrunedFrom(k, i, full))
    ensures Roots(k)[i] in h' && h'[Roots(k)[i]].parent == Some(c)
    ensures Empties(k, i, full) == Empties(k, i + 1, full) + (if Roots(k)[i] in full then [] else [Roots(k)[i]])
  {
    var x, m := Roots(k)[i], PrunedFrom(k, i + 1, full);
    PrunedFromRoots(k, i + 1, full);
    PrunedFromStep(k, i, full);
    EmptiesStep(k, i, full);
    RootKidsRep(h, m, Some(c), x);
    assert Tame(x, h[x], h'[x], x, Nodes(RootKids(k, x)), Nodes(PruneLevel(RootKids(k, x), full)));
    ChildLevel(h, h', c, m, x, PruneLevel(RootKids(k, x), full));
    ChildOnlyBelow(h0, h, h', c, Nodes(k), m, x, PruneLevel(RootKids(k, x), full));
  }

  // Splicing a list of roots

  /** xs are different roots of m. */
  ghost predicate DistinctRoots(m: Forest, xs: seq<Id>) {
    (forall x <- xs :: x in Roots(m)) && forall i, j :: 0 <= i < j < |xs| ==> xs[i] != xs[j]
  }

  lemma {:induction false} EmptiesDiffer(f: Forest, full: set<Id>)
    requires Distinct(f)
    ensures DistinctRoots(PrunedFrom(f, 0, full), Empties(f, 0, full))
  {
    EmptiesAreRoots(f, full);
    PrunedFromRoots(f, 0, full);
    if f.Tree? {
      EmptiesAreRoots(f.rest, full);
      EmptiesDiffer(f.rest, full);
      PrunedFromRoots(f.rest, 0, full);
    }
  }

  lemma {:induction false} OtherRoots(m: Forest, x: Id, y: Id)
    requires y in Roots(m) && y != x
    ensures y in Roots(Detach(m, x))
  {
    if m.root != x && m.root != y { OtherRoots(m.rest, x, y); }
  }

  lemma NextSplice(h0: Heap, h: Heap, c: Id, k: Forest, m: Forest, xs: seq<Id>)
    requires PrunedTo(h0, h, c, k, m) && DistinctRoots(m, xs) && xs != []
    ensures Spliceable(h, xs[0])
    ensures PrunedTo(h0, SpliceCell(h, xs[0]), c, k, Splice(m, xs[0]))
    ensures DistinctRoots(Splice(m, xs[0]), xs[1..])
  {
    SpliceLevel(h, c, m, xs[0]);
    SpliceOnlyBelow(h0, h, c, Nodes(k), m, xs[0]);
    SpliceRep(h, m, c, xs[0]);
    RootKidsRep(h, m, Some(c), xs[0]);
    DetachSplits(m, xs[0]);
    RepNodes(h, m, Some(c));
    forall y | y in xs[1..] ensures y in Roots(Splice(m, xs[0])) { OtherRoots(m, xs[0], y); }
  }
}
