/** What the forest means for the pointers: children and parents agree, and going
    up always ends. */
module ThreadLinks {
  import opened Wrappers
  import opened Forests
  import opened ThreadHeap

  lemma {:induction false} ParentIsNear(f: Forest, x: Id, up: Option<Id>)
    requires x in Nodes(f)
    ensures ParentIn(f, x, up) == up || (ParentIn(f, x, up).Some? && ParentIn(f, x, up).value in Nodes(f))
  {
    var Tree(c, k, s) := f;
    if x == c {}
    else if x in Nodes(k) { ParentIsNear(k, x, Some(c)); }
    else { ParentIsNear(s, x, up); }
  }

  lemma {:induction false} ParentOfRoots(f: Forest, x: Id, p: Id)
    requires Distinct(f) && x in Nodes(f) && p !in Nodes(f)
    ensures ParentIn(f, x, Some(p)) == Some(p) <==> x in Roots(f)
  {
    var Tree(c, k, s) := f;
    if x in Nodes(k) { ParentIsNear(k, x, Some(c)); }
    else if x != c { ParentOfRoots(s, x, p); }
  }

  lemma {:induction false} ParentLists(f: Forest, up: Option<Id>, x: Id, p: Id)
    requires Distinct(f) && x in Nodes(f) && p in Nodes(f) && up != Some(p)
    ensures ParentIn(f, x, up) == Some(p) <==> x in Roots(KidsOf(f, p))
  {
    var Tree(c, k, s) := f;
    if x in Nodes(k) {
      if p == c { ParentOfRoots(k, x, c); }
      else if p in Nodes(k) { ParentLists(k, Some(c), x, p); }
      else { ParentIsNear(k, x, Some(c)); }
    } else if x in Nodes(s) {
      if p in Nodes(s) { ParentLists(s, up, x, p); } else { ParentIsNear(s, x, up); }
    }
  }

  /** A container is among the children of p, once, if and only if p is its parent. */
  lemma ParentsAndChildrenAgree(h: Heap, f: Forest, c: Id, p: Id)
    requires Holds(h, f) && c in h && p in h
    ensures h[c].parent == Some(p) <==> c in h[p].children
    ensures forall i, j :: 0 <= i < j < |h[p].children| ==> h[p].children[i] != h[p].children[j]
  {
    RepCell(h, f, None, c);
    RepCell(h, f, None, p);
    ParentLists(f, None, c, p);
    var k := KidsOf(f, p);
    forall i, j | 0 <= i < j < |Roots(k)| ensures Roots(k)[i] != Roots(k)[j] { RootsAreDistinct(k, i, j); }
  }

  /** The n-th parent of x, if there is one. */
  function Climb(h: Heap, x: Id, n: nat): Option<Id>
    decreases n
  {
    if n == 0 then Some(x)
    else if x in h && h[x].parent.Some? then Climb(h, h[x].parent.value, n - 1)
    else None
  }

  /** Going up from any container ends at its root: no container is its own
      ancestor. */
  lemma {:induction false} ClimbingEnds(h: Heap, f: Forest, x: Id)
    requires Holds(h, f) && x in h
    ensures var d := Depth(f, x);
            && Climb(h, x, d) == Some(RootOf(f, x)) && Climb(h, x, d + 1) == None
            && forall n :: 0 < n <= d ==> Climb(h, x, n) != Some(x)
    decreases Depth(f, x)
  {
    RepCell(h, f, None, x);
    ParentOfRoot(f, x);
    if x in Roots(f) {
      RootDepth(f, x);
    } else {
      ParentIsNearer(f, x, None);
      var y := h[x].parent.value;
      ClimbingEnds(h, f, y);
      ParentDepth(f, x, None);
      forall n | 0 < n <= Depth(f, x) ensures Climb(h, x, n) != Some(x) { ClimbDepth(h, f, y, n - 1); }
    }
  }

  lemma {:induction false} RootDepth(f: Forest, x: Id)
    requires Distinct(f) && x in Roots(f)
    ensures Depth(f, x) == 0
  {
    if f.root != x { RootDepth(f.rest, x); }
  }

  lemma {:induction false} ParentDepth(f: Forest, x: Id, p: Option<Id>)
    requires Distinct(f) && x in Nodes(f) && x !in Roots(f) && (p.Some? ==> p.value !in Nodes(f))
    ensures ParentIn(f, x, p).Some? && Depth(f, x) == Depth(f, ParentIn(f, x, p).value) + 1
  {
    var Tree(c, k, s) := f;
    if x in Nodes(k) {
      if x in Roots(k) { ParentOfARoot(k, x, Some(c)); RootDepth(k, x); }
      else { ParentDepth(k, x, Some(c)); ParentIsNearer(k, x, Some(c)); }
    } else {
      ParentDepth(s, x, p);
      ParentIsNearer(s, x, p);
    }
  }

  /** Climbing n steps takes off n of the depth. */
  lemma {:induction false} ClimbDepth(h: Heap, f: Forest, x: Id, n: nat)
    requires Holds(h, f) && x in h && n <= Depth(f, x)
    ensures var y := Climb(h, x, n); y.Some? && y.value in h && Depth(f, y.value) == Depth(f, x) - n
    decreases n
  {
    if n > 0 {
      RepCell(h, f, None, x);
      ParentOfRoot(f, x);
      if x in Roots(f) { RootDepth(f, x); }
      ParentIsNearer(f, x, None);
      ParentDepth(f, x, None);
      ClimbDepth(h, f, h[x].parent.value, n - 1);
    }
  }
}
