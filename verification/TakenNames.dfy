/** Names made up for duplicates that are taken already: exactly when the table
    stays a forest. */
module TakenNames {
  import opened Wrappers
  import opened Forests
  import opened IdTableSpec
  import opened IdTableProofs
  import opened ThreadHeap
  import opened ThreadLinks
  import opened TableHeap

  /** Some forest describes the table. */
  ghost predicate IsForest(h: Heap) { exists f :: Holds(h, f) }

  // What no forest has, and what no later child repairs

  /** y is reached from x by n steps to a child. */
  ghost predicate Down(h: Heap, x: Id, y: Id, n: nat)
    decreases n
  {
    if n == 0 then x == y else x in h && exists c <- h[x].children :: Down(h, c, y, n - 1)
  }

  /** A container is listed as a child in two places, or is its own descendant. */
  ghost predicate Tangled(h: Heap) {
    || (exists p <- h, q <- h, i, j :: ListedTwice(h, p, i, q, j))
    || (exists x, n :: n > 0 && Down(h, x, x, n))
  }

  ghost predicate ListedTwice(h: Heap, p: Id, i: nat, q: Id, j: nat)
    requires p in h && q in h
  {
    i < |h[p].children| && j < |h[q].children| && (p, i) != (q, j) && h[p].children[i] == h[q].children[j]
  }

  /** h' has all containers of h and their children. */
  ghost predicate Grown(h: Heap, h': Heap) { forall x <- h :: x in h' && h[x].children <= h'[x].children }

  lemma {:induction false} DownGrows(h: Heap, h': Heap, x: Id, y: Id, n: nat)
    requires Grown(h, h') && Down(h, x, y, n)
    ensures Down(h', x, y, n)
    decreases n
  {
    if n > 0 {
      var c :| c in h[x].children && Down(h, c, y, n - 1);
      DownGrows(h, h', c, y, n - 1);
      assert c in h'[x].children;
    }
  }

  lemma TangledStays(h: Heap, h': Heap)
    requires Grown(h, h') && Tangled(h)
    ensures Tangled(h')
  {
    if x, n :| n > 0 && Down(h, x, x, n) {
      DownGrows(h, h', x, x, n);
    } else {
      var p, q, i, j :| p in h && q in h && ListedTwice(h, p, i, q, j);
      assert ListedTwice(h', p, i, q, j);
    }
  }

  lemma ChildIsDeeper(h: Heap, f: Forest, x: Id, c: Id)
    requires Holds(h, f) && x in h && c in h[x].children
    ensures c in h && Depth(f, c) == Depth(f, x) + 1
  {
    hide Rep, Depth, RootOf, KidsOf, Roots;
    RepCell(h, f, None, x);
    ParentsAndChildrenAgree(h, f, c, x);
    RepCell(h, f, None, c);
    ParentOfRoot(f, c);
    ParentDepth(f, c, None);
  }

  lemma {:induction false} DownIsDeeper(h: Heap, f: Forest, x: Id, y: Id, n: nat)
    requires Holds(h, f) && x in h && Down(h, x, y, n)
    ensures y in h && Depth(f, y) == Depth(f, x) + n
    decreases n
  {
    hide Holds, Depth;
    if n > 0 {
      var c :| c in h[x].children && Down(h, c, y, n - 1);
      ChildIsDeeper(h, f, x, c);
      DownIsDeeper(h, f, c, y, n - 1);
    }
  }

  lemma ForestsAreNotTangled(h: Heap, f: Forest)
    requires Holds(h, f)
    ensures !Tangled(h)
  {
    forall p, q, i: nat, j: nat | p in h && q in h ensures !ListedTwice(h, p, i, q, j) {
      if ListedTwice(h, p, i, q, j) {
        var c := h[p].children[i];
        RepCell(h, f, None, p);
        ParentsAndChildrenAgree(h, f, c, p);
        ParentsAndChildrenAgree(h, f, c, q);
      }
    }
    forall x, n: nat | n > 0 ensures !Down(h, x, x, n) {
      if Down(h, x, x, n) { DownIsDeeper(h, f, x, x, n); }
    }
  }

  // One duplicate

  /** In a forest every container is reached from its root. */
  lemma {:induction false} RootReaches(h: Heap, f: Forest, x: Id, y: Id, n: nat)
    requires Holds(h, f) && x in h && Down(h, x, y, n)
    ensures Down(h, RootOf(f, x), y, Depth(f, x) + n)
    decreases Depth(f, x)
  {
    hide Rep, Depth, RootOf, KidsOf, Roots;
    RepCell(h, f, None, x);
    ParentOfRoot(f, x);
    if x in Roots(f) {
      RootDepth(f, x);
    } else {
      ParentIsNearer(f, x, None);
      ParentDepth(f, x, None);
      var p := h[x].parent.value;
      ParentsAndChildrenAgree(h, f, x, p);
      assert Down(h, p, y, n + 1);
      RootReaches(h, f, p, y, n + 1);
    }
  }

  lemma AddChildGrows(h: Heap, x: Id, c: Id)
    requires x in h && c in h
    ensures Grown(h, AddChild(h, x, c))
    ensures x in AddChild(h, x, c) && AddChild(h, x, c)[x].children == h[x].children + [c]
  {}

  /** A taken name that may not be linked: it gets a second place, or closes a
      loop. */
  lemma ForbiddenLinkTangles(h: Heap, f: Forest, x: Id, name: Id)
    requires Holds(h, f) && x in h && name in h && !CanLink(f, x, name)
    ensures Tangled(AddChild(h, x, name))
  {
    hide Rep, Depth, KidsOf, Roots, AddChild;
    var h' := AddChild(h, x, name);
    AddChildGrows(h, x, name);
    RepCell(h, f, None, name);
    ParentOfRoot(f, name);
    if name in Roots(f) {
      assert Down(h, x, x, 0);
      RootReaches(h, f, x, x, 0);
      DownGrows(h, h', name, x, Depth(f, x));
      assert name in h'[x].children;
      assert Down(h', x, x, Depth(f, x) + 1);
    } else {
      ParentIsNearer(f, name, None);
      var p := h[name].parent.value;
      ParentsAndChildrenAgree(h, f, name, p);
      var i :| 0 <= i < |h[p].children| && h[p].children[i] == name;
      assert ListedTwice(h', p, i, x, |h[x].children|);
    }
  }

  /** One duplicate leaves a forest if and only if its name is free or may be
      linked. */
  lemma AddDupKeepsForestIff(h: Heap, f: Forest, x: Id, name: Id, qm: QueryMatch)
    requires Holds(h, f) && x in h
    ensures IsForest(AddDup(h, x, name, qm)) <==> name !in h || CanLink(f, x, name)
    ensures IsForest(AddDup(h, x, name, qm)) || Tangled(AddDup(h, x, name, qm))
  {
    if name in h && !CanLink(f, x, name) {
      ForbiddenLinkTangles(h, f, x, name);
      forall g ensures !Holds(AddDup(h, x, name, qm), g) {
        if Holds(AddDup(h, x, name, qm), g) { ForestsAreNotTangled(AddDup(h, x, name, qm), g); }
      }
    } else {
      AddDupHolds(h, f, x, name, qm);
    }
  }

  // All duplicates

  /** Later duplicates do not repair a tangled table. */
  lemma OneDuplicateStaysTangled(h: Heap, n: nat, d: (Id, nat), matches: seq<QueryMatch>)
    requires d.1 < |matches| && Tangled(h)
    ensures Tangled(AddOneDuplicate(h, n, d, matches).0)
  {
    if d.0 in h {
      var name := DupName(n + 1);
      var h1 := if name in h then h else h[name := BLANK.(stored := matches[d.1])];
      assert Grown(h, h1);
      TangledStays(h, h1);
      AddChildGrows(h1, d.0, name);
      TangledStays(h1, AddChild(h1, d.0, name));
    }
  }

  /** The duplicates leave a forest if and only if each can be hung up at its turn;
      otherwise some container is listed twice or below itself. */
  lemma {:induction false} DuplicatesKeepForestIff(h: Heap, st: Threads, matches: seq<QueryMatch>, ds: seq<(Id, nat)>)
    requires Represents(h, st, matches) && forall d <- ds :: d.1 < |matches|
    requires st.slots.Keys <= Nodes(st.forest) && st.dates.Keys <= Nodes(st.forest)
    ensures IsForest(AddDuplicates(h, ds, matches).0) <==> AllHang(st, ds)
    ensures IsForest(AddDuplicates(h, ds, matches).0) <==> !Tangled(AddDuplicates(h, ds, matches).0)
  {
    var h' := AddDuplicates(h, ds, matches).0;
    if AllHang(st, ds) {
      AddDuplicatesRepresents(h, st, matches, ds);
      ForestsAreNotTangled(h', AddDups(st, ds).0.forest);
    } else {
      var init, d := ds[..|ds| - 1], ds[|ds| - 1];
      var (h1, n) := AddDuplicates(h, init, matches);
      DuplicatesKeepForestIff(h, st, matches, init);
      if AllHang(st, init) {
        AddDuplicatesRepresents(h, st, matches, init);
        AddDupKeepsForestIff(h1, AddDups(st, init).0.forest, d.0, DupName(n + 1), matches[d.1]);
      } else {
        OneDuplicateStaysTangled(h1, n, d, matches);
      }
      forall g ensures !Holds(h', g) { if Holds(h', g) { ForestsAreNotTangled(h', g); } }
    }
  }

  /** So the whole table of a run is a forest exactly for the runs the other
      theorems are about. */
  lemma TableIsForestIff(h: Heap, ms: seq<Message>, matches: seq<QueryMatch>)
    requires |ms| == |matches| && Represents(h, Main(ms), matches)
    ensures forall d <- Dups(ms) :: d.1 < |matches|
    ensures IsForest(AddDuplicates(h, Dups(ms), matches).0) <==> StaysForest(ms)
  {
    BuildRepresents(h, ms, matches);
    MainSlots(ms);
    MainDates(ms);
    DuplicatesKeepForestIff(h, Main(ms), matches, Dups(ms));
  }

  // Examples

  /** Two results: m, and a duplicate of it. */
  lemma OneMessageTwice(m: Message, d: Message)
    requires EffectiveId(m) == EffectiveId(d) && m.refs == [] && !m.duplicate && d.duplicate
    ensures Main([m, d]).forest == Tree(EffectiveId(m), Nil, Nil) && Dups([m, d]) == [(EffectiveId(m), 1)]
  {
    var x := EffectiveId(m);
    assert [m, d][..1] == [m] && [m][..0] == [];
    assert m.refs + [x] == [x] && [x][1..] == [];
    assert Main([]).forest == Nil;
    assert Chain(Tree(x, Nil, Nil), None, [x]) == Tree(x, Nil, Nil);
    assert Main([m]).forest == Tree(x, Nil, Nil);
    assert Dups([m]) == [] && Dups([m, d]) == InsertDup([], (x, 1));
  }

  /** If its id is the first made-up name, it is hung below itself: the table is no
      forest. */
  lemma TakenNameClosesLoop(m: Message, d: Message)
    requires EffectiveId(m) == EffectiveId(d) && m.refs == [] && !m.duplicate && d.duplicate
    ensures StaysForest([m, d]) <==> EffectiveId(m) != "dup-1"
  {
    var x := EffectiveId(m);
    OneMessageTwice(m, d);
    var st, ds := Main([m, d]), Dups([m, d]);
    assert ds[..0] == [] && AddDups(st, []) == (st, 0) && AllHang(st, []);
    assert DupName(1) == "dup-1";
    assert AllHang(st, ds) <==> CanHang(st.forest, 0, ds[0]);
  }
}
