/** The promises of table building: every run of results leaves a forest, links
    are written once, come from a References chain, and are only refused where
    they would close a loop; and exactly which results get a container. */
module IdTableProofs {
  import opened Wrappers
  import opened Forests
  import opened IdTableSpec
  import ByteStrings
  import Decimal

  /** g keeps every container, every parent and every ancestor of f. */
  ghost predicate Extends(f: Forest, g: Forest) {
    && Nodes(f) <= Nodes(g)
    && (forall y <- Nodes(f) :: ParentIn(f, y, None).Some? ==> ParentIn(g, y, None) == ParentIn(f, y, None))
    && (forall a, b :: Above(f, a, b) ==> Above(g, a, b))
  }

  /** p and x follow each other in ids. */
  ghost predicate Adjacent(ids: seq<Id>, p: Id, x: Id) {
    exists i :: 0 < i < |ids| && ids[i - 1] == p && ids[i] == x
  }

  /** x hangs somewhere, unless hanging it below p would close a loop. */
  predicate Honoured(f: Forest, p: Id, x: Id) {
    p in Nodes(f) && x in Nodes(f) && (x !in Roots(f) || x == p || Above(f, x, p))
  }

  /** ids with the predecessor, if there is one, in front. */
  function After(prev: Option<Id>, ids: seq<Id>): seq<Id> {
    if prev.Some? then [prev.value] + ids else ids
  }

  lemma AdjacentLater(prev: Option<Id>, ids: seq<Id>, p: Id, x: Id)
    requires Adjacent(ids, p, x)
    ensures Adjacent(After(prev, ids), p, x)
  {
    var i :| 0 < i < |ids| && ids[i - 1] == p && ids[i] == x;
    var d := |After(prev, ids)| - |ids|;
    assert After(prev, ids)[i - 1 + d] == p && After(prev, ids)[i + d] == x;
  }

  /** The chain a result asks for. */
  function ChainOf(m: Message): seq<Id> { m.refs + [EffectiveId(m)] }

  lemma {:induction false} EnsureExtends(f: Forest, x: Id)
    requires Distinct(f)
    ensures Extends(f, Ensure(f, x))
    ensures forall y <- Nodes(f) :: ParentIn(Ensure(f, x), y, None) == ParentIn(f, y, None)
    ensures x !in Nodes(f) ==> ParentIn(Ensure(f, x), x, None) == None
  {}

  lemma LinkExtends(f: Forest, p: Id, x: Id)
    requires Distinct(f) && p in Nodes(f) && CanLink(f, p, x)
    ensures Extends(f, Link(f, p, x))
  {
    var h := Link(f, p, x);
    LinkKeepsForest(f, p, x);
    forall y | y in Nodes(f) ensures ParentIn(f, y, None).Some? ==> ParentIn(h, y, None) == ParentIn(f, y, None) {
      LinkParent(f, p, x, y);
      ParentOfRoot(f, y);
    }
    forall a, b | Above(f, a, b) ensures Above(h, a, b) { LinkAbove(f, p, x, a, b); }
  }

  lemma ConnectExtends(f: Forest, prev: Option<Id>, x: Id)
    requires Distinct(f)
    requires prev.Some? ==> prev.value in Nodes(f)
    ensures Extends(f, Connect(f, prev, x))
  {
    var g := Ensure(f, x);
    EnsureExtends(f, x);
    if prev.Some? && CanLink(g, prev.value, x) {
      LinkExtends(g, prev.value, x);
      ExtendsTransitive(f, g, Link(g, prev.value, x));
    }
  }

  lemma ExtendsTransitive(f: Forest, g: Forest, h: Forest)
    requires Extends(f, g) && Extends(g, h)
    ensures Extends(f, h)
  {}

  lemma {:induction false} ChainExtends(f: Forest, prev: Option<Id>, ids: seq<Id>)
    requires Distinct(f)
    requires prev.Some? ==> prev.value in Nodes(f)
    ensures Extends(f, Chain(f, prev, ids))
    decreases |ids|
  {
    if ids != [] {
      ConnectKeepsForest(f, prev, ids[0]);
      ConnectExtends(f, prev, ids[0]);
      ChainExtends(Connect(f, prev, ids[0]), Some(ids[0]), ids[1..]);
      ExtendsTransitive(f, Connect(f, prev, ids[0]), Chain(f, prev, ids));
    }
  }

  // Every link is asked for

  lemma ConnectParent(f: Forest, prev: Option<Id>, x: Id, y: Id)
    requires Distinct(f)
    requires prev.Some? ==> prev.value in Nodes(f)
    requires y in Nodes(f) + {x}
    ensures ParentIn(Connect(f, prev, x), y, None) ==
            if y == x && prev.Some? && CanLink(Ensure(f, x), prev.value, x) then prev
            else if y in Nodes(f) then ParentIn(f, y, None)
            else None
  {
    EnsureExtends(f, x);
    var g := Ensure(f, x);
    if prev.Some? && CanLink(g, prev.value, x) { LinkParent(g, prev.value, x, y); }
  }

  lemma {:induction false} ChainJustified(f: Forest, prev: Option<Id>, ids: seq<Id>, y: Id)
    requires Distinct(f)
    requires prev.Some? ==> prev.value in Nodes(f)
    requires y in Nodes(f) || y in ids
    ensures var p := ParentIn(Chain(f, prev, ids), y, None);
            || (y in Nodes(f) && p == ParentIn(f, y, None))
            || p == None
            || Adjacent(After(prev, ids), p.value, y)
    decreases |ids|
  {
    if ids != [] {
      var x := ids[0];
      var g := Connect(f, prev, x);
      ConnectKeepsForest(f, prev, x);
      ChainJustified(g, Some(x), ids[1..], y);
      var p := ParentIn(Chain(f, prev, ids), y, None);
      if y in Nodes(g) && p == ParentIn(g, y, None) {
        ConnectParent(f, prev, x, y);
        if p.Some? && y == x && p == prev {
          assert After(prev, ids)[0] == p.value && After(prev, ids)[1] == y;
        }
      } else if p.Some? {
        assert After(Some(x), ids[1..]) == ids;
        AdjacentLater(prev, ids, p.value, y);
      }
    }
  }

  // Every request is honoured

  lemma HonouredStays(f: Forest, g: Forest, p: Id, x: Id)
    requires Distinct(f) && Distinct(g) && Extends(f, g) && Honoured(f, p, x)
    ensures Honoured(g, p, x)
  {
    ParentOfRoot(f, x);
    ParentOfRoot(g, x);
  }

  lemma ConnectHonours(f: Forest, p: Id, x: Id)
    requires Distinct(f) && p in Nodes(f)
    ensures Honoured(Connect(f, Some(p), x), p, x)
  {
    var g := Ensure(f, x);
    if CanLink(g, p, x) {
      LinkKeepsForest(g, p, x);
      LinkParent(g, p, x, x);
      ParentOfRoot(Link(g, p, x), x);
    } else if x in Roots(g) {
      RootIsAbove(g, p);
    }
  }

  lemma RootIsAbove(f: Forest, x: Id)
    requires Distinct(f) && x in Nodes(f)
    ensures RootOf(f, x) == x || Above(f, RootOf(f, x), x)
  {}

  lemma {:induction false} ChainHonours(f: Forest, prev: Option<Id>, ids: seq<Id>, p: Id, x: Id)
    requires Distinct(f)
    requires prev.Some? ==> prev.value in Nodes(f)
    requires Adjacent(After(prev, ids), p, x)
    ensures Honoured(Chain(f, prev, ids), p, x)
    decreases |ids|
  {
    var all := After(prev, ids);
    var i :| 0 < i < |all| && all[i - 1] == p && all[i] == x;
    var g := Connect(f, prev, ids[0]);
    ConnectKeepsForest(f, prev, ids[0]);
    if prev.Some? && i == 1 {
      ConnectHonours(f, p, x);
      ChainExtends(g, Some(x), ids[1..]);
      HonouredStays(g, Chain(f, prev, ids), p, x);
    } else {
      var rest := After(Some(ids[0]), ids[1..]);
      var d := |all| - |ids|;
      assert rest == ids && rest[i - 1 - d] == p && rest[i - d] == x;
      ChainHonours(g, Some(ids[0]), ids[1..], p, x);
    }
  }

  // Over whole runs

  lemma AddMessageExtends(st: Threads, i: nat, m: Message)
    requires Distinct(st.forest)
    ensures Extends(st.forest, AddMessage(st, i, m).forest)
  {
    var g := Ensure(st.forest, EffectiveId(m));
    EnsureExtends(st.forest, EffectiveId(m));
    ChainExtends(g, None, ChainOf(m));
    ExtendsTransitive(st.forest, g, AddMessage(st, i, m).forest);
  }

  /** Links are written once: later results keep every parent and ancestor. */
  lemma {:induction false} LinksAreWrittenOnce(ms: seq<Message>, n: nat)
    requires n <= |ms|
    ensures Extends(Main(ms[..n]).forest, Main(ms).forest)
    decreases |ms|
  {
    if n == |ms| {
      assert ms[..n] == ms;
    } else {
      var l := |ms| - 1;
      assert ms[..l][..n] == ms[..n];
      LinksAreWrittenOnce(ms[..l], n);
      if !ms[l].duplicate {
        AddMessageExtends(Main(ms[..l]), l, ms[l]);
        ExtendsTransitive(Main(ms[..n]).forest, Main(ms[..l]).forest, Main(ms).forest);
      }
    }
  }

  /** The containers are the ids and references of the non-duplicate results. */
  lemma {:induction false} TableIds(ms: seq<Message>, x: Id)
    ensures x in Nodes(Main(ms).forest) <==>
            exists i :: 0 <= i < |ms| && !ms[i].duplicate && (GoesBy(ms[i], x) || x in ms[i].refs)
  {
    if ms != [] {
      var n := |ms| - 1;
      TableIds(ms[..n], x);
      assert forall i :: 0 <= i < n ==> ms[..n][i] == ms[i];
      if !ms[n].duplicate { AddMessageIds(Main(ms[..n]), n, ms[n], x); }
    }
  }

  lemma AddMessageIds(st: Threads, i: nat, m: Message, x: Id)
    requires Distinct(st.forest)
    ensures x in Nodes(AddMessage(st, i, m).forest) <==> x in Nodes(st.forest) || GoesBy(m, x) || x in m.refs
    ensures x in ChainOf(m) <==> GoesBy(m, x) || x in m.refs
  {
    ChainNodes(Ensure(st.forest, EffectiveId(m)), None, ChainOf(m), x);
  }

  /** A parent is always the predecessor in some non-duplicate result's chain. */
  lemma {:induction false} LinksAreJustified(ms: seq<Message>, y: Id, p: Id)
    requires y in Nodes(Main(ms).forest) && ParentIn(Main(ms).forest, y, None) == Some(p)
    ensures exists i ::
              0 <= i < |ms| && !ms[i].duplicate && Adjacent(ms[i].refs + [EffectiveId(ms[i])], p, y)
  {
    var n := |ms| - 1;
    assert ms == ms[..n] + [ms[n]];
    var f := Main(ms[..n]).forest;
    if y in Nodes(f) && ParentIn(f, y, None) == Some(p) {
      LinksAreJustified(ms[..n], y, p);
      var i :| 0 <= i < n && !ms[..n][i].duplicate && Adjacent(ChainOf(ms[..n][i]), p, y);
      assert ms[i] == ms[..n][i];
    } else {
      EnsureExtends(f, EffectiveId(ms[n]));
      if !ms[n].duplicate { AddMessageIds(Main(ms[..n]), n, ms[n], y); }
      ChainJustified(Ensure(f, EffectiveId(ms[n])), None, ChainOf(ms[n]), y);
      assert Adjacent(ChainOf(ms[n]), p, y);
    }
  }

  /** Each pair of neighbours in a chain is honoured in the final table. */
  lemma {:induction false} LinksAreHonoured(ms: seq<Message>, i: nat, p: Id, x: Id)
    requires i < |ms| && !ms[i].duplicate && Adjacent(ms[i].refs + [EffectiveId(ms[i])], p, x)
    ensures Honoured(Main(ms).forest, p, x)
  {
    var st := Main(ms[..i]);
    assert ms[..i + 1][..i] == ms[..i];
    ChainHonours(Ensure(st.forest, EffectiveId(ms[i])), None, ChainOf(ms[i]), p, x);
    LinksAreWrittenOnce(ms, i + 1);
    HonouredStays(Main(ms[..i + 1]).forest, Main(ms).forest, p, x);
  }

  // Duplicates

  /** A name of the form made up for duplicates. */
  ghost predicate IsDupName(x: Id) { exists n: nat :: x == DupName(n) }

  lemma DupNamesDiffer(m: nat, n: nat)
    requires DupName(m) == DupName(n)
    ensures m == n
  {
    assert DupName(m)[4..] == Decimal.Digits(m) && DupName(n)[4..] == Decimal.Digits(n);
    Decimal.NumberOfDigits(m);
    Decimal.NumberOfDigits(n);
  }

  /** By id, and in the order of the results for one id. */
  predicate InDupOrder(a: (Id, nat), b: (Id, nat)) { ByteStrings.Le(a.0, b.0) && (a.0 == b.0 ==> a.1 < b.1) }

  lemma {:induction false} DupsAre(ms: seq<Message>, d: (Id, nat))
    ensures d in Dups(ms) <==> d.1 < |ms| && ms[d.1].duplicate && d.0 == EffectiveId(ms[d.1])
    ensures forall j, k :: 0 <= j < k < |Dups(ms)| ==> Dups(ms)[j].1 != Dups(ms)[k].1
    ensures forall j :: 0 <= j < |Dups(ms)| ==> Dups(ms)[j].1 < |ms|
    ensures forall j, k :: 0 <= j < k < |Dups(ms)| ==> InDupOrder(Dups(ms)[j], Dups(ms)[k])
  {
    if ms != [] {
      var n := |ms| - 1;
      DupsAre(ms[..n], d);
      if ms[n].duplicate { InsertDupAdds(Dups(ms[..n]), (EffectiveId(ms[n]), n), d); }
      assert d.1 < n ==> ms[..n][d.1] == ms[d.1];
    }
  }

  lemma BeforeAllDups(ds: seq<(Id, nat)>, e: (Id, nat), k: nat)
    requires k < |ds| && ByteStrings.Lt(e.0, ds[0].0) && (k > 0 ==> InDupOrder(ds[0], ds[k]))
    ensures InDupOrder(e, ds[k])
  {
    ByteStrings.Total(e.0, ds[k].0);
    ByteStrings.Total(ds[0].0, ds[k].0);
    ByteStrings.Irreflexive(ds[0].0);
    if ByteStrings.Lt(ds[k].0, e.0) { ByteStrings.Transitive(ds[k].0, e.0, ds[0].0); }
  }

  lemma {:induction false} InsertDupAdds(ds: seq<(Id, nat)>, e: (Id, nat), d: (Id, nat))
    requires forall j, k :: 0 <= j < k < |ds| ==> ds[j].1 != ds[k].1
    requires forall j :: 0 <= j < |ds| ==> ds[j].1 < e.1
    requires forall j, k :: 0 <= j < k < |ds| ==> InDupOrder(ds[j], ds[k])
    ensures var r := InsertDup(ds, e);
            && |r| == |ds| + 1
            && (d in r <==> d == e || d in ds)
            && (forall j, k :: 0 <= j < k < |r| ==> r[j].1 != r[k].1)
            && (forall j :: 0 <= j < |r| ==> r[j].1 <= e.1)
            && (forall j, k :: 0 <= j < k < |r| ==> InDupOrder(r[j], r[k]))
            && (forall j :: 0 <= j < |r| ==> r[j] == e || r[j] in ds)
  {
    if ds == [] {
    } else if ByteStrings.Lt(e.0, ds[0].0) {
      forall k | 0 <= k < |ds| ensures InDupOrder(e, ds[k]) { BeforeAllDups(ds, e, k); }
    } else {
      InsertDupAdds(ds[1..], e, d);
      assert ds == [ds[0]] + ds[1..];
    }
  }

  ghost predicate Injective(m: map<Id, nat>) {
    forall a <- m, b <- m :: m[a] == m[b] ==> a == b
  }

  /** The first n made-up names. */
  function DupNames(n: nat): set<Id> { if n == 0 then {} else DupNames(n - 1) + {DupName(n)} }

  /** The duplicates that are hung up, in order: each whose id is in the table at
      its turn, be it one of ids or a name made up before. */
  function Hung(ids: set<Id>, ds: seq<(Id, nat)>): seq<(Id, nat)> {
    if ds == [] then []
    else
      var before, d := Hung(ids, ds[..|ds| - 1]), ds[|ds| - 1];
      if d.0 in ids + DupNames(|before|) then before + [d] else before
  }

  /** Of the duplicates hung up, those that get a container of their own: whose name
      is free. */
  function Named(ids: set<Id>, hung: seq<(Id, nat)>): set<nat> {
    set k | 0 <= k < |hung| && DupName(k + 1) !in ids :: hung[k].1
  }

  /** The results among them. */
  function Found(f: Forest, ds: seq<(Id, nat)>): set<nat> { Named(Nodes(f), Hung(Nodes(f), ds)) }

  /** No name made up for the duplicates is the id of a container already. */
  predicate FreshNames(f: Forest, ds: seq<(Id, nat)>) { DupNames(|Hung(Nodes(f), ds)|) !! Nodes(f) }

  /** ... for all duplicates of a run. */
  predicate NamesAreFresh(ms: seq<Message>) { FreshNames(Main(ms).forest, Dups(ms)) }

  lemma {:induction false} DupNamesGrow(m: nat, n: nat)
    requires m <= n
    ensures DupNames(m) <= DupNames(n) && (m < n ==> DupName(m + 1) in DupNames(n))
  {
    if m < n { DupNamesGrow(m, n - 1); }
  }

  lemma {:induction false} DupNamesAre(n: nat, x: Id)
    ensures x in DupNames(n) <==> exists k :: 1 <= k <= n && x == DupName(k)
  {
    if n > 0 { DupNamesAre(n - 1, x); }
  }

  /** One more duplicate: whether it is hung up, and under which name. */
  lemma HungStep(f: Forest, ds: seq<(Id, nat)>)
    requires ds != []
    ensures var init, d := ds[..|ds| - 1], ds[|ds| - 1];
            var n := |Hung(Nodes(f), init)|;
            && Hung(Nodes(f), ds) ==
               (if d.0 in Nodes(f) + DupNames(n) then Hung(Nodes(f), init) + [d] else Hung(Nodes(f), init))
            && (FreshNames(f, ds) ==>
                  FreshNames(f, init) && (d.0 in Nodes(f) + DupNames(n) ==> DupName(n + 1) !in Nodes(f)))
  {
    var n := |Hung(Nodes(f), ds[..|ds| - 1])|;
    DupNamesGrow(n, |Hung(Nodes(f), ds)|);
  }

  lemma {:induction false} NameIsNew(m: nat, n: nat)
    requires n < m
    ensures DupName(m) !in DupNames(n)
  {
    if n > 0 {
      NameIsNew(m, n - 1);
      if DupName(m) == DupName(n) { DupNamesDiffer(m, n); }
    }
  }

  lemma NamedGrows(ids: set<Id>, hung: seq<(Id, nat)>, d: (Id, nat))
    ensures Named(ids, hung + [d]) == if DupName(|hung| + 1) !in ids then Named(ids, hung) + {d.1} else Named(ids, hung)
  {
    hide DupName;
    var all := hung + [d];
    assert all[|hung|] == d;
    forall j | j in Named(ids, hung) ensures j in Named(ids, all) {
      var k :| 0 <= k < |hung| && DupName(k + 1) !in ids && hung[k].1 == j;
      assert all[k].1 == j;
    }
  }

  lemma FoundGrows(f: Forest, ds: seq<(Id, nat)>)
    requires ds != []
    ensures var init, d := ds[..|ds| - 1], ds[|ds| - 1];
            var n := |Hung(Nodes(f), init)|;
            Found(f, ds) == if d.0 in Nodes(f) + DupNames(n) && DupName(n + 1) !in Nodes(f) then Found(f, init) + {d.1}
                            else Found(f, init)
  {
    hide Named, DupName, Nodes, DupNames;
    NamedGrows(Nodes(f), Hung(Nodes(f), ds[..|ds| - 1]), ds[|ds| - 1]);
  }

  /** Every duplicate that is hung up gets its own container if and only if all
      names are fresh. */
  lemma AllFoundIffFresh(f: Forest, ds: seq<(Id, nat)>)
    requires forall j, k :: 0 <= j < k < |ds| ==> ds[j].1 != ds[k].1
    ensures (forall d <- Hung(Nodes(f), ds) :: d.1 in Found(f, ds)) <==> FreshNames(f, ds)
  {
    var hung := Hung(Nodes(f), ds);
    HungDiffer(Nodes(f), ds);
    forall k | 0 <= k < |hung| ensures hung[k].1 in Found(f, ds) <==> DupName(k + 1) !in Nodes(f) {
      if hung[k].1 in Found(f, ds) {
        var j :| 0 <= j < |hung| && DupName(j + 1) !in Nodes(f) && hung[j].1 == hung[k].1;
        assert j == k;
      }
    }
    if !FreshNames(f, ds) {
      var x :| x in DupNames(|hung|) && x in Nodes(f);
      DupNamesAre(|hung|, x);
      var n :| 1 <= n <= |hung| && x == DupName(n);
      assert hung[n - 1] in hung && hung[n - 1].1 !in Found(f, ds);
    } else {
      forall k | 0 <= k < |hung| ensures hung[k].1 in Found(f, ds) { DupNamesGrow(k, |hung|); }
    }
  }

  lemma {:induction false} HungDiffer(ids: set<Id>, ds: seq<(Id, nat)>)
    requires forall j, k :: 0 <= j < k < |ds| ==> ds[j].1 != ds[k].1
    ensures forall j, k :: 0 <= j < k < |Hung(ids, ds)| ==> Hung(ids, ds)[j].1 != Hung(ids, ds)[k].1
  {
    if ds != [] {
      var init, d := ds[..|ds| - 1], ds[|ds| - 1];
      HungDiffer(ids, init);
      forall e | e in Hung(ids, init) ensures e.1 != d.1 { HungAreDups(ids, init, e); }
    }
  }

  lemma {:induction false} HungAreDups(ids: set<Id>, ds: seq<(Id, nat)>, d: (Id, nat))
    ensures d in Hung(ids, ds) ==> d in ds && (d.0 in ids || IsDupName(d.0))
    ensures d in ds && d.0 in ids ==> d in Hung(ids, ds)
  {
    if ds != [] {
      var init := ds[..|ds| - 1];
      HungAreDups(ids, init, d);
      assert ds == init + [ds[|ds| - 1]];
      DupNamesAre(|Hung(ids, init)|, d.0);
    }
  }

  lemma SlotsGrow(m: map<Id, nat>, x: Id, j: nat)
    requires Injective(m) && x !in m && j !in m.Values
    ensures Injective(m[x := j])
    ensures m[x := j].Values == m.Values + {j}
  {
    var r := m[x := j];
    forall i | i in m.Values + {j} ensures i in r.Values {
      if i == j { assert r[x] == j; }
      else { var y :| y in m && m[y] == i; assert r[y] == i; }
    }
  }

  /** t is st with containers for n made-up names, those that were free holding a
      result. */
  ghost predicate WithNames(st: Threads, t: Threads, n: nat) {
    && Distinct(t.forest)
    && Nodes(t.forest) == Nodes(st.forest) + DupNames(n)
    && t.slots.Keys == st.slots.Keys + (DupNames(n) - Nodes(st.forest))
    && t.dates == st.dates
  }

  lemma SameExtends(f: Forest)
    ensures Extends(f, f)
  {}

  lemma NewLeaf(f: Forest, p: Id, x: Id)
    requires Distinct(f) && p in Nodes(f) && x !in Nodes(f)
    ensures var g := Insert(f, p, Tree(x, Nil, Nil));
            Distinct(g) && Nodes(g) == Nodes(f) + {x} && Extends(f, g)
  {
    var leaf := Tree(x, Nil, Nil);
    assert Nodes(leaf) == {x} && Distinct(leaf);
    InsertNodes(f, p, leaf);
    InsertExtends(f, p, leaf);
  }

  lemma OneDupNamed(st: Threads, t: Threads, n: nat, d: (Id, nat))
    requires WithNames(st, t, n) && CanHang(t.forest, n, d)
    ensures WithNames(st, AddOneDup(t, n, d).0, AddOneDup(t, n, d).1)
    ensures Extends(t.forest, AddOneDup(t, n, d).0.forest)
  {
    hide Extends, Insert, Link, CanLink, DupName, Nodes, Distinct;
    var name := DupName(n + 1);
    NameIsNew(n + 1, n);
    if d.0 !in Nodes(t.forest) {
      SameExtends(t.forest);
    } else if name in Nodes(t.forest) {
      LinkKeepsForest(t.forest, d.0, name);
      LinkExtends(t.forest, d.0, name);
    } else {
      NewLeaf(t.forest, d.0, name);
    }
  }

  /** Hanging duplicates, where each can be hung up, keeps a forest with all its
      links and adds a container for each name that was free. */
  lemma {:induction false} AddDupsKeepsForest(st: Threads, ds: seq<(Id, nat)>)
    requires Distinct(st.forest) && AllHang(st, ds)
    ensures WithNames(st, AddDups(st, ds).0, AddDups(st, ds).1) && AddDups(st, ds).1 == |Hung(Nodes(st.forest), ds)|
    ensures Extends(st.forest, AddDups(st, ds).0.forest)
  {
    if ds != [] {
      AddDupsKeepsForest(st, ds[..|ds| - 1]);
      var (t, n) := AddDups(st, ds[..|ds| - 1]);
      OneDupNamed(st, t, n, ds[|ds| - 1]);
      ExtendsTransitive(st.forest, t.forest, AddDups(st, ds).0.forest);
    }
  }

  /** Fresh names are enough. */
  lemma {:induction false} FreshNamesHang(st: Threads, ds: seq<(Id, nat)>)
    requires Distinct(st.forest) && FreshNames(st.forest, ds)
    ensures AllHang(st, ds)
  {
    if ds != [] {
      HungStep(st.forest, ds);
      FreshNamesHang(st, ds[..|ds| - 1]);
      AddDupsKeepsForest(st, ds[..|ds| - 1]);
      var n := AddDups(st, ds[..|ds| - 1]).1;
      NameIsNew(n + 1, n);
    }
  }

  /** m stores the results of m0 and the found ones of ds, once each. */
  ghost predicate Stores(m0: map<Id, nat>, f: Forest, ds: seq<(Id, nat)>, m: map<Id, nat>) {
    m.Values == m0.Values + Found(f, ds) && Injective(m)
  }

  /** Each duplicate that is hung up under a free name is stored once. */
  lemma {:induction false} AddDupsStores(st: Threads, ds: seq<(Id, nat)>)
    requires Distinct(st.forest) && st.slots.Keys <= Nodes(st.forest) && Injective(st.slots) && AllHang(st, ds)
    requires forall d <- ds :: d.1 !in st.slots.Values
    requires forall j, k :: 0 <= j < k < |ds| ==> ds[j].1 != ds[k].1
    ensures Stores(st.slots, st.forest, ds, AddDups(st, ds).0.slots)
  {
    hide Insert, Link, Hung, Distinct, Stores, Found;
    if ds == [] {
      NoneStored(st.slots, st.forest);
    } else {
      var init := ds[..|ds| - 1];
      var (t, n) := AddDups(st, init);
      assert forall d <- init :: d in ds;
      AddDupsStores(st, init);
      AddDupsKeepsForest(st, init);
      NameIsNew(n + 1, n);
      StoresStep(st.slots, st.forest, ds, t.slots, DupName(n + 1));
    }
  }

  lemma NoneStored(m: map<Id, nat>, f: Forest)
    requires Injective(m)
    ensures Stores(m, f, [], m)
  {
    assert Found(f, []) == {};
  }

  lemma StoresStep(m0: map<Id, nat>, f: Forest, ds: seq<(Id, nat)>, m: map<Id, nat>, name: Id)
    requires ds != [] && Stores(m0, f, ds[..|ds| - 1], m)
    requires ds[|ds| - 1].1 !in m0.Values && forall j :: 0 <= j < |ds| - 1 ==> ds[j].1 != ds[|ds| - 1].1
    ensures var init, d := ds[..|ds| - 1], ds[|ds| - 1];
            var n := |Hung(Nodes(f), init)|;
            if d.0 in Nodes(f) + DupNames(n) && DupName(n + 1) !in Nodes(f) then name !in m ==>
              Stores(m0, f, ds, m[name := d.1])
            else Stores(m0, f, ds, m)
  {
    hide Hung, Found, DupName, DupNames, Nodes;
    var init, d := ds[..|ds| - 1], ds[|ds| - 1];
    FoundGrows(f, ds);
    NotFoundYet(f, init, d);
    if name !in m { SlotsGrow(m, name, d.1); }
  }

  lemma NotFoundYet(f: Forest, ds: seq<(Id, nat)>, d: (Id, nat))
    requires forall e <- ds :: e.1 != d.1
    ensures d.1 !in Found(f, ds)
  {
    if d.1 in Found(f, ds) {
      var k :| 0 <= k < |Hung(Nodes(f), ds)| && Hung(Nodes(f), ds)[k].1 == d.1;
      HungAreDups(Nodes(f), ds, Hung(Nodes(f), ds)[k]);
    }
  }

  lemma InsertExtends(f: Forest, p: Id, g: Forest)
    requires Distinct(f) && Distinct(g) && Nodes(f) !! Nodes(g) && p in Nodes(f)
    ensures Extends(f, Insert(f, p, g))
  {
    InsertNodes(f, p, g);
    forall y | y in Nodes(f) ensures ParentIn(Insert(f, p, g), y, None) == ParentIn(f, y, None) {
      InsertParent(f, p, g, y, None);
    }
    forall a, b | Above(f, a, b) ensures Above(Insert(f, p, g), a, b) { InsertAbove(f, p, g, a, b); }
  }

  /** The k-th duplicate that is hung up hangs below the container of its id, under
      the k-th name, and is stored there if that name was free. */
  lemma {:induction false} DupsHangBelow(st: Threads, ds: seq<(Id, nat)>, k: nat)
    requires Distinct(st.forest) && AllHang(st, ds) && k < |Hung(Nodes(st.forest), ds)|
    ensures var t, d, name := AddDups(st, ds).0, Hung(Nodes(st.forest), ds)[k], "dup-" + Decimal.Digits(k + 1);
            && name in Nodes(t.forest) && ParentIn(t.forest, name, None) == Some(d.0)
            && (name !in Nodes(st.forest) ==> name in t.slots && t.slots[name] == d.1)
  {
    hide Insert, Link, CanLink, DupName, Nodes, Distinct, Extends;
    DupNameIs(k + 1);
    var init, d, name := ds[..|ds| - 1], ds[|ds| - 1], DupName(k + 1);
    var (t, n) := AddDups(st, init);
    AddDupsKeepsForest(st, init);
    AddDupsKeepsForest(st, ds);
    OneDupNamed(st, t, n, d);
    if k < n {
      DupsHangBelow(st, init, k);
      ParentStays(t.forest, AddDups(st, ds).0.forest, name);
      NameIsNew(n + 1, k + 1);
      DupNamesGrow(k, k + 1);
    } else {
      NameIsNew(n + 1, n);
      HangsBelow(t, d.0, name, d.1);
    }
  }

  lemma DupNameIs(n: nat)
    ensures DupName(n) == "dup-" + Decimal.Digits(n)
  {}

  lemma ParentStays(f: Forest, g: Forest, x: Id)
    requires Extends(f, g) && x in Nodes(f) && ParentIn(f, x, None).Some?
    ensures ParentIn(g, x, None) == ParentIn(f, x, None) && x in Nodes(g)
  {}

  lemma HangsBelow(t: Threads, x: Id, name: Id, j: nat)
    requires Distinct(t.forest) && x in Nodes(t.forest) && (name in Nodes(t.forest) ==> CanLink(t.forest, x, name))
    ensures var u := WithDup(t, x, name, j);
            && name in Nodes(u.forest) && ParentIn(u.forest, name, None) == Some(x)
            && (name !in Nodes(t.forest) ==> name in u.slots && u.slots[name] == j)
  {
    hide Insert, Link;
    if name in Nodes(t.forest) {
      LinkParent(t.forest, x, name, name);
      LinkKeepsForest(t.forest, x, name);
    } else {
      var leaf := Tree(name, Nil, Nil);
      InsertNodes(t.forest, x, leaf);
      InsertParent(t.forest, x, leaf, name, None);
    }
  }

  // Which results get a container

  /** The first non-duplicate result with the effective id x. */
  ghost predicate IsFirst(ms: seq<Message>, i: nat, x: Id) {
    && i < |ms| && !ms[i].duplicate && EffectiveId(ms[i]) == x
    && forall j :: 0 <= j < i && !ms[j].duplicate ==> EffectiveId(ms[j]) != x
  }

  /** m stores the first result of each effective id, and nothing else. */
  ghost predicate StoresFirsts(ms: seq<Message>, m: map<Id, nat>) {
    && (forall x <- m :: IsFirst(ms, m[x], x))
    && (forall i :: 0 <= i < |ms| && !ms[i].duplicate ==> EffectiveId(ms[i]) in m)
  }

  lemma StoresOneMore(ms: seq<Message>, e: Message, m: map<Id, nat>)
    requires StoresFirsts(ms, m)
    ensures StoresFirsts(ms + [e], if e.duplicate || EffectiveId(e) in m then m else m[EffectiveId(e) := |ms|])
  {
    forall x, i | IsFirst(ms, i, x) ensures IsFirst(ms + [e], i, x) {}
    assert forall i :: 0 <= i < |ms| ==> (ms + [e])[i] == ms[i];
    if !e.duplicate && EffectiveId(e) !in m { assert IsFirst(ms + [e], |ms|, EffectiveId(e)); }
  }

  lemma {:induction false} MainSlots(ms: seq<Message>)
    ensures Main(ms).slots.Keys <= Nodes(Main(ms).forest)
    ensures StoresFirsts(ms, Main(ms).slots)
    ensures Injective(Main(ms).slots)
  {
    if ms != [] {
      var n := |ms| - 1;
      MainSlots(ms[..n]);
      StoresOneMore(ms[..n], ms[n], Main(ms[..n]).slots);
      assert ms[..n] + [ms[n]] == ms;
    }
    forall x, y | x in Main(ms).slots && y in Main(ms).slots && Main(ms).slots[x] == Main(ms).slots[y]
      ensures x == y
    {
      assert IsFirst(ms, Main(ms).slots[x], x) && IsFirst(ms, Main(ms).slots[y], y);
    }
  }

  /** Result i has a place in the tree: as the first of its id, or as a duplicate
      that is hung up under a name of its own. */
  ghost predicate Placed(ms: seq<Message>, i: nat)
    requires i < |ms|
  {
    if ms[i].duplicate then i in Found(Main(ms).forest, Dups(ms))
    else IsFirst(ms, i, EffectiveId(ms[i]))
  }

  /** The table is a forest of containers, and the results stored in it, each in
      one container, are exactly the placed ones. */
  lemma BuildPlaces(ms: seq<Message>)
    requires StaysForest(ms)
    ensures Distinct(Build(ms).forest)
    ensures Extends(Main(ms).forest, Build(ms).forest)
    ensures Injective(Build(ms).slots) && Build(ms).slots.Keys <= Nodes(Build(ms).forest)
    ensures forall i :: i in Build(ms).slots.Values <==> 0 <= i < |ms| && Placed(ms, i)
  {
    var st, ds := Main(ms), Dups(ms);
    MainSlots(ms);
    forall d | d in ds ensures d.1 !in st.slots.Values {
      DupsAre(ms, d);
      MainStores(ms, d.1);
    }
    DupsAre(ms, ("", 0));
    AddDupsKeepsForest(st, ds);
    AddDupsStores(st, ds);
    forall i ensures i in Build(ms).slots.Values <==> 0 <= i < |ms| && Placed(ms, i) {
      MainStores(ms, i);
      FoundDups(ms, i);
    }
  }

  lemma MainStores(ms: seq<Message>, i: int)
    ensures i in Main(ms).slots.Values <==> 0 <= i < |ms| && !ms[i].duplicate && IsFirst(ms, i, EffectiveId(ms[i]))
  {
    MainSlots(ms);
    var m := Main(ms).slots;
    if i in m.Values { var x :| x in m && m[x] == i; assert IsFirst(ms, m[x], x); }
    if 0 <= i < |ms| && !ms[i].duplicate && IsFirst(ms, i, EffectiveId(ms[i])) {
      var x := EffectiveId(ms[i]);
      assert IsFirst(ms, m[x], x);
      assert m[x] == i;
    }
  }

  /** A duplicate has a place only if the table has its id, be it a name made up
      before; and if all names are fresh, each whose id is in the table has one. */
  lemma FoundDups(ms: seq<Message>, i: int)
    ensures i in Found(Main(ms).forest, Dups(ms)) ==>
              && 0 <= i < |ms| && ms[i].duplicate
              && (EffectiveId(ms[i]) in Nodes(Main(ms).forest) || IsDupName(EffectiveId(ms[i])))
    ensures NamesAreFresh(ms) && 0 <= i < |ms| && ms[i].duplicate && EffectiveId(ms[i]) in Nodes(Main(ms).forest) ==>
              i in Found(Main(ms).forest, Dups(ms))
  {
    var ids, ds := Nodes(Main(ms).forest), Dups(ms);
    DupsAre(ms, ("", 0));
    if i in Found(Main(ms).forest, ds) {
      var k :| 0 <= k < |Hung(ids, ds)| && Hung(ids, ds)[k].1 == i;
      HungAreDups(ids, ds, Hung(ids, ds)[k]);
      DupsAre(ms, Hung(ids, ds)[k]);
    }
    if 0 <= i < |ms| && ms[i].duplicate {
      DupsAre(ms, (EffectiveId(ms[i]), i));
      HungAreDups(ids, ds, (EffectiveId(ms[i]), i));
      AllFoundIffFresh(Main(ms).forest, ds);
    }
  }

  /** Every duplicate that is hung up has a place if and only if all names are
      fresh. */
  lemma DupsArePlacedIffNamesAreFresh(ms: seq<Message>)
    ensures forall d <- Hung(Nodes(Main(ms).forest), Dups(ms)) :: d.1 < |ms| && ms[d.1].duplicate
    ensures (forall d <- Hung(Nodes(Main(ms).forest), Dups(ms)) :: Placed(ms, d.1)) <==> NamesAreFresh(ms)
  {
    var ids, ds := Nodes(Main(ms).forest), Dups(ms);
    DupsAre(ms, ("", 0));
    forall d | d in Hung(ids, ds) ensures d.1 < |ms| && ms[d.1].duplicate {
      HungAreDups(ids, ds, d);
      DupsAre(ms, d);
    }
    AllFoundIffFresh(Main(ms).forest, ds);
  }

  /** So no message is left out, of results whose non-duplicates have different
      ids; and only of those. */
  lemma AllPlacedIffDistinct(ms: seq<Message>)
    ensures (forall i :: 0 <= i < |ms| && !ms[i].duplicate ==> Placed(ms, i)) <==>
            (forall i, j :: 0 <= i < j < |ms| && !ms[i].duplicate && !ms[j].duplicate
                            ==> EffectiveId(ms[i]) != EffectiveId(ms[j]))
  {}
}