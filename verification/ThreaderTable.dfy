/** The threader on the id-table: its steps in order, and what they leave in the
    matches. */
module ThreaderTable {
  import opened Wrappers
  import opened Forests
  import opened IdTableSpec
  import opened IdTableProofs
  import opened Pruning
  import opened Sorting
  import opened ThreadPaths
  import opened ThreadHeap
  import opened TableHeap
  import opened PruneRoots
  import opened SortHeap
  import opened Containers
  import opened TableBuilding
  import opened PruningTable
  import opened SortingTable
  import opened UpdatingTable
  import opened Threader
  import PruneHeap

  /** The keys of a table, in some order. */
  method Enumerate(table: IdTable) returns (order: seq<Id>)
    ensures Enumerates(order, table.Keys)
  {
    order := [];
    var todo := table.Keys;
    while todo != {}
      invariant todo <= table.Keys && Enumerates(order, table.Keys - todo)
    {
      var x :| x in todo;
      order, todo := order + [x], todo - {x};
    }
  }

  ghost predicate DistinctMatches(matches: seq<QueryMatch>) {
    forall i, j :: 0 <= i < j < |matches| ==> matches[i] != matches[j]
  }

  // From one step to the next

  /** The table holds the messages of the forest, each match once. */
  lemma TableMessages(h: Heap, ms: seq<Message>, matches: seq<QueryMatch>)
    requires StaysForest(ms) && |ms| == |matches| && DistinctMatches(matches) && Represents(h, Build(ms), matches)
    ensures PruneHeap.Full(h) == Messages(Build(ms)) && OwnMatches(h)
    ensures forall x <- Build(ms).slots ::
              Build(ms).slots[x] < |matches| && x in h && h[x].stored == matches[Build(ms).slots[x]]
  {
    var st := Build(ms);
    BuildPlaces(ms);
    forall x | x in st.slots ensures st.slots[x] < |matches| { assert st.slots[x] in st.slots.Values; }
    forall x | x in h ensures h[x].stored == MatchOf(st, matches, x) {
      assert Content(h, x) == ContentOf(st, matches, x);
    }
  }

  /** Contents, and so messages, are the same after the links changed. */
  lemma SameMessages(h: Heap, h': Heap)
    requires h'.Keys == h.Keys && forall x :: Content(h', x) == Content(h, x)
    ensures PruneHeap.Full(h') == PruneHeap.Full(h) && (OwnMatches(h) ==> OwnMatches(h'))
    ensures forall x <- h :: h'[x].stored == h[x].stored && h'[x].key == h[x].key
  {
    forall x | x in h ensures h'[x].stored == h[x].stored && h'[x].key == h[x].key {
      assert Content(h', x) == Content(h, x);
    }
  }

  lemma SortedMessages(h: Heap, h': Heap)
    requires OnlySorted(h, h')
    ensures PruneHeap.Full(h') == PruneHeap.Full(h) && (OwnMatches(h) ==> OwnMatches(h'))
    ensures h'.Keys == h.Keys && forall x <- h :: h'[x].stored == h[x].stored
  {
    forall x | x in h' ensures h'[x].stored == h[x].stored { assert SortTame(x, h[x], h'[x], x, {}); }
  }

  lemma {:induction false} LiveRootsAre(h: Heap, order: seq<Id>, x: Id)
    requires forall i, j :: 0 <= i < j < |order| ==> order[i] != order[j]
    ensures x in LiveRoots(h, order) <==> x in order && x in h && h[x].parent.None? && !h[x].nuked
    ensures forall i, j :: 0 <= i < j < |LiveRoots(h, order)| ==> LiveRoots(h, order)[i] != LiveRoots(h, order)[j]
  {
    if order != [] {
      var init, last := order[..|order| - 1], order[|order| - 1];
      LiveRootsAre(h, init, x);
      LiveRootsAre(h, init, last);
      assert order == init + [last];
      assert last !in init;
    }
  }

  lemma SameElements<T>(a: seq<T>, b: seq<T>)
    requires forall i, j :: 0 <= i < j < |a| ==> a[i] != a[j]
    requires forall i, j :: 0 <= i < j < |b| ==> b[i] != b[j]
    requires forall x :: x in a <==> x in b
    ensures multiset(a) == multiset(b)
  {
    forall x ensures multiset(a)[x] == multiset(b)[x] { Occurs(a, x); Occurs(b, x); }
  }

  lemma {:induction false} Occurs<T>(a: seq<T>, x: T)
    requires forall i, j :: 0 <= i < j < |a| ==> a[i] != a[j]
    ensures multiset(a)[x] == if x in a then 1 else 0
  {
    if a != [] {
      assert a == [a[0]] + a[1..];
      Occurs(a[1..], x);
    }
  }

  /** The live roots of a pruned table are the roots of the pruned forest. */
  lemma PrunedRoots(h0: Heap, h: Heap, f: Forest, order: seq<Id>)
    requires Pruned(h0, h, f) && Enumerates(order, h.Keys)
    ensures multiset(LiveRoots(h, order)) == multiset(Roots(PruneTop(f, PruneHeap.Full(h0))))
  {
    var g := PruneTop(f, PruneHeap.Full(h0));
    RepNodes(h, g, None);
    forall x ensures x in LiveRoots(h, order) <==> x in Roots(g) {
      LiveRootsAre(h, order, x);
      if x in Nodes(g) { RepCell(h, g, None, x); ParentOfRoot(g, x); }
    }
    LiveRootsAre(h, order, "");
    forall i, j | 0 <= i < j < |Roots(g)| ensures Roots(g)[i] != Roots(g)[j] { RootsAreDistinct(g, i, j); }
    SameElements(LiveRoots(h, order), Roots(g));
  }

  /** Copies the final date keys to the matches. */
  method SetThreadDates(table: IdTable, order: seq<Id>)
    requires Linked(table) && OwnMatches(Snap(table)) && Enumerates(order, table.Keys)
    modifies MatchSet(Snap(table))`threadDate
    ensures Linked(table) && Snap(table) == old(Snap(table))
    ensures DatesCopied(Snap(table), Seen(order, |order|)) && Written(Snap(table)) == old(Written(Snap(table)))
  {
    hide Linked, Snap, Seen, Enumerates, DatesCopied, OwnMatches, MatchSet, Written;
    ghost var h := Snap(table);
    ghost var w := Written(h);
    NoDates(h, order);
    for i := 0 to |order|
      invariant Linked(table) && Snap(table) == h && DatesCopied(h, Seen(order, i)) && Written(h) == w
    {
      NextEntry(order, i, table.Keys);
      EntryAt(table, order[i]);
      SetThreadDate(h, order[i], table[order[i]], Seen(order, i));
      OneMoreSeen(order, i);
    }
  }

  /** The matches of xs carry the date keys of their containers. */
  ghost predicate DatesCopied(h: Heap, xs: set<Id>)
    reads MatchSet(h)
  {
    forall x <- xs :: x in h && h[x].stored != null ==> h[x].stored.threadDate == h[x].key
  }

  lemma NoDates(h: Heap, order: seq<Id>)
    ensures DatesCopied(h, Seen(order, 0))
  {}

  lemma OneMoreSeen(order: seq<Id>, i: nat)
    requires i < |order|
    ensures Seen(order, i + 1) == Seen(order, i) + {order[i]}
  {}

  method SetThreadDate(ghost h: Heap, ghost x: Id, c: Container, ghost xs: set<Id>)
    requires OwnMatches(h) && x in h && h[x] == CellOf(c) && DatesCopied(h, xs)
    modifies MatchSet(h)`threadDate
    ensures DatesCopied(h, xs + {x}) && Written(h) == old(Written(h))
  {
    if c.queryMatch != null {
      assert c.queryMatch in MatchSet(h);
      c.queryMatch.threadDate := c.threadDateKey;
    }
  }

  // What the matches hold in the end

  /** The key and level the entries give to x. */
  function KeyOf(es: seq<Entry>, x: Id): (string, nat) {
    if es == [] then ("", 0)
    else if es[|es| - 1].id == x then (es[|es| - 1].key, es[|es| - 1].level)
    else KeyOf(es[..|es| - 1], x)
  }

  lemma {:induction false} WriteAt(m: map<Id, (string, nat)>, es: seq<Entry>, x: Id)
    ensures x in Write(m, es) <==> x in m || x in Ids(es)
    ensures x in Ids(es) ==> Write(m, es)[x] == KeyOf(es, x)
  {
    if es != [] {
      var init, last := es[..|es| - 1], es[|es| - 1];
      WriteAt(m, init, x);
      assert es == init + [last];
      IdsAppend(init, [last]);
    }
  }

  lemma {:induction false} KeyOfEntry(es: seq<Entry>, x: Id)
    requires x in Ids(es)
    ensures exists e <- es :: e.id == x && KeyOf(es, x) == (e.key, e.level)
  {
    var init, last := es[..|es| - 1], es[|es| - 1];
    assert es == init + [last];
    IdsAppend(init, [last]);
    if last.id != x {
      KeyOfEntry(init, x);
      var e :| e in init && e.id == x && KeyOf(init, x) == (e.key, e.level);
      assert e in es;
    }
  }

  /** The date of a message's thread: its newest reply, or its own. */
  function ThreadDate(ms: seq<Message>, f: Forest, x: Id): string {
    NewKey(Build(ms).dates, x, KidsOf(f, x))
  }

  lemma {:induction false} KeyedAt(h: Heap, keys: map<Id, string>, f: Forest, x: Id)
    requires Keyed(h, keys, f) && x in Nodes(f)
    ensures x in h && h[x].key == NewKey(keys, x, KidsOf(f, x))
  {
    if x == f.root {}
    else if x in Nodes(f.kids) { KeyedAt(h, keys, f.kids, x); }
    else { KeyedAt(h, keys, f.rest, x); }
  }

  /** Each stored result carries the path, level and date that f gives it. */
  ghost predicate Threaded(ms: seq<Message>, matches: seq<QueryMatch>, f: Forest, descending: bool)
    reads matches
  {
    forall x <- Build(ms).slots ::
      && Build(ms).slots[x] < |matches|
      && var qm := matches[Build(ms).slots[x]];
         (qm.threadPath, qm.threadLevel) == KeyOf(Keys(ms, f, descending), x) && qm.threadDate == ThreadDate(ms, f, x)
  }

  lemma ReadyToPrune(h: Heap, ms: seq<Message>, matches: seq<QueryMatch>)
    requires Represents(h, Build(ms), matches)
    ensures Holds(h, Build(ms).forest)
  {}

  /** After pruning, the table is ready to be sorted. */
  lemma ReadyToSort(h1: Heap, h2: Heap, ms: seq<Message>, matches: seq<QueryMatch>, order: seq<Id>)
    requires StaysForest(ms) && |ms| == |matches| && DistinctMatches(matches)
    requires Represents(h1, Build(ms), matches) && Pruned(h1, h2, Build(ms).forest) && Enumerates(order, h2.Keys)
    ensures var g := PruneTop(Build(ms).forest, Messages(Build(ms)));
            && Rep(h2, g, None) && Distinct(g) && KeysAre(h2, Build(ms).dates, Nodes(g))
            && multiset(LiveRoots(h2, order)) == multiset(Roots(g))
    ensures StoredMatches(h2, ms, matches) && h2.Keys == h1.Keys == Nodes(Build(ms).forest)
  {
    var st := Build(ms);
    TableMessages(h1, ms, matches);
    SameMessages(h1, h2);
    PrunedRoots(h1, h2, st.forest, order);
    var g := PruneTop(st.forest, Messages(st));
    RepNodes(h2, g, None);
    forall x | x in Nodes(g) ensures h2[x].key == Key(st.dates, x) {
      assert Content(h1, x) == ContentOf(st, matches, x);
      assert Content(h2, x) == Content(h1, x);
    }
  }

  /** The containers of h hold the matches of the stored results, once each. */
  ghost predicate StoredMatches(h: Heap, ms: seq<Message>, matches: seq<QueryMatch>) {
    && PruneHeap.Full(h) == Messages(Build(ms)) && OwnMatches(h)
    && forall x <- Build(ms).slots ::
         Build(ms).slots[x] < |matches| && x in h && h[x].stored == matches[Build(ms).slots[x]]
  }

  /** After sorting, the paths can be written. */
  lemma ReadyToWrite(h2: Heap, h3: Heap, ms: seq<Message>, matches: seq<QueryMatch>, f: Forest)
    requires StaysForest(ms) && StoredMatches(h2, ms, matches) && h2.Keys == Nodes(Build(ms).forest)
    requires SortedThreads(Build(ms).dates, h2, h3, PruneTop(Build(ms).forest, Messages(Build(ms))), f)
    ensures ReadyToShow(h3, ms, matches, f)
  {
    SortedMessages(h2, h3);
  }

  /** Only stored matches are written. */
  lemma OnlyStored(h: Heap, ms: seq<Message>, matches: seq<QueryMatch>, i: nat)
    requires StoredMatches(h, ms, matches) && DistinctMatches(matches) && i < |matches|
    ensures MatchSet(h) <= set q | q in matches
    ensures matches[i] in MatchSet(h) <==> i in Build(ms).slots.Values
  {
    var slots := Build(ms).slots;
    forall q | q in MatchSet(h) ensures exists x <- slots :: slots[x] < |matches| && matches[slots[x]] == q {
      var x :| x in h && h[x].stored != null && h[x].stored == q;
      assert x in PruneHeap.Full(h);
    }
    if i in slots.Values {
      var x :| x in slots && slots[x] == i;
      assert h[x].stored in MatchSet(h);
    }
  }

  /** In the end every stored match has its path, level and date. */
  lemma AllWritten(h: Heap, ms: seq<Message>, matches: seq<QueryMatch>, f: Forest, descending: bool,
                   w: map<Id, (string, nat)>, order: seq<Id>)
    requires StaysForest(ms) && StoredMatches(h, ms, matches) && IsThreading(ms, f) && Keyed(h, Build(ms).dates, f)
    requires Written(h) == Write(w, Keys(ms, f, descending))
    requires Enumerates(order, h.Keys) && DatesCopied(h, Seen(order, |order|))
    ensures Threaded(ms, matches, f, descending)
  {
    var slots := Build(ms).slots;
    hide Build, Enumerates, IsThreading, Keyed, Keys, Seen;
    forall x | x in slots
      ensures var qm := matches[slots[x]];
              (qm.threadPath, qm.threadLevel) == KeyOf(Keys(ms, f, descending), x) &&
                qm.threadDate == ThreadDate(ms, f, x)
    {
      EveryMessageHasAKey(ms, f, descending, x);
      WriteAt(w, Keys(ms, f, descending), x);
      ThreadingIsForest(ms, f);
      KeyedAt(h, Build(ms).dates, f, x);
      AllSeen(order, h.Keys);
      assert Written(h)[x] == (h[x].stored.threadPath, h[x].stored.threadLevel);
    }
  }

  /** Steps 1 to 7: the table of the results, pruned and sorted. */
  method BuildThreads(results: seq<Message>, matches: seq<QueryMatch>)
    returns (table: IdTable, order: seq<Id>, roots: seq<Container>, ghost f: Forest)
    requires |results| == |matches| && DistinctMatches(matches) && StaysForest(results)
    ensures Linked(table) && Enumerates(order, table.Keys) && ReadyToShow(Snap(table), results, matches, f)
    ensures Names(roots) == Roots(f) && forall c <- roots :: Stored(table, c)
  {
    hide Linked, Snap, Represents, Pruned, Holds, Rep, Distinct, KeysAre, LiveRoots, SortedThreads, OwnMatches,
      Enumerates, StoredMatches, StaysForest, Build, ReadyToShow;
    ghost var st := Build(results);
    ghost var main;
    table, main := DetermineIdTable(results, matches);
    ghost var h1 := Snap(table);
    SnapKeys(table);
    ReadyToPrune(h1, results, matches);
    order := Enumerate(table);
    PruneEmptyContainers(table, order, st.forest);
    ghost var h2 := Snap(table);
    SnapKeys(table);
    ReadyToSort(h1, h2, results, matches, order);
    roots, f := SortThreads(table, order, PruneTop(st.forest, Messages(st)), st.dates);
    SnapKeys(table);
    ReadyToWrite(h2, Snap(table), results, matches, f);
  }

  /** The last steps: paths, levels and dates written to the matches. */
  method ShowThreads(table: IdTable, order: seq<Id>, roots: seq<Container>, descending: bool, ghost f: Forest)
    requires Linked(table) && Rep(Snap(table), f, None) && OwnMatches(Snap(table)) && Enumerates(order, table.Keys)
    requires Names(roots) == Roots(f) && forall c <- roots :: Stored(table, c)
    modifies MatchSet(Snap(table))
    ensures Linked(table) && Snap(table) == old(Snap(table))
    ensures var h := Snap(table);
            && Written(h) == Write(old(Written(h)), PathsTop(f, PruneHeap.Full(h), 0, descending, SegSize(|table|)))
            && DatesCopied(h, Seen(order, |order|))
  {
    hide Linked, Snap, Rep, MatchSet, Written, Write, Enumerates, DatesCopied, OwnMatches, Seen, PathsTop, SegSize,
      Stored, PruneHeap.Full;
    UpdateThreads(table, roots, descending, |table|, f);
    SetThreadDates(table, order);
  }

  /** The whole threader.  Afterwards exactly the placed results have a path. */
  method CalculateThreads(results: seq<Message>, matches: seq<QueryMatch>, descending: bool) returns (ghost f: Forest)
    requires |results| == |matches| && DistinctMatches(matches) && StaysForest(results)
    requires forall i :: 0 <= i < |matches| ==> matches[i].threadPath == ""
    modifies matches
    ensures IsThreading(results, f) && Threaded(results, matches, f, descending)
    ensures forall i :: 0 <= i < |results| ==> (matches[i].threadPath != "" <==> Placed(results, i))
  {
    hide Linked, Snap, Rep, MatchSet, Written, Write, Enumerates, StoredMatches, DatesCopied, IsThreading, Threaded,
      Keyed, Placed, StaysForest, Build, OwnMatches, ReadyToShow, Seen, PathsTop, Keys, SegSize, DistinctMatches,
      Stored, PruneHeap.Full;
    var table, order, roots;
    table, order, roots, f := BuildThreads(results, matches);
    ghost var h := Snap(table);
    SnapKeys(table);
    AboutToShow(h, results, matches, f);
    OnlyStoredAll(h, results, matches);
    ghost var w := Written(h);
    ShowThreads(table, order, roots, descending, f);
    AllWritten(h, results, matches, f, descending, w, order);
    PlacedHavePaths(results, matches, f, descending);
  }

  /** A table that holds the threads f of the results. */
  ghost predicate ReadyToShow(h: Heap, ms: seq<Message>, matches: seq<QueryMatch>, f: Forest) {
    && Rep(h, f, None) && StoredMatches(h, ms, matches) && h.Keys == Nodes(Build(ms).forest)
    && IsThreading(ms, f) && Keyed(h, Build(ms).dates, f)
  }

  lemma AboutToShow(h: Heap, ms: seq<Message>, matches: seq<QueryMatch>, f: Forest)
    requires ReadyToShow(h, ms, matches, f)
    ensures Rep(h, f, None) && OwnMatches(h) && StoredMatches(h, ms, matches)
    ensures IsThreading(ms, f) && Keyed(h, Build(ms).dates, f)
    ensures forall descending :: PathsTop(f, PruneHeap.Full(h), 0, descending, SegSize(|h|)) == Keys(ms, f, descending)
  {
    assert |h| == |h.Keys|;
  }

  /** The results with a path are the placed ones. */
  lemma PlacedHavePaths(ms: seq<Message>, matches: seq<QueryMatch>, f: Forest, descending: bool)
    requires |ms| == |matches| && StaysForest(ms) && IsThreading(ms, f) && Threaded(ms, matches, f, descending)
    requires forall i :: 0 <= i < |matches| && i !in Build(ms).slots.Values ==> matches[i].threadPath == ""
    ensures forall i :: 0 <= i < |ms| ==> (matches[i].threadPath != "" <==> Placed(ms, i))
  {
    var slots, es := Build(ms).slots, Keys(ms, f, descending);
    BuildPlaces(ms);
    forall x | x in slots ensures KeyOf(es, x).0 != "" {
      EveryMessageHasAKey(ms, f, descending, x);
      KeyOfEntry(es, x);
    }
  }

  lemma OnlyStoredAll(h: Heap, ms: seq<Message>, matches: seq<QueryMatch>)
    requires StoredMatches(h, ms, matches) && DistinctMatches(matches)
    ensures forall q <- MatchSet(h) :: q in matches
    ensures forall i :: 0 <= i < |matches| ==> (matches[i] in MatchSet(h) <==> i in Build(ms).slots.Values)
  {
    if matches != [] { OnlyStored(h, ms, matches, 0); }
    forall i | 0 <= i < |matches| ensures matches[i] in MatchSet(h) <==> i in Build(ms).slots.Values {
      OnlyStored(h, ms, matches, i);
    }
  }
}
