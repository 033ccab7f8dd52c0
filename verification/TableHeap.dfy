/** Building the id-table on the heap, step by step as the threader does it, and
    that each step keeps the heap in line with the forest it stands for. */
module TableHeap {
  import opened Wrappers
  import opened Forests
  import opened IdTableSpec
  import opened IdTableProofs
  import opened ThreadHeap
  import Sorting

  /** The match the forest stores for x. */
  function MatchOf(st: Threads, matches: seq<QueryMatch>, x: Id): QueryMatch? {
    if x in st.slots && st.slots[x] < |matches| then matches[st.slots[x]] else null
  }

  /** What the forest says about the contents of x. */
  function ContentOf(st: Threads, matches: seq<QueryMatch>, x: Id): (string, QueryMatch?) {
    (Sorting.Key(st.dates, x), MatchOf(st, matches, x))
  }

  /** The heap has exactly the containers, links, matches and dates of st. */
  ghost predicate Represents(h: Heap, st: Threads, matches: seq<QueryMatch>) {
    && Holds(h, st.forest)
    && (forall x :: Content(h, x) == ContentOf(st, matches, x))
  }

  // One result

  /** The container of a result: its first match stays, its date is the last one. */
  function StoreResult(h: Heap, x: Id, date: string, qm: QueryMatch): Heap {
    var h1 := EnsureCell(h, x);
    h1[x := h1[x].(key := date, stored := if h1[x].stored == null then qm else h1[x].stored)]
  }

  function DateOf(m: Message): string { if m.date.Some? then m.date.value else "" }

  function AddResult(h: Heap, f: Forest, m: Message, qm: QueryMatch): Heap
    requires Holds(h, f)
  {
    var x := EffectiveId(m);
    StoreHolds(h, f, x, DateOf(m), qm);
    AddReferences(StoreResult(h, x, DateOf(m), qm), Ensure(f, x), None, ChainOf(m))
  }

  lemma StoreHolds(h: Heap, f: Forest, x: Id, date: string, qm: QueryMatch)
    requires Holds(h, f)
    ensures Holds(StoreResult(h, x, date, qm), Ensure(f, x))
  {
    EnsureHolds(h, f, x);
    RepFrame(EnsureCell(h, x), StoreResult(h, x, date, qm), Ensure(f, x), None);
  }

  lemma AddResultRepresents(h: Heap, st: Threads, matches: seq<QueryMatch>, m: Message, i: nat)
    requires Represents(h, st, matches) && i < |matches|
    requires forall x <- st.slots :: st.slots[x] < |matches|
    ensures Represents(AddResult(h, st.forest, m, matches[i]), AddMessage(st, i, m), matches)
  {
    var x := EffectiveId(m);
    var h1, h2 := StoreResult(h, x, DateOf(m), matches[i]), AddResult(h, st.forest, m, matches[i]);
    StoreHolds(h, st.forest, x, DateOf(m), matches[i]);
    ReferencesHold(h1, Ensure(st.forest, x), None, ChainOf(m));
    forall y ensures Content(h2, y) == ContentOf(AddMessage(st, i, m), matches, y) {
      assert Content(h2, y) == Content(h1, y);
      assert Content(h, y) == ContentOf(st, matches, y);
    }
  }

  // Duplicates

  /** Hangs a container for the match below x; an existing container of that
      name is taken instead. */
  function AddDup(h: Heap, x: Id, name: Id, qm: QueryMatch): Heap
    requires x in h
  {
    AddChild(if name in h then h else h[name := BLANK.(stored := qm)], x, name)
  }

  function AddOneDuplicate(h: Heap, n: nat, d: (Id, nat), matches: seq<QueryMatch>): (Heap, nat)
    requires d.1 < |matches|
  {
    if d.0 !in h then (h, n) else (AddDup(h, d.0, DupName(n + 1), matches[d.1]), n + 1)
  }

  /** The heap after the duplicates, and how many names were handed out. */
  function AddDuplicates(h: Heap, ds: seq<(Id, nat)>, matches: seq<QueryMatch>): (Heap, nat)
    requires forall d <- ds :: d.1 < |matches|
  {
    if ds == [] then (h, 0)
    else
      var (h1, n) := AddDuplicates(h, ds[..|ds| - 1], matches);
      AddOneDuplicate(h1, n, ds[|ds| - 1], matches)
  }

  /** A new leaf, or one more link. */
  lemma AddDupHolds(h: Heap, f: Forest, x: Id, name: Id, qm: QueryMatch)
    requires Holds(h, f) && x in h && (name in h ==> CanLink(f, x, name))
    ensures Holds(AddDup(h, x, name, qm), if name in h then Link(f, x, name) else Insert(f, x, Tree(name, Nil, Nil)))
  {
    if name in h {
      LinkRep(h, f, x, name);
      LinkKeepsForest(f, x, name);
    } else {
      var leaf := Tree(name, Nil, Nil);
      InsertNodes(f, x, leaf);
      RepInsert(h, AddDup(h, x, name, qm), f, None, x, leaf);
    }
  }

  lemma AddDupContent(h: Heap, x: Id, name: Id, qm: QueryMatch, y: Id)
    requires x in h
    ensures Content(AddDup(h, x, name, qm), y) == if y == name && name !in h then ("", qm) else Content(h, y)
  {}

  lemma AddDupRepresents(h: Heap, st: Threads, matches: seq<QueryMatch>, x: Id, name: Id, j: nat)
    requires Represents(h, st, matches) && x in h && j < |matches|
    requires if name in h then CanLink(st.forest, x, name) else name !in st.slots && name !in st.dates
    ensures Represents(AddDup(h, x, name, matches[j]), WithDup(st, x, name, j), matches)
  {
    hide Insert, Link, CanLink, AddDup;
    AddDupHolds(h, st.forest, x, name, matches[j]);
    forall y ensures Content(AddDup(h, x, name, matches[j]), y) == ContentOf(WithDup(st, x, name, j), matches, y) {
      AddDupContent(h, x, name, matches[j], y);
      assert Content(h, y) == ContentOf(st, matches, y);
    }
  }

  lemma OneDuplicateRepresents(h: Heap, st: Threads, n: nat, d: (Id, nat), matches: seq<QueryMatch>)
    requires Represents(h, st, matches) && d.1 < |matches| && CanHang(st.forest, n, d)
    requires st.slots.Keys <= Nodes(st.forest) && st.dates.Keys <= Nodes(st.forest)
    ensures Represents(AddOneDuplicate(h, n, d, matches).0, AddOneDup(st, n, d).0, matches)
    ensures AddOneDuplicate(h, n, d, matches).1 == AddOneDup(st, n, d).1
  {
    if d.0 in h { AddDupRepresents(h, st, matches, d.0, DupName(n + 1), d.1); }
  }

  lemma {:induction false} AddDuplicatesRepresents(h: Heap, st: Threads, matches: seq<QueryMatch>, ds: seq<(Id, nat)>)
    requires Represents(h, st, matches) && AllHang(st, ds)
    requires st.slots.Keys <= Nodes(st.forest) && st.dates.Keys <= Nodes(st.forest)
    requires forall d <- ds :: d.1 < |matches|
    ensures Represents(AddDuplicates(h, ds, matches).0, AddDups(st, ds).0, matches)
    ensures AddDuplicates(h, ds, matches).1 == AddDups(st, ds).1
  {
    if ds != [] {
      var init, d := ds[..|ds| - 1], ds[|ds| - 1];
      var (t, n) := AddDups(st, init);
      AddDuplicatesRepresents(h, st, matches, init);
      AddDupsKeepsForest(st, init);
      OneDuplicateRepresents(AddDuplicates(h, init, matches).0, t, n, d, matches);
    }
  }

  // Whole runs

  lemma EmptyRepresents(matches: seq<QueryMatch>)
    ensures Represents(map[], Main([]), matches)
  {}

  /** One more non-duplicate result. */
  lemma MainRepresents(h: Heap, ms: seq<Message>, i: nat, matches: seq<QueryMatch>)
    requires i < |ms| == |matches| && !ms[i].duplicate && Represents(h, Main(ms[..i]), matches)
    ensures Holds(h, Main(ms[..i]).forest)
    ensures Represents(AddResult(h, Main(ms[..i]).forest, ms[i], matches[i]), Main(ms[..i + 1]), matches)
  {
    MainSlots(ms[..i]);
    forall x | x in Main(ms[..i]).slots ensures Main(ms[..i]).slots[x] < |matches| {
      assert IsFirst(ms[..i], Main(ms[..i]).slots[x], x);
    }
    AddResultRepresents(h, Main(ms[..i]), matches, ms[i], i);
    assert ms[..i + 1][..i] == ms[..i];
  }

  lemma {:induction false} MainDates(ms: seq<Message>)
    ensures Main(ms).dates.Keys <= Nodes(Main(ms).forest)
  {
    if ms != [] { MainDates(ms[..|ms| - 1]); }
  }

  /** The duplicates complete the table. */
  lemma BuildRepresents(h: Heap, ms: seq<Message>, matches: seq<QueryMatch>)
    requires |ms| == |matches| && Represents(h, Main(ms), matches)
    ensures forall d <- Dups(ms) :: d.1 < |matches|
    ensures StaysForest(ms) ==> Represents(AddDuplicates(h, Dups(ms), matches).0, Build(ms), matches)
  {
    DupsAre(ms, ("", 0));
    if StaysForest(ms) {
      MainSlots(ms);
      MainDates(ms);
      AddDuplicatesRepresents(h, Main(ms), matches, Dups(ms));
    }
  }

  // The last link of a chain

  /** What the last link of a chain, to the result's own container, does. */
  function LinkLast(h: Heap, f: Forest, refs: seq<Id>, x: Id): Heap
    requires h.Keys == Nodes(f) && x in h && (refs != [] ==> refs[|refs| - 1] in h)
  {
    if refs != [] && CanLink(f, refs[|refs| - 1], x) then AddChild(h, refs[|refs| - 1], x) else h
  }

  lemma ChainEndsWithLink(h: Heap, f: Forest, refs: seq<Id>, x: Id)
    requires Holds(h, f) && x in h
    ensures var h1, f1 := AddReferences(h, f, None, refs), Chain(f, None, refs);
            && Holds(h1, f1) && x in h1 && (refs != [] ==> refs[|refs| - 1] in h1)
            && AddReferences(h, f, None, refs + [x]) == LinkLast(h1, f1, refs, x)
  {
    ReferencesHold(h, f, None, refs);
    ReferencesSnoc(h, f, None, refs, x);
    if refs != [] { ChainNodes(f, None, refs, refs[|refs| - 1]); }
  }

  lemma {:induction false} ReferencesSnoc(h: Heap, f: Forest, prev: Option<Id>, refs: seq<Id>, x: Id)
    requires Holds(h, f) && (prev.Some? ==> prev.value in h)
    ensures var h1, f1, p := AddReferences(h, f, prev, refs), Chain(f, prev, refs),
                             if refs == [] then prev else Some(refs[|refs| - 1]);
            && Holds(h1, f1) && (p.Some? ==> p.value in h1)
            && AddReferences(h, f, prev, refs + [x]) == AddReference(h1, f1, p, x)
    decreases |refs|
  {
    hide Connect, AddReference;
    ReferencesHold(h, f, prev, refs);
    if refs == [] {
      ReferenceHolds(h, f, prev, x);
      assert (refs + [x])[0] == x && (refs + [x])[1..] == [];
    } else {
      ReferenceHolds(h, f, prev, refs[0]);
      assert (refs + [x])[0] == refs[0] && (refs + [x])[1..] == refs[1..] + [x];
      ReferencesSnoc(AddReference(h, f, prev, refs[0]), Connect(f, prev, refs[0]), Some(refs[0]), refs[1..], x);
      ChainNodes(f, prev, refs, refs[|refs| - 1]);
    }
  }
}
