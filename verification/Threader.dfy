/** The whole threader: from query results to thread paths. */
module Threader {
  import opened Forests
  import opened IdTableSpec
  import opened IdTableProofs
  import opened Pruning
  import opened Sorting
  import opened ThreadPaths

  /** The messages of a table: the containers that hold a result. */
  function Messages(st: Threads): set<Id> { st.slots.Keys }

  /** f is what threading makes of the results: the pruned table, sorted. */
  ghost predicate IsThreading(ms: seq<Message>, f: Forest) {
    var st := Build(ms);
    Shuffle(PruneTop(st.forest, Messages(st)), f) && Sorted(st.dates, f)
  }

  /** The keys the results get: those of the messages in f, with the segment size
      for all containers of the table. */
  function Keys(ms: seq<Message>, f: Forest, descending: bool): seq<Entry> {
    PathsTop(f, Messages(Build(ms)), 0, descending, SegSize(|Nodes(Build(ms).forest)|))
  }

  // Facts about the walk

  lemma {:induction false} WalkNodes(f: Forest, full: set<Id>, x: Id)
    requires Distinct(f)
    ensures x in Walk(f, full) <==> x in Nodes(f) && x in full
    ensures forall i, j :: 0 <= i < j < |Walk(f, full)| ==> Walk(f, full)[i] != Walk(f, full)[j]
  {
    match f
    case Nil =>
    case Tree(c, k, s) =>
      WalkNodes(k, full, x);
      WalkNodes(s, full, x);
      var a, b, w := Walk(k, full), Walk(s, full), (if c in full then [c] else []);
      forall y ensures (y in a <==> y in Nodes(k) && y in full) && (y in b <==> y in Nodes(s) && y in full) {
        WalkNodes(k, full, y);
        WalkNodes(s, full, y);
      }
      assert Walk(f, full) == w + a + b;
      forall i, j | 0 <= i < j < |w + a + b| ensures (w + a + b)[i] != (w + a + b)[j] {
        if i < |w| { assert (w + a + b)[i] == c; }
        else if i < |w + a| { assert (w + a + b)[i] in a; }
        if j >= |w + a| { assert (w + a + b)[j] in b; }
        else if j >= |w| { assert (w + a + b)[j] in a; }
      }
  }

  lemma {:induction false} SizeIsCount(f: Forest)
    requires Distinct(f)
    ensures Size(f) == |Nodes(f)|
  {
    if f.Tree? {
      SizeIsCount(f.kids);
      SizeIsCount(f.rest);
      var k, s := Nodes(f.kids), Nodes(f.rest);
      assert |{f.root} + k| == 1 + |k|;
      assert |{f.root} + k + s| == |{f.root} + k| + |s|;
    }
  }

  lemma {:induction false} ShuffleBranching(f: Forest, g: Forest, full: set<Id>)
    requires Distinct(f) && Shuffle(f, g) && EmptiesAreBranchingRoots(f, full)
    ensures EmptiesAreBranchingRoots(g, full)
    decreases g
  {
    if g.Tree? {
      DetachSplits(f, g.root);
      DetachBranching(f, g.root, full);
      ShuffleNodes(RootKids(f, g.root), g.kids);
      ShuffleCount(RootKids(f, g.root), g.kids);
      ShuffleBranching(Detach(f, g.root), g.rest, full);
    }
  }

  lemma {:induction false} DetachBranching(f: Forest, x: Id, full: set<Id>)
    requires EmptiesAreBranchingRoots(f, full) && x in Roots(f)
    ensures EmptiesAreBranchingRoots(Detach(f, x), full)
    ensures (x in full || |Roots(RootKids(f, x))| >= 2) && Nodes(RootKids(f, x)) <= full
  {
    if f.root != x { DetachBranching(f.rest, x, full); }
  }

  lemma {:induction false} ShuffleCount(f: Forest, g: Forest)
    requires Shuffle(f, g)
    ensures |Roots(f)| == |Roots(g)|
    decreases g
  {
    if g.Tree? {
      DetachCount(f, g.root);
      ShuffleCount(Detach(f, g.root), g.rest);
    }
  }

  lemma {:induction false} DetachCount(f: Forest, x: Id)
    requires x in Roots(f)
    ensures |Roots(f)| == 1 + |Roots(Detach(f, x))|
  {
    if f.root != x { DetachCount(f.rest, x); }
  }

  // The threading of a run

  /** Threads are well formed: a forest of the messages, where other containers
      are left only as branching roots. */
  lemma ThreadingIsForest(ms: seq<Message>, f: Forest)
    requires StaysForest(ms) && IsThreading(ms, f)
    ensures Distinct(f) && EmptiesAreBranchingRoots(f, Messages(Build(ms)))
    ensures Messages(Build(ms)) <= Nodes(f) <= Nodes(Build(ms).forest)
    ensures Size(f) <= |Nodes(Build(ms).forest)|
  {
    var st := Build(ms);
    var g := PruneTop(st.forest, Messages(st));
    BuildPlaces(ms);
    PruningPreservesThreads(st.forest, Messages(st), "", "");
    ShuffleNodes(g, f);
    ShuffleBranching(g, f, Messages(st));
    SizeIsCount(f);
    SubsetCount(Nodes(f), Nodes(st.forest));
  }

  lemma SubsetCount(a: set<Id>, b: set<Id>)
    requires a <= b
    ensures |a| <= |b|
  {
    assert b == a + (b - a);
  }

  /** Who answers whom, and who shares a thread, and so a root, is as in the table. */
  lemma ThreadingKeepsThreads(ms: seq<Message>, f: Forest, a: Id, b: Id)
    requires StaysForest(ms) && IsThreading(ms, f) && a in Messages(Build(ms)) && b in Messages(Build(ms))
    ensures Above(f, a, b) <==> Above(Build(ms).forest, a, b)
    ensures SameTree(f, a, b) <==> SameTree(Build(ms).forest, a, b)
    ensures a in Nodes(f) && b in Nodes(f) && a in Nodes(Build(ms).forest) && b in Nodes(Build(ms).forest)
    ensures RootOf(f, a) == RootOf(f, b) <==> RootOf(Build(ms).forest, a) == RootOf(Build(ms).forest, b)
  {
    var st := Build(ms);
    BuildPlaces(ms);
    ThreadingIsForest(ms, f);
    SameTreeIsSameRoot(f, a, b);
    SameTreeIsSameRoot(st.forest, a, b);
    PruningPreservesThreads(st.forest, Messages(st), a, b);
    ShuffleAbove(PruneTop(st.forest, Messages(st)), f, a, b);
    ShuffleSameTree(PruneTop(st.forest, Messages(st)), f, a, b);
  }

  /** Sorting by thread path shows each message once: parents before children,
      siblings by date; and the threads by date, newest last or newest first. */
  lemma ThreadsAreShown(ms: seq<Message>, f: Forest, descending: bool, out: seq<Entry>)
    requires StaysForest(ms) && IsThreading(ms, f)
    requires descending ==> |Nodes(Build(ms).forest)| <= Pow16(7)
    requires SortedByKey(out, Keys(ms, f, descending), descending)
    ensures Ids(out) == if descending then WalkReversedRoots(f, Messages(Build(ms))) else Walk(f, Messages(Build(ms)))
  {
    ThreadingIsForest(ms, f);
    SortingByPathShowsThreads(f, Messages(Build(ms)), |Nodes(Build(ms).forest)|, descending, out);
  }

  lemma {:induction false} BelowIds(f: Forest, full: set<Id>, tpath: seq<nat>, idx: nat, desc: bool, digits: nat)
    ensures Ids(PathsBelow(f, full, tpath, idx, desc, digits)) == Walk(f, full)
    ensures forall e <- PathsBelow(f, full, tpath, idx, desc, digits) :: e.key != ""
  {
    if f.Tree? {
      var here := tpath + [ChildSegment(f.root, full, idx, desc, digits)];
      var own, kids := Own(f.root, full, here, desc, digits), PathsBelow(f.kids, full, here, 0, desc, digits);
      BelowIds(f.kids, full, here, 0, desc, digits);
      BelowIds(f.rest, full, tpath, idx + 1, desc, digits);
      IdsAppend(own, kids);
      IdsAppend(own + kids, PathsBelow(f.rest, full, tpath, idx + 1, desc, digits));
      SegmentStart(here[|here| - 1], digits);
    }
  }

  lemma {:induction false} TopIds(f: Forest, full: set<Id>, idx: nat, desc: bool, digits: nat)
    ensures Ids(PathsTop(f, full, idx, desc, digits)) == Walk(f, full)
    ensures forall e <- PathsTop(f, full, idx, desc, digits) :: e.key != ""
  {
    if f.Tree? {
      var own, kids := Own(f.root, full, [idx], desc, digits), PathsBelow(f.kids, full, [idx], 0, desc, digits);
      BelowIds(f.kids, full, [idx], 0, desc, digits);
      TopIds(f.rest, full, idx + 1, desc, digits);
      IdsAppend(own, kids);
      IdsAppend(own + kids, PathsTop(f.rest, full, idx + 1, desc, digits));
      SegmentStart(idx, digits);
    }
  }

  /** Every message gets exactly one key, and it is not empty. */
  lemma EveryMessageHasAKey(ms: seq<Message>, f: Forest, descending: bool, x: Id)
    requires StaysForest(ms) && IsThreading(ms, f)
    ensures x in Ids(Keys(ms, f, descending)) <==> x in Messages(Build(ms))
    ensures forall i, j :: 0 <= i < j < |Keys(ms, f, descending)| ==>
              Keys(ms, f, descending)[i].id != Keys(ms, f, descending)[j].id
    ensures forall e <- Keys(ms, f, descending) :: e.key != ""
  {
    var full := Messages(Build(ms));
    ThreadingIsForest(ms, f);
    TopIds(f, full, 0, descending, SegSize(|Nodes(Build(ms).forest)|));
    WalkNodes(f, full, x);
  }

  // Levels

  lemma {:induction false} LevelBelow(f: Forest, full: set<Id>, tpath: seq<nat>, idx: nat, desc: bool, digits: nat,
      e: Entry)
    requires Distinct(f) && e in PathsBelow(f, full, tpath, idx, desc, digits)
    ensures e.id in Nodes(f) && e.level == |tpath| + Depth(f, e.id)
  {
    var Tree(c, k, s) := f;
    var here := tpath + [ChildSegment(c, full, idx, desc, digits)];
    if e in PathsBelow(k, full, here, 0, desc, digits) {
      LevelBelow(k, full, here, 0, desc, digits, e);
    } else if e in PathsBelow(s, full, tpath, idx + 1, desc, digits) {
      LevelBelow(s, full, tpath, idx + 1, desc, digits, e);
    }
  }

  lemma {:induction false} LevelAtTop(f: Forest, full: set<Id>, idx: nat, desc: bool, digits: nat, e: Entry)
    requires Distinct(f) && e in PathsTop(f, full, idx, desc, digits)
    ensures e.id in Nodes(f) && e.level == Depth(f, e.id)
  {
    var Tree(c, k, s) := f;
    if e in PathsBelow(k, full, [idx], 0, desc, digits) {
      LevelBelow(k, full, [idx], 0, desc, digits, e);
    } else if e in PathsTop(s, full, idx + 1, desc, digits) {
      LevelAtTop(s, full, idx + 1, desc, digits, e);
    }
  }

  /** The level of a message is the number of containers above it. */
  lemma LevelIsDepth(ms: seq<Message>, f: Forest, descending: bool, e: Entry)
    requires StaysForest(ms) && IsThreading(ms, f) && e in Keys(ms, f, descending)
    ensures e.id in Nodes(f) && e.level == Depth(f, e.id)
  {
    ThreadingIsForest(ms, f);
    LevelAtTop(f, Messages(Build(ms)), 0, descending, SegSize(|Nodes(Build(ms).forest)|), e);
  }
}
