/** Sorting on the heap: rearranging the children of a container, and the forest
    that is left. */
module SortHeap {
  import opened Wrappers
  import opened Forests
  import opened Sorting
  import opened ThreadHeap
  import opened PruneHeap
  import ByteStrings

  /** The trees of f with the roots xs, in that order. */
  function Arrange(f: Forest, xs: seq<Id>): Forest {
    if xs == [] then Nil else Tree(xs[0], RootKids(f, xs[0]), Arrange(f, xs[1..]))
  }

  lemma {:induction false} ArrangeRoots(f: Forest, xs: seq<Id>)
    ensures Roots(Arrange(f, xs)) == xs
  {
    if xs != [] { ArrangeRoots(f, xs[1..]); }
  }

  lemma {:induction false} ArrangeRep(h: Heap, f: Forest, p: Option<Id>, xs: seq<Id>)
    requires Rep(h, f, p) && forall x <- xs :: x in Roots(f)
    ensures Rep(h, Arrange(f, xs), p)
  {
    if xs != [] {
      RootKidsRep(h, f, p, xs[0]);
      ArrangeRep(h, f, p, xs[1..]);
    }
  }

  lemma {:induction false} DetachOther(f: Forest, x: Id, y: Id)
    requires x != y
    ensures RootKids(Detach(f, x), y) == RootKids(f, y)
  {
    if f.Tree? { DetachOther(f.rest, x, y); }
  }

  lemma {:induction false} DetachRoots(f: Forest, x: Id)
    requires x in Roots(f)
    ensures multiset(Roots(Detach(f, x))) == multiset(Roots(f)) - multiset{x}
  {
    if f.root != x { DetachRoots(f.rest, x); }
  }

  lemma TailMultiset(xs: seq<Id>)
    requires xs != []
    ensures multiset(xs[1..]) == multiset(xs) - multiset{xs[0]}
  {
    assert xs == [xs[0]] + xs[1..];
  }

  lemma PermutationTail(k: Forest, xs: seq<Id>)
    requires Distinct(k) && multiset(xs) == multiset(Roots(k)) && xs != []
    ensures xs[0] in Roots(k) && xs[0] !in xs[1..]
    ensures multiset(xs[1..]) == multiset(Roots(Detach(k, xs[0])))
  {
    hide Distinct, Nodes, Roots, Detach, RootKids;
    var x, roots := xs[0], Roots(k);
    assert x in multiset(xs);
    assert x in roots;
    DetachSplits(k, x);
    DetachRoots(k, x);
    TailMultiset(xs);
    assert x !in Roots(Detach(k, x));
  }

  /** Permuting the roots, after the trees under them were shuffled. */
  lemma {:induction false} ArrangeShuffles(k: Forest, m: Forest, xs: seq<Id>)
    requires Distinct(k) && multiset(xs) == multiset(Roots(k))
    requires forall x <- xs :: Shuffle(RootKids(k, x), RootKids(m, x))
    ensures Shuffle(k, Arrange(m, xs))
    decreases |xs|
  {
    if xs == [] {
      assert |multiset(Roots(k))| == 0;
    } else {
      PermutationTail(k, xs);
      DetachSplits(k, xs[0]);
      forall y | y in xs[1..] ensures Shuffle(RootKids(Detach(k, xs[0]), y), RootKids(m, y)) {
        DetachOther(k, xs[0], y);
      }
      ArrangeShuffles(Detach(k, xs[0]), m, xs[1..]);
    }
  }

  // Keys on the heap

  /** The containers xs still have the keys they had before sorting. */
  ghost predicate KeysAre(h: Heap, keys: map<Id, string>, xs: set<Id>) {
    forall x <- xs :: x in h && h[x].key == Key(keys, x)
  }

  /** The containers of f have the keys they get by sorting. */
  ghost predicate Keyed(h: Heap, keys: map<Id, string>, f: Forest) {
    match f
    case Nil => true
    case Tree(c, k, s) => c in h && h[c].key == NewKey(keys, c, k) && Keyed(h, keys, k) && Keyed(h, keys, s)
  }

  lemma {:induction false} KeyedFrame(h: Heap, h': Heap, keys: map<Id, string>, f: Forest)
    requires Keyed(h, keys, f) && forall x <- Nodes(f) :: x in h ==> x in h' && h'[x].key == h[x].key
    ensures Keyed(h', keys, f)
  {
    if f.Tree? {
      KeyedFrame(h, h', keys, f.kids);
      KeyedFrame(h, h', keys, f.rest);
    }
  }

  /** From h0 to h only c's children and key and, below c, child lists and keys
      have changed. */
  ghost predicate SortOnly(h0: Heap, h: Heap, c: Id, under: set<Id>) {
    h.Keys == h0.Keys && c in h && forall y <- h :: SortTame(y, h0[y], h[y], c, under)
  }

  predicate SortTame(y: Id, was: Cell, now: Cell, c: Id, under: set<Id>) {
    if y == c || y in under then now == was.(children := now.children, key := now.key) else now == was
  }

  /** m is k sorted, on the heap, and c has its final key. */
  ghost predicate SortedLevel(keys: map<Id, string>, h0: Heap, h: Heap, c: Id, k: Forest, m: Forest) {
    && Level(h, c, m) && Shuffle(k, m) && Sorted(keys, m) && Keyed(h, keys, m)
    && h[c].key == NewKey(keys, c, k) && SortOnly(h0, h, c, Nodes(k))
  }

  // Sorting the trees of one level, one after the other

  /** m is k with its first i trees sorted. */
  ghost predicate SomeSorted(keys: map<Id, string>, h: Heap, k: Forest, m: Forest, i: nat)
    decreases k
  {
    match k
    case Nil => m == Nil
    case Tree(x, kids, s) =>
      if i == 0 then m == k && KeysAre(h, keys, Nodes(k))
      else m.Tree? && m.root == x && TreeSorted(keys, h, x, kids, m.kids) && SomeSorted(keys, h, s, m.rest, i - 1)
  }

  ghost predicate TreeSorted(keys: map<Id, string>, h: Heap, x: Id, kids: Forest, kids': Forest) {
    Shuffle(kids, kids') && Sorted(keys, kids') && Keyed(h, keys, kids') && x in h && h[x].key == NewKey(keys, x, kids)
  }

  /** The next tree is still as it was. */
  lemma {:induction false} NextIsUnsorted(keys: map<Id, string>, h: Heap, k: Forest, m: Forest, i: nat)
    requires Distinct(k) && SomeSorted(keys, h, k, m, i) && i < |Roots(k)|
    ensures var x := Roots(k)[i];
            && Roots(m) == Roots(k) && RootKids(m, x) == RootKids(k, x) < k
            && KeysAre(h, keys, {x} + Nodes(RootKids(k, x)))
  {
    if i > 0 {
      assert Roots(k)[i] == Roots(k.rest)[i - 1];
      NextIsUnsorted(keys, h, k.rest, m.rest, i - 1);
    }
  }

  lemma {:induction false} OneMoreSorted(keys: map<Id, string>, h: Heap, h': Heap, k: Forest, m: Forest, i: nat,
      k': Forest)
    requires Distinct(k) && SomeSorted(keys, h, k, m, i) && i < |Roots(k)|
    requires TreeSorted(keys, h', Roots(k)[i], RootKids(k, Roots(k)[i]), k')
    requires forall y <- h :: y in Nodes(k) && y != Roots(k)[i] && y !in Nodes(RootKids(k, Roots(k)[i]))
                              ==> y in h' && h'[y].key == h[y].key
    ensures SomeSorted(keys, h', k, ReplaceKids(m, Roots(k)[i], k'), i + 1)
  {
    hide Shuffle, Sorted, NewKey;
    var x := Roots(k)[i];
    DetachSplits(k, x);
    if i > 0 {
      assert x == Roots(k.rest)[i - 1];
      ShuffleNodes(k.kids, m.kids);
      KeyedFrame(h, h', keys, m.kids);
      OneMoreSorted(keys, h, h', k.rest, m.rest, i - 1, k');
    } else {
      SomeSortedStart(keys, h', k.rest);
    }
  }

  lemma SomeSortedStart(keys: map<Id, string>, h: Heap, k: Forest)
    requires KeysAre(h, keys, Nodes(k))
    ensures SomeSorted(keys, h, k, k, 0)
  {}

  /** While the children of c are being sorted, i of them are done. */
  ghost predicate SortingLevel(keys: map<Id, string>, h0: Heap, h: Heap, c: Id, k: Forest, m: Forest, i: nat) {
    && Level(h, c, m) && Roots(m) == Roots(k) && Nodes(m) == Nodes(k) && SomeSorted(keys, h, k, m, i)
    && SortOnly(h0, h, c, Nodes(k)) && h[c] == h0[c]
  }

  lemma SortingStarts(keys: map<Id, string>, h: Heap, c: Id, k: Forest)
    requires Level(h, c, k) && KeysAre(h, keys, {c} + Nodes(k))
    ensures SortingLevel(keys, h, h, c, k, k, 0)
  {
    SomeSortedStart(keys, h, k);
    forall y | y in h ensures SortTame(y, h[y], h[y], c, Nodes(k)) {}
  }

  lemma ChildBefore(keys: map<Id, string>, h0: Heap, h: Heap, c: Id, k: Forest, m: Forest, i: nat)
    requires Distinct(k) && SortingLevel(keys, h0, h, c, k, m, i) && i < |Roots(k)|
    ensures var x := Roots(k)[i]; Level(h, x, RootKids(k, x)) && KeysAre(h, keys, {x} + Nodes(RootKids(k, x)))
    ensures RootKids(k, Roots(k)[i]) < k
  {
    NextIsUnsorted(keys, h, k, m, i);
    RootKidsRep(h, m, Some(c), Roots(k)[i]);
    DetachSplits(m, Roots(k)[i]);
  }

  lemma SortOnlyBelow(h0: Heap, h: Heap, h': Heap, c: Id, under: set<Id>, x: Id, under': set<Id>)
    requires SortOnly(h0, h, c, under) && SortOnly(h, h', x, under') && {x} + under' <= under && c !in under
    ensures SortOnly(h0, h', c, under) && h'[c] == h[c] && h'.Keys == h.Keys
    ensures forall y <- h :: y != x && y !in under' ==> h'[y] == h[y]
    ensures h'[x].parent == h[x].parent && h'[x].nuked == h[x].nuked
  {
    forall y | y in h ensures SortTame(y, h[y], h'[y], x, under') {}
    forall y | y in h' ensures SortTame(y, h0[y], h'[y], c, under) { assert SortTame(y, h0[y], h[y], c, under); }
  }

  lemma LevelAfter(h: Heap, h': Heap, c: Id, m: Forest, x: Id, k': Forest)
    requires Level(h, c, m) && x in Roots(m) && Level(h', x, k') && SortOnly(h, h', x, Nodes(RootKids(m, x)))
    requires Shuffle(RootKids(m, x), k')
    ensures Level(h', c, ReplaceKids(m, x, k'))
    ensures Roots(ReplaceKids(m, x, k')) == Roots(m) && Nodes(ReplaceKids(m, x, k')) == Nodes(m)
  {
    DetachSplits(m, x);
    ShuffleNodes(RootKids(m, x), k');
    RootKidsRep(h, m, Some(c), x);
    ReplaceKidsNodes(m, x, k');
    SortOnlySame(h);
    SortOnlyBelow(h, h, h', c, Nodes(m), x, Nodes(RootKids(m, x)));
    ReplaceKidsRep(h, h', m, Some(c), x, k');
  }

  lemma SortOnlySame(h: Heap)
    ensures forall c <- h, under :: SortOnly(h, h, c, under)
  {
    forall c, under | c in h ensures SortOnly(h, h, c, under) {
      forall y | y in h ensures SortTame(y, h[y], h[y], c, under) {}
    }
  }

  lemma ChildAfter(keys: map<Id, string>, h0: Heap, h: Heap, h': Heap, c: Id, k: Forest, m: Forest, i: nat, k': Forest)
    requires Distinct(k) && SortingLevel(keys, h0, h, c, k, m, i) && i < |Roots(k)|
    requires SortedLevel(keys, h, h', Roots(k)[i], RootKids(k, Roots(k)[i]), k')
    ensures SortingLevel(keys, h0, h', c, k, ReplaceKids(m, Roots(k)[i], k'), i + 1)
  {
    hide NewKey, Sorted, Keyed, Shuffle, SomeSorted, SortOnly, Rep, Distinct;
    var x := Roots(k)[i];
    NextIsUnsorted(keys, h, k, m, i);
    DetachSplits(k, x);
    LevelAfter(h, h', c, m, x, k');
    SortOnlyBelow(h0, h, h', c, Nodes(k), x, Nodes(RootKids(k, x)));
    OneMoreSorted(keys, h, h', k, m, i, k');
  }

  // The level itself

  lemma {:induction false} AllSorted(keys: map<Id, string>, h: Heap, k: Forest, m: Forest, x: Id)
    requires Distinct(k) && SomeSorted(keys, h, k, m, |Roots(k)|) && x in Roots(k)
    ensures Roots(m) == Roots(k) && TreeSorted(keys, h, x, RootKids(k, x), RootKids(m, x))
  {
    SomeSortedRoots(keys, h, k, m, |Roots(k)|);
    if k.root != x { AllSorted(keys, h, k.rest, m.rest, x); }
  }

  lemma {:induction false} SomeSortedRoots(keys: map<Id, string>, h: Heap, k: Forest, m: Forest, i: nat)
    requires SomeSorted(keys, h, k, m, i)
    ensures Roots(m) == Roots(k)
  {
    if i > 0 && k.Tree? { SomeSortedRoots(keys, h, k.rest, m.rest, i - 1); }
  }

  /** xs are in the order of their keys on the heap. */
  ghost predicate InKeyOrder(h: Heap, xs: seq<Id>) {
    (forall x <- xs :: x in h) && forall i, j :: 0 <= i < j < |xs| ==> ByteStrings.Le(h[xs[i]].key, h[xs[j]].key)
  }

  lemma {:induction false} ArrangedIsSorted(keys: map<Id, string>, h: Heap, k: Forest, m: Forest, xs: seq<Id>)
    requires forall x <- xs :: TreeSorted(keys, h, x, RootKids(k, x), RootKids(m, x)) && Distinct(RootKids(k, x))
    requires InKeyOrder(h, xs)
    ensures Sorted(keys, Arrange(m, xs)) && Keyed(h, keys, Arrange(m, xs))
  {
    if xs != [] {
      var x := xs[0];
      ArrangedIsSorted(keys, h, k, m, xs[1..]);
      assert TreeSorted(keys, h, x, RootKids(k, x), RootKids(m, x));
      ShuffleNewest(keys, RootKids(k, x), RootKids(m, x));
      if |xs| > 1 {
        assert TreeSorted(keys, h, xs[1], RootKids(k, xs[1]), RootKids(m, xs[1]));
        ShuffleNewest(keys, RootKids(k, xs[1]), RootKids(m, xs[1]));
        assert Arrange(m, xs[1..]).root == xs[1];
      }
    }
  }

  /** The children of c in the order xs, and the newest of their keys. */
  function Reorder(h: Heap, c: Id, xs: seq<Id>): Heap
    requires c in h && forall x <- xs :: x in h
  {
    var newest := if xs == [] then "" else h[xs[|xs| - 1]].key;
    h[c := h[c].(children := xs, key := if newest != "" then newest else h[c].key)]
  }

  /** Once all children are sorted, reordering them sorts the level. */
  lemma LevelSorted(keys: map<Id, string>, h0: Heap, h: Heap, c: Id, k: Forest, m: Forest, xs: seq<Id>)
    requires SortingLevel(keys, h0, h, c, k, m, |Roots(k)|) && Distinct(k) && KeysAre(h0, keys, {c})
    requires multiset(xs) == multiset(Roots(k)) && InKeyOrder(h, xs)
    ensures SortedLevel(keys, h0, Reorder(h, c, xs), c, k, Arrange(m, xs))
  {
    hide SomeSorted, Sorted, Keyed, NewKey, TreeSorted, Shuffle, Rep, Distinct, SortOnly;
    var f, h' := Arrange(m, xs), Reorder(h, c, xs);
    TreesShuffled(keys, h, k, m, xs);
    ArrangeShuffles(k, m, xs);
    ArrangeRoots(m, xs);
    ShuffleNodes(k, f);
    ArrangedIsSorted(keys, h, k, m, xs);
    ReorderedRep(h, c, m, xs);
    KeyedFrame(h, h', keys, f);
    ReorderedKey(keys, h, c, k, f, xs);
    ReorderedOnly(h0, h, c, Nodes(k), xs);
  }

  lemma ReorderedOnly(h0: Heap, h: Heap, c: Id, under: set<Id>, xs: seq<Id>)
    requires SortOnly(h0, h, c, under) && forall x <- xs :: x in h
    ensures SortOnly(h0, Reorder(h, c, xs), c, under)
  {
    var h' := Reorder(h, c, xs);
    forall y | y in h' ensures SortTame(y, h0[y], h'[y], c, under) { assert SortTame(y, h0[y], h[y], c, under); }
  }

  lemma TreesShuffled(keys: map<Id, string>, h: Heap, k: Forest, m: Forest, xs: seq<Id>)
    requires Distinct(k) && SomeSorted(keys, h, k, m, |Roots(k)|) && multiset(xs) == multiset(Roots(k))
    ensures forall x <- xs ::
              x in Roots(k) && TreeSorted(keys, h, x, RootKids(k, x), RootKids(m, x)) && Distinct(RootKids(k, x))
    ensures forall x <- xs :: Shuffle(RootKids(k, x), RootKids(m, x))
  {
    forall x | x in xs
      ensures x in Roots(k) && TreeSorted(keys, h, x, RootKids(k, x), RootKids(m, x)) && Distinct(RootKids(k, x))
    {
      assert x in multiset(Roots(k));
      AllSorted(keys, h, k, m, x);
      DetachSplits(k, x);
    }
  }

  lemma ReorderedRep(h: Heap, c: Id, m: Forest, xs: seq<Id>)
    requires Level(h, c, m) && (forall x <- xs :: x in h && x in Roots(m)) && Distinct(Arrange(m, xs))
    requires Nodes(Arrange(m, xs)) == Nodes(m)
    ensures Level(Reorder(h, c, xs), c, Arrange(m, xs))
  {
    ArrangeRoots(m, xs);
    ArrangeRep(h, m, Some(c), xs);
    RepFrame(h, Reorder(h, c, xs), Arrange(m, xs), Some(c));
  }

  lemma ReorderedKey(keys: map<Id, string>, h: Heap, c: Id, k: Forest, f: Forest, xs: seq<Id>)
    requires c in h && h[c].key == Key(keys, c) && Distinct(k) && Shuffle(k, f) && Sorted(keys, f) && Keyed(h, keys, f)
    requires Roots(f) == xs
    ensures forall x <- xs :: x in h
    ensures Reorder(h, c, xs)[c].key == NewKey(keys, c, k)
  {
    ShuffleNodes(k, f);
    ShuffleNewest(keys, k, f);
    forall x | x in xs ensures x in h && h[x].key == NewKey(keys, x, RootKids(f, x)) { KeyedRoot(h, keys, f, x); }
    if xs != [] { LastIsNewest(keys, f); }
  }

  lemma {:induction false} KeyedRoot(h: Heap, keys: map<Id, string>, f: Forest, x: Id)
    requires Keyed(h, keys, f) && x in Roots(f)
    ensures x in h && h[x].key == NewKey(keys, x, RootKids(f, x))
  {
    if f.root != x { KeyedRoot(h, keys, f.rest, x); }
  }

  // The root set

  /** Only child lists and keys have changed. */
  ghost predicate OnlySorted(h0: Heap, h: Heap) {
    h.Keys == h0.Keys && forall y <- h :: SortTame(y, h0[y], h[y], y, {})
  }

  /** While the threads k are being sorted, i of them are done. */
  ghost predicate SortingThreads(keys: map<Id, string>, h0: Heap, h: Heap, k: Forest, m: Forest, i: nat) {
    Rep(h, m, None) && Distinct(m) && Roots(m) == Roots(k) && SomeSorted(keys, h, k, m, i) && OnlySorted(h0, h)
  }

  lemma ThreadsStart(keys: map<Id, string>, h: Heap, k: Forest)
    requires Rep(h, k, None) && Distinct(k) && KeysAre(h, keys, Nodes(k))
    ensures SortingThreads(keys, h, h, k, k, 0)
  {
    SomeSortedStart(keys, h, k);
    forall y | y in h ensures SortTame(y, h[y], h[y], y, {}) {}
  }

  lemma ThreadBefore(keys: map<Id, string>, h0: Heap, h: Heap, k: Forest, m: Forest, i: nat)
    requires Distinct(k) && SortingThreads(keys, h0, h, k, m, i) && i < |Roots(k)|
    ensures var x := Roots(k)[i]; Level(h, x, RootKids(k, x)) && KeysAre(h, keys, {x} + Nodes(RootKids(k, x)))
  {
    NextIsUnsorted(keys, h, k, m, i);
    RootKidsRep(h, m, None, Roots(k)[i]);
    DetachSplits(m, Roots(k)[i]);
  }

  lemma ThreadAfter(keys: map<Id, string>, h0: Heap, h: Heap, h': Heap, k: Forest, m: Forest, i: nat, k': Forest)
    requires Distinct(k) && SortingThreads(keys, h0, h, k, m, i) && i < |Roots(k)|
    requires SortedLevel(keys, h, h', Roots(k)[i], RootKids(k, Roots(k)[i]), k')
    ensures SortingThreads(keys, h0, h', k, ReplaceKids(m, Roots(k)[i], k'), i + 1)
  {
    hide NewKey, Sorted, Keyed, Shuffle, SomeSorted, Rep, Distinct;
    var x := Roots(k)[i];
    NextIsUnsorted(keys, h, k, m, i);
    DetachSplits(m, x);
    ShuffleNodes(RootKids(m, x), k');
    ReplaceKidsNodes(m, x, k');
    RootKidsRep(h, m, None, x);
    forall y | y in h ensures SortTame(y, h[y], h'[y], x, Nodes(RootKids(k, x))) {}
    ReplaceKidsRep(h, h', m, None, x, k');
    OneMoreSorted(keys, h, h', k, m, i, k');
    forall y | y in h' ensures SortTame(y, h0[y], h'[y], y, {}) { assert SortTame(y, h0[y], h[y], y, {}); }
  }

  /** f is g sorted, on the heap. */
  ghost predicate SortedThreads(keys: map<Id, string>, h0: Heap, h: Heap, g: Forest, f: Forest) {
    Rep(h, f, None) && Shuffle(g, f) && Sorted(keys, f) && Keyed(h, keys, f) && OnlySorted(h0, h)
  }

  lemma {:induction false} ArrangeKids(g: Forest, xs: seq<Id>, x: Id)
    requires x in xs
    ensures RootKids(Arrange(g, xs), x) == RootKids(g, x)
  {
    if xs[0] != x { ArrangeKids(g, xs[1..], x); }
  }

  lemma {:induction false} ShuffleSelf(f: Forest)
    ensures Shuffle(f, f)
  {
    if f.Tree? { ShuffleSelf(f.kids); ShuffleSelf(f.rest); }
  }

  /** The root set of g, in any order, is a forest with the same trees. */
  lemma RootSet(h: Heap, g: Forest, xs: seq<Id>)
    requires Rep(h, g, None) && Distinct(g) && multiset(xs) == multiset(Roots(g))
    ensures var k := Arrange(g, xs); Rep(h, k, None) && Distinct(k) && Nodes(k) == Nodes(g) && Roots(k) == xs
  {
    forall x | x in xs ensures x in Roots(g) && Shuffle(RootKids(g, x), RootKids(g, x)) {
      assert x in multiset(Roots(g));
      ShuffleSelf(RootKids(g, x));
    }
    ArrangeShuffles(g, g, xs);
    ShuffleNodes(g, Arrange(g, xs));
    ArrangeRoots(g, xs);
    ArrangeRep(h, g, None, xs);
  }

  /** Once every thread is sorted, the root set is sorted by key. */
  lemma ThreadsSorted(keys: map<Id, string>, h0: Heap, h: Heap, g: Forest, xs: seq<Id>, m: Forest, ys: seq<Id>)
    requires Distinct(g) && Distinct(Arrange(g, xs)) && multiset(xs) == multiset(Roots(g)) == multiset(ys)
    requires SortingThreads(keys, h0, h, Arrange(g, xs), m, |xs|) && InKeyOrder(h, ys)
    ensures SortedThreads(keys, h0, h, g, Arrange(m, ys)) && Roots(Arrange(m, ys)) == ys
  {
    hide Sorted, Keyed, NewKey, Shuffle, Rep, SomeSorted, Distinct;
    var k := Arrange(g, xs);
    ArrangeRoots(g, xs);
    TreesShuffled(keys, h, k, m, ys);
    forall y | y in ys ensures y in Roots(m) && Shuffle(RootKids(g, y), RootKids(m, y)) {
      assert y in multiset(xs);
      ArrangeKids(g, xs, y);
    }
    ArrangeShuffles(g, m, ys);
    ArrangedIsSorted(keys, h, k, m, ys);
    ArrangeRep(h, m, None, ys);
    ArrangeRoots(m, ys);
  }
}
