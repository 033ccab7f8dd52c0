/** Sorting siblings by date and bubbling the newest date upwards, on forests. */
module Sorting {
  import opened Forests
  import opened ByteStrings

  /** The date key of a container before sorting; "" where no message set one. */
  function Key(dates: map<Id, string>, c: Id): string {
    if c in dates then dates[c] else ""
  }

  /** The date key of c after sorting its children k. */
  function NewKey(dates: map<Id, string>, c: Id, k: Forest): string
    decreases k, 1
  {
    var newest := NewestRoot(dates, k);
    if newest != "" then newest else Key(dates, c)
  }

  /** The greatest date key among the roots of f, after sorting. */
  function NewestRoot(dates: map<Id, string>, f: Forest): string
    decreases f, 0
  {
    match f
    case Nil => ""
    case Tree(c, k, s) => Max(NewKey(dates, c, k), NewestRoot(dates, s))
  }

  /** Every sibling list of f is in ascending order of the keys after sorting. */
  predicate Sorted(dates: map<Id, string>, f: Forest) {
    match f
    case Nil => true
    case Tree(c, k, s) =>
      && (s.Tree? ==> Le(NewKey(dates, c, k), NewKey(dates, s.root, s.kids)))
      && Sorted(dates, k) && Sorted(dates, s)
  }

  /** g is f with its sibling lists permuted. */
  predicate Shuffle(f: Forest, g: Forest)
    decreases g
  {
    match g
    case Nil => f == Nil
    case Tree(c, k, s) => c in Roots(f) && Shuffle(RootKids(f, c), k) && Shuffle(Detach(f, c), s)
  }

  // Shuffling keeps everything but the order of siblings

  lemma {:induction false} ShuffleNodes(f: Forest, g: Forest)
    requires Distinct(f) && Shuffle(f, g)
    ensures Nodes(g) == Nodes(f) && Distinct(g)
    decreases g
  {
    if g.Tree? {
      DetachSplits(f, g.root);
      ShuffleNodes(RootKids(f, g.root), g.kids);
      ShuffleNodes(Detach(f, g.root), g.rest);
    }
  }

  lemma {:induction false} ShuffleAbove(f: Forest, g: Forest, a: Id, b: Id)
    requires Distinct(f) && Shuffle(f, g)
    ensures Above(g, a, b) <==> Above(f, a, b)
    decreases g
  {
    if g.Tree? {
      DetachSplits(f, g.root);
      DetachAbove(f, g.root, a, b);
      ShuffleNodes(RootKids(f, g.root), g.kids);
      ShuffleAbove(RootKids(f, g.root), g.kids, a, b);
      ShuffleAbove(Detach(f, g.root), g.rest, a, b);
    }
  }

  lemma DetachSameTree(f: Forest, x: Id, a: Id, b: Id)
    requires Distinct(f) && x in Roots(f)
    ensures SameTree(f, a, b) <==>
            SameTree(Detach(f, x), a, b) || (a in {x} + Nodes(RootKids(f, x)) && b in {x} + Nodes(RootKids(f, x)))
  {
    if f.root != x { DetachSameTree(f.rest, x, a, b); }
  }

  lemma {:induction false} ShuffleSameTree(f: Forest, g: Forest, a: Id, b: Id)
    requires Distinct(f) && Shuffle(f, g)
    ensures SameTree(g, a, b) <==> SameTree(f, a, b)
    decreases g
  {
    if g.Tree? {
      DetachSplits(f, g.root);
      DetachSameTree(f, g.root, a, b);
      ShuffleNodes(RootKids(f, g.root), g.kids);
      ShuffleSameTree(Detach(f, g.root), g.rest, a, b);
    }
  }

  lemma DetachNewest(dates: map<Id, string>, f: Forest, x: Id)
    requires Distinct(f) && x in Roots(f)
    ensures NewestRoot(dates, f) == Max(NewKey(dates, x, RootKids(f, x)), NewestRoot(dates, Detach(f, x)))
  {
    if f.root != x {
      DetachNewest(dates, f.rest, x);
      var a, b, c := NewKey(dates, f.root, f.kids), NewKey(dates, x, RootKids(f, x)),
        NewestRoot(dates, Detach(f.rest, x));
      MaxLaws(a, b, c);
      MaxLaws(b, a, c);
    }
  }

  /** The order of siblings does not influence the keys. */
  lemma {:induction false} ShuffleNewest(dates: map<Id, string>, f: Forest, g: Forest)
    requires Distinct(f) && Shuffle(f, g)
    ensures NewestRoot(dates, g) == NewestRoot(dates, f)
    decreases g
  {
    if g.Tree? {
      DetachSplits(f, g.root);
      DetachNewest(dates, f, g.root);
      ShuffleNewest(dates, RootKids(f, g.root), g.kids);
      ShuffleNewest(dates, Detach(f, g.root), g.rest);
    }
  }

  /** The last of sorted siblings has the newest key. */
  lemma {:induction false} LastIsNewest(dates: map<Id, string>, f: Forest)
    requires f.Tree? && Sorted(dates, f)
    ensures var c := Roots(f)[|Roots(f)| - 1];
            Distinct(f) ==> NewestRoot(dates, f) == NewKey(dates, c, RootKids(f, c))
    ensures Le(NewKey(dates, f.root, f.kids), NewestRoot(dates, f))
  {
    var a := NewKey(dates, f.root, f.kids);
    if f.rest == Nil {
      MaxLaws(a, "", "");
      Irreflexive(a);
    } else {
      LastIsNewest(dates, f.rest);
      var b, m := NewKey(dates, f.rest.root, f.rest.kids), NewestRoot(dates, f.rest);
      LeTransitive(a, b, m);
      Total(a, m);
      assert Roots(f)[|Roots(f)| - 1] == Roots(f.rest)[|Roots(f.rest)| - 1];
    }
  }

  // Bubbling

  /** The newest date of all messages in f. */
  function NewestDate(dates: map<Id, string>, f: Forest): string {
    match f
    case Nil => ""
    case Tree(c, k, s) => Max(Max(Key(dates, c), NewestDate(dates, k)), NewestDate(dates, s))
  }

  /** Every container's key becomes the newest date in its subtree. */
  predicate BubblesNewest(dates: map<Id, string>, f: Forest) {
    match f
    case Nil => true
    case Tree(c, k, s) =>
      && NewKey(dates, c, k) == Max(Key(dates, c), NewestDate(dates, k))
      && BubblesNewest(dates, k) && BubblesNewest(dates, s)
  }

  /** No container is newer than all its dated descendants. */
  predicate RepliesAreNewest(dates: map<Id, string>, f: Forest) {
    match f
    case Nil => true
    case Tree(c, k, s) =>
      && (NewestDate(dates, k) == "" || Le(Key(dates, c), NewestDate(dates, k)))
      && RepliesAreNewest(dates, k) && RepliesAreNewest(dates, s)
  }

  lemma {:induction false} BubblingReachesRoots(dates: map<Id, string>, f: Forest)
    requires BubblesNewest(dates, f)
    ensures NewestRoot(dates, f) == NewestDate(dates, f)
  {
    if f.Tree? { BubblingReachesRoots(dates, f.rest); }
  }

  /** Exactly when the keys are the newest dates of the subtrees. */
  lemma {:induction false} BubblingIsNewest(dates: map<Id, string>, f: Forest)
    ensures BubblesNewest(dates, f) <==> RepliesAreNewest(dates, f)
  {
    match f
    case Nil =>
    case Tree(c, k, s) =>
      BubblingIsNewest(dates, k);
      BubblingIsNewest(dates, s);
      if BubblesNewest(dates, k) {
        BubblingReachesRoots(dates, k);
        var a, m := Key(dates, c), NewestDate(dates, k);
        MaxLaws("", a, m);
        Total(a, m);
      }
  }

  /** For example, a message and one reply: the newer date of the message is lost if
      the reply has an older one. */
  lemma NewerParentLosesDate(dates: map<Id, string>, c: Id, x: Id)
    requires Key(dates, x) != ""
    ensures NewKey(dates, c, Tree(x, Nil, Nil)) == Key(dates, x)
    ensures !BubblesNewest(dates, Tree(c, Tree(x, Nil, Nil), Nil)) <==> Lt(Key(dates, x), Key(dates, c))
  {
    var leaf := Tree(x, Nil, Nil);
    BubblingIsNewest(dates, Tree(c, leaf, Nil));
    MaxLaws(Key(dates, x), "", "");
    assert NewestDate(dates, leaf) == Key(dates, x) && NewKey(dates, x, Nil) == Key(dates, x);
    assert RepliesAreNewest(dates, leaf);
  }

  /** It suffices that no dated message is older than a dated ancestor. */
  lemma {:induction false} OrderedThreadsBubble(dates: map<Id, string>, f: Forest)
    requires Distinct(f)
    requires forall a, b :: Above(f, a, b) && Key(dates, a) != "" && Key(dates, b) != ""
                            ==> Le(Key(dates, a), Key(dates, b))
    ensures BubblesNewest(dates, f)
  {
    if f.Tree? {
      var Tree(c, k, s) := f;
      OrderedThreadsBubble(dates, k);
      OrderedThreadsBubble(dates, s);
      BubblingIsNewest(dates, k);
      BubblingIsNewest(dates, s);
      if NewestDate(dates, k) != "" {
        var b := WitnessOfNewest(dates, k);
        assert Above(f, c, b);
      }
      BubblingIsNewest(dates, f);
    }
  }

  lemma WitnessOfNewest(dates: map<Id, string>, f: Forest) returns (b: Id)
    requires NewestDate(dates, f) != ""
    ensures b in Nodes(f) && Key(dates, b) == NewestDate(dates, f)
  {
    var Tree(c, k, s) := f;
    if NewestDate(dates, f) == Key(dates, c) { b := c; }
    else if NewestDate(dates, f) == NewestDate(dates, k) { b := WitnessOfNewest(dates, k); }
    else { b := WitnessOfNewest(dates, s); }
  }
}
