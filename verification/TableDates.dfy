/** Which dates the id-table holds, and the dates of the threads that come of them. */
module TableDates {
  import opened Wrappers
  import opened Forests
  import opened IdTableSpec
  import opened IdTableProofs
  import opened Sorting
  import opened ThreadHeap
  import opened Threader
  import opened ThreaderTable
  import ByteStrings

  /** The date of a result's header; "" without one. */
  predicate Dated(m: Message, date: string) { m.date == Some(date) || (m.date == None && date == "") }

  /** Result i is the last one that goes by x and is no duplicate. */
  ghost predicate LastOf(ms: seq<Message>, i: nat, x: Id) {
    && i < |ms| && !ms[i].duplicate && GoesBy(ms[i], x)
    && forall j :: i < j < |ms| && !ms[j].duplicate ==> !GoesBy(ms[j], x)
  }

  /** The dates of the table: for each id the date of its last result. */
  lemma {:induction false} MainDatesAre(ms: seq<Message>, x: Id)
    ensures x in Main(ms).dates <==> exists i :: 0 <= i < |ms| && !ms[i].duplicate && GoesBy(ms[i], x)
  {
    if ms != [] {
      var n := |ms| - 1;
      MainDatesAre(ms[..n], x);
      assert forall i :: 0 <= i < n ==> ms[..n][i] == ms[i];
    }
  }

  lemma {:induction false} LastDateStays(ms: seq<Message>, x: Id, i: nat)
    requires LastOf(ms, i, x)
    ensures x in Main(ms).dates && Dated(ms[i], Main(ms).dates[x])
    decreases ms
  {
    var n := |ms| - 1;
    if i < n {
      assert forall j :: 0 <= j < n ==> ms[..n][j] == ms[j];
      assert ms[n].duplicate || !GoesBy(ms[n], x);
      LastDateStays(ms[..n], x, i);
    }
  }

  /** Duplicates bring no dates. */
  lemma {:induction false} AddDupsDates(st: Threads, ds: seq<(Id, nat)>)
    ensures AddDups(st, ds).0.dates == st.dates
  {
    if ds != [] { AddDupsDates(st, ds[..|ds| - 1]); }
  }

  /** The date key of a container before sorting: the date of the last result of
      that id; "" where there is none, or it has none. */
  lemma KeyIsDate(ms: seq<Message>, x: Id)
    ensures forall i: nat :: LastOf(ms, i, x) ==> Dated(ms[i], Key(Build(ms).dates, x))
    ensures (forall i :: 0 <= i < |ms| && !ms[i].duplicate ==> !GoesBy(ms[i], x)) ==> Key(Build(ms).dates, x) == ""
  {
    AddDupsDates(Main(ms), Dups(ms));
    MainDatesAre(ms, x);
    forall i: nat | LastOf(ms, i, x) ensures Dated(ms[i], Key(Build(ms).dates, x)) { LastDateStays(ms, x, i); }
  }

  /** The thread date of a message without replies is its own date. */
  lemma LeafDate(ms: seq<Message>, matches: seq<QueryMatch>, f: Forest, descending: bool, x: Id, i: nat)
    requires Threaded(ms, matches, f, descending) && x in Build(ms).slots && KidsOf(f, x) == Nil && LastOf(ms, i, x)
    ensures Build(ms).slots[x] < |matches| && Dated(ms[i], matches[Build(ms).slots[x]].threadDate)
  {
    KeyIsDate(ms, x);
    assert NewKey(Build(ms).dates, x, Nil) == Key(Build(ms).dates, x);
  }

  lemma BelowMax(d: string, a: string, b: string)
    ensures ByteStrings.Le(d, a) || ByteStrings.Le(d, b) ==> ByteStrings.Le(d, ByteStrings.Max(a, b))
    ensures ByteStrings.Le(d, d)
  {
    hide ByteStrings.Lt;
    ByteStrings.Total(a, b);
    ByteStrings.Irreflexive(d);
    if ByteStrings.Lt(a, b) && ByteStrings.Le(d, a) { ByteStrings.LeTransitive(d, a, b); }
    if !ByteStrings.Lt(a, b) && ByteStrings.Le(d, b) { ByteStrings.LeTransitive(d, b, a); }
  }

  lemma {:induction false} AllOlder(dates: map<Id, string>, f: Forest, y: Id)
    requires y in Nodes(f)
    ensures ByteStrings.Le(Key(dates, y), NewestDate(dates, f))
  {
    hide ByteStrings.Lt, ByteStrings.Le, ByteStrings.Max, Key;
    var Tree(c, k, s) := f;
    var d, a, b := Key(dates, y), Key(dates, c), NewestDate(dates, k);
    if y in Nodes(k) { AllOlder(dates, k, y); }
    if y in Nodes(s) { AllOlder(dates, s, y); }
    BelowMax(d, a, b);
    BelowMax(d, ByteStrings.Max(a, b), NewestDate(dates, s));
  }

  lemma {:induction false} KidsBubble(dates: map<Id, string>, f: Forest, x: Id)
    requires BubblesNewest(dates, f) && x in Nodes(f)
    ensures NewKey(dates, x, KidsOf(f, x)) == ByteStrings.Max(Key(dates, x), NewestDate(dates, KidsOf(f, x)))
  {
    if x == f.root {}
    else if x in Nodes(f.kids) { KidsBubble(dates, f.kids, x); }
    else { KidsBubble(dates, f.rest, x); }
  }

  /** Where no message is newer than all its dated replies, the thread date of x is
      the newest date of x and all below it. */
  lemma ThreadDateIsNewest(ms: seq<Message>, f: Forest, x: Id, y: Id)
    requires RepliesAreNewest(Build(ms).dates, f) && x in Nodes(f) && y in {x} + Nodes(KidsOf(f, x))
    ensures var d, keys := ThreadDate(ms, f, x), Build(ms).dates;
            && ByteStrings.Le(Key(keys, y), d)
            && (d == "" || exists z <- {x} + Nodes(KidsOf(f, x)) :: Key(keys, z) == d)
  {
    hide Build, ByteStrings.Lt, ByteStrings.Le, Key, RepliesAreNewest, BubblesNewest, NewKey;
    var keys, k := Build(ms).dates, KidsOf(f, x);
    var a, b := Key(keys, x), NewestDate(keys, k);
    BubblingIsNewest(keys, f);
    KidsBubble(keys, f, x);
    BelowMax(Key(keys, y), a, b);
    if y != x { AllOlder(keys, k, y); }
    if ByteStrings.Max(a, b) == b && b != "" { var z := WitnessOfNewest(keys, k); }
  }

  lemma {:induction false} SortedPairs(dates: map<Id, string>, f: Forest, i: nat, j: nat)
    requires Sorted(dates, f) && Distinct(f) && i < j < |Roots(f)|
    ensures var a, b := Roots(f)[i], Roots(f)[j];
            ByteStrings.Le(NewKey(dates, a, RootKids(f, a)), NewKey(dates, b, RootKids(f, b)))
  {
    var b := Roots(f)[j];
    assert b == Roots(f.rest)[j - 1] && b in Roots(f.rest);
    if i > 0 {
      assert Roots(f)[i] == Roots(f.rest)[i - 1];
      SortedPairs(dates, f.rest, i - 1, j - 1);
    } else {
      var r := f.rest;
      ByteStrings.Irreflexive(NewKey(dates, r.root, r.kids));
      if j > 1 {
        SortedPairs(dates, r, 0, j - 1);
        ByteStrings.LeTransitive(NewKey(dates, f.root, f.kids), NewKey(dates, r.root, r.kids),
          NewKey(dates, b, RootKids(f, b)));
      }
    }
  }

  lemma {:induction false} SortedKids(dates: map<Id, string>, f: Forest, x: Id)
    requires Sorted(dates, f)
    ensures Sorted(dates, KidsOf(f, x))
  {
    if f.Tree? {
      SortedKids(dates, f.kids, x);
      SortedKids(dates, f.rest, x);
    }
  }

  lemma {:induction false} RootKidsAre(f: Forest, x: Id)
    requires Distinct(f) && x in Roots(f)
    ensures KidsOf(f, x) == RootKids(f, x)
  {
    if f.root != x { RootKidsAre(f.rest, x); }
  }

  lemma {:induction false} KidsOfKids(f: Forest, p: Id, x: Id)
    requires Distinct(f) && x in Nodes(KidsOf(f, p))
    ensures KidsOf(KidsOf(f, p), x) == KidsOf(f, x)
  {
    var Tree(c, k, s) := f;
    if p == c {}
    else if p in Nodes(k) { KidsOfKids(k, p, x); }
    else { KidsOfKids(s, p, x); }
  }

  /** The children of a container, and the threads, stand in the order of their
      thread dates. */
  lemma SiblingsByThreadDate(ms: seq<Message>, f: Forest, p: Id, i: nat, j: nat)
    requires StaysForest(ms) && IsThreading(ms, f)
    ensures i < j < |Roots(f)| ==> ByteStrings.Le(ThreadDate(ms, f, Roots(f)[i]), ThreadDate(ms, f, Roots(f)[j]))
    ensures var k := Roots(KidsOf(f, p));
            i < j < |k| ==> ByteStrings.Le(ThreadDate(ms, f, k[i]), ThreadDate(ms, f, k[j]))
  {
    var dates, k := Build(ms).dates, KidsOf(f, p);
    ThreadingIsForest(ms, f);
    if i < j < |Roots(f)| {
      SortedPairs(dates, f, i, j);
      RootKidsAre(f, Roots(f)[i]);
      RootKidsAre(f, Roots(f)[j]);
    }
    if i < j < |Roots(k)| {
      SortedKids(dates, f, p);
      SortedPairs(dates, k, i, j);
      RootKidsAre(k, Roots(k)[i]);
      RootKidsAre(k, Roots(k)[j]);
      KidsOfKids(f, p, Roots(k)[i]);
      KidsOfKids(f, p, Roots(k)[j]);
    }
  }
}
