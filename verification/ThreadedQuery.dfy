/** The threaded query: the results of a first query are threaded, then the query is
    run again, where only documents with a thread path are kept, sorted by it. */
module ThreadedQuery {
  import opened Forests
  import opened IdTableSpec
  import opened IdTableProofs
  import opened Pruning
  import opened ThreadPaths
  import opened ThreadHeap
  import opened Threader
  import opened ThreaderTable

  /** The matches of a query, by document. */
  type Matches = map<nat, QueryMatch>

  /** The sort key of a document. */
  function PathOf(ms: Matches, doc: nat): string
    reads ms.Values
  {
    if doc in ms then ms[doc].threadPath else ""
  }

  class ThreadDecider {
    const matches: Matches

    constructor (matches: Matches)
      ensures this.matches == matches
    {
      this.matches := matches;
    }

    /** Only documents that have got a path are kept. */
    method Decide(doc: nat) returns (keep: bool)
      ensures keep <==> PathOf(matches, doc) != ""
    {
      keep := doc in matches && matches[doc].threadPath != "";
    }
  }

  /** shown are the kept documents, sorted by path. */
  ghost predicate Answers(shown: seq<nat>, ms: Matches, descending: bool)
    reads ms.Values
  {
    && (forall d :: d in shown <==> PathOf(ms, d) != "")
    && (forall i, j :: 0 <= i < j < |shown| ==> shown[i] != shown[j])
    && (forall i, j :: 0 <= i < j < |shown| ==> !Before(PathOf(ms, shown[j]), PathOf(ms, shown[i]), descending))
  }

  /** The documents of the first query, and matches of their own for them. */
  ghost predicate Matching(docs: seq<nat>, ms: Matches) {
    && (forall i, j :: 0 <= i < j < |docs| ==> docs[i] != docs[j])
    && (forall d <- docs :: d in ms)
    && (forall d <- ms, e <- ms :: ms[d] == ms[e] ==> d == e)
  }

  /** The matches of the results, in their order. */
  function InOrder(docs: seq<nat>, ms: Matches): (r: seq<QueryMatch>)
    requires forall d <- docs :: d in ms
    ensures |r| == |docs| && forall i :: 0 <= i < |docs| ==> r[i] == ms[docs[i]]
  {
    if docs == [] then [] else [ms[docs[0]]] + InOrder(docs[1..], ms)
  }

  /** The messages of f in the order they are to be shown in. */
  function ShowOrder(results: seq<Message>, f: Forest, descending: bool): seq<Id> {
    if descending then WalkReversedRoots(f, Messages(Build(results))) else Walk(f, Messages(Build(results)))
  }

  /** shown are the documents of the messages xs. */
  ghost predicate ShowsDocs(shown: seq<nat>, xs: seq<Id>, slots: map<Id, nat>, docs: seq<nat>) {
    |shown| == |xs| && forall k :: 0 <= k < |xs| ==>
      xs[k] in slots && slots[xs[k]] < |docs| && shown[k] == docs[slots[xs[k]]]
  }

  // Entries and documents

  /** The document of an entry's message. */
  function DocOf(slots: map<Id, nat>, docs: seq<nat>, e: Entry): nat {
    if e.id in slots && slots[e.id] < |docs| then docs[slots[e.id]] else 0
  }

  lemma OwnEntry(es: seq<Entry>, e: Entry)
    requires e in es && forall i, j :: 0 <= i < j < |es| ==> es[i].id != es[j].id
    ensures e.id in Ids(es) && KeyOf(es, e.id) == (e.key, e.level)
  {
    hide KeyOf, Ids;
    var k :| 0 <= k < |es| && es[k] == e;
    assert Ids(es)[k] == e.id;
    KeyOfEntry(es, e.id);
    var d :| d in es && d.id == e.id && KeyOf(es, e.id) == (d.key, d.level);
    var j :| 0 <= j < |es| && es[j] == d;
    assert j == k;
  }

  /** Each entry is the key of its document's match. */
  lemma EntryIsKey(results: seq<Message>, docs: seq<nat>, ms: Matches, f: Forest, descending: bool, e: Entry)
    requires |results| == |docs| && Matching(docs, ms) && StaysForest(results) && IsThreading(results, f)
    requires Threaded(results, InOrder(docs, ms), f, descending) && e in Keys(results, f, descending)
    ensures var slots := Build(results).slots;
            e.id in slots && slots[e.id] < |docs| && PathOf(ms, DocOf(slots, docs, e)) == e.key && e.key != ""
  {
    hide Threaded, Build, IsThreading, Keys, StaysForest, Messages, KeyOf;
    EveryMessageHasAKey(results, f, descending, e.id);
    OwnEntry(Keys(results, f, descending), e);
    assert e.id in Messages(Build(results));
    MessagesAre(results);
    ThreadedAt(results, InOrder(docs, ms), f, descending, e.id);
  }

  lemma MessagesAre(results: seq<Message>)
    ensures Messages(Build(results)) == Build(results).slots.Keys
  {}

  lemma ThreadedAt(results: seq<Message>, qms: seq<QueryMatch>, f: Forest, descending: bool, x: Id)
    requires Threaded(results, qms, f, descending) && x in Build(results).slots
    ensures var slots := Build(results).slots;
            slots[x] < |qms| && qms[slots[x]].threadPath == KeyOf(Keys(results, f, descending), x).0
  {}

  /** Each placed result has an entry. */
  lemma PlacedHasEntry(results: seq<Message>, f: Forest, descending: bool, i: nat) returns (e: Entry)
    requires StaysForest(results) && IsThreading(results, f) && i < |results| && Placed(results, i)
    ensures e in Keys(results, f, descending) && e.id in Build(results).slots && Build(results).slots[e.id] == i
  {
    BuildPlaces(results);
    assert i in Build(results).slots.Values;
    var x :| x in Build(results).slots && Build(results).slots[x] == i;
    EveryMessageHasAKey(results, f, descending, x);
    var k :| 0 <= k < |Ids(Keys(results, f, descending))| && Ids(Keys(results, f, descending))[k] == x;
    e := Keys(results, f, descending)[k];
  }

  /** Different entries are of different documents. */
  lemma EntriesDiffer(results: seq<Message>, docs: seq<nat>, f: Forest, descending: bool, e: Entry, e': Entry)
    requires |results| == |docs| && StaysForest(results) && IsThreading(results, f)
    requires forall i, j :: 0 <= i < j < |docs| ==> docs[i] != docs[j]
    requires e in Keys(results, f, descending) && e' in Keys(results, f, descending)
    requires DocOf(Build(results).slots, docs, e) == DocOf(Build(results).slots, docs, e')
    ensures e == e'
  {
    var slots, es := Build(results).slots, Keys(results, f, descending);
    BuildPlaces(results);
    hide IsThreading, Keys, Build, StaysForest, Placed;
    EveryMessageHasAKey(results, f, descending, e.id);
    EveryMessageHasAKey(results, f, descending, e'.id);
    var j, k :| 0 <= j < |es| && es[j] == e && 0 <= k < |es| && es[k] == e';
    assert Ids(es)[j] == e.id && Ids(es)[k] == e'.id;
    assert slots[e.id] in slots.Values && slots[e'.id] in slots.Values;
  }

  /** The entries of the documents shown, which are the keys in another order. */
  lemma EntriesOf(results: seq<Message>, docs: seq<nat>, ms: Matches, f: Forest, descending: bool, shown: seq<nat>)
    returns (out: seq<Entry>)
    requires |results| == |docs| && Matching(docs, ms) && StaysForest(results) && IsThreading(results, f)
    requires Threaded(results, InOrder(docs, ms), f, descending) && Answers(shown, ms, descending)
    requires forall d :: PathOf(ms, d) != "" <==> exists i :: 0 <= i < |docs| && docs[i] == d && Placed(results, i)
    ensures SortedByKey(out, Keys(results, f, descending), descending) && |out| == |shown|
    ensures forall k :: 0 <= k < |out| ==>
              out[k] in Keys(results, f, descending) && DocOf(Build(results).slots, docs, out[k]) == shown[k]
  {
    var slots, es := Build(results).slots, Keys(results, f, descending);
    hide IsThreading, Keys, Build, StaysForest, Placed, Threaded;
    out := [];
    for n := 0 to |shown|
      invariant |out| == n && forall k :: 0 <= k < n ==> out[k] in es && DocOf(slots, docs, out[k]) == shown[k]
    {
      assert shown[n] in shown;
      var i :| 0 <= i < |docs| && docs[i] == shown[n] && Placed(results, i);
      var e := PlacedHasEntry(results, f, descending, i);
      out := out + [e];
    }
    forall e | e in es ensures e in out {
      EntryIsKey(results, docs, ms, f, descending, e);
      var k :| 0 <= k < |shown| && shown[k] == DocOf(slots, docs, e);
      EntriesDiffer(results, docs, f, descending, e, out[k]);
    }
    EveryMessageHasAKey(results, f, descending, "");
    SameElements(out, es);
    forall i, j | 0 <= i < j < |out| ensures !Before(out[j].key, out[i].key, descending) {
      EntryIsKey(results, docs, ms, f, descending, out[i]);
      EntryIsKey(results, docs, ms, f, descending, out[j]);
    }
  }

  lemma AnswerIsWalk(results: seq<Message>, docs: seq<nat>, ms: Matches, f: Forest, descending: bool, shown: seq<nat>)
    requires |results| == |docs| && Matching(docs, ms) && StaysForest(results) && IsThreading(results, f)
    requires Threaded(results, InOrder(docs, ms), f, descending) && Answers(shown, ms, descending)
    requires descending ==> |Nodes(Build(results).forest)| <= Pow16(7)
    requires forall d :: PathOf(ms, d) != "" <==> exists i :: 0 <= i < |docs| && docs[i] == d && Placed(results, i)
    ensures ShowsDocs(shown, ShowOrder(results, f, descending), Build(results).slots, docs)
  {
    hide Answers, Matching, IsThreading, Keys, StaysForest, Placed, Threaded, Build, Walk, WalkReversedRoots,
      SortedByKey, Messages, InOrder, PathOf, Pow16;
    var out := EntriesOf(results, docs, ms, f, descending, shown);
    ThreadsAreShown(results, f, descending, out);
    forall k | 0 <= k < |out| ensures out[k].id in Build(results).slots && Build(results).slots[out[k].id] < |docs| {
      EntryIsKey(results, docs, ms, f, descending, out[k]);
    }
  }

  /** Runs the first steps of a threaded query.  Afterwards the thread decider keeps
      exactly the documents of the placed results, and whatever sort by path is used,
      they come out as the walk of the threads. */
  method RunThreaded(results: seq<Message>, docs: seq<nat>, matches: Matches, descending: bool)
    returns (ghost f: Forest)
    requires |results| == |docs| && Matching(docs, matches) && StaysForest(results)
    requires descending ==> |Nodes(Build(results).forest)| <= Pow16(7)
    requires forall d <- matches :: matches[d].threadPath == ""
    modifies matches.Values
    ensures IsThreading(results, f)
    ensures forall d :: PathOf(matches, d) != "" <==> exists i :: 0 <= i < |docs| && docs[i] == d && Placed(results, i)
    ensures forall shown :: Answers(shown, matches, descending) ==>
              ShowsDocs(shown, ShowOrder(results, f, descending), Build(results).slots, docs)
  {
    var own := InOrder(docs, matches);
    forall i, j | 0 <= i < j < |own| ensures own[i] != own[j] {}
    f := CalculateThreads(results, own, descending);
    forall d ensures PathOf(matches, d) != "" <==> exists i :: 0 <= i < |docs| && docs[i] == d && Placed(results, i) {
      if d in matches && d !in docs { assert matches[d] !in own; }
    }
    forall shown | Answers(shown, matches, descending)
      ensures ShowsDocs(shown, ShowOrder(results, f, descending), Build(results).slots, docs)
    {
      AnswerIsWalk(results, docs, matches, f, descending, shown);
    }
  }
}
