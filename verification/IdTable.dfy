/** What building the id-table computes, as functions on forests: each result
    links the chain of its references, duplicates are hung below the message
    they repeat. */
module IdTableSpec {
  import opened Wrappers
  import opened Forests
  import ByteStrings
  import Decimal

  /** One query result: its headers and whether its match is a duplicate. */
  datatype Message = Message(id: Option<Id>, path: string, date: Option<string>,
                             refs: seq<Id>, duplicate: bool)

  /** m goes by the id x: its message-id, or its path if it has none. */
  predicate GoesBy(m: Message, x: Id) { m.id == Some(x) || (m.id == None && m.path == x) }

  function EffectiveId(m: Message): (x: Id)
    ensures GoesBy(m, x)
  {
    if m.id.Some? then m.id.value else m.path
  }

  /** The containers with their links, the result stored in each (as an index
      into the results), and the date keys that were set. */
  datatype Threads = Threads(forest: Forest, slots: map<Id, nat>, dates: map<Id, string>)

  const EMPTY := Threads(Nil, map[], map[])

  // Linking

  /** x has no parent yet, and p does not hang below x. */
  predicate CanLink(f: Forest, p: Id, x: Id)
    requires p in Nodes(f)
  {
    x in Roots(f) && RootOf(f, p) != x
  }

  function Link(f: Forest, p: Id, x: Id): Forest {
    Insert(Detach(f, x), p, Tree(x, RootKids(f, x), Nil))
  }

  function Ensure(f: Forest, x: Id): (r: Forest)
    ensures Nodes(r) == Nodes(f) + {x}
    ensures Distinct(f) ==> Distinct(r)
  {
    if x in Nodes(f) then f else Tree(x, Nil, f)
  }

  function Connect(f: Forest, prev: Option<Id>, x: Id): Forest
    requires prev.Some? ==> prev.value in Nodes(f)
  {
    var g := Ensure(f, x);
    if prev.Some? && CanLink(g, prev.value, x) then Link(g, prev.value, x) else g
  }

  /** Walks ids in order, linking each one below its predecessor where allowed. */
  function Chain(f: Forest, prev: Option<Id>, ids: seq<Id>): (r: Forest)
    requires Distinct(f)
    requires prev.Some? ==> prev.value in Nodes(f)
    ensures Distinct(r) && Nodes(f) <= Nodes(r)
    decreases |ids|
  {
    if ids == [] then f
    else
      ConnectKeepsForest(f, prev, ids[0]);
      Chain(Connect(f, prev, ids[0]), Some(ids[0]), ids[1..])
  }

  lemma {:induction false} ChainNodes(f: Forest, prev: Option<Id>, ids: seq<Id>, x: Id)
    requires Distinct(f)
    requires prev.Some? ==> prev.value in Nodes(f)
    ensures x in Nodes(Chain(f, prev, ids)) <==> x in Nodes(f) || x in ids
    decreases |ids|
  {
    if ids != [] {
      ConnectKeepsForest(f, prev, ids[0]);
      ChainNodes(Connect(f, prev, ids[0]), Some(ids[0]), ids[1..], x);
    }
  }

  lemma LinkKeepsForest(f: Forest, p: Id, x: Id)
    requires Distinct(f) && p in Nodes(f) && CanLink(f, p, x)
    ensures Distinct(Link(f, p, x))
    ensures Nodes(Link(f, p, x)) == Nodes(f)
    ensures p in Nodes(Detach(f, x))
  {
    DetachSplits(f, x);
    UnderRoot(f, x, p);
    InsertNodes(Detach(f, x), p, Tree(x, RootKids(f, x), Nil));
  }

  lemma UnderRoot(f: Forest, x: Id, p: Id)
    requires Distinct(f) && x in Roots(f) && p in Nodes(f)
    ensures RootOf(f, p) == x <==> p == x || p in Nodes(RootKids(f, x))
  {
    if x != f.root {
      DetachSplits(f.rest, x);
      if p in Nodes(f.rest) { UnderRoot(f.rest, x, p); }
    }
  }

  lemma ConnectKeepsForest(f: Forest, prev: Option<Id>, x: Id)
    requires Distinct(f)
    requires prev.Some? ==> prev.value in Nodes(f)
    ensures Distinct(Connect(f, prev, x))
    ensures Nodes(Connect(f, prev, x)) == Nodes(f) + {x}
  {
    var g := Ensure(f, x);
    if prev.Some? && CanLink(g, prev.value, x) { LinkKeepsForest(g, prev.value, x); }
  }

  // Exactly what one link changes

  lemma InsertAbove(f: Forest, p: Id, g: Forest, a: Id, b: Id)
    requires Distinct(f) && Distinct(g) && Nodes(f) !! Nodes(g)
    ensures Above(Insert(f, p, g), a, b) <==>
            || Above(f, a, b)
            || (p in Nodes(f) && (Above(g, a, b) || ((a == p || Above(f, a, p)) && b in Nodes(g))))
  {
    match f
    case Nil =>
    case Tree(c, k, s) =>
      InsertNodes(k, p, g); InsertNodes(s, p, g);
      AboveNodes(k, a, p); AboveNodes(s, a, p);
      AboveAppend(k, g, a, b);
      InsertAbove(k, p, g, a, b);
      InsertAbove(s, p, g, a, b);
  }

  /** A link adds exactly the pairs (p or above p, x or below x). */
  lemma LinkAbove(f: Forest, p: Id, x: Id, a: Id, b: Id)
    requires Distinct(f) && p in Nodes(f) && CanLink(f, p, x)
    ensures Above(Link(f, p, x), a, b) <==>
            Above(f, a, b) || ((a == p || Above(f, a, p)) && (b == x || Above(f, x, b)))
  {
    LinkKeepsForest(f, p, x);
    DetachSplits(f, x);
    var k := RootKids(f, x);
    InsertAbove(Detach(f, x), p, Tree(x, k, Nil), a, b);
    DetachAbove(f, x, a, b);
    DetachAbove(f, x, a, p);
    DetachAbove(f, x, x, b);
    AboveNodes(k, x, b); AboveNodes(Detach(f, x), x, b); AboveNodes(k, a, p);
  }

  lemma InsertParentHere(f: Forest, g: Forest, y: Id, up: Option<Id>)
    requires f.Tree? && Distinct(f) && Distinct(g) && Nodes(f) !! Nodes(g) && y in Nodes(f) + Nodes(g)
    ensures ParentIn(Tree(f.root, Append(f.kids, g), f.rest), y, up) ==
            if y in Nodes(g) then ParentIn(g, y, Some(f.root)) else ParentIn(f, y, up)
  {
    AppendParent(f.kids, g, y, Some(f.root));
  }

  lemma {:induction false} InsertParent(f: Forest, p: Id, g: Forest, y: Id, up: Option<Id>)
    requires Distinct(f) && Distinct(g) && Nodes(f) !! Nodes(g) && p in Nodes(f)
    requires y in Nodes(f) + Nodes(g)
    ensures ParentIn(Insert(f, p, g), y, up) ==
            if y in Nodes(g) then ParentIn(g, y, Some(p)) else ParentIn(f, y, up)
  {
    var Tree(c, k, s) := f;
    InsertNodes(k, p, g); InsertNodes(s, p, g);
    if p == c { InsertParentHere(f, g, y, up); }
    else if p in Nodes(k) {
      if y in Nodes(k) + Nodes(g) { InsertParent(k, p, g, y, Some(c)); }
    } else if y in Nodes(s) + Nodes(g) { InsertParent(s, p, g, y, up); }
  }

  lemma AppendParent(f: Forest, g: Forest, y: Id, up: Option<Id>)
    requires Distinct(f) && Distinct(g) && Nodes(f) !! Nodes(g)
    ensures ParentIn(Append(f, g), y, up) == if y in Nodes(f) then ParentIn(f, y, up) else ParentIn(g, y, up)
  {}

  lemma DetachParent(f: Forest, x: Id, y: Id, up: Option<Id>)
    requires Distinct(f) && x in Roots(f) && y in Nodes(f)
    ensures ParentIn(f, y, up) ==
            if y == x then up
            else if y in Nodes(RootKids(f, x)) then ParentIn(RootKids(f, x), y, Some(x))
            else ParentIn(Detach(f, x), y, up)
  {
    if f.root != x {
      DetachSplits(f.rest, x);
      if y in Nodes(f.rest) { DetachParent(f.rest, x, y, up); }
    }
  }

  /** A link sets the parent of x to p and changes no other parent. */
  lemma LinkParent(f: Forest, p: Id, x: Id, y: Id)
    requires Distinct(f) && p in Nodes(f) && CanLink(f, p, x) && y in Nodes(f)
    ensures ParentIn(Link(f, p, x), y, None) == if y == x then Some(p) else ParentIn(f, y, None)
  {
    LinkKeepsForest(f, p, x);
    DetachSplits(f, x);
    InsertParent(Detach(f, x), p, Tree(x, RootKids(f, x), Nil), y, None);
    DetachParent(f, x, y, None);
  }

  // The whole table

  function AddMessage(st: Threads, i: nat, m: Message): (r: Threads)
    requires Distinct(st.forest)
    ensures Distinct(r.forest)
  {
    var id := EffectiveId(m);
    var f := Chain(Ensure(st.forest, id), None, m.refs + [id]);
    Threads(f,
            if id in st.slots then st.slots else st.slots[id := i],
            st.dates[id := if m.date.Some? then m.date.value else ""])
  }

  /** The table after the non-duplicate results, in result order. */
  function Main(ms: seq<Message>): (r: Threads)
    ensures Distinct(r.forest)
  {
    if ms == [] then EMPTY
    else
      var n := |ms| - 1;
      var st := Main(ms[..n]);
      if ms[n].duplicate then st else AddMessage(st, n, ms[n])
  }

  /** The duplicates, ordered by id and by result order within one id. */
  function Dups(ms: seq<Message>): seq<(Id, nat)> {
    if ms == [] then []
    else
      var n := |ms| - 1;
      if ms[n].duplicate then InsertDup(Dups(ms[..n]), (EffectiveId(ms[n]), n)) else Dups(ms[..n])
  }

  function InsertDup(ds: seq<(Id, nat)>, d: (Id, nat)): seq<(Id, nat)> {
    if ds == [] then [d]
    else if ByteStrings.Lt(d.0, ds[0].0) then [d] + ds
    else [ds[0]] + InsertDup(ds[1..], d)
  }

  function DupName(n: nat): Id { "dup-" + Decimal.Digits(n) }

  /** st with result j in a new container below x.  If there is a container of that
      name already, it is hung below x instead, and j is stored nowhere. */
  function WithDup(st: Threads, x: Id, name: Id, j: nat): Threads {
    if name in Nodes(st.forest) then st.(forest := Link(st.forest, x, name))
    else Threads(Insert(st.forest, x, Tree(name, Nil, Nil)), st.slots[name := j], st.dates)
  }

  /** Whether hanging up d, after n made-up names, keeps a forest: the next name is
      free, or names a container that may be linked. */
  predicate CanHang(f: Forest, n: nat, d: (Id, nat)) {
    d.0 in Nodes(f) && DupName(n + 1) in Nodes(f) ==> CanLink(f, d.0, DupName(n + 1))
  }

  /** One more duplicate, after n made-up names. */
  function AddOneDup(st: Threads, n: nat, d: (Id, nat)): (Threads, nat) {
    if d.0 !in Nodes(st.forest) then (st, n) else (WithDup(st, d.0, DupName(n + 1), d.1), n + 1)
  }

  /** st with the duplicates hung below the messages they repeat; the second
      component counts the names handed out. */
  function AddDups(st: Threads, ds: seq<(Id, nat)>): (Threads, nat) {
    if ds == [] then (st, 0)
    else
      var (t, n) := AddDups(st, ds[..|ds| - 1]);
      AddOneDup(t, n, ds[|ds| - 1])
  }

  /** Each of ds can be hung up at its turn. */
  predicate AllHang(st: Threads, ds: seq<(Id, nat)>) {
    ds == [] ||
    var init, d := ds[..|ds| - 1], ds[|ds| - 1];
    AllHang(st, init) && CanHang(AddDups(st, init).0.forest, AddDups(st, init).1, d)
  }

  function Build(ms: seq<Message>): Threads {
    AddDups(Main(ms), Dups(ms)).0
  }

  /** The names made up for the duplicates of a run leave a forest. */
  predicate StaysForest(ms: seq<Message>) { AllHang(Main(ms), Dups(ms)) }
}
