/** Thread paths: hexadecimal segment strings whose byte order is the order in
    which threads are to be shown. */
module ThreadPaths {
  import opened Forests
  import opened ByteStrings
  import opened Pruning

  // Segments

  function Pow16(k: nat): (r: nat)
    ensures r > 0
  {
    if k == 0 then 1 else 16 * Pow16(k - 1)
  }

  function HexDigit(d: nat): char
    requires d < 16
  {
    if d < 10 then (d as char) + '0' else ((d - 10) as char) + 'a'
  }

  function Hex(n: nat): string {
    if n < 16 then [HexDigit(n)] else Hex(n / 16) + [HexDigit(n % 16)]
  }

  function ZeroPad(s: string, width: nat): string
    decreases width - |s|
  {
    if |s| >= width then s else ZeroPad("0" + s, width)
  }

  /** The number n in hexadecimal, padded to at least `digits` digits. */
  function Segment(n: nat, digits: nat): string { ZeroPad(Hex(n), digits) }

  /** The least number of hexadecimal digits that can count n things. */
  function SegSize(n: nat): (k: nat)
    ensures n <= Pow16(k)
    ensures forall j: nat :: n <= Pow16(j) ==> k <= j
  {
    if n <= 1 then 0 else SegSizeFits(n); 1 + SegSize((n + 15) / 16)
  }

  lemma SegSizeFits(n: nat)
    requires n > 1
    ensures forall k: nat :: (n + 15) / 16 <= Pow16(k) <==> n <= Pow16(k + 1)
    ensures forall j: nat :: n <= Pow16(j) ==> j > 0
  {
    forall k: nat ensures (n + 15) / 16 <= Pow16(k) <==> n <= Pow16(k + 1) {}
  }

  /** The last w hexadecimal digits of n. */
  function Fixed(n: nat, w: nat): (s: string)
    ensures |s| == w
  {
    if w == 0 then "" else Fixed(n / 16, w - 1) + [HexDigit(n % 16)]
  }

  lemma {:induction false} ZeroPadSnoc(s: string, c: char, w: nat)
    requires w > 0
    ensures ZeroPad(s + [c], w) == ZeroPad(s, w - 1) + [c]
    decreases w - |s|
  {
    if |s| + 1 < w {
      assert "0" + (s + [c]) == ("0" + s) + [c];
      ZeroPadSnoc("0" + s, c, w);
    }
  }

  lemma {:induction false} FixedZero(w: nat)
    requires w > 0
    ensures Fixed(0, w) == ZeroPad("0", w)
  {
    if w > 1 {
      FixedZero(w - 1);
      assert "0" + "0" == "0" + ['0'];
      ZeroPadSnoc("0", '0', w);
    } else {
      assert Fixed(0, 1) == "" + ['0'];
    }
  }

  lemma {:induction false} SegmentIsFixed(n: nat, w: nat)
    requires w > 0 && n < Pow16(w)
    ensures Segment(n, w) == Fixed(n, w)
  {
    if n < 16 {
      if w == 1 {
        assert Fixed(n, 1) == Fixed(0, 0) + [HexDigit(n)];
      } else {
        FixedZero(w - 1);
        ZeroPadSnoc("0", HexDigit(n), w);
        assert "0" + [HexDigit(n)] == "0" + Hex(n);
        assert n / 16 == 0 && n % 16 == n;
      }
    } else {
      SegmentIsFixed(n / 16, w - 1);
      ZeroPadSnoc(Hex(n / 16), HexDigit(n % 16), w);
    }
  }

  lemma {:induction false} LtSnoc(s: string, t: string, c: char, d: char)
    requires |s| == |t|
    ensures Lt(s + [c], t + [d]) <==> Lt(s, t) || (s == t && c < d)
  {
    if s == "" {
    } else {
      assert (s + [c])[1..] == s[1..] + [c] && (t + [d])[1..] == t[1..] + [d];
      LtSnoc(s[1..], t[1..], c, d);
      assert s == [s[0]] + s[1..] && t == [t[0]] + t[1..];
    }
  }

  lemma {:induction false} FixedOrder(a: nat, b: nat, w: nat)
    requires a < b < Pow16(w)
    ensures Lt(Fixed(a, w), Fixed(b, w))
  {
    if a / 16 < b / 16 { FixedOrder(a / 16, b / 16, w - 1); }
    LtSnoc(Fixed(a / 16, w - 1), Fixed(b / 16, w - 1), HexDigit(a % 16), HexDigit(b % 16));
  }

  /** Segments that fit have one width, and byte order is numeric order. */
  lemma SegmentOrder(a: nat, b: nat, digits: nat)
    requires a < b < Pow16(digits)
    ensures |Segment(a, digits)| == |Segment(b, digits)| == digits
    ensures Lt(Segment(a, digits), Segment(b, digits))
  {
    SegmentIsFixed(a, digits);
    SegmentIsFixed(b, digits);
    FixedOrder(a, b, digits);
  }

  // Paths

  /** The segments joined by colons. */
  function ToString(tpath: seq<nat>, digits: nat): string
    decreases |tpath|, 0
  {
    if tpath == [] then ""
    else Lead(tpath[..|tpath| - 1], digits) + Segment(tpath[|tpath| - 1], digits)
  }

  /** What comes before the last segment of a path that extends tpath. */
  function Lead(tpath: seq<nat>, digits: nat): string
    decreases |tpath|, 1
  {
    if tpath == [] then "" else ToString(tpath, digits) + ":"
  }

  /** The sorting key of a message with the path tpath. */
  function PathKey(tpath: seq<nat>, descending: bool, digits: nat): string {
    ToString(tpath, digits) + if descending then ":z" else ""
  }

  /** The complement of idx in 32-bit unsigned arithmetic. */
  function Inverse(idx: nat, digits: nat): nat {
    (Pow16(digits) - 1 - idx) % 0x1_0000_0000
  }

  datatype Entry = Entry(id: Id, key: string, level: nat)

  function Own(c: Id, full: set<Id>, tpath: seq<nat>, descending: bool, digits: nat): seq<Entry> {
    if c in full && tpath != [] then [Entry(c, PathKey(tpath, descending, digits), |tpath| - 1)] else []
  }

  /** The segment a child gets at position idx of its siblings. */
  function ChildSegment(c: Id, full: set<Id>, idx: nat, descending: bool, digits: nat): nat {
    if c in full && descending then Inverse(idx, digits) else idx
  }

  /** The keys of one tree: its root's, and those below it. */
  function PathsOfTree(c: Id, k: Forest, full: set<Id>, tpath: seq<nat>, descending: bool, digits: nat): seq<Entry>
    decreases k, 1
  {
    Own(c, full, tpath, descending, digits) + PathsBelow(k, full, tpath, 0, descending, digits)
  }

  /** The keys given to the messages in f, siblings from position idx on below
      the path tpath, in the order of the walk. */
  function PathsBelow(f: Forest, full: set<Id>, tpath: seq<nat>, idx: nat, descending: bool, digits: nat): seq<Entry>
    decreases f, 0
  {
    match f
    case Nil => []
    case Tree(c, k, s) =>
      var here := tpath + [ChildSegment(c, full, idx, descending, digits)];
      PathsOfTree(c, k, full, here, descending, digits)
      + PathsBelow(s, full, tpath, idx + 1, descending, digits)
  }

  /** The same for one root at position idx; its segment is never inverted. */
  function PathsOfRoot(c: Id, k: Forest, full: set<Id>, idx: nat, descending: bool, digits: nat): seq<Entry> {
    PathsOfTree(c, k, full, [idx], descending, digits)
  }

  function PathsTop(f: Forest, full: set<Id>, idx: nat, descending: bool, digits: nat): seq<Entry> {
    match f
    case Nil => []
    case Tree(c, k, s) =>
      PathsOfRoot(c, k, full, idx, descending, digits) + PathsTop(s, full, idx + 1, descending, digits)
  }

  // The order threads are shown in

  /** Parents before children, siblings in order. */
  function Walk(f: Forest, full: set<Id>): seq<Id> {
    match f
    case Nil => []
    case Tree(c, k, s) => (if c in full then [c] else []) + Walk(k, full) + Walk(s, full)
  }

  /** The roots in reverse, each thread still parents first, siblings in order. */
  function WalkReversedRoots(f: Forest, full: set<Id>): seq<Id> {
    match f
    case Nil => []
    case Tree(c, k, s) => WalkReversedRoots(s, full) + Walk(Tree(c, k, Nil), full)
  }

  function Ids(es: seq<Entry>): (r: seq<Id>)
    ensures |r| == |es|
    ensures forall i :: 0 <= i < |es| ==> r[i] == es[i].id
  {
    if es == [] then [] else [es[0].id] + Ids(es[1..])
  }

  lemma IdsAppend(a: seq<Entry>, b: seq<Entry>)
    ensures Ids(a + b) == Ids(a) + Ids(b)
  {}

  function Size(f: Forest): nat {
    match f
    case Nil => 0
    case Tree(_, k, s) => 1 + Size(k) + Size(s)
  }

  // Keys against the order

  /** x is shown before y: keys ascend, or descend in a descending sort. */
  predicate Before(x: string, y: string, descending: bool) {
    if descending then Lt(y, x) else Lt(x, y)
  }

  ghost predicate InOrder(es: seq<Entry>, descending: bool) {
    forall i, j :: 0 <= i < j < |es| ==> Before(es[i].key, es[j].key, descending)
  }

  /** x is shown before every entry of es. */
  ghost predicate BeforeAll(x: string, es: seq<Entry>, descending: bool) {
    forall j :: 0 <= j < |es| ==> Before(x, es[j].key, descending)
  }

  ghost predicate AllBefore(a: seq<Entry>, b: seq<Entry>, descending: bool) {
    forall i :: 0 <= i < |a| ==> BeforeAll(a[i].key, b, descending)
  }

  /** Every key of es starts with text. */
  ghost predicate AllStart(text: string, es: seq<Entry>) {
    forall i :: 0 <= i < |es| ==> text <= es[i].key
  }

  lemma BeforeAppend(x: string, a: seq<Entry>, b: seq<Entry>, descending: bool)
    requires BeforeAll(x, a, descending) && BeforeAll(x, b, descending)
    ensures BeforeAll(x, a + b, descending)
  {}

  lemma InOrderAppend(a: seq<Entry>, b: seq<Entry>, descending: bool)
    requires InOrder(a, descending) && InOrder(b, descending) && AllBefore(a, b, descending)
    ensures InOrder(a + b, descending)
  {}

  lemma {:induction false} LtByPrefix(p: string, q: string, a: string, b: string)
    requires |p| == |q| && Lt(p, q) && p <= a && q <= b
    ensures Lt(a, b)
  {
    if p[0] == q[0] { LtByPrefix(p[1..], q[1..], a[1..], b[1..]); }
  }

  lemma LeadSnoc(tpath: seq<nat>, v: nat, digits: nat)
    ensures ToString(tpath + [v], digits) == Lead(tpath, digits) + Segment(v, digits)
    ensures Lead(tpath + [v], digits) == Lead(tpath, digits) + Segment(v, digits) + ":"
  {
    assert (tpath + [v])[..|tpath|] == tpath;
  }

  predicate IsHexDigit(c: char) { '0' <= c <= '9' || 'a' <= c <= 'f' }

  lemma {:induction false} SegmentStart(n: nat, digits: nat)
    ensures Segment(n, digits) != "" && IsHexDigit(Segment(n, digits)[0])
  {
    HexStart(n);
    ZeroPadStart(Hex(n), digits);
  }

  lemma HexStart(n: nat)
    ensures Hex(n) != "" && IsHexDigit(Hex(n)[0])
  {}

  lemma ZeroPadStart(s: string, w: nat)
    requires s != "" && IsHexDigit(s[0])
    ensures ZeroPad(s, w) != "" && IsHexDigit(ZeroPad(s, w)[0])
    decreases w - |s|
  {}

  /** text, then more, starting with a hexadecimal digit. */
  predicate Continues(text: string, key: string) {
    |text| < |key| && text <= key && IsHexDigit(key[|text|])
  }

  /** All keys below a path start with the text of that path. */
  lemma {:induction false} KeysStart(f: Forest, full: set<Id>, tpath: seq<nat>, idx: nat, desc: bool, digits: nat)
    ensures forall e <- PathsBelow(f, full, tpath, idx, desc, digits) :: Continues(Lead(tpath, digits), e.key)
  {
    if f.Tree? {
      var v := ChildSegment(f.root, full, idx, desc, digits);
      KeysStart(f.kids, full, tpath + [v], 0, desc, digits);
      KeysStart(f.rest, full, tpath, idx + 1, desc, digits);
      LeadSnoc(tpath, v, digits);
      SegmentStart(v, digits);
    }
  }

  lemma TextIsBetween(t: string, key: string)
    requires Continues(t + ":", key)
    ensures Lt(t, key) && Lt(key, t + ":z")
  {
    var r := key[|t|..];
    assert key == t + r && r[0] == key[|t|] == (t + ":")[|t|] && r[1] == key[|t| + 1];
    assert r[1..][0] < 'z' && ":z"[1..] == "z";
    SkipPrefix(t, "", r);
    SkipPrefix(t, r, ":z");
    assert t + "" == t;
  }

  /** A parent's key comes before all keys of its descendants. */
  lemma ParentFirst(c: Id, k: Forest, full: set<Id>, tpath: seq<nat>, desc: bool, digits: nat)
    requires tpath != []
    ensures AllBefore(Own(c, full, tpath, desc, digits), PathsBelow(k, full, tpath, 0, desc, digits), desc)
  {
    KeysStart(k, full, tpath, 0, desc, digits);
    var t := ToString(tpath, digits);
    forall e | e in PathsBelow(k, full, tpath, 0, desc, digits)
      ensures Before(t + if desc then ":z" else "", e.key, desc) {
      TextIsBetween(t, e.key);
      assert t + "" == t;
    }
  }

  /** All keys of one tree start with the text of its root's path. */
  lemma TreeStarts(c: Id, k: Forest, full: set<Id>, tpath: seq<nat>, desc: bool, digits: nat)
    ensures AllStart(ToString(tpath, digits), PathsOfTree(c, k, full, tpath, desc, digits))
  {
    KeysStart(k, full, tpath, 0, desc, digits);
  }

  /** The segment of a message at position i of its siblings. */
  function SiblingSegment(i: nat, desc: bool, digits: nat): string {
    Segment(if desc then Inverse(i, digits) else i, digits)
  }

  lemma SiblingSegmentOrder(i: nat, j: nat, desc: bool, digits: nat)
    requires i < j < Pow16(digits) && (desc ==> Pow16(digits) <= 0x1_0000_0000)
    ensures |SiblingSegment(i, desc, digits)| == |SiblingSegment(j, desc, digits)|
    ensures Before(SiblingSegment(i, desc, digits), SiblingSegment(j, desc, digits), desc)
  {
    hide Segment, Lt, Pow16;
    if desc {
      assert Inverse(j, digits) == Pow16(digits) - 1 - j < Inverse(i, digits) == Pow16(digits) - 1 - i;
      SegmentOrder(Inverse(j, digits), Inverse(i, digits), digits);
    } else {
      SegmentOrder(i, j, digits);
    }
  }

  /** Keys that start with the earlier of two segments come first. */
  lemma SegmentsDecide(lead: string, s: string, t: string, x: string, es: seq<Entry>, desc: bool)
    requires |s| == |t| && Before(s, t, desc)
    requires lead + s <= x && AllStart(lead + t, es)
    ensures BeforeAll(x, es, desc)
  {
    forall k | 0 <= k < |es| ensures Before(x, es[k].key, desc) {
      if desc {
        SkipPrefix(lead, t, s);
        LtByPrefix(lead + t, lead + s, es[k].key, x);
      } else {
        SkipPrefix(lead, s, t);
        LtByPrefix(lead + s, lead + t, x, es[k].key);
      }
    }
  }

  /** Keys in an earlier sibling's tree come before those in a later one's. */
  lemma SiblingSegments(i: nat, j: nat, lead: string, x: string, es: seq<Entry>, desc: bool, digits: nat)
    requires i < j < Pow16(digits) && (desc ==> Pow16(digits) <= 0x1_0000_0000)
    requires lead + SiblingSegment(i, desc, digits) <= x
    requires AllStart(lead + SiblingSegment(j, desc, digits), es)
    ensures BeforeAll(x, es, desc)
  {
    SiblingSegmentOrder(i, j, desc, digits);
    SegmentsDecide(lead, SiblingSegment(i, desc, digits), SiblingSegment(j, desc, digits), x, es, desc);
  }

  /** Later siblings, with all that is below them, come after x. */
  lemma {:induction false} LaterSiblings(f: Forest, full: set<Id>, tpath: seq<nat>, idx: nat, desc: bool, digits: nat,
                                         i: nat, x: string)
    requires Nodes(f) <= full && i < idx && idx + Size(f) <= Pow16(digits)
    requires desc ==> Pow16(digits) <= 0x1_0000_0000
    requires Lead(tpath, digits) + SiblingSegment(i, desc, digits) <= x
    ensures BeforeAll(x, PathsBelow(f, full, tpath, idx, desc, digits), desc)
  {
    if f.Tree? {
      var Tree(c, k, s) := f;
      var v := ChildSegment(c, full, idx, desc, digits);
      TreeStarts(c, k, full, tpath + [v], desc, digits);
      LeadSnoc(tpath, v, digits);
      var tree, rest := PathsOfTree(c, k, full, tpath + [v], desc, digits),
        PathsBelow(s, full, tpath, idx + 1, desc, digits);
      SiblingSegments(i, idx, Lead(tpath, digits), x, tree, desc, digits);
      LaterSiblings(s, full, tpath, idx + 1, desc, digits, i, x);
      BeforeAppend(x, tree, rest, desc);
    }
  }

  /** Below a path, keys are in the order of the walk. */
  lemma {:induction false} BelowInOrder(f: Forest, full: set<Id>, tpath: seq<nat>, idx: nat, desc: bool, digits: nat)
    requires Nodes(f) <= full && idx + Size(f) <= Pow16(digits)
    requires desc ==> Pow16(digits) <= 0x1_0000_0000
    ensures InOrder(PathsBelow(f, full, tpath, idx, desc, digits), desc)
    ensures Ids(PathsBelow(f, full, tpath, idx, desc, digits)) == Walk(f, full)
  {
    if f.Tree? {
      var Tree(c, k, s) := f;
      var v := ChildSegment(c, full, idx, desc, digits);
      var tree, rest := PathsOfTree(c, k, full, tpath + [v], desc, digits),
        PathsBelow(s, full, tpath, idx + 1, desc, digits);
      BelowInOrder(k, full, tpath + [v], 0, desc, digits);
      TreeInOrder(c, k, full, tpath + [v], desc, digits);
      BelowInOrder(s, full, tpath, idx + 1, desc, digits);
      LeadSnoc(tpath, v, digits);
      TreeStarts(c, k, full, tpath + [v], desc, digits);
      forall i | 0 <= i < |tree| ensures BeforeAll(tree[i].key, rest, desc) {
        LaterSiblings(s, full, tpath, idx + 1, desc, digits, idx, tree[i].key);
      }
      InOrderAppend(tree, rest, desc);
      IdsAppend(tree, rest);
    }
  }

  lemma TreeInOrder(c: Id, k: Forest, full: set<Id>, tpath: seq<nat>, desc: bool, digits: nat)
    requires tpath != []
    requires InOrder(PathsBelow(k, full, tpath, 0, desc, digits), desc)
    requires Ids(PathsBelow(k, full, tpath, 0, desc, digits)) == Walk(k, full)
    ensures InOrder(PathsOfTree(c, k, full, tpath, desc, digits), desc)
    ensures Ids(PathsOfTree(c, k, full, tpath, desc, digits)) == (if c in full then [c] else []) + Walk(k, full)
  {
    var own, kids := Own(c, full, tpath, desc, digits), PathsBelow(k, full, tpath, 0, desc, digits);
    ParentFirst(c, k, full, tpath, desc, digits);
    InOrderAppend(own, kids, desc);
    IdsAppend(own, kids);
  }

  // The whole forest

  /** The keys of all threads, last root first. */
  function PathsReversed(f: Forest, full: set<Id>, idx: nat, descending: bool, digits: nat): seq<Entry> {
    match f
    case Nil => []
    case Tree(c, k, s) =>
      PathsReversed(s, full, idx + 1, descending, digits) + PathsOfRoot(c, k, full, idx, descending, digits)
  }

  lemma ReversedIsPermutation(f: Forest, full: set<Id>, idx: nat, desc: bool, digits: nat)
    ensures multiset(PathsReversed(f, full, idx, desc, digits)) == multiset(PathsTop(f, full, idx, desc, digits))
  {}

  lemma RootInOrder(c: Id, k: Forest, full: set<Id>, idx: nat, desc: bool, digits: nat)
    requires Nodes(k) <= full && idx + 1 + Size(k) <= Pow16(digits)
    requires desc ==> Pow16(digits) <= 0x1_0000_0000
    ensures InOrder(PathsOfRoot(c, k, full, idx, desc, digits), desc)
    ensures Ids(PathsOfRoot(c, k, full, idx, desc, digits)) == Walk(Tree(c, k, Nil), full)
    ensures AllStart(Segment(idx, digits), PathsOfRoot(c, k, full, idx, desc, digits))
  {
    BelowInOrder(k, full, [idx], 0, desc, digits);
    TreeInOrder(c, k, full, [idx], desc, digits);
    TreeStarts(c, k, full, [idx], desc, digits);
    LeadSnoc([], idx, digits);
    assert [] + [idx] == [idx];
  }

  /** Roots ascend by key in either kind of sort. */
  lemma {:induction false} LaterRoots(f: Forest, full: set<Id>, idx: nat, desc: bool, digits: nat, i: nat, x: string)
    requires EmptiesAreBranchingRoots(f, full) && i < idx && idx + Size(f) <= Pow16(digits)
    requires desc ==> Pow16(digits) <= 0x1_0000_0000
    requires Segment(i, digits) <= x
    ensures BeforeAll(x, PathsTop(f, full, idx, desc, digits), false)
  {
    hide Segment, Lt, Pow16, PathsOfRoot, PathsBelow, Nodes;
    if f.Tree? {
      var root := PathsOfRoot(f.root, f.kids, full, idx, desc, digits);
      RootInOrder(f.root, f.kids, full, idx, desc, digits);
      SiblingSegments(i, idx, "", x, root, false, digits);
      LaterRoots(f.rest, full, idx + 1, desc, digits, i, x);
      BeforeAppend(x, root, PathsTop(f.rest, full, idx + 1, desc, digits), false);
    }
  }

  lemma WalkSplits(c: Id, k: Forest, s: Forest, full: set<Id>)
    ensures Walk(Tree(c, k, s), full) == Walk(Tree(c, k, Nil), full) + Walk(s, full)
  {
    assert Walk(Tree(c, k, Nil), full) == (if c in full then [c] else []) + Walk(k, full);
  }

  /** Ascending, the keys follow the walk of the forest. */
  lemma {:induction false} AscendingInOrder(f: Forest, full: set<Id>, idx: nat, digits: nat)
    requires EmptiesAreBranchingRoots(f, full) && idx + Size(f) <= Pow16(digits)
    ensures InOrder(PathsTop(f, full, idx, false, digits), false)
    ensures Ids(PathsTop(f, full, idx, false, digits)) == Walk(f, full)
  {
    if f.Tree? {
      var Tree(c, k, s) := f;
      var root, rest := PathsOfRoot(c, k, full, idx, false, digits), PathsTop(s, full, idx + 1, false, digits);
      RootInOrder(c, k, full, idx, false, digits);
      AscendingInOrder(s, full, idx + 1, digits);
      RootBeforeLater(c, k, s, full, idx, false, digits);
      InOrderAppend(root, rest, false);
      IdsAppend(root, rest);
      WalkSplits(c, k, s, full);
    }
  }

  /** Descending, in reverse byte order, they follow the walk with the roots
      reversed. */
  lemma {:induction false} DescendingInOrder(f: Forest, full: set<Id>, idx: nat, digits: nat)
    requires EmptiesAreBranchingRoots(f, full) && idx + Size(f) <= Pow16(digits) <= 0x1_0000_0000
    ensures InOrder(PathsReversed(f, full, idx, true, digits), true)
    ensures Ids(PathsReversed(f, full, idx, true, digits)) == WalkReversedRoots(f, full)
  {
    if f.Tree? {
      var Tree(c, k, s) := f;
      var root, rest := PathsOfRoot(c, k, full, idx, true, digits), PathsReversed(s, full, idx + 1, true, digits);
      RootInOrder(c, k, full, idx, true, digits);
      DescendingInOrder(s, full, idx + 1, digits);
      RootBeforeLater(c, k, s, full, idx, true, digits);
      ReversedIsPermutation(s, full, idx + 1, true, digits);
      Turned(root, PathsTop(s, full, idx + 1, true, digits), rest);
      InOrderAppend(rest, root, true);
      IdsAppend(rest, root);
    }
  }

  lemma RootBeforeLater(c: Id, k: Forest, s: Forest, full: set<Id>, idx: nat, desc: bool, digits: nat)
    requires EmptiesAreBranchingRoots(Tree(c, k, s), full) && idx + Size(Tree(c, k, s)) <= Pow16(digits)
    requires desc ==> Pow16(digits) <= 0x1_0000_0000
    ensures AllBefore(PathsOfRoot(c, k, full, idx, desc, digits), PathsTop(s, full, idx + 1, desc, digits), false)
  {
    var root, rest := PathsOfRoot(c, k, full, idx, desc, digits), PathsTop(s, full, idx + 1, desc, digits);
    RootInOrder(c, k, full, idx, desc, digits);
    forall i | 0 <= i < |root| ensures BeforeAll(root[i].key, rest, false) {
      LaterRoots(s, full, idx + 1, desc, digits, idx, root[i].key);
    }
  }

  lemma Turned(root: seq<Entry>, rest: seq<Entry>, reversed: seq<Entry>)
    requires AllBefore(root, rest, false) && multiset(reversed) == multiset(rest)
    ensures AllBefore(reversed, root, true)
  {
    forall i, j | 0 <= i < |reversed| && 0 <= j < |root| ensures Before(reversed[i].key, root[j].key, true) {
      assert reversed[i] in multiset(rest);
      var k :| 0 <= k < |rest| && rest[k] == reversed[i];
      assert BeforeAll(root[j].key, rest, false);
    }
  }

  /** out is es in the order a sort by key leaves it. */
  ghost predicate SortedByKey(out: seq<Entry>, es: seq<Entry>, descending: bool) {
    && multiset(out) == multiset(es)
    && forall i, j :: 0 <= i < j < |out| ==> !Before(out[j].key, out[i].key, descending)
  }

  lemma {:induction false} SortIsUnique(out: seq<Entry>, es: seq<Entry>, desc: bool)
    requires SortedByKey(out, es, desc) && InOrder(es, desc)
    ensures out == es
    decreases |es|
  {
    if es == [] {
      assert |multiset(out)| == 0;
    } else {
      SameFirst(out, es, desc);
      assert out == [out[0]] + out[1..] && es == [es[0]] + es[1..];
      assert multiset(out[1..]) == multiset(out) - multiset{out[0]};
      assert multiset(es[1..]) == multiset(es) - multiset{es[0]};
      SortIsUnique(out[1..], es[1..], desc);
    }
  }

  lemma SameFirst(out: seq<Entry>, es: seq<Entry>, desc: bool)
    requires SortedByKey(out, es, desc) && InOrder(es, desc) && es != []
    ensures |out| > 0 && out[0] == es[0]
  {
    assert es[0] in multiset(out);
    var j :| 0 <= j < |out| && out[j] == es[0];
    assert out[0] in multiset(es);
    var i :| 0 <= i < |es| && es[i] == out[0];
    Irreflexive(es[0].key);
  }

  /** Sorting the messages of a pruned forest by thread path, with the segment
      size of a table of n containers, shows every parent before its children and
      siblings in order; with the roots in order, or reversed when descending. */
  lemma SortingByPathShowsThreads(f: Forest, full: set<Id>, n: nat, desc: bool, out: seq<Entry>)
    requires EmptiesAreBranchingRoots(f, full) && Size(f) <= n
    requires desc ==> n <= Pow16(7)
    requires SortedByKey(out, PathsTop(f, full, 0, desc, SegSize(n)), desc)
    ensures Ids(out) == if desc then WalkReversedRoots(f, full) else Walk(f, full)
  {
    var digits := SegSize(n);
    if desc { Pow16Grows(digits, 7); assert Pow16(7) == 0x1000_0000 by { assert Pow16(3) == 4096; } }
    if desc {
      DescendingInOrder(f, full, 0, digits);
      ReversedIsPermutation(f, full, 0, desc, digits);
      SortIsUnique(out, PathsReversed(f, full, 0, desc, digits), desc);
    } else {
      AscendingInOrder(f, full, 0, digits);
      SortIsUnique(out, PathsTop(f, full, 0, desc, digits), desc);
    }
  }

  lemma Pow16Grows(a: nat, b: nat)
    requires a <= b
    ensures Pow16(a) <= Pow16(b)
  {}
}
