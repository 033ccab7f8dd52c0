/** What the keys of the messages say, read back from their text. */
module ThreadKeys {
  import opened Forests
  import opened IdTableSpec
  import opened Pruning
  import opened Substrings
  import opened ThreadPaths
  import opened Threader

  // Hexadecimal numerals

  const FIGURES := "0123456789abcdef"

  /** s is a numeral of n in base 16, maybe with zeros before it. */
  predicate IsNumeral(s: string, n: nat) {
    if s == "" then n == 0 else s[|s| - 1] == FIGURES[n % 16] && IsNumeral(s[..|s| - 1], n / 16)
  }

  function Sixteens(k: nat): nat { if k == 0 then 1 else Sixteens(k - 1) * 16 }

  lemma {:induction false} SixteensIs(k: nat)
    ensures Sixteens(k) == Pow16(k)
  {
    if k > 0 { SixteensIs(k - 1); }
  }

  lemma FigureIs(d: nat)
    requires d < 16
    ensures HexDigit(d) == FIGURES[d] && (HexDigit(d) == '0' <==> d == 0) && HexDigit(d) != ':'
  {
    if d < 8 { assert d == 0 || d == 1 || d == 2 || d == 3 || d == 4 || d == 5 || d == 6 || d == 7; }
    else { assert d == 8 || d == 9 || d == 10 || d == 11 || d == 12 || d == 13 || d == 14 || d == 15; }
  }

  lemma {:induction false} HexIsNumeral(n: nat)
    ensures IsNumeral(Hex(n), n) && Hex(n) != "" && (Hex(n)[0] == '0' <==> n == 0) && ':' !in Hex(n)
  {
    FigureIs(n % 16);
    if n < 16 {
      assert Hex(n)[..0] == "";
    } else {
      HexIsNumeral(n / 16);
      assert Hex(n)[..|Hex(n)| - 1] == Hex(n / 16);
    }
  }

  lemma {:induction false} ZeroBefore(s: string, n: nat)
    requires IsNumeral(s, n)
    ensures IsNumeral("0" + s, n)
  {
    if s == "" {
      assert "0" + s == "0" && "0"[..0] == "";
    } else {
      ZeroBefore(s[..|s| - 1], n / 16);
      assert ("0" + s)[..|s|] == "0" + s[..|s| - 1];
    }
  }

  lemma {:induction false} PaddedIsNumeral(s: string, n: nat, width: nat)
    requires IsNumeral(s, n) && ':' !in s
    ensures var r := ZeroPad(s, width);
            IsNumeral(r, n) && ':' !in r && |r| == if |s| < width then width else |s|
    ensures |s| >= width ==> ZeroPad(s, width) == s
    decreases width - |s|
  {
    if |s| < width {
      ZeroBefore(s, n);
      PaddedIsNumeral("0" + s, n, width);
    }
  }

  /** A segment is the numeral of its number in small hexadecimal figures, with just
      as many zeros before it as make it wide enough. */
  lemma SegmentIs(n: nat, digits: nat)
    ensures var s := Segment(n, digits);
            && s != "" && IsNumeral(s, n) && ':' !in s && |s| >= digits
            && (|s| > digits && n > 0 ==> s[0] != '0') && (|s| > digits && n == 0 ==> s == "0")
  {
    HexIsNumeral(n);
    PaddedIsNumeral(Hex(n), n, digits);
  }

  /** The number of figures: the least that can number all n things. */
  lemma SegSizeIs(n: nat)
    ensures n <= Sixteens(SegSize(n)) && (SegSize(n) > 0 ==> n > Sixteens(SegSize(n) - 1))
  {
    SixteensIs(SegSize(n));
    if SegSize(n) > 0 {
      SixteensIs(SegSize(n) - 1);
    }
  }

  // Keys

  /** The segments of a path as text. */
  function Segments(tpath: seq<nat>, digits: nat): (r: seq<string>)
    ensures |r| == |tpath| && forall i :: 0 <= i < |tpath| ==> r[i] == Segment(tpath[i], digits)
  {
    seq(|tpath|, i requires 0 <= i < |tpath| => Segment(tpath[i], digits))
  }

  lemma {:induction false} JoinedSnoc(parts: seq<string>, p: string, sep: char)
    requires parts != []
    ensures Joined(parts + [p], sep) == Joined(parts, sep) + [sep] + p
  {
    if |parts| > 1 {
      assert (parts + [p])[1..] == parts[1..] + [p];
      JoinedSnoc(parts[1..], p, sep);
      assert parts[0] + [sep] + (Joined(parts[1..], sep) + [sep] + p)
          == (parts[0] + [sep] + Joined(parts[1..], sep)) + [sep] + p;
    }
  }

  lemma {:induction false} PathIsJoined(tpath: seq<nat>, digits: nat)
    ensures ToString(tpath, digits) == Joined(Segments(tpath, digits), ':')
  {
    if tpath != [] {
      var init, last := tpath[..|tpath| - 1], tpath[|tpath| - 1];
      PathIsJoined(init, digits);
      assert Segments(tpath, digits) == Segments(init, digits) + [Segment(last, digits)];
      if init != [] { JoinedSnoc(Segments(init, digits), Segment(last, digits), ':'); }
    }
  }

  /** A key comes apart at its colons, into the segments of its path and, in a
      descending sort, the letter z. */
  lemma KeyComesApart(tpath: seq<nat>, descending: bool, digits: nat)
    requires tpath != []
    ensures Split(PathKey(tpath, descending, digits), ':') ==
            Segments(tpath, digits) + if descending then ["z"] else []
  {
    var parts := Segments(tpath, digits) + if descending then ["z"] else [];
    PathIsJoined(tpath, digits);
    if descending {
      JoinedSnoc(Segments(tpath, digits), "z", ':');
      assert ToString(tpath, digits) + ":z" == ToString(tpath, digits) + [':'] + "z";
    } else {
      assert ToString(tpath, digits) + "" == ToString(tpath, digits) && parts == Segments(tpath, digits);
    }
    forall p | p in parts ensures ':' !in p {
      if i :| 0 <= i < |tpath| && p == Segments(tpath, digits)[i] { SegmentIs(tpath[i], digits); }
    }
    PartsOfJoined(parts, ':');
    SegmentIs(tpath[0], digits);
    assert parts[0] != "" && Joined(parts, ':') != "";
  }

  // Places

  /** The way down to x: its root's place among the roots, and so on down to the
      place of x among its siblings. */
  function Way(f: Forest, x: Id): (w: seq<nat>)
    requires x in Nodes(f)
    ensures w != []
  {
    if x == f.root then [0]
    else if x in Nodes(f.kids) then [0] + Way(f.kids, x)
    else Later(Way(f.rest, x), 1)
  }

  /** The same way when n siblings come before. */
  function Later(w: seq<nat>, n: nat): (r: seq<nat>)
    requires w != []
    ensures |r| == |w|
  {
    [w[0] + n] + w[1..]
  }

  lemma {:induction false} WayFits(f: Forest, x: Id)
    requires x in Nodes(f)
    ensures forall i :: 0 <= i < |Way(f, x)| ==> Way(f, x)[i] < Size(f)
  {
    if x != f.root {
      if x in Nodes(f.kids) { WayFits(f.kids, x); } else { WayFits(f.rest, x); }
    }
  }

  /** The segments on the way down among messages. */
  function Turned(w: seq<nat>, descending: bool, digits: nat): (r: seq<nat>)
    ensures |r| == |w|
    ensures forall i :: 0 <= i < |w| ==> r[i] == if descending then Inverse(w[i], digits) else w[i]
  {
    seq(|w|, i requires 0 <= i < |w| => if descending then Inverse(w[i], digits) else w[i])
  }

  lemma WayOfKid(f: Forest, x: Id, n: nat)
    requires f.Tree? && x in Nodes(f.kids) && x != f.root
    ensures Later(Way(f, x), n) == [n] + Way(f.kids, x) && Later(Way(f.kids, x), 0) == Way(f.kids, x)
  {}

  lemma WayBeside(f: Forest, x: Id, n: nat)
    requires f.Tree? && x in Nodes(f.rest) && x !in Nodes(f.kids) && x != f.root
    ensures Later(Way(f, x), n) == Later(Way(f.rest, x), n + 1)
  {}

  lemma TurnedFirst(tpath: seq<nat>, i: nat, w: seq<nat>, desc: bool, digits: nat)
    ensures tpath + Turned([i] + w, desc, digits) ==
            tpath + [if desc then Inverse(i, digits) else i] + Turned(w, desc, digits)
  {
    hide Inverse;
  }

  lemma {:induction false} KeyBelow(f: Forest, full: set<Id>, tpath: seq<nat>, idx: nat, desc: bool, digits: nat,
      e: Entry)
    requires Distinct(f) && Nodes(f) <= full && e in PathsBelow(f, full, tpath, idx, desc, digits)
    ensures e.id in Nodes(f)
    ensures e.key == PathKey(tpath + Turned(Later(Way(f, e.id), idx), desc, digits), desc, digits)
  {
    hide PathKey, Inverse, Way, Later, Turned;
    var Tree(c, k, s) := f;
    var here := tpath + [ChildSegment(c, full, idx, desc, digits)];
    if e in PathsBelow(k, full, here, 0, desc, digits) {
      KeyBelow(k, full, here, 0, desc, digits, e);
      WayOfKid(f, e.id, idx);
      TurnedFirst(tpath, idx, Way(k, e.id), desc, digits);
    } else if e in PathsBelow(s, full, tpath, idx + 1, desc, digits) {
      KeyBelow(s, full, tpath, idx + 1, desc, digits, e);
      WayBeside(f, e.id, idx);
    } else {
      OwnWay(f, tpath, idx, desc, digits);
    }
  }

  lemma OwnWay(f: Forest, tpath: seq<nat>, i: nat, desc: bool, digits: nat)
    requires f.Tree?
    ensures Later(Way(f, f.root), i) == [i]
    ensures tpath + Turned([i], desc, digits) == tpath + [if desc then Inverse(i, digits) else i]
  {
    hide Inverse;
  }

  /** The path of x: the roots keep their order. */
  function PathOf(w: seq<nat>, descending: bool, digits: nat): (r: seq<nat>)
    requires w != []
    ensures |r| == |w|
  {
    [w[0]] + Turned(w[1..], descending, digits)
  }

  lemma {:induction false} KeyAtTop(f: Forest, full: set<Id>, idx: nat, desc: bool, digits: nat, e: Entry)
    requires Distinct(f) && EmptiesAreBranchingRoots(f, full) && e in PathsTop(f, full, idx, desc, digits)
    ensures e.id in Nodes(f)
    ensures e.key == PathKey(PathOf(Later(Way(f, e.id), idx), desc, digits), desc, digits)
  {
    hide PathKey, Inverse, Way, Later, Turned;
    var Tree(c, k, s) := f;
    if e in PathsBelow(k, full, [idx], 0, desc, digits) {
      KeyBelow(k, full, [idx], 0, desc, digits, e);
      WayOfKid(f, e.id, idx);
      assert PathOf([idx] + Way(k, e.id), desc, digits) == [idx] + Turned(Way(k, e.id), desc, digits);
    } else if e in PathsTop(s, full, idx + 1, desc, digits) {
      KeyAtTop(s, full, idx + 1, desc, digits, e);
      WayBeside(f, e.id, idx);
    } else {
      OwnWay(f, [], idx, desc, digits);
      assert PathOf([idx], desc, digits) == [idx];
    }
  }

  /** One numeral of the same width for each step of the way down; in a descending
      sort each but the first counts down from the last number of that width, and z
      comes last. */
  ghost predicate Tells(parts: seq<string>, w: seq<nat>, descending: bool, size: nat) {
    && |parts| == |w| + (if descending then 1 else 0) && (descending ==> parts[|w|] == "z")
    && forall i :: 0 <= i < |w| ==>
         && |parts[i]| == (if size == 0 then 1 else size) && w[i] < Sixteens(size)
         && IsNumeral(parts[i], if descending && i > 0 then Sixteens(size) - 1 - w[i] else w[i])
  }

  lemma PathTells(w: seq<nat>, descending: bool, size: nat, n: nat)
    requires w != [] && size == SegSize(n) && (forall i :: 0 <= i < |w| ==> w[i] < n)
    requires descending ==> n <= Sixteens(7)
    ensures Tells(Segments(PathOf(w, descending, size), size) + if descending then ["z"] else [], w, descending, size)
  {
    hide Segment, Inverse, IsNumeral, SegSize, Sixteens;
    SegSizeIs(n);
    var parts := Segments(PathOf(w, descending, size), size) + if descending then ["z"] else [];
    forall i | 0 <= i < |w|
      ensures |parts[i]| == (if size == 0 then 1 else size)
      ensures w[i] < Sixteens(size)
      ensures IsNumeral(parts[i], if descending && i > 0 then Sixteens(size) - 1 - w[i] else w[i])
    {
      if descending { InverseIs(w[i], size, n); }
      SegmentFits(PathOf(w, descending, size)[i], size);
    }
  }

  /** The key of each message shows its place in the threads: at the colons it comes
      apart into the steps of the way down to it. */
  lemma KeysTellPlaces(ms: seq<Message>, f: Forest, descending: bool, e: Entry)
    requires StaysForest(ms) && IsThreading(ms, f) && e in Keys(ms, f, descending)
    requires descending ==> |Nodes(Build(ms).forest)| <= Sixteens(7)
    ensures e.id in Nodes(f)
    ensures Tells(Split(e.key, ':'), Way(f, e.id), descending, SegSize(|Nodes(Build(ms).forest)|))
  {
    hide Segment, Inverse, PathsTop, Split, PathKey, SegSize, Way, Tells, PathOf, Build, IsThreading, StaysForest;
    var full, n := Messages(Build(ms)), |Nodes(Build(ms).forest)|;
    var size := SegSize(n);
    ThreadingIsForest(ms, f);
    KeyAtTop(f, full, 0, descending, size, e);
    var w := Way(f, e.id);
    assert Later(w, 0) == w;
    KeyComesApart(PathOf(w, descending, size), descending, size);
    WayFits(f, e.id);
    PathTells(w, descending, size, n);
  }

  lemma InverseIs(i: nat, size: nat, n: nat)
    requires i < n <= Sixteens(7) && size == SegSize(n)
    ensures i < Sixteens(size) && Inverse(i, size) == Sixteens(size) - 1 - i
  {
    hide SegSize, Sixteens;
    SegSizeIs(n);
    SixteensIs(7);
    SixteensIs(size);
    assert size <= 7;
    SixteensGrow(size, 7);
  }

  lemma {:induction false} SixteensGrow(k: nat, m: nat)
    requires k <= m
    ensures Sixteens(k) <= Sixteens(m) && Sixteens(7) == 0x1000_0000
  {
    assert Sixteens(4) == 0x1_0000;
    if k < m { SixteensGrow(k, m - 1); }
  }

  lemma SegmentFits(m: nat, size: nat)
    requires m < Sixteens(size)
    ensures |Segment(m, size)| == (if size == 0 then 1 else size) && IsNumeral(Segment(m, size), m)
  {
    SegmentIs(m, size);
    if size > 0 {
      SixteensIs(size);
      SegmentIsFixed(m, size);
    }
  }
}
