/** Searching and splitting strings. */
module Substrings {
  import opened Wrappers

  predicate OccursAt(s: string, pat: string, i: int) {
    0 <= i && i + |pat| <= |s| && s[i..i + |pat|] == pat
  }

  /** Where pat first occurs in s. */
  function Find(s: string, pat: string): (r: Option<nat>)
    ensures r.Some? ==> OccursAt(s, pat, r.value)
    ensures forall i :: OccursAt(s, pat, i) ==> r.Some? && r.value <= i
  {
    if |s| < |pat| then None
    else if s[..|pat|] == pat then Some(0)
    else
      var r := Find(s[1..], pat);
      assert forall i :: OccursAt(s, pat, i) ==> OccursAt(s[1..], pat, i - 1);
      if r.None? then None else Some(r.value + 1)
  }

  /** The parts of s between the separators; none for the empty string. */
  function Split(s: string, sep: char): (parts: seq<string>)
    ensures s != "" ==> parts != []
  {
    if s == "" then [] else Parts(s, sep)
  }

  function Parts(s: string, sep: char): (parts: seq<string>)
    ensures parts != []
  {
    match Find(s, [sep])
    case None => [s]
    case Some(i) => [s[..i]] + Parts(s[i + 1..], sep)
  }

  lemma FindChar(s: string, c: char)
    ensures var r := Find(s, [c]);
            if r.Some? then r.value < |s| && s[r.value] == c && c !in s[..r.value] else c !in s
  {
    var r := Find(s, [c]);
    if r.Some? { assert s[r.value..r.value + 1][0] == s[r.value]; }
    forall i | 0 <= i < |s| && s[i] == c ensures r.Some? && r.value <= i { assert OccursAt(s, [c], i); }
  }

  /** A first part that does not hold the separator. */
  lemma FirstPart(a: string, sep: char, rest: string)
    requires sep !in a
    ensures Parts(a + [sep] + rest, sep) == [a] + Parts(rest, sep)
  {
    var s := a + [sep] + rest;
    FindChar(s, sep);
    assert s[|a|] == sep && forall i :: 0 <= i < |a| ==> s[i] == a[i];
    assert s[..|a|] == a && s[|a| + 1..] == rest;
  }

  lemma LastPart(a: string, sep: char)
    requires sep !in a
    ensures Parts(a, sep) == [a]
  {
    FindChar(a, sep);
  }

  lemma {:induction false} PartsChars(s: string, sep: char, c: char)
    requires c !in s
    ensures forall p <- Parts(s, sep) :: c !in p
  {
    var r := Find(s, [sep]);
    if r.Some? {
      PartsChars(s[r.value + 1..], sep, c);
      forall p | p in Parts(s, sep) ensures c !in p { assert p == s[..r.value] || p in Parts(s[r.value + 1..], sep); }
    }
  }

  function Joined(parts: seq<string>, sep: char): string {
    if parts == [] then "" else if |parts| == 1 then parts[0] else parts[0] + [sep] + Joined(parts[1..], sep)
  }

  /** Splitting undoes joining. */
  lemma {:induction false} PartsOfJoined(parts: seq<string>, sep: char)
    requires parts != [] && forall p <- parts :: sep !in p
    ensures Parts(Joined(parts, sep), sep) == parts
  {
    if |parts| == 1 {
      LastPart(parts[0], sep);
    } else {
      PartsOfJoined(parts[1..], sep);
      FirstPart(parts[0], sep, Joined(parts[1..], sep));
    }
  }

  lemma {:induction false} JoinedChars(parts: seq<string>, sep: char, c: char)
    requires c != sep && forall p <- parts :: c !in p
    ensures c !in Joined(parts, sep)
  {
    if |parts| > 1 { JoinedChars(parts[1..], sep, c); }
  }

  /** Joining undoes splitting, and no part holds the separator. */
  lemma {:induction false} JoinedParts(s: string, sep: char)
    ensures Joined(Parts(s, sep), sep) == s && forall p <- Parts(s, sep) :: sep !in p
  {
    FindChar(s, sep);
    var r := Find(s, [sep]);
    if r.Some? {
      JoinedParts(s[r.value + 1..], sep);
      assert s == s[..r.value] + [sep] + s[r.value + 1..];
    }
  }

  lemma Cut(a: string, b: string)
    ensures (a + b)[..|a|] == a && (a + b)[|a|..] == b && |a + b| == |a| + |b|
  {}
}
