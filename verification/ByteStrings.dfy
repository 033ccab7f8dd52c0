/** The byte-wise lexicographic order of std::string. */
module ByteStrings {
  predicate Lt(a: string, b: string) {
    if b == "" then false
    else if a == "" then true
    else a[0] < b[0] || (a[0] == b[0] && Lt(a[1..], b[1..]))
  }

  /** At the first i characters a and b agree, and there a ends, or has the lesser one. */
  predicate LessAt(a: string, b: string, i: nat) {
    i <= |a| && i < |b| && a[..i] == b[..i] && (i == |a| || a[i] < b[i])
  }

  lemma LessFirst(a: string, b: string, i: nat)
    requires LessAt(a, b, i)
    ensures i > 0 ==> a != "" && a[0] == b[0]
  {
    if i > 0 { assert a[..i][0] == b[..i][0]; }
  }

  /** The order is decided where the strings part. */
  lemma {:induction false} LtIs(a: string, b: string)
    ensures Lt(a, b) <==> exists i: nat :: LessAt(a, b, i)
  {
    if a == "" || b == "" {
      assert b != "" ==> LessAt(a, b, 0);
    } else {
      LtIs(a[1..], b[1..]);
      if a[0] == b[0] {
        if i: nat :| LessAt(a[1..], b[1..], i) {
          assert a[..i + 1] == [a[0]] + a[1..][..i];
          assert LessAt(a, b, i + 1);
        }
        if i: nat :| LessAt(a, b, i) {
          assert i > 0;
          assert a[1..][..i - 1] == a[..i][1..] && b[1..][..i - 1] == b[..i][1..];
          assert LessAt(a[1..], b[1..], i - 1);
        }
      } else {
        if a[0] < b[0] { assert LessAt(a, b, 0); }
        forall i: nat | LessAt(a, b, i) ensures i == 0 { LessFirst(a, b, i); }
      }
    }
  }

  predicate Le(a: string, b: string) { !Lt(b, a) }

  function Max(a: string, b: string): string { if Lt(a, b) then b else a }

  lemma Irreflexive(a: string)
    ensures !Lt(a, a)
  {}

  lemma {:induction false} Total(a: string, b: string)
    ensures Lt(a, b) || Lt(b, a) || a == b
    ensures !(Lt(a, b) && Lt(b, a))
  {
    if a != "" && b != "" && a[0] == b[0] {
      Total(a[1..], b[1..]);
      assert a == [a[0]] + a[1..] && b == [b[0]] + b[1..];
    }
  }

  lemma {:induction false} Transitive(a: string, b: string, c: string)
    requires Lt(a, b) && Lt(b, c)
    ensures Lt(a, c)
  {
    if a != "" && a[0] == b[0] == c[0] { Transitive(a[1..], b[1..], c[1..]); }
  }

  /** A common prefix does not matter. */
  lemma {:induction false} SkipPrefix(p: string, a: string, b: string)
    ensures Lt(p + a, p + b) <==> Lt(a, b)
  {
    if p == "" {
      assert p + a == a && p + b == b;
    } else {
      assert (p + a)[1..] == p[1..] + a && (p + b)[1..] == p[1..] + b;
      SkipPrefix(p[1..], a, b);
    }
  }

  lemma MaxLaws(a: string, b: string, c: string)
    ensures Max(a, b) == Max(b, a)
    ensures Max(a, Max(b, c)) == Max(Max(a, b), c)
    ensures Max("", a) == a
  {
    Total(a, b); Total(b, c); Total(a, c);
    if Lt(a, b) && Lt(b, c) { Transitive(a, b, c); }
    if Lt(c, b) && Lt(b, a) { Transitive(c, b, a); }
  }

  lemma LeTransitive(a: string, b: string, c: string)
    requires Le(a, b) && Le(b, c)
    ensures Le(a, c)
  {
    Total(a, b); Total(b, c);
    if Lt(c, a) && b != c { Transitive(b, c, a); }
  }
}
