/** ASCII letters without regard to case. */
module Ascii {
  function ToLower(c: char): char {
    if 'A' <= c <= 'Z' then (c as int + 32) as char else c
  }

  function Lower(s: string): string {
    if s == "" then "" else [ToLower(s[0])] + Lower(s[1..])
  }

  lemma {:induction false} LowerChars(s: string)
    ensures |Lower(s)| == |s| && forall i :: 0 <= i < |s| ==> Lower(s)[i] == ToLower(s[i])
  {
    if s != "" { LowerChars(s[1..]); }
  }

  const CAPITAL := "ABCDEFGHIJKLMNOPQRSTUVWXYZ"
  const SMALL := "abcdefghijklmnopqrstuvwxyz"

  /** Each capital letter has its small one; nothing else changes. */
  lemma LowerIs(c: char)
    ensures forall i :: 0 <= i < 26 ==> ToLower(CAPITAL[i]) == SMALL[i]
    ensures c !in CAPITAL ==> ToLower(c) == c
  {
    if 'A' <= c <= 'Z' { assert CAPITAL[c as int - 65] == c; }
  }
}
