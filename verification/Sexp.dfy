/** S-expressions: their text, and what the parser makes of a text. */
module Sexps {
  import opened Wrappers
  import opened Decimal

  datatype Sexp = Empty | List(items: seq<Sexp>) | Str(value: string) | Num(value: string) | Sym(value: string)

  // Numbers

  predicate AllDigits(s: string) { forall i :: 0 <= i < |s| ==> IsDigit(s[i]) }

  /** The two's complement 32-bit value of n's low bits. */
  function ToInt32(n: int): (r: int)
    ensures -0x8000_0000 <= r < 0x8000_0000
  {
    var low := n % 0x1_0000_0000;
    if low < 0x8000_0000 then low else low - 0x1_0000_0000
  }

  /** atoi: what strtol gives, cut to 32 bits. */
  function Atoi(num: string): (r: int)
    ensures -0x8000_0000 <= r < 0x8000_0000
  {
    ToInt32(Strtoll(num))
  }

  function MakeNumber(n: int): Sexp { Num(Decimals(n)) }

  // Text

  function EscapedChar(c: char): string {
    if c == '"' then "\\\"" else if c == '\\' then "\\\\" else [c]
  }

  function Escaped(s: string): string {
    if s == "" then "" else EscapedChar(s[0]) + Escaped(s[1..])
  }

  function Quote(s: string): string { "\"" + Escaped(s) + "\"" }

  predicate HasEmpty(s: Sexp) {
    s.Empty? || (s.List? && exists c <- s.items :: HasEmpty(c))
  }

  function Text(s: Sexp): string {
    match s
    case Empty => ""
    case List(items) => "(" + Texts(items) + ")"
    case Str(v) => Quote(v)
    case Num(v) => v
    case Sym(v) => v
  }

  /** The texts with blanks between them. */
  function Texts(items: seq<Sexp>): string {
    if items == [] then "" else if |items| == 1 then Text(items[0]) else Text(items[0]) + " " + Texts(items[1..])
  }

  /** An empty node has no text: to ask for it is an error. */
  function ToSexpString(s: Sexp): Option<string> { if HasEmpty(s) then None else Some(Text(s)) }

  // Parsing

  datatype Problem = ExpectedCharacter | Unexpected | ExpectedClose | Unterminated(str: string) | Trailing

  datatype Error = Error(pos: nat, problem: Problem)

  /** The character at pos; behind the last one there is a NUL. */
  function CharAt(e: string, pos: nat): char { if pos < |e| then e[pos] else '\0' }

  predicate IsBlank(c: char) { c == ' ' || c == '\t' || c == '\n' }

  predicate IsAlpha(c: char) { 'a' <= c <= 'z' || 'A' <= c <= 'Z' }

  predicate IsSymbolStart(c: char) { IsAlpha(c) || c == ':' }

  predicate IsSymbolChar(c: char) { IsAlpha(c) || IsDigit(c) || c == '-' }

  /** Where the run of characters of some kind, from pos on, ends. */
  function RunEnd(e: string, pos: nat, kind: char -> bool): (end: nat)
    requires pos <= |e|
    ensures pos <= end <= |e| && (end < |e| ==> !kind(e[end])) && forall i :: pos <= i < end ==> kind(e[i])
    decreases |e| - pos
  {
    if pos < |e| && kind(e[pos]) then RunEnd(e, pos + 1, kind) else pos
  }

  function SkipWhitespace(e: string, pos: nat): (end: nat)
    requires pos <= |e|
    ensures pos <= end <= |e|
  {
    RunEnd(e, pos, IsBlank)
  }

  /** The rest of a string, after str: a backslash keeps its power until a quote or
      a backslash uses it. */
  function StringRest(e: string, pos: nat, escape: bool, str: string): (r: Result<(string, nat), Error>)
    requires pos <= |e|
    ensures r.Ok? ==> pos < r.value.1 <= |e|
    decreases |e| - pos
  {
    if pos == |e| then Err(Error(pos, Unterminated(str)))
    else if escape && (e[pos] == '"' || e[pos] == '\\') then StringRest(e, pos + 1, false, str + [e[pos]])
    else if e[pos] == '"' then Ok((str, pos + 1))
    else if e[pos] == '\\' then StringRest(e, pos + 1, true, str)
    else StringRest(e, pos + 1, escape, str + [e[pos]])
  }

  /** The digits of an integer at pos, with its sign. */
  function IntegerEnd(e: string, pos: nat): (end: nat)
    requires pos < |e| && (IsDigit(e[pos]) || e[pos] == '-')
    ensures pos < end <= |e| && AllDigits(if e[pos] == '-' then e[pos + 1..end] else e[pos..end])
  {
    RunEnd(e, pos + 1, IsDigit)
  }

  function ParseAtom(e: string, pos: nat): (r: Result<(Sexp, nat), Error>)
    requires pos < |e| && e[pos] != '('
    ensures r.Ok? ==> pos < r.value.1 <= |e|
  {
    if e[pos] == '"' then
      var r := StringRest(e, pos + 1, false, "");
      if r.Err? then Err(r.error) else Ok((Str(r.value.0), r.value.1))
    else if IsDigit(e[pos]) || e[pos] == '-' then
      var end := IntegerEnd(e, pos);
      Ok((MakeNumber(Atoi(e[pos..end])), end))
    else if IsSymbolStart(e[pos]) then
      var end := RunEnd(e, pos + 1, IsSymbolChar);
      Ok((Sym(e[pos..end]), end))
    else Err(Error(pos, Unexpected))
  }

  /** One s-expression at pos, with the blanks around it. */
  function ParseAt(e: string, pos: nat): (r: Result<(Sexp, nat), Error>)
    requires pos <= |e|
    ensures r.Ok? ==> pos < r.value.1 <= |e|
    decreases |e| - pos, 0
  {
    var start := SkipWhitespace(e, pos);
    if start == |e| then Err(Error(start, ExpectedCharacter))
    else
      var r := if e[start] == '(' then ParseList(e, start) else ParseAtom(e, start);
      if r.Err? then r else Ok((r.value.0, SkipWhitespace(e, r.value.1)))
  }

  function ParseList(e: string, pos: nat): (r: Result<(Sexp, nat), Error>)
    requires pos < |e| && e[pos] == '('
    ensures r.Ok? ==> pos < r.value.1 <= |e|
    decreases |e| - pos - 1, 2
  {
    var r := ParseItems(e, pos + 1);
    if r.Err? then Err(r.error) else Ok((List(r.value.0), r.value.1))
  }

  /** The items up to the closing bracket. */
  function ParseItems(e: string, pos: nat): (r: Result<(seq<Sexp>, nat), Error>)
    requires pos <= |e|
    ensures r.Ok? ==> pos < r.value.1 <= |e|
    decreases |e| - pos, 1
  {
    if pos == |e| then Err(Error(pos, ExpectedClose))
    else if e[pos] == ')' then Ok(([], pos + 1))
    else
      var r := ParseAt(e, pos);
      if r.Err? then Err(r.error)
      else
        var more := ParseItems(e, r.value.1);
        if more.Err? then more else Ok(([r.value.0] + more.value.0, more.value.1))
  }

  /** The one s-expression of a text. */
  function MakeParse(e: string): Result<Sexp, Error> {
    var r := ParseAt(e, 0);
    if r.Err? then Err(r.error)
    else if r.value.1 != |e| then Err(Error(r.value.1, Trailing))
    else Ok(r.value.0)
  }
}
