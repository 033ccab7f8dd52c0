/** Printing and parsing s-expressions undo each other. */
module SexpRoundTrip {
  import opened Wrappers
  import opened Decimal
  import opened Sexps

  predicate IsNumeral(v: string) {
    AllDigits(if v != "" && v[0] == '-' then v[1..] else v) && v == Decimals(Atoi(v))
  }

  predicate IsSymbol(v: string) {
    v != "" && IsSymbolStart(v[0]) && forall i :: 1 <= i < |v| ==> IsSymbolChar(v[i])
  }

  /** S-expressions the grammar has a text for: numbers of 32 bits, symbols of the
      right characters, and no empty node. */
  predicate Readable(s: Sexp) {
    match s
    case Empty => false
    case List(items) => forall c <- items :: Readable(c)
    case Str(_) => true
    case Num(v) => IsNumeral(v)
    case Sym(v) => IsSymbol(v)
  }

  /** txt stands at pos of e. */
  predicate At(e: string, pos: nat, txt: string) {
    pos + |txt| <= |e| && e[pos..pos + |txt|] == txt
  }

  /** An s-expression may end here. */
  predicate EndsAt(e: string, pos: nat) {
    pos == |e| || (pos < |e| && (e[pos] == ' ' || e[pos] == ')'))
  }

  lemma AtParts(e: string, pos: nat, a: string, b: string)
    requires At(e, pos, a + b)
    ensures At(e, pos, a) && At(e, pos + |a|, b)
  {
    assert (a + b)[..|a|] == a && (a + b)[|a|..] == b;
    assert e[pos..pos + |a + b|][..|a|] == e[pos..pos + |a|];
    assert e[pos..pos + |a + b|][|a|..] == e[pos + |a|..pos + |a| + |b|];
  }

  lemma AtChar(e: string, pos: nat, txt: string, i: nat)
    requires At(e, pos, txt) && i < |txt|
    ensures pos + i < |e| && e[pos + i] == txt[i]
  {
    assert e[pos..pos + |txt|][i] == txt[i];
  }

  lemma {:induction false} RunEndIs(e: string, pos: nat, kind: char -> bool, end: nat)
    requires pos <= end <= |e| && (end < |e| ==> !kind(e[end])) && forall i :: pos <= i < end ==> kind(e[i])
    ensures RunEnd(e, pos, kind) == end
    decreases end - pos
  {
    if pos < end { RunEndIs(e, pos + 1, kind, end); }
  }

  // Atoms

  lemma CharIs(e: string, pos: nat, c: char, str: string)
    requires At(e, pos, EscapedChar(c))
    ensures StringRest(e, pos, false, str) == StringRest(e, pos + |EscapedChar(c)|, false, str + [c])
  {
    AtChar(e, pos, EscapedChar(c), 0);
    if |EscapedChar(c)| == 2 { AtChar(e, pos, EscapedChar(c), 1); }
  }

  lemma {:induction false} StringIs(e: string, pos: nat, v: string, str: string)
    requires At(e, pos, Escaped(v) + "\"")
    ensures StringRest(e, pos, false, str) == Ok((str + v, pos + |Escaped(v)| + 1))
    decreases v
  {
    hide At, EscapedChar;
    if v == "" {
      assert str + v == str && Escaped(v) + "\"" == "\"";
      AtChar(e, pos, "\"", 0);
    } else {
      var head, more := EscapedChar(v[0]), Escaped(v[1..]) + "\"";
      assert Escaped(v) + "\"" == head + more;
      AtParts(e, pos, head, more);
      CharIs(e, pos, v[0], str);
      StringIs(e, pos + |head|, v[1..], str + [v[0]]);
      assert str + [v[0]] + v[1..] == str + v;
    }
  }

  lemma StringAtomIs(e: string, pos: nat, v: string)
    requires At(e, pos, Quote(v))
    ensures pos < |e| && e[pos] == '"' && ParseAtom(e, pos) == Ok((Str(v), pos + |Quote(v)|))
  {
    hide Escaped, StringRest;
    assert Quote(v) == "\"" + (Escaped(v) + "\"");
    AtParts(e, pos, "\"", Escaped(v) + "\"");
    AtChar(e, pos, Quote(v), 0);
    StringIs(e, pos + 1, v, "");
    assert "" + v == v;
  }

  lemma NumberAtomIs(e: string, pos: nat, v: string)
    requires IsNumeral(v) && At(e, pos, v) && EndsAt(e, pos + |v|)
    ensures pos < |e| && (IsDigit(e[pos]) || e[pos] == '-') && ParseAtom(e, pos) == Ok((Num(v), pos + |v|))
  {
    hide Atoi, Decimals, StringRest;
    NumeralStart(v);
    AtChar(e, pos, v, 0);
    forall i | pos + 1 <= i < pos + |v| ensures IsDigit(e[i]) { AtChar(e, pos, v, i - pos); }
    RunEndIs(e, pos + 1, IsDigit, pos + |v|);
  }

  lemma SymbolAtomIs(e: string, pos: nat, v: string)
    requires IsSymbol(v) && At(e, pos, v) && EndsAt(e, pos + |v|)
    ensures pos < |e| && IsSymbolStart(e[pos]) && ParseAtom(e, pos) == Ok((Sym(v), pos + |v|))
  {
    hide Atoi, Decimals, StringRest;
    AtChar(e, pos, v, 0);
    forall i | pos + 1 <= i < pos + |v| ensures IsSymbolChar(e[i]) { AtChar(e, pos, v, i - pos); }
    RunEndIs(e, pos + 1, IsSymbolChar, pos + |v|);
  }

  lemma AtomIs(e: string, pos: nat, s: Sexp)
    requires Readable(s) && !s.List? && At(e, pos, Text(s)) && EndsAt(e, pos + |Text(s)|)
    ensures pos < |e| && !IsBlank(e[pos]) && e[pos] != ')' && e[pos] != '('
    ensures ParseAtom(e, pos) == Ok((s, pos + |Text(s)|))
  {
    hide At, EndsAt, IsNumeral, IsSymbol, ParseAtom, Quote;
    match s
    case Str(v) => StringAtomIs(e, pos, v);
    case Num(v) => NumberAtomIs(e, pos, v);
    case Sym(v) => SymbolAtomIs(e, pos, v);
  }

  lemma NumeralStart(v: string)
    requires IsNumeral(v)
    ensures v != "" && (IsDigit(v[0]) || v[0] == '-') && forall i :: 1 <= i < |v| ==> IsDigit(v[i])
  {
    if v[0] == '-' { forall i | 1 <= i < |v| ensures IsDigit(v[i]) { assert v[1..][i - 1] == v[i]; } }
  }

  // Lists

  /** What stands at pos is parsed as the s-expression whose text it is. */
  lemma {:induction false} ParsesText(e: string, pos: nat, s: Sexp)
    requires Readable(s) && At(e, pos, Text(s)) && EndsAt(e, pos + |Text(s)|)
    ensures pos < |e| && !IsBlank(e[pos]) && e[pos] != ')'
    ensures ParseAt(e, pos) == Ok((s, SkipWhitespace(e, pos + |Text(s)|)))
    decreases s, 2
  {
    hide ParseAtom, ParseItems, RunEnd, At, Texts, Quote, IsNumeral, IsSymbol;
    if s.List? {
      var inner := Texts(s.items) + ")";
      assert Text(s) == "(" + inner;
      AtChar(e, pos, Text(s), 0);
      AtParts(e, pos, "(", inner);
      ParsesItems(e, pos + 1, s.items);
    } else {
      AtomIs(e, pos, s);
    }
    RunEndIs(e, pos, IsBlank, pos);
  }

  lemma OneMoreItem(e: string, pos: nat, c: Sexp, next: nat, items: seq<Sexp>, end: nat)
    requires pos < |e| && e[pos] != ')' && ParseAt(e, pos) == Ok((c, next)) && ParseItems(e, next) == Ok((items, end))
    ensures ParseItems(e, pos) == Ok(([c] + items, end))
  {
    hide ParseAt;
  }

  lemma NoMoreItems(e: string, pos: nat)
    requires pos < |e| && e[pos] == ')'
    ensures ParseItems(e, pos) == Ok(([], pos + 1))
  {}

  /** Likewise for the items of a list. */
  lemma {:induction false} ParsesItems(e: string, pos: nat, items: seq<Sexp>)
    requires (forall c <- items :: Readable(c)) && At(e, pos, Texts(items) + ")")
    ensures ParseItems(e, pos) == Ok((items, pos + |Texts(items)| + 1))
    decreases items, 1
  {
    hide ParseAt, ParseItems, Text, Texts, At, RunEnd, SkipWhitespace, TextTail, EndsAt, Readable;
    ItemsText(items);
    if items == [] {
      AtChar(e, pos, ")", 0);
      assert |Texts(items) + ")"| == 1;
      NoMoreItems(e, pos);
    } else {
      var c, tail := items[0], TextTail(items);
      var end := pos + |Text(c)|;
      EndsBefore(e, end, tail);
      AtParts(e, pos, Text(c), tail);
      AtChar(e, end, tail, 0);
      ParsesText(e, pos, c);
      NextItem(e, end, items);
      ParsesItems(e, SkipWhitespace(e, end), items[1..]);
      OneMoreItem(e, pos, c, SkipWhitespace(e, end), items[1..], pos + |Texts(items)| + 1);
      assert items == [c] + items[1..];
    }
  }

  lemma EndsBefore(e: string, pos: nat, tail: string)
    requires tail != "" && (tail[0] == ' ' || tail[0] == ')')
    ensures At(e, pos, tail) ==> EndsAt(e, pos)
  {
    if At(e, pos, tail) { AtChar(e, pos, tail, 0); }
  }

  /** What follows the first item. */
  function TextTail(items: seq<Sexp>): string {
    if |items| <= 1 then ")" else " " + (Texts(items[1..]) + ")")
  }

  lemma ItemsText(items: seq<Sexp>)
    ensures Texts(items) + ")" == if items == [] then ")" else Text(items[0]) + TextTail(items)
    ensures TextTail(items) != "" && (TextTail(items)[0] == ' ' || TextTail(items)[0] == ')')
    ensures items != [] ==> |Texts(items)| + 1 == |Text(items[0])| + |TextTail(items)|
  {}

  /** What follows the first of several items, and of one. */
  lemma TailText(items: seq<Sexp>)
    requires items != []
    ensures TextTail(items) == if items[1..] == [] then Texts([]) + ")" else " " + (Texts(items[1..]) + ")")
    ensures Texts([]) + ")" == ")"
  {
    assert items[1..] == [] <==> |items| <= 1;
  }

  /** Behind an item comes the next one, or the end of the list. */
  lemma NextItem(e: string, pos: nat, items: seq<Sexp>)
    requires items != [] && (forall c <- items :: Readable(c)) && At(e, pos, TextTail(items))
    ensures var next := SkipWhitespace(e, pos);
            && At(e, next, Texts(items[1..]) + ")")
            && next + |Texts(items[1..])| + 1 == pos + |TextTail(items)|
  {
    hide Text, Texts, TextTail, Readable, At, RunEnd;
    var rest := items[1..];
    TailText(items);
    AtChar(e, pos, TextTail(items), 0);
    if rest == [] {
      RunEndIs(e, pos, IsBlank, pos);
    } else {
      AtParts(e, pos, " ", Texts(rest) + ")");
      assert rest[0] == items[1];
      ItemStart(e, pos + 1, rest);
      RunEndIs(e, pos, IsBlank, pos + 1);
    }
  }

  /** A list of items does not start with a blank. */
  lemma ItemStart(e: string, pos: nat, items: seq<Sexp>)
    requires items != [] && Readable(items[0]) && At(e, pos, Texts(items) + ")")
    ensures pos < |e| && !IsBlank(e[pos])
  {
    var txt := Text(items[0]);
    TextStart(items[0]);
    assert (Texts(items) + ")")[0] == txt[0];
    AtChar(e, pos, Texts(items) + ")", 0);
  }

  lemma TextStart(s: Sexp)
    requires Readable(s)
    ensures Text(s) != "" && !IsBlank(Text(s)[0])
  {
    if s.Num? { NumeralStart(s.value); }
  }

  // What the parser returns is readable

  lemma Int32Stays(n: int)
    requires -0x8000_0000 <= n < 0x8000_0000
    ensures ToInt32(n) == n
  {}

  /** A 32-bit number is read as it was written. */
  lemma AtoiOfDecimals(n: int)
    requires -0x8000_0000 <= n < 0x8000_0000
    ensures Atoi(Decimals(n)) == n && IsNumeral(Decimals(n))
  {
    hide Digits;
    Int32Stays(n);
    StrtollOfDecimals(n);
    if n < 0 { assert Decimals(n)[1..] == Digits(-n); } else { assert Decimals(n)[0] != '-'; }
  }

  lemma ParsedAtomIsReadable(e: string, pos: nat)
    requires pos < |e| && e[pos] != '(' && ParseAtom(e, pos).Ok?
    ensures Readable(ParseAtom(e, pos).value.0)
  {
    hide Atoi, Decimals, StringRest, IsNumeral;
    if e[pos] != '"' && (IsDigit(e[pos]) || e[pos] == '-') {
      var n := Atoi(e[pos..IntegerEnd(e, pos)]);
      AtoiOfDecimals(n);
      assert ParseAtom(e, pos).value.0 == Num(Decimals(n));
    }
  }

  lemma ListOfReadable(items: seq<Sexp>)
    requires forall c <- items :: Readable(c)
    ensures Readable(List(items))
  {}

  lemma {:induction false} ParsedIsReadable(e: string, pos: nat)
    requires pos <= |e| && ParseAt(e, pos).Ok?
    ensures Readable(ParseAt(e, pos).value.0)
    decreases |e| - pos, 0
  {
    hide Readable, ParseAtom, ParseItems, RunEnd;
    var start := SkipWhitespace(e, pos);
    if e[start] == '(' {
      ItemsAreReadable(e, start + 1);
      ListOfReadable(ParseItems(e, start + 1).value.0);
    } else {
      ParsedAtomIsReadable(e, start);
    }
  }

  lemma {:induction false} ItemsAreReadable(e: string, pos: nat)
    requires pos <= |e| && ParseItems(e, pos).Ok?
    ensures forall c <- ParseItems(e, pos).value.0 :: Readable(c)
    decreases |e| - pos, 1
  {
    hide ParseAt, Readable;
    if e[pos] != ')' {
      ParsedIsReadable(e, pos);
      ItemsAreReadable(e, ParseAt(e, pos).value.1);
    }
  }

  /** The round trip: the text of an s-expression is parsed to it, if and only if
      the grammar has a text for it. */
  lemma TextRoundTrip(s: Sexp)
    ensures MakeParse(Text(s)) == Ok(s) <==> Readable(s)
  {
    var e := Text(s);
    if Readable(s) {
      assert e[0..0 + |e|] == e;
      ParsesText(e, 0, s);
    }
    if MakeParse(e) == Ok(s) { ParsedIsReadable(e, 0); }
  }

  /** Whatever text is accepted, printing and parsing the result give it back. */
  lemma ParsePrintParse(e: string)
    requires MakeParse(e).Ok?
    ensures ToSexpString(MakeParse(e).value).Some?
    ensures MakeParse(ToSexpString(MakeParse(e).value).value) == MakeParse(e)
  {
    ParsedIsReadable(e, 0);
    ReadableHasText(MakeParse(e).value);
    TextRoundTrip(MakeParse(e).value);
  }

  lemma {:induction false} ReadableHasText(s: Sexp)
    requires Readable(s)
    ensures !HasEmpty(s)
  {
    if s.List? { forall c | c in s.items ensures !HasEmpty(c) { ReadableHasText(c); } }
  }
}
