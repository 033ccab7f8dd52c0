/** How query text is read: words and quoted texts, with escapes and without, next to
    brackets and blanks. */
module TokenTexts {
  import opened Ascii
  import opened Tokenizer

  /** A character of a word, as such or behind a backslash. */
  datatype Bit = Bit(escaped: bool, c: char)

  function BitText(b: Bit): string { if b.escaped then ['\\', b.c] else [b.c] }

  function BitsText(bits: seq<Bit>): string {
    if bits == [] then "" else BitText(bits[0]) + BitsText(bits[1..])
  }

  function BitsValue(bits: seq<Bit>): string {
    if bits == [] then "" else [bits[0].c] + BitsValue(bits[1..])
  }

  /** Outside quotes brackets and blanks need a backslash; a quote cannot be had. */
  predicate Bare(bits: seq<Bit>) {
    forall b <- bits :: b.c != '"' && (b.escaped || b.c !in {'\\', ' ', '\t', '(', ')'})
  }

  /** Inside quotes only a backslash needs one. */
  predicate Inside(bits: seq<Bit>) {
    forall b <- bits :: b.c != '"' && (b.escaped || b.c != '\\')
  }

  /** A word, or a text in quotes that may have a word before it. */
  datatype Lexeme = Opening | Closing | Word(bits: seq<Bit>) | Quote(before: seq<Bit>, inside: seq<Bit>)

  predicate Proper(x: Lexeme) {
    match x
    case Word(bits) => bits != [] && Bare(bits)
    case Quote(before, inside) => Bare(before) && Inside(inside)
    case _ => true
  }

  function LexText(x: Lexeme): string {
    match x
    case Opening => "("
    case Closing => ")"
    case Word(bits) => BitsText(bits)
    case Quote(before, inside) => BitsText(before) + "\"" + BitsText(inside) + "\""
  }

  /** What it is read as; the last word of a text is data, even if it is an operator. */
  function LexToken(x: Lexeme, last: bool, pos: nat): Token {
    match x
    case Opening => Token(pos, Kind.Open, "(")
    case Closing => Token(pos, Kind.Close, ")")
    case Word(bits) => Token(pos, if last then Data else WordKind(BitsValue(bits)), BitsValue(bits))
    case Quote(before, inside) => Token(pos, Data, BitsValue(before) + BitsValue(inside))
  }

  // One token

  lemma NextBit(bits: seq<Bit>, tail: string, value: string)
    requires bits != []
    ensures var b := bits[0];
            && BitsText(bits) + tail == BitText(b) + (BitsText(bits[1..]) + tail)
            && value + BitsValue(bits) == value + [b.c] + BitsValue(bits[1..])
            && |BitsText(bits)| == |BitText(b)| + |BitsText(bits[1..])| && b in bits
  {
    hide BitText;
    Regroup(BitText(bits[0]), BitsText(bits[1..]), tail);
    Regroup(value, [bits[0].c], BitsValue(bits[1..]));
  }

  lemma Regroup(a: string, b: string, c: string)
    ensures a + b + c == a + (b + c)
  {}

  lemma NoBits(tail: string, value: string)
    ensures BitsText([]) + tail == tail && value + BitsValue([]) == value && |BitsText([])| == 0
  {}

  lemma {:induction false} EatBare(bits: seq<Bit>, tail: string, pos: nat, value: string)
    requires Bare(bits)
    ensures Eat(BitsText(bits) + tail, pos, false, false, value) ==
            Eat(tail, pos + |BitsText(bits)|, false, false, value + BitsValue(bits))
    decreases bits
  {
    hide Eat, BitsText, BitsValue, BitText;
    if bits == [] {
      NoBits(tail, value);
    } else {
      NextBit(bits, tail, value);
      EatBit(bits[0], BitsText(bits[1..]) + tail, pos, false, value);
      EatBare(bits[1..], tail, pos + |BitText(bits[0])|, value + [bits[0].c]);
    }
  }

  lemma {:induction false} EatInside(bits: seq<Bit>, tail: string, pos: nat, value: string)
    requires Inside(bits)
    ensures Eat(BitsText(bits) + tail, pos, true, false, value) ==
            Eat(tail, pos + |BitsText(bits)|, true, false, value + BitsValue(bits))
    decreases bits
  {
    hide Eat, BitsText, BitsValue, BitText;
    if bits == [] {
      NoBits(tail, value);
    } else {
      NextBit(bits, tail, value);
      EatBit(bits[0], BitsText(bits[1..]) + tail, pos, true, value);
      EatInside(bits[1..], tail, pos + |BitText(bits[0])|, value + [bits[0].c]);
    }
  }

  lemma EatBit(b: Bit, rest: string, pos: nat, quoted: bool, value: string)
    requires b.c != '"' && (b.escaped || b.c != '\\')
    requires quoted || b.escaped || b.c !in {' ', '\t', '(', ')'}
    ensures Eat(BitText(b) + rest, pos, quoted, false, value) ==
            Eat(rest, pos + |BitText(b)|, quoted, false, value + [b.c])
  {
    var food := BitText(b) + rest;
    if b.escaped {
      assert food[0] == '\\' && food[1..] == [b.c] + rest && food[1..][1..] == rest;
    } else {
      assert food[0] == b.c && food[1..] == rest;
    }
  }

  /** Behind a word, or the start of one, a bracket or a blank ends it. */
  predicate Ends(tail: string) { tail == "" || tail[0] in {' ', '\t', '(', ')'} }

  lemma EatEnd(tail: string, pos: nat, value: string)
    requires value != "" && Ends(tail)
    ensures Eat(tail, pos, false, false, value) ==
            Bite(Token(pos, if tail == "" then Data else WordKind(value), value), tail)
  {}

  lemma EatQuote(rest: string, pos: nat, value: string)
    ensures Eat("\"" + rest, pos, false, false, value) == Eat(rest, pos + 1, true, false, value)
    ensures Eat("\"" + rest, pos, true, false, value) == Bite(Token(pos + 1, Data, value), rest)
  {
    assert ("\"" + rest)[1..] == rest;
  }

  lemma BitsLength(bits: seq<Bit>)
    ensures |BitsValue(bits)| == |bits| && |BitsText(bits)| >= |bits|
  {}

  lemma EatWordLexeme(bits: seq<Bit>, tail: string, pos: nat)
    requires bits != [] && Bare(bits) && Ends(tail)
    ensures Eat(BitsText(bits) + tail, pos, false, false, "") ==
            Bite(LexToken(Word(bits), tail == "", pos + |BitsText(bits)|), tail)
  {
    hide Eat, WordKind, Bare, BitsText, Ends;
    assert "" + BitsValue(bits) == BitsValue(bits);
    BitsLength(bits);
    EatBare(bits, tail, pos, "");
    EatEnd(tail, pos + |BitsText(bits)|, BitsValue(bits));
  }

  lemma EatQuoteLexeme(x: Lexeme, tail: string, pos: nat)
    requires x.Quote? && Proper(x)
    ensures Eat(LexText(x) + tail, pos, false, false, "") == Bite(LexToken(x, tail == "", pos + |LexText(x)|), tail)
  {
    hide Eat, Bare, Inside, BitsText, BitsValue, LexText;
    var v, p := BitsValue(x.before), pos + |BitsText(x.before)|;
    var inside := BitsText(x.inside) + ("\"" + tail);
    assert "" + v == v;
    QuoteText(x, tail);
    EatBare(x.before, "\"" + inside, pos, "");
    EatQuote(inside, p, v);
    EatInside(x.inside, "\"" + tail, p + 1, v);
    EatQuote(tail, p + 1 + |BitsText(x.inside)|, v + BitsValue(x.inside));
  }

  /** Every lexeme is read as its token, whatever follows: a word must end there. */
  lemma EatLexeme(x: Lexeme, tail: string, pos: nat)
    requires Proper(x) && (x.Word? ==> Ends(tail))
    ensures Eat(LexText(x) + tail, pos, false, false, "") ==
            Bite(LexToken(x, tail == "", pos + |LexText(x)|), tail)
  {
    hide Eat, WordKind, Bare, Inside, Ends;
    match x
    case Opening => EatBracket('(', tail, pos);
    case Closing => EatBracket(')', tail, pos);
    case Word(bits) => EatWordLexeme(bits, tail, pos);
    case Quote(before, inside) => EatQuoteLexeme(x, tail, pos);
  }

  /** A quote behind a backslash is no character of the token either: it opens a
      quoted text, where what follows it is taken as it is. */
  lemma EscapedQuoteOpens(c: char, rest: string, pos: nat, quoted: bool, value: string)
    requires c != '"' && c != '\\'
    ensures Eat("\\\"" + [c] + rest, pos, quoted, false, value) == Eat(rest, pos + 3, true, false, value + [c])
  {
    var food := "\\\"" + [c] + rest;
    assert food[1..] == "\"" + [c] + rest && food[1..][1..] == [c] + rest && food[1..][1..][1..] == rest;
    assert Eat(food[1..], pos + 1, quoted, true, value) == Eat(food[1..][1..], pos + 2, true, true, value);
  }

  /** A quote that is never closed takes all the rest. */
  lemma UnclosedQuote(before: seq<Bit>, inside: seq<Bit>, pos: nat)
    requires Bare(before) && Inside(inside)
    ensures var text := BitsText(before) + ("\"" + BitsText(inside));
            Eat(text, pos, false, false, "") ==
            Bite(Token(pos + |text|, Data, BitsValue(before) + BitsValue(inside)), "")
  {
    hide Bare, Inside, BitsText, BitsValue;
    var v, p := BitsValue(before), pos + |BitsText(before)|;
    assert "" + v == v && BitsText(inside) + "" == BitsText(inside);
    EatBare(before, "\"" + BitsText(inside), pos, "");
    EatQuote(BitsText(inside), p, v);
    EatInside(inside, "", p + 1, v);
  }

  /** A backslash at the end is no character, and makes data of the word before it. */
  lemma LoneBackslash(bits: seq<Bit>, pos: nat)
    requires Bare(bits)
    ensures var text := BitsText(bits) + "\\";
            Eat(text, pos, false, false, "") == Bite(Token(pos + |text|, Data, BitsValue(bits)), "")
  {
    hide Bare, BitsText, BitsValue;
    EatBare(bits, "\\", pos, "");
    assert "" + BitsValue(bits) == BitsValue(bits);
    assert "\\"[1..] == "";
  }

  lemma QuoteText(x: Lexeme, tail: string)
    requires x.Quote?
    ensures LexText(x) + tail == BitsText(x.before) + ("\"" + (BitsText(x.inside) + ("\"" + tail)))
    ensures |LexText(x)| == |BitsText(x.before)| + |BitsText(x.inside)| + 2
  {
    hide BitsText;
  }

  // Whole texts

  predicate Blanks(s: string) { forall i :: 0 <= i < |s| ==> s[i] == ' ' || s[i] == '\t' }

  /** Lexemes, each with the blanks before it. */
  type Line = seq<(string, Lexeme)>

  function LineText(xs: Line): string {
    if xs == [] then "" else xs[0].0 + LexText(xs[0].1) + LineText(xs[1..])
  }

  /** Blanks may be left out but between a word and a word or quoted text. */
  predicate Laid(xs: Line) {
    xs == [] ||
    (Blanks(xs[0].0) && Proper(xs[0].1) && Laid(xs[1..])
     && (xs[0].1.Word? && |xs| > 1 ==> xs[1].0 != "" || xs[1].1.Opening? || xs[1].1.Closing?))
  }

  /** The tokens of a line, without positions. */
  function LineTokens(xs: Line): seq<Token> {
    if xs == [] then [] else [LexToken(xs[0].1, |xs| == 1, 0)] + LineTokens(xs[1..])
  }

  lemma {:induction false} SkipBlanks(blanks: string, food: string, pos: nat)
    requires Blanks(blanks) && food != ""
    ensures TokensOf(blanks + food, pos) == TokensOf(food, pos + |blanks|)
    decreases blanks
  {
    if blanks == "" {
      assert blanks + food == food;
    } else {
      var rest := blanks[1..] + food;
      assert blanks + food == [blanks[0]] + rest && (blanks + food)[1..] == rest;
      assert Eat(blanks + food, pos, false, false, "") == Eat(rest, pos + 1, false, false, "");
      SkipBlanks(blanks[1..], food, pos + 1);
    }
  }

  lemma LexNotEmpty(x: Lexeme)
    requires Proper(x)
    ensures LexText(x) != ""
  {
    if x.Word? { BitsLength(x.bits); }
  }

  lemma TokensFirst(x: Lexeme, tail: string, pos: nat)
    requires Proper(x) && (x.Word? ==> Ends(tail))
    ensures var end := pos + |LexText(x)|;
            TokensOf(LexText(x) + tail, pos) == [LexToken(x, tail == "", end)] + TokensOf(tail, end)
    ensures LexText(x) + tail != ""
  {
    hide Eat;
    LexNotEmpty(x);
    EatLexeme(x, tail, pos);
  }

  lemma NextEnds(xs: Line)
    requires Laid(xs) && xs != [] && xs[0].1.Word?
    ensures Ends(LineText(xs[1..]))
  {
    hide BitsText, Proper;
    if |xs| > 1 {
      var y := xs[1];
      assert xs[1..][0] == y && xs[1..] != [];
      assert Laid(xs[1..]) && Blanks(y.0);
      if y.0 == "" { assert LineText(xs[1..]) == LexText(y.1) + LineText(xs[1..][1..]); }
      else { assert LineText(xs[1..])[0] == y.0[0]; }
    }
  }

  lemma LineNotEmpty(xs: Line)
    requires Laid(xs) && xs != []
    ensures LineText(xs) != ""
  {
    LexNotEmpty(xs[0].1);
  }

  /** A text is read as the lexemes it is made of, however they are laid out. */
  lemma {:induction false} LineIsRead(xs: Line, pos: nat)
    requires Laid(xs)
    ensures Alike(TokensOf(LineText(xs), pos), LineTokens(xs))
    decreases |xs|
  {
    hide Eat, TokensOf, LexText, LexToken, Proper, Blanks, Ends;
    if xs == [] {
      NoFood(pos);
    } else {
      var x, tail := xs[0].1, LineText(xs[1..]);
      if x.Word? { NextEnds(xs); }
      if xs[1..] != [] { LineNotEmpty(xs[1..]); }
      TokensFirst(x, tail, pos + |xs[0].0|);
      SkipBlanks(xs[0].0, LexText(x) + tail, pos);
      assert LineText(xs) == xs[0].0 + (LexText(x) + tail);
      LineIsRead(xs[1..], pos + |xs[0].0| + |LexText(x)|);
      SamePlace(x, |xs| == 1, pos + |xs[0].0| + |LexText(x)|);
    }
  }

  lemma SamePlace(x: Lexeme, last: bool, pos: nat)
    ensures LexToken(x, last, pos).kind == LexToken(x, last, 0).kind &&
            LexToken(x, last, pos).str == LexToken(x, last, 0).str
  {}

  // Operators

  predicate Either(s: string, i: nat, small: char, big: char)
    requires i < |s|
  {
    s[i] == small || s[i] == big
  }

  /** Operators are read in capital and small letters. */
  lemma OperatorsInAnyCase(s: string)
    ensures WordKind(s).And? <==> |s| == 3 && Either(s, 0, 'a', 'A') && Either(s, 1, 'n', 'N') && Either(s, 2, 'd', 'D')
    ensures WordKind(s).Or? <==> |s| == 2 && Either(s, 0, 'o', 'O') && Either(s, 1, 'r', 'R')
    ensures WordKind(s).Xor? <==> |s| == 3 && Either(s, 0, 'x', 'X') && Either(s, 1, 'o', 'O') && Either(s, 2, 'r', 'R')
    ensures WordKind(s).Not? <==> |s| == 3 && Either(s, 0, 'n', 'N') && Either(s, 1, 'o', 'O') && Either(s, 2, 't', 'T')
    ensures WordKind(s).Data? || WordKind(s).And? || WordKind(s).Or? || WordKind(s).Xor? || WordKind(s).Not?
  {
    LowerChars(s);
    if |s| == 3 { assert Lower(s) == [ToLower(s[0]), ToLower(s[1]), ToLower(s[2])]; }
    if |s| == 2 { assert Lower(s) == [ToLower(s[0]), ToLower(s[1])]; }
  }

  // Examples

  function Plainly(s: string): seq<Bit> { if s == "" then [] else [Bit(false, s[0])] + Plainly(s[1..]) }

  lemma {:induction false} PlainlyIs(s: string)
    ensures BitsText(Plainly(s)) == s && BitsValue(Plainly(s)) == s
    ensures forall b <- Plainly(s) :: !b.escaped && b.c in s
  {
    if s != "" {
      PlainlyIs(s[1..]);
      assert s == [s[0]] + s[1..];
    }
  }

  /** A word without special characters next to a bracket is read as it is. */
  lemma WordBeforeBracket(word: string, tail: string, pos: nat)
    requires word != "" && forall c <- word :: c !in {'\\', '"', ' ', '\t', '(', ')'}
    requires Ends(tail)
    ensures Eat(word + tail, pos, false, false, "") ==
            Bite(Token(pos + |word|, if tail == "" then Data else WordKind(word), word), tail)
  {
    hide Eat;
    PlainlyIs(word);
    EatLexeme(Word(Plainly(word)), tail, pos);
  }

  /** For example: a quotation inside a word. */
  lemma QuoteInWord(field: string, text: string, tail: string, pos: nat)
    requires forall c <- field :: c !in {'\\', '"', ' ', '\t', '(', ')'}
    requires forall c <- text :: c != '\\' && c != '"'
    ensures Eat(field + "\"" + text + "\"" + tail, pos, false, false, "") ==
            Bite(Token(pos + |field| + |text| + 2, Data, field + text), tail)
  {
    hide Eat;
    PlainlyIs(field);
    PlainlyIs(text);
    EatLexeme(Quote(Plainly(field), Plainly(text)), tail, pos);
  }
}
