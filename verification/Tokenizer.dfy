/** Query text to tokens. */
module Tokenizer {
  import opened Ascii

  datatype Kind = Data | Open | Close | Not | And | Or | Xor | Empty
  datatype Token = Token(pos: nat, kind: Kind, str: string)

  predicate IsBlank(c: char) { c == ' ' || c == '\t' }

  predicate IsSeparator(c: char) { IsBlank(c) || c == '(' || c == ')' }

  /** What an unquoted word is. */
  function WordKind(val: string): Kind {
    var s := Lower(val);
    if s == "and" then And else if s == "or" then Or else if s == "xor" then Xor else if s == "not" then Not else Data
  }

  /** A token, and the food left behind it. */
  datatype Bite = Bite(token: Token, food: string)

  /** One token from the food, at position pos and after what was read of it so
      far.  A token's position is that of its end; something is always eaten. */
  function Eat(food: string, pos: nat, quoted: bool, escaped: bool, value: string): (b: Bite)
    ensures |b.food| <= |food|
    ensures b.token.pos == pos + |food| - |b.food|
    ensures food != "" && value == "" ==> |b.food| < |food|
    ensures b.token.kind != Empty
    decreases food
  {
    if food == "" then Bite(Token(pos, Data, value), "")
    else
      var kar, rest := food[0], food[1..];
      var escaped' := if kar == '\\' then !escaped else escaped;
      if kar == '\\' && escaped' then Eat(rest, pos + 1, quoted, true, value)
      else if kar == '"' then
        if !escaped' && quoted then Bite(Token(pos + 1, Data, value), rest)
        else Eat(rest, pos + 1, true, escaped', value)
      else if !quoted && !escaped' && IsSeparator(kar) then
        if value != "" then Bite(Token(pos, WordKind(value), value), food)
        else if IsBlank(kar) then Eat(rest, pos + 1, quoted, escaped', value)
        else Bite(Token(pos + 1, if kar == '(' then Open else Close, [kar]), rest)
      else Eat(rest, pos + 1, quoted, false, value + [kar])
  }

  /** All tokens of the food. */
  function TokensOf(food: string, pos: nat): seq<Token>
    decreases |food|
  {
    if food == "" then []
    else var b := Eat(food, pos, false, false, ""); [b.token] + TokensOf(b.food, b.token.pos)
  }

  method EatToken(food: string, pos: nat) returns (token: Token, food': string, pos': nat)
    ensures var b := Eat(food, pos, false, false, ""); token == b.token && food' == b.food && pos' == token.pos
  {
    var quoted, escaped, value := false, false, "";
    food', pos' := food, pos;
    while food' != ""
      invariant Eat(food', pos', quoted, escaped, value) == Eat(food, pos, false, false, "")
      decreases |food'|
    {
      var kar := food'[0];
      food', pos' := food'[1..], pos' + 1;
      if kar == '\\' {
        escaped := !escaped;
        if escaped { continue; }
      }
      if kar == '"' {
        if !escaped && quoted { return Token(pos', Data, value), food', pos'; }
        quoted := true;
        continue;
      }
      if !quoted && !escaped && IsSeparator(kar) {
        if value != "" {
          food', pos' := [kar] + food', pos' - 1;
          return Token(pos', WordKind(value), value), food', pos';
        }
        if IsBlank(kar) { continue; }
        return Token(pos', if kar == '(' then Open else Close, [kar]), food', pos';
      }
      value, escaped := value + [kar], false;
    }
    token := Token(pos', Data, value);
  }

  /** The tokens of a text that is free of control characters and outer blanks. */
  method Tokenize(s: string) returns (tokens: seq<Token>)
    ensures tokens == TokensOf(s, 0)
  {
    tokens := [];
    var food, pos := s, 0;
    while food != ""
      invariant tokens + TokensOf(food, pos) == TokensOf(s, 0)
      decreases |food|
    {
      var token;
      token, food, pos := EatToken(food, pos);
      tokens := tokens + [token];
    }
  }

  /** Positions grow from token to token, up to the end of the text. */
  lemma {:induction false} PositionsIncrease(food: string, pos: nat)
    ensures var ts := TokensOf(food, pos);
            && (forall i :: 0 <= i < |ts| ==> pos < ts[i].pos <= pos + |food|)
            && (forall i, j :: 0 <= i < j < |ts| ==> ts[i].pos < ts[j].pos)
            && (food != "" ==> ts != [] && ts[|ts| - 1].pos == pos + |food|)
    decreases |food|
  {
    if food != "" {
      var b := Eat(food, pos, false, false, "");
      PositionsIncrease(b.food, b.token.pos);
    }
  }

  // Tokens as text

  /** Each backslash twice. */
  function Doubled(s: string): string {
    if s == "" then "" else (if s[0] == '\\' then "\\\\" else [s[0]]) + Doubled(s[1..])
  }

  function Text(t: Token): string {
    if t.kind.Data? then "\"" + Doubled(t.str) + "\"" else t.str
  }

  /** The tokens with blanks between them. */
  function Render(ts: seq<Token>): string {
    if ts == [] then "" else if |ts| == 1 then Text(ts[0]) else Text(ts[0]) + " " + Render(ts[1..])
  }

  predicate IsOperator(k: Kind) { k.And? || k.Or? || k.Xor? || k.Not? }

  /** A token that can be written as text: brackets and operators spelled as
      such, and data without a quote. */
  predicate Writable(t: Token) {
    match t.kind
    case Data => '"' !in t.str
    case Open => t.str == "("
    case Close => t.str == ")"
    case Empty => false
    case _ => WordKind(t.str) == t.kind
  }

  /** Same tokens, but for their positions. */
  predicate Alike(ts: seq<Token>, us: seq<Token>) {
    |ts| == |us| && forall i :: 0 <= i < |ts| ==> ts[i].kind == us[i].kind && ts[i].str == us[i].str
  }

  /** A word without quotes, backslashes and separators. */
  predicate IsPlain(s: string) {
    forall i :: 0 <= i < |s| ==> s[i] != '\\' && s[i] != '"' && !IsSeparator(s[i])
  }

  lemma {:induction false} EatQuoted(body: string, tail: string, pos: nat, value: string)
    requires '"' !in body
    ensures Eat(Doubled(body) + "\"" + tail, pos, true, false, value) ==
            Bite(Token(pos + |Doubled(body)| + 1, Data, value + body), tail)
    decreases body
  {
    var food := Doubled(body) + "\"" + tail;
    if body == "" {
      assert food == "\"" + tail;
      assert food[1..] == tail;
    } else {
      var next := Doubled(body[1..]) + "\"" + tail;
      assert value + [body[0]] + body[1..] == value + body;
      EatQuoted(body[1..], tail, pos + |Doubled(body)| - |Doubled(body[1..])|, value + [body[0]]);
      if body[0] == '\\' {
        assert food[0] == '\\' && food[1..][0] == '\\' && food[1..][1..] == next;
      } else {
        assert food[0] == body[0] && food[1..] == next;
      }
    }
  }

  /** Letters of a word are taken one by one, up to a blank or the end. */
  lemma {:induction false} EatWord(word: string, tail: string, pos: nat, value: string)
    requires IsPlain(word)
    requires value + word != "" && (tail == "" || tail[0] == ' ')
    ensures Eat(word + tail, pos, false, false, value) ==
            Bite(Token(pos + |word|, if tail == "" then Data else WordKind(value + word), value + word), tail)
    decreases word
  {
    var food := word + tail;
    if word == "" {
      assert food == tail && value + word == value;
    } else {
      assert food[0] == word[0] && food[1..] == word[1..] + tail;
      assert value + [word[0]] + word[1..] == value + word;
      EatWord(word[1..], tail, pos + 1, value + [word[0]]);
    }
  }

  lemma PlainWord(s: string)
    requires Lower(s) in {"and", "or", "xor", "not"}
    ensures s != "" && IsPlain(s)
  {
    LowerChars(s);
    forall i | 0 <= i < |s| ensures s[i] != '\\' && s[i] != '"' && !IsSeparator(s[i]) {
      assert 'a' <= Lower(s)[i] <= 'z' && Lower(s)[i] == ToLower(s[i]);
    }
  }

  lemma OperatorWord(t: Token)
    requires Writable(t) && IsOperator(t.kind)
    ensures t.str != "" && IsPlain(t.str)
  {
    hide Lower;
    PlainWord(t.str);
  }

  lemma DataText(t: Token, tail: string)
    requires t.kind.Data?
    ensures Text(t) + tail == "\"" + (Doubled(t.str) + "\"" + tail) && |Text(t)| == |Doubled(t.str)| + 2
  {
    hide Doubled;
  }

  /** A quotation mark opens a quoted text. */
  lemma EatOpening(rest: string, pos: nat)
    ensures Eat("\"" + rest, pos, false, false, "") == Eat(rest, pos + 1, true, false, "")
  {
    assert ("\"" + rest)[1..] == rest;
  }

  lemma EatBracket(c: char, tail: string, pos: nat)
    requires c == '(' || c == ')'
    ensures Eat([c] + tail, pos, false, false, "") == Bite(Token(pos + 1, if c == '(' then Open else Close, [c]), tail)
  {
    assert ([c] + tail)[1..] == tail;
  }

  /** The text of a token is eaten whole; only an operator needs a blank behind it. */
  lemma EatText(t: Token, tail: string, pos: nat)
    requires Writable(t) && (tail == "" || tail[0] == ' ')
    ensures Eat(Text(t) + tail, pos, false, false, "") ==
            Bite(Token(pos + |Text(t)|, if tail == "" && IsOperator(t.kind) then Data else t.kind, t.str), tail)
  {
    hide Eat, Doubled, Lower, WordKind;
    assert "" + t.str == t.str;
    if t.kind.Data? {
      DataText(t, tail);
      EatOpening(Doubled(t.str) + "\"" + tail, pos);
      EatQuoted(t.str, tail, pos + 1, "");
    } else if IsOperator(t.kind) {
      OperatorWord(t);
      EatWord(t.str, tail, pos, "");
    } else {
      EatBracket(if t.kind.Open? then '(' else ')', tail, pos);
    }
  }

  /** A token as it reads when it stands last: an operator is then plain data. */
  function Last(t: Token): Token {
    if IsOperator(t.kind) then t.(kind := Data) else t
  }

  /** The tokens of a text with one token before them. */
  lemma TextFirst(t: Token, tail: string, pos: nat)
    requires Writable(t) && (tail == "" || tail[0] == ' ')
    ensures Text(t) != ""
    ensures TokensOf(Text(t) + tail, pos) ==
            [Token(pos + |Text(t)|, (if tail == "" then Last(t) else t).kind, t.str)] + TokensOf(tail, pos + |Text(t)|)
  {
    EatText(t, tail, pos);
    if IsOperator(t.kind) { OperatorWord(t); }
  }

  lemma SkipBlank(food: string, pos: nat)
    requires food != ""
    ensures TokensOf(" " + food, pos) == TokensOf(food, pos + 1)
  {
    assert (" " + food)[1..] == food;
    assert Eat(" " + food, pos, false, false, "") == Eat(food, pos + 1, false, false, "");
  }

  lemma {:induction false} RenderedTokens(ts: seq<Token>, pos: nat)
    requires ts != [] && forall t <- ts :: Writable(t)
    ensures Render(ts) != "" && Alike(TokensOf(Render(ts), pos), ts[|ts| - 1 := Last(ts[|ts| - 1])])
    decreases ts
  {
    hide Eat, TokensOf, Text, Writable, Last;
    var t, end := ts[0], pos + |Text(ts[0])|;
    if |ts| == 1 {
      assert Text(t) + "" == Text(t);
      TextFirst(t, "", pos);
      assert TokensOf("", end) == [] by { NoFood(end); }
      LastKeepsText(t);
    } else {
      var us := Render(ts[1..]);
      assert Render(ts) == Text(t) + (" " + us);
      TextFirst(t, " " + us, pos);
      RenderedTokens(ts[1..], end + 1);
      SkipBlank(us, end);
      assert ts[|ts| - 1 := Last(ts[|ts| - 1])] == [t] + ts[1..][|ts| - 2 := Last(ts[|ts| - 1])];
    }
  }

  lemma NoFood(pos: nat)
    ensures TokensOf("", pos) == []
  {}

  lemma LastKeepsText(t: Token)
    ensures Last(t).str == t.str
  {}

  /** Writing tokens as text and reading them again gives the same tokens, unless
      the last one is an operator. */
  lemma RoundTrip(ts: seq<Token>)
    requires forall t <- ts :: Writable(t)
    ensures Alike(TokensOf(Render(ts), 0), ts) <==> ts == [] || !IsOperator(ts[|ts| - 1].kind)
  {
    hide Eat, TokensOf, Writable;
    if ts == [] { NoFood(0); } else { RenderedTokens(ts, 0); }
  }
}
