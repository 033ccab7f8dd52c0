/** The s-expression parser at work: each rule moves a position over the text. */
module SexpParser {
  import opened Wrappers
  import opened Decimal
  import S = Sexps

  type Error = S.Error

  method SkipWhitespace(s: string, pos: nat) returns (pos': nat)
    requires pos <= |s|
    ensures pos' == S.SkipWhitespace(s, pos)
  {
    pos' := pos;
    while pos' != |s|
      invariant pos <= pos' <= |s| && S.SkipWhitespace(s, pos') == S.SkipWhitespace(s, pos)
    {
      if !S.IsBlank(s[pos']) { break; }
      pos' := pos' + 1;
    }
  }

  type Items = Result<(seq<S.Sexp>, nat), Error>

  /** The items of r with those of list before them. */
  function Before(list: seq<S.Sexp>, r: Items): Items {
    if r.Err? then r else Ok((list + r.value.0, r.value.1))
  }

  lemma BeforeNothing(r: Items)
    ensures Before([], r) == r
  {
    if r.Ok? { assert [] + r.value.0 == r.value.0; }
  }

  lemma BeforeStep(expr: string, pos: nat, list: seq<S.Sexp>)
    requires pos < |expr| && expr[pos] != ')'
    ensures match S.ParseAt(expr, pos)
            case Ok(v) => Before(list, S.ParseItems(expr, pos)) == Before(list + [v.0], S.ParseItems(expr, v.1))
            case Err(e) => Before(list, S.ParseItems(expr, pos)) == Err(e)
  {
    var r := S.ParseAt(expr, pos);
    if r.Ok? && S.ParseItems(expr, r.value.1).Ok? {
      var more := S.ParseItems(expr, r.value.1).value.0;
      assert list + ([r.value.0] + more) == list + [r.value.0] + more;
    }
  }

  method ParseList(expr: string, pos: nat) returns (r: Result<S.Sexp, Error>, pos': nat)
    requires pos < |expr| && expr[pos] == '('
    ensures match S.ParseList(expr, pos) case Ok(v) => r == Ok(v.0) && pos' == v.1 case Err(e) => r == Err(e)
    decreases |expr| - pos - 1, 2
  {
    hide S.ParseAt;
    var list := [];
    pos' := pos + 1;
    BeforeNothing(S.ParseItems(expr, pos'));
    while S.CharAt(expr, pos') != ')' && pos' != |expr|
      invariant pos < pos' <= |expr|
      invariant S.ParseItems(expr, pos + 1) == Before(list, S.ParseItems(expr, pos'))
      decreases |expr| - pos'
    {
      var item;
      BeforeStep(expr, pos', list);
      item, pos' := Parse(expr, pos');
      if item.Err? { return Err(item.error), pos'; }
      list := list + [item.value];
    }
    if S.CharAt(expr, pos') != ')' { return Err(S.Error(pos', S.ExpectedClose)), pos'; }
    assert list + [] == list;
    return Ok(S.List(list)), pos' + 1;
  }

  method ParseString(expr: string, pos: nat) returns (r: Result<S.Sexp, Error>, pos': nat)
    requires pos < |expr| && expr[pos] == '"'
    ensures match S.ParseAtom(expr, pos) case Ok(v) => r == Ok(v.0) && pos' == v.1 case Err(e) => r == Err(e)
  {
    var escape, str := false, "";
    pos' := pos + 1;
    while pos' != |expr|
      invariant pos < pos' <= |expr| && S.StringRest(expr, pos', escape, str) == S.StringRest(expr, pos + 1, false, "")
      decreases |expr| - pos'
    {
      var kar := expr[pos'];
      if escape && (kar == '"' || kar == '\\') {
        str, escape, pos' := str + [kar], false, pos' + 1;
        continue;
      }
      if kar == '"' { break; }
      if kar == '\\' { escape := true; } else { str := str + [kar]; }
      pos' := pos' + 1;
    }
    if escape || S.CharAt(expr, pos') != '"' { return Err(S.Error(pos', S.Unterminated(str))), pos'; }
    return Ok(S.Str(str)), pos' + 1;
  }

  lemma NumberAtom(expr: string, pos: nat)
    requires pos < |expr| && (IsDigit(expr[pos]) || expr[pos] == '-')
    ensures var end := S.RunEnd(expr, pos + 1, IsDigit);
            S.ParseAtom(expr, pos) == Ok((S.MakeNumber(S.Atoi(expr[pos..end])), end))
  {}

  lemma DigitsStep(expr: string, pos: nat)
    requires pos <= |expr|
    ensures S.RunEnd(expr, pos, IsDigit) ==
            if IsDigit(S.CharAt(expr, pos)) then S.RunEnd(expr, pos + 1, IsDigit) else pos
  {}

  method ParseInteger(expr: string, pos: nat) returns (r: Result<S.Sexp, Error>, pos': nat)
    requires pos < |expr| && (IsDigit(expr[pos]) || expr[pos] == '-')
    ensures match S.ParseAtom(expr, pos) case Ok(v) => r == Ok(v.0) && pos' == v.1 case Err(e) => r == Err(e)
  {
    hide S.Atoi, S.MakeNumber, S.ParseAtom, S.RunEnd;
    NumberAtom(expr, pos);
    ghost var end := S.RunEnd(expr, pos + 1, IsDigit);
    var num := "";
    pos' := pos;
    if expr[pos] == '-' { num, pos' := "-", pos + 1; }
    while IsDigit(S.CharAt(expr, pos'))
      invariant pos <= pos' <= |expr| && num == expr[pos..pos']
      invariant if pos < pos' then S.RunEnd(expr, pos', IsDigit) == end else IsDigit(expr[pos])
      decreases |expr| - pos'
    {
      DigitsStep(expr, pos');
      num, pos' := num + [expr[pos']], pos' + 1;
    }
    DigitsStep(expr, pos');
    r := Ok(S.MakeNumber(S.Atoi(num)));
  }

  method ParseSymbol(expr: string, pos: nat) returns (r: Result<S.Sexp, Error>, pos': nat)
    requires pos < |expr| && S.IsSymbolStart(expr[pos])
    ensures match S.ParseAtom(expr, pos) case Ok(v) => r == Ok(v.0) && pos' == v.1 case Err(e) => r == Err(e)
  {
    var symbol := [expr[pos]];
    pos' := pos + 1;
    while S.IsSymbolChar(S.CharAt(expr, pos'))
      invariant pos < pos' <= |expr| && symbol == expr[pos..pos']
      invariant S.RunEnd(expr, pos', S.IsSymbolChar) == S.RunEnd(expr, pos + 1, S.IsSymbolChar)
      decreases |expr| - pos'
    {
      symbol, pos' := symbol + [expr[pos']], pos' + 1;
    }
    r := Ok(S.Sym(symbol));
  }

  method Parse(expr: string, pos: nat) returns (r: Result<S.Sexp, Error>, pos': nat)
    requires pos <= |expr|
    ensures match S.ParseAt(expr, pos) case Ok(v) => r == Ok(v.0) && pos' == v.1 case Err(e) => r == Err(e)
    decreases |expr| - pos, 0
  {
    pos' := SkipWhitespace(expr, pos);
    if pos' == |expr| { return Err(S.Error(pos', S.ExpectedCharacter)), pos'; }
    var kar := expr[pos'];
    if kar == '(' { r, pos' := ParseList(expr, pos'); }
    else if kar == '"' { r, pos' := ParseString(expr, pos'); }
    else if IsDigit(kar) || kar == '-' { r, pos' := ParseInteger(expr, pos'); }
    else if S.IsSymbolStart(kar) { r, pos' := ParseSymbol(expr, pos'); }
    else { return Err(S.Error(pos', S.Unexpected)), pos'; }
    if r.Ok? { pos' := SkipWhitespace(expr, pos'); }
  }

  method MakeParse(expr: string) returns (r: Result<S.Sexp, Error>)
    ensures r == S.MakeParse(expr)
  {
    var pos;
    r, pos := Parse(expr, 0);
    if r.Ok? && pos != |expr| { r := Err(S.Error(pos, S.Trailing)); }
  }
}
