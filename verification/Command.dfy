/** Calls of commands: their validation, and the getters for their parameters. */
module Commands {
  import opened Wrappers
  import opened Sexps
  import opened SexpRoundTrip

  datatype Kind = IsEmpty | IsList | IsString | IsNumber | IsSymbol

  datatype ArgInfo = ArgInfo(kind: Kind, required: bool)

  type ArgMap = map<string, ArgInfo>
  type CommandMap = map<string, ArgMap>
  type Parameters = seq<Sexp>

  function KindOf(s: Sexp): Kind {
    match s
    case Empty => IsEmpty
    case List(_) => IsList
    case Str(_) => IsString
    case Num(_) => IsNumber
    case Sym(_) => IsSymbol
  }

  predicate IsNil(s: Sexp) { s == Sym("nil") }

  predicate IsPropName(s: Sexp) { s.Sym? && |s.value| > 1 && s.value[0] == ':' }

  /** A function name, then names with values. */
  predicate IsCall(s: Sexp) {
    s.List? && |s.items| % 2 == 1 && s.items[0].Sym? && forall i :: 1 <= i < |s.items| && i % 2 == 1 ==>
      IsPropName(s.items[i])
  }

  /** name stands at i, and a value behind it. */
  predicate NamedAt(params: Parameters, name: string, i: int) {
    1 <= i && i + 1 < |params| && i % 2 == 1 && params[i] == Sym(name)
  }

  ghost predicate Given(params: Parameters, name: string) { exists i :: NamedAt(params, name, i) }

  /** Where name first stands, from the odd place i on. */
  function FirstFrom(params: Parameters, name: string, i: nat): (r: Option<nat>)
    requires i % 2 == 1
    ensures r.Some? ==> i <= r.value && NamedAt(params, name, r.value)
    ensures forall j :: NamedAt(params, name, j) && i <= j ==> r.Some? && r.value <= j
    decreases |params| - i
  {
    if i >= |params| then None
    else if NamedAt(params, name, i) then Some(i)
    else FirstFrom(params, name, i + 2)
  }

  /** The value that counts for name: the first one given. */
  function Lookup(params: Parameters, name: string): Option<Sexp> {
    var r := FirstFrom(params, name, 1);
    if r.None? then None else Some(params[r.value + 1])
  }

  // Validation

  datatype CallError =
    | NotACall | UnknownCommand
    | MissingParameter(name: string) | WrongType(name: string) | UnknownParameter(name: string)

  /** The value given for a declared parameter is one it may have. */
  predicate Suits(params: Parameters, name: string, info: ArgInfo) {
    match Lookup(params, name)
    case None => !info.required
    case Some(v) => KindOf(v) == info.kind || IsNil(v)
  }

  predicate Known(params: Parameters, args: ArgMap, i: nat) {
    i % 2 == 1 && i < |params| ==> params[i].Sym? && params[i].value in args
  }

  /** The calls that are carried out. */
  ghost predicate ValidCall(cmap: CommandMap, call: Sexp) {
    && IsCall(call) && call.items[0].value in cmap
    && var args := cmap[call.items[0].value];
       (forall name <- args :: Suits(call.items, name, args[name])) && forall i: nat :: Known(call.items, args, i)
  }

  /** An error is given for its reason. */
  ghost predicate Wrong(cmap: CommandMap, call: Sexp, error: CallError) {
    if !IsCall(call) then error.NotACall?
    else if call.items[0].value !in cmap then error.UnknownCommand?
    else
      var args := cmap[call.items[0].value];
      match error
      case MissingParameter(name) => name in args && args[name].required && !Given(call.items, name)
      case WrongType(name) =>
        && name in args && Lookup(call.items, name).Some?
        && !IsNil(Lookup(call.items, name).value) && KindOf(Lookup(call.items, name).value) != args[name].kind
      case UnknownParameter(name) => name !in args && Given(call.items, name)
      case _ => false
  }

  /** The value of a parameter as validation finds it: the place behind its name. */
  method FindValue(params: Parameters, name: string) returns (place: nat)
    requires IsCall(List(params))
    ensures place <= |params|
    ensures Lookup(params, name) == if place == |params| then None else Some(params[place])
  {
    var i := 1;
    while i < |params|
      invariant i % 2 == 1 && 1 <= i <= |params|
      invariant FirstFrom(params, name, i) == FirstFrom(params, name, 1)
      decreases |params| - i
    {
      if params[i].Sym? && params[i].value == name { return i + 1; }
      i := i + 2;
    }
    return |params|;
  }

  /** Whether all names in a call are declared; the first that is not. */
  method FindUnknown(params: Parameters, args: ArgMap) returns (r: Option<string>)
    requires IsCall(List(params))
    ensures r.None? ==> forall i: nat :: Known(params, args, i)
    ensures r.Some? ==> r.value !in args && Given(params, r.value)
  {
    var i := 1;
    while i < |params|
      invariant i % 2 == 1 && 1 <= i <= |params|
      invariant forall j: nat :: j < i ==> Known(params, args, j)
      decreases |params| - i
    {
      assert IsPropName(params[i]);
      if params[i].value !in args {
        assert NamedAt(params, params[i].value, i);
        return Some(params[i].value);
      }
      i := i + 2;
    }
    r := None;
  }

  /** Validates a call; the parameters for its handler, or an error.  The declared
      parameters are looked at in any order. */
  method Invoke(cmap: CommandMap, call: Sexp) returns (r: Result<Parameters, CallError>)
    ensures r.Ok? <==> ValidCall(cmap, call)
    ensures match r case Ok(params) => params == call.items case Err(error) => Wrong(cmap, call, error)
  {
    if !IsCall(call) { return Err(NotACall); }
    var params := call.items;
    if params[0].value !in cmap { return Err(UnknownCommand); }
    var args := cmap[params[0].value];
    assert params == call.items && List(params) == call;
    var todo := args.Keys;
    while todo != {}
      invariant todo <= args.Keys
      invariant forall name <- args.Keys - todo :: Suits(params, name, args[name])
    {
      var name :| name in todo;
      todo := todo - {name};
      var place := FindValue(params, name);
      if place == |params| {
        if args[name].required { return Err(MissingParameter(name)); }
        continue;
      }
      if KindOf(params[place]) != args[name].kind && !IsNil(params[place]) { return Err(WrongType(name)); }
    }
    var unknown := FindUnknown(params, args);
    if unknown.Some? {
      var i :| NamedAt(params, unknown.value, i);
      assert !Known(params, args, i);
      return Err(UnknownParameter(unknown.value));
    }
    r := Ok(params);
  }

  // Getters

  datatype GetError = NoParameters | InvalidKey | UnexpectedKind(expected: Kind, got: Kind)

  /** The value for a key, if it is given; only keys with a colon are looked for. */
  function Find(params: Parameters, name: string): Result<Option<Sexp>, GetError> {
    if params == [] then Err(NoParameters)
    else if name == "" || name[0] != ':' then Err(InvalidKey)
    else Ok(Lookup(params, name))
  }

  method FindParamNode(params: Parameters, name: string) returns (r: Result<Option<Sexp>, GetError>)
    ensures r == Find(params, name)
  {
    if params == [] { return Err(NoParameters); }
    if name == "" || name[0] != ':' { return Err(InvalidKey); }
    var i := 1;
    while i < |params|
      invariant i % 2 == 1 && 1 <= i
      invariant FirstFrom(params, name, i) == FirstFrom(params, name, 1)
      decreases |params| - i
    {
      if i + 1 != |params| && params[i].Sym? && params[i].value == name { return Ok(Some(params[i + 1])); }
      i := i + 2;
    }
    r := Ok(None);
  }

  function GetStringOr(params: Parameters, name: string, alt: string): Result<string, GetError> {
    match Find(params, name)
    case Err(e) => Err(e)
    case Ok(None) => Ok(alt)
    case Ok(Some(v)) =>
      if IsNil(v) then Ok(alt) else if !v.Str? then Err(UnexpectedKind(IsString, KindOf(v))) else Ok(v.value)
  }

  function GetSymbolOr(params: Parameters, name: string, alt: string): Result<string, GetError> {
    match Find(params, name)
    case Err(e) => Err(e)
    case Ok(None) => Ok(alt)
    case Ok(Some(v)) =>
      if IsNil(v) then Ok(alt) else if !v.Sym? then Err(UnexpectedKind(IsSymbol, KindOf(v))) else Ok(v.value)
  }

  function GetIntOr(params: Parameters, name: string, alt: int): Result<int, GetError> {
    match Find(params, name)
    case Err(e) => Err(e)
    case Ok(None) => Ok(alt)
    case Ok(Some(v)) =>
      if IsNil(v) then Ok(alt) else if !v.Num? then Err(UnexpectedKind(IsNumber, KindOf(v))) else Ok(Atoi(v.value))
  }

  function GetBoolOr(params: Parameters, name: string, alt: bool): Result<bool, GetError> {
    match Find(params, name)
    case Err(e) => Err(e)
    case Ok(None) => Ok(alt)
    case Ok(Some(v)) => if !v.Sym? then Err(UnexpectedKind(IsSymbol, KindOf(v))) else Ok(!IsNil(v))
  }

  /** The strings of a list parameter. */
  method GetStringVec(params: Parameters, name: string) returns (r: Result<seq<string>, GetError>)
    ensures match Find(params, name)
            case Err(e) => r == Err(e)
            case Ok(None) => r == Ok([])
            case Ok(Some(v)) =>
              if IsNil(v) then r == Ok([])
              else if !v.List? then r == Err(UnexpectedKind(IsList, KindOf(v)))
              else if forall c <- v.items :: c.Str? then
                r.Ok? && |r.value| == |v.items| && forall i :: 0 <= i < |v.items| ==> r.value[i] == v.items[i].value
              else exists c <- v.items :: !c.Str? && r == Err(UnexpectedKind(IsString, KindOf(c)))
  {
    var it := FindParamNode(params, name);
    if it.Err? { return Err(it.error); }
    if it.value.None? || IsNil(it.value.value) { return Ok([]); }
    var v := it.value.value;
    if !v.List? { return Err(UnexpectedKind(IsList, KindOf(v))); }
    var vec := [];
    for i := 0 to |v.items|
      invariant |vec| == i && forall j :: 0 <= j < i ==> v.items[j].Str? && vec[j] == v.items[j].value
    {
      if !v.items[i].Str? { return Err(UnexpectedKind(IsString, KindOf(v.items[i]))); }
      vec := vec + [v.items[i].value];
    }
    r := Ok(vec);
  }

  // What validation buys

  /** The value a getter reads was checked by validation. */
  lemma CheckedValue(cmap: CommandMap, call: Sexp, name: string)
    requires ValidCall(cmap, call) && name in cmap[call.items[0].value]
    ensures Find(call.items, name).Ok? <==> name != "" && name[0] == ':'
    ensures Find(call.items, name).Ok? && Find(call.items, name).value.Some? ==>
              var v := Find(call.items, name).value.value;
              KindOf(v) == cmap[call.items[0].value][name].kind || IsNil(v)
    ensures Given(call.items, name) <==> Lookup(call.items, name).Some?
  {
    assert Suits(call.items, name, cmap[call.items[0].value][name]);
  }

  /** After validation the getters never fail on a declared parameter of their kind,
      if and only if its name has a colon.  They give the first value, or the
      alternative when there is none or it is nil; a required one is there. */
  lemma GettersAreTotal(cmap: CommandMap, call: Sexp, name: string, str: string, n: int, b: bool)
    requires ValidCall(cmap, call) && name in cmap[call.items[0].value]
    ensures var kind, key := cmap[call.items[0].value][name].kind, name != "" && name[0] == ':';
            && (kind.IsString? ==> (GetStringOr(call.items, name, str).Ok? <==> key))
            && (kind.IsSymbol? ==> (GetSymbolOr(call.items, name, str).Ok? <==> key))
            && (kind.IsNumber? ==> (GetIntOr(call.items, name, n).Ok? <==> key))
            && (kind.IsSymbol? ==> (GetBoolOr(call.items, name, b).Ok? <==> key))
    ensures cmap[call.items[0].value][name].required ==> name != "" && name[0] == ':' && Given(call.items, name)
    ensures name != "" && name[0] == ':' ==>
              var kind := cmap[call.items[0].value][name].kind;
              match Lookup(call.items, name)
              case Some(Str(s)) => kind.IsString? && GetStringOr(call.items, name, str) == Ok(s)
              case Some(Num(s)) => kind.IsNumber? && GetIntOr(call.items, name, n) == Ok(Atoi(s))
              case Some(Sym(s)) =>
                && (s != "nil" ==> kind.IsSymbol? && GetSymbolOr(call.items, name, str) == Ok(s))
                && GetBoolOr(call.items, name, b) == Ok(s != "nil")
                && (s == "nil" ==> GetStringOr(call.items, name, str) == GetSymbolOr(call.items, name, str) == Ok(str)
                                   && GetIntOr(call.items, name, n) == Ok(n))
              case Some(List(_)) => kind.IsList?
              case Some(Empty) => kind.IsEmpty?
              case None => GetStringOr(call.items, name, str) == GetSymbolOr(call.items, name, str) == Ok(str)
                           && GetIntOr(call.items, name, n) == Ok(n) && GetBoolOr(call.items, name, b) == Ok(b)
  {
    CheckedValue(cmap, call, name);
    if Given(call.items, name) {
      var i :| NamedAt(call.items, name, i);
      assert IsPropName(call.items[i]);
    }
  }

  /** Of a repeated key the first value counts, for validation and getters alike;
      later ones are not even checked. */
  lemma FirstValueCounts(params: Parameters, more: Parameters, name: string)
    requires |params| % 2 == 1 && Given(params, name)
    ensures Lookup(params + more, name) == Lookup(params, name)
  {
    var i :| NamedAt(params, name, i);
    var r, r' := FirstFrom(params, name, 1).value, FirstFrom(params + more, name, 1);
    assert NamedAt(params + more, name, r);
    assert NamedAt(params, name, r'.value);
  }

  /** An integer argument of a valid call comes out as it was put in. */
  lemma IntegerComesOut(params: Parameters, name: string, n: int, alt: int)
    requires -0x8000_0000 <= n < 0x8000_0000 && name != "" && name[0] == ':' &&
             Lookup(params, name) == Some(MakeNumber(n))
    ensures GetIntOr(params, name, alt) == Ok(n)
  {
    AtoiOfDecimals(n);
  }

  // Calls as names with values

  /** A name that starts with a colon, and its value. */
  type Param = (string, Sexp)

  function Flat(ps: seq<Param>): seq<Sexp> { if ps == [] then [] else [Sym(ps[0].0), ps[0].1] + Flat(ps[1..]) }

  function CallOf(f: string, ps: seq<Param>): Sexp { List([Sym(f)] + Flat(ps)) }

  predicate ProperParams(ps: seq<Param>) { forall p <- ps :: |p.0| > 1 && p.0[0] == ':' }

  lemma {:induction false} FlatAt(ps: seq<Param>)
    ensures |Flat(ps)| == 2 * |ps|
    ensures forall k :: 0 <= k < |ps| ==> Flat(ps)[2 * k] == Sym(ps[k].0) && Flat(ps)[2 * k + 1] == ps[k].1
  {
    if ps != [] {
      FlatAt(ps[1..]);
      var r := Flat(ps[1..]);
      assert Flat(ps) == [Sym(ps[0].0), ps[0].1] + r;
      forall k | 0 <= k < |ps| ensures Flat(ps)[2 * k] == Sym(ps[k].0) && Flat(ps)[2 * k + 1] == ps[k].1 {
        if k > 0 { assert ps[1..][k - 1] == ps[k] && r[2 * (k - 1)] == Sym(ps[k].0) && r[2 * (k - 1) + 1] == ps[k].1; }
      }
    }
  }

  /** The k-th name of a call. */
  lemma NameAt(f: string, ps: seq<Param>, i: int)
    requires 1 <= i < |CallOf(f, ps).items| && i % 2 == 1
    ensures var k := (i - 1) / 2; k < |ps| && CallOf(f, ps).items[i] == Sym(ps[k].0) &&
                                  i + 1 < |CallOf(f, ps).items| && CallOf(f, ps).items[i + 1] == ps[k].1 &&
                                    i == 2 * k + 1
  {
    FlatAt(ps);
    var k := (i - 1) / 2;
    assert i == 2 * k + 1 && Flat(ps)[2 * k] == Sym(ps[k].0);
  }

  lemma PropLists(items: seq<Sexp>) returns (ps: seq<Param>)
    requires IsCall(List(items))
    ensures items == [items[0]] + Flat(ps) && ProperParams(ps)
    decreases |items|
  {
    ps := [];
    var n := 1;
    while n < |items|
      invariant n % 2 == 1 && 1 <= n <= |items| && items[..n] == [items[0]] + Flat(ps) && ProperParams(ps)
      decreases |items| - n
    {
      assert IsPropName(items[n]);
      FlatMore(ps, (items[n].value, items[n + 1]));
      ps := ps + [(items[n].value, items[n + 1])];
      assert items[..n + 2] == items[..n] + [items[n], items[n + 1]];
      n := n + 2;
    }
    assert items[..n] == items;
  }

  lemma {:induction false} FlatMore(ps: seq<Param>, p: Param)
    ensures Flat(ps + [p]) == Flat(ps) + [Sym(p.0), p.1]
  {
    if ps == [] {
      assert [p][1..] == [] && ps + [p] == [p];
    } else {
      assert (ps + [p])[1..] == ps[1..] + [p];
      FlatMore(ps[1..], p);
    }
  }

  /** A call is a function with names, each with a value. */
  lemma CallsAre(s: Sexp)
    ensures IsCall(s) <==> exists f, ps :: s == CallOf(f, ps) && ProperParams(ps)
  {
    if IsCall(s) {
      var ps := PropLists(s.items);
      assert s == CallOf(s.items[0].value, ps);
    }
    if f, ps :| s == CallOf(f, ps) && ProperParams(ps) {
      FlatAt(ps);
      forall i | 1 <= i < |s.items| && i % 2 == 1 ensures IsPropName(s.items[i]) {
        NameAt(f, ps, i);
        assert ps[(i - 1) / 2] in ps;
      }
    }
  }

  /** v is of the kind asked for, or the symbol nil. */
  predicate Fits(v: Sexp, kind: Kind) {
    v == Sym("nil") ||
    match kind
    case IsEmpty => v.Empty?
    case IsList => v.List?
    case IsString => v.Str?
    case IsNumber => v.Num?
    case IsSymbol => v.Sym?
  }

  /** The first value given for name fits; a name that is not required may be left
      out. */
  ghost predicate WellGiven(ps: seq<Param>, name: string, info: ArgInfo) {
    if exists k :: 0 <= k < |ps| && ps[k].0 == name then
      exists k :: 0 <= k < |ps| && ps[k].0 == name && Fits(ps[k].1, info.kind) && forall j :: 0 <= j < k ==>
        ps[j].0 != name
    else !info.required
  }

  /** Where a name stands first in a call. */
  lemma FirstNameIs(f: string, ps: seq<Param>, name: string)
    ensures var items := CallOf(f, ps).items;
            match FirstFrom(items, name, 1)
            case None => forall k :: 0 <= k < |ps| ==> ps[k].0 != name
            case Some(i) =>
              var k := (i - 1) / 2;
              && k < |ps| && ps[k].0 == name && i + 1 < |items| && items[i + 1] == ps[k].1
              && forall j :: 0 <= j < k ==> ps[j].0 != name
  {
    var items := CallOf(f, ps).items;
    FlatAt(ps);
    var r := FirstFrom(items, name, 1);
    forall k | 0 <= k < |ps| && ps[k].0 == name ensures r.Some? && r.value <= 2 * k + 1 {
      NameAt(f, ps, 2 * k + 1);
      assert NamedAt(items, name, 2 * k + 1);
    }
    if r.Some? { NameAt(f, ps, r.value); }
  }

  lemma SuitsIs(f: string, ps: seq<Param>, name: string, info: ArgInfo)
    ensures Suits(CallOf(f, ps).items, name, info) <==> WellGiven(ps, name, info)
  {
    hide Flat, FirstFrom;
    FirstNameIs(f, ps, name);
    var r := FirstFrom(CallOf(f, ps).items, name, 1);
    if r.Some? { assert ps[(r.value - 1) / 2].0 == name; }
  }

  /** What is carried out: a known function whose parameters are well given, and no
      others. */
  lemma ValidCallsAre(cmap: CommandMap, f: string, ps: seq<Param>)
    requires ProperParams(ps)
    ensures ValidCall(cmap, CallOf(f, ps)) <==>
              && f in cmap && (forall p <- ps :: p.0 in cmap[f])
              && forall name <- cmap[f] :: WellGiven(ps, name, cmap[f][name])
  {
    var call := CallOf(f, ps);
    CallsAre(call);
    FlatAt(ps);
    if f in cmap {
      forall name | name in cmap[f] ensures Suits(call.items, name, cmap[f][name]) <==>
        WellGiven(ps, name, cmap[f][name]) {
        SuitsIs(f, ps, name, cmap[f][name]);
      }
      forall i: nat | i % 2 == 1 && i < |call.items| ensures call.items[i] == Sym(ps[(i - 1) / 2].0) {
        NameAt(f, ps, i);
      }
      forall k | 0 <= k < |ps| ensures Known(call.items, cmap[f], 2 * k + 1) <==> ps[k].0 in cmap[f] {
        NameAt(f, ps, 2 * k + 1);
      }
    }
  }
}
