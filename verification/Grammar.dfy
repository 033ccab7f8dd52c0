/** The query grammar: what the parser's rules do on a list of tokens. */
module Grammar {
  import opened QueryTree
  import opened QueryLeaf
  import opened Tokenizer

  /** A tree, the tokens left, and the warnings given. */
  datatype Parsed = Parsed(tree: Tree, rest: seq<Token>, warnings: seq<Warning>)

  /** Two operands under op; the left one alone when the right one is empty. */
  function Join(op: NodeType, left: Tree, right: Tree): Tree {
    if right.node.Empty? then left else Branch(op, [left, right])
  }

  function DataRule(sc: Schema, ts: seq<Token>): (r: Parsed)
    requires sc.Valid() && ts != []
    ensures WellFormed(r.tree)
  {
    var leaf := DataLeaf(sc, ts[0].str, ts[0].pos);
    var wrong := if ts[0].kind.Data? then [] else [Warning(ts[0].pos, ExpectedValue)];
    Parsed(leaf.tree, ts[1..], wrong + leaf.warnings)
  }

  function Unit(sc: Schema, ts: seq<Token>): (r: Parsed)
    requires sc.Valid()
    ensures WellFormed(r.tree) && |r.rest| <= |ts| && (ts != [] ==> |r.rest| < |ts|)
    decreases |ts|, 1
  {
    if ts == [] then Parsed(EmptyTree(), [], [Warning(0, ExpectedUnit)])
    else if ts[0].kind.Not? then
      var r := Unit(sc, ts[1..]);
      Parsed(Branch(OpNot, [r.tree]), r.rest, r.warnings)
    else if ts[0].kind.Open? then
      var r := Term1(sc, ts[1..]);
      if r.rest == [] then Parsed(r.tree, [], r.warnings + [Warning(ts[0].pos, ExpectedClose)])
      else if r.rest[0].kind.Close? then Parsed(r.tree, r.rest[1..], r.warnings)
      else Parsed(r.tree, r.rest, r.warnings + [Warning(r.rest[0].pos, NotClose(r.rest[0].str))])
    else DataRule(sc, ts)
  }

  /** The operator and right operand that follow a unit, if any. */
  function Factor2(sc: Schema, ts: seq<Token>): (r: (NodeType, Parsed))
    requires sc.Valid()
    ensures WellFormed(r.1.tree) && |r.1.rest| <= |ts| && (!r.1.tree.node.Empty? ==> r.0.OpAnd?)
    decreases |ts|, if ts == [] then 0 else 3
  {
    if ts == [] then (Invalid, Parsed(EmptyTree(), ts, []))
    else match ts[0].kind
      case And => (OpAnd, Factor1(sc, ts[1..]))
      case Open => (OpAnd, Factor1(sc, ts))
      case Data => (OpAnd, Factor1(sc, ts))
      case Not => (OpAnd, Factor1(sc, ts))
      case _ => (Invalid, Parsed(EmptyTree(), ts, []))
  }

  function Factor1(sc: Schema, ts: seq<Token>): (r: Parsed)
    requires sc.Valid()
    ensures WellFormed(r.tree) && |r.rest| <= |ts| && (ts != [] ==> |r.rest| < |ts|)
    decreases |ts|, 2
  {
    var t := Unit(sc, ts);
    var (op, a) := Factor2(sc, t.rest);
    Parsed(Join(op, t.tree, a.tree), a.rest, t.warnings + a.warnings)
  }

  function Term2(sc: Schema, ts: seq<Token>): (r: (NodeType, Parsed))
    requires sc.Valid()
    ensures WellFormed(r.1.tree) && |r.1.rest| <= |ts| && (!r.1.tree.node.Empty? ==> r.0.OpOr? || r.0.OpXor?)
    decreases |ts|, 0
  {
    if ts == [] then (Invalid, Parsed(EmptyTree(), ts, []))
    else match ts[0].kind
      case Or => (OpOr, Term1(sc, ts[1..]))
      case Xor => (OpXor, Term1(sc, ts[1..]))
      case Close => (Invalid, Parsed(EmptyTree(), ts, []))
      case _ => (Invalid, Parsed(EmptyTree(), ts, [Warning(ts[0].pos, ExpectedOrXor)]))
  }

  function Term1(sc: Schema, ts: seq<Token>): (r: Parsed)
    requires sc.Valid()
    ensures WellFormed(r.tree) && |r.rest| <= |ts| && (ts != [] ==> |r.rest| < |ts|)
    decreases |ts|, 4
  {
    var t := Factor1(sc, ts);
    var (op, o) := Term2(sc, t.rest);
    Parsed(Join(op, t.tree, o.tree), o.rest, t.warnings + o.warnings)
  }

  /** A whole query; no tokens make an empty tree. */
  function Parse(sc: Schema, ts: seq<Token>): (r: Parsed)
    requires sc.Valid()
    ensures WellFormed(r.tree)
  {
    if ts == [] then Parsed(EmptyTree(), [], []) else Term1(sc, ts)
  }

  // Tokens that differ only in position

  predicate AlikeParsed(r: Parsed, r': Parsed) {
    r.tree == r'.tree && Alike(r.rest, r'.rest) && SameProblems(r.warnings, r'.warnings)
  }

  lemma AlikeTails(ts: seq<Token>, us: seq<Token>)
    requires Alike(ts, us) && ts != []
    ensures Alike(ts[1..], us[1..])
  {}

  lemma {:induction false} AlikeUnit(sc: Schema, ts: seq<Token>, us: seq<Token>)
    requires sc.Valid() && Alike(ts, us)
    ensures AlikeParsed(Unit(sc, ts), Unit(sc, us))
    decreases |ts|, 1
  {
    hide WellFormed, DataLeaf, Factor1, Term1;
    if ts != [] {
      AlikeTails(ts, us);
      SameLeaf(sc, ts[0].str, ts[0].pos, us[0].pos);
      if ts[0].kind.Not? { AlikeUnit(sc, ts[1..], us[1..]); }
      if ts[0].kind.Open? { AlikeTerm(sc, ts[1..], us[1..]); }
    }
  }

  lemma {:induction false} AlikeFactor(sc: Schema, ts: seq<Token>, us: seq<Token>)
    requires sc.Valid() && Alike(ts, us)
    ensures AlikeParsed(Factor1(sc, ts), Factor1(sc, us))
    decreases |ts|, 2
  {
    hide WellFormed, SameProblems, Unit, Term1;
    AlikeUnit(sc, ts, us);
    var vs, vs' := Unit(sc, ts).rest, Unit(sc, us).rest;
    if vs != [] {
      AlikeTails(vs, vs');
      AlikeFactor(sc, vs, vs');
      AlikeFactor(sc, vs[1..], vs'[1..]);
    }
    SameProblemsJoin(Unit(sc, ts).warnings, Unit(sc, us).warnings, Factor2(sc, vs).1.warnings,
      Factor2(sc, vs').1.warnings);
  }

  lemma {:induction false} AlikeTerm(sc: Schema, ts: seq<Token>, us: seq<Token>)
    requires sc.Valid() && Alike(ts, us)
    ensures AlikeParsed(Term1(sc, ts), Term1(sc, us))
    decreases |ts|, 4
  {
    hide WellFormed, Factor1, Unit;
    AlikeFactor(sc, ts, us);
    var vs, vs' := Factor1(sc, ts).rest, Factor1(sc, us).rest;
    if vs != [] {
      AlikeTails(vs, vs');
      AlikeTerm(sc, vs[1..], vs'[1..]);
    }
    SameProblemsJoin(Factor1(sc, ts).warnings, Factor1(sc, us).warnings, Term2(sc, vs).1.warnings,
      Term2(sc, vs').1.warnings);
  }
}
