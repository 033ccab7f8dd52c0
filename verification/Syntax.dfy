/** Queries as written: what the grammar accepts, and the tree it makes of it. */
module Syntax {
  import opened Wrappers
  import opened QueryTree
  import opened QueryLeaf
  import opened Ascii
  import opened Tokenizer
  import opened Grammar

  /** A query with the tokens that spell it; the word AND may be left out. */
  datatype Expr =
    | Atom(tok: Token)
    | Group(open: Token, inner: Expr, close: Token)
    | Negation(tok: Token, inner: Expr)
    | Conj(left: Expr, word: Option<Token>, right: Expr)
    | Alt(left: Expr, tok: Token, right: Expr)

  datatype Level = AtUnit | AtFactor | AtTerm

  /** NOT binds tighter than AND, and AND tighter than OR and XOR; the binary
      operators group to the right. */
  predicate Fits(e: Expr, level: Level) {
    match e
    case Atom(t) => t.kind.Data?
    case Group(o, i, c) => o.kind.Open? && c.kind.Close? && Fits(i, AtTerm)
    case Negation(t, i) => t.kind.Not? && Fits(i, AtUnit)
    case Conj(l, w, r) => !level.AtUnit? && (w.Some? ==> w.value.kind.And?) && Fits(l, AtUnit) && Fits(r, AtFactor)
    case Alt(l, t, r) => level.AtTerm? && (t.kind.Or? || t.kind.Xor?) && Fits(l, AtFactor) && Fits(r, AtTerm)
  }

  function Spelling(e: Expr): (ts: seq<Token>)
    ensures ts != []
  {
    match e
    case Atom(t) => [t]
    case Group(o, i, c) => [o] + Spelling(i) + [c]
    case Negation(t, i) => [t] + Spelling(i)
    case Conj(l, w, r) => Spelling(l) + (if w.Some? then [w.value] else []) + Spelling(r)
    case Alt(l, t, r) => Spelling(l) + [t] + Spelling(r)
  }

  function TreeOf(sc: Schema, e: Expr): (t: Tree)
    requires sc.Valid()
  {
    match e
    case Atom(t) => DataLeaf(sc, t.str, t.pos).tree
    case Group(_, i, _) => TreeOf(sc, i)
    case Negation(_, i) => Branch(OpNot, [TreeOf(sc, i)])
    case Conj(l, _, r) => Join(OpAnd, TreeOf(sc, l), TreeOf(sc, r))
    case Alt(l, t, r) => Join(if t.kind.Or? then OpOr else OpXor, TreeOf(sc, l), TreeOf(sc, r))
  }

  function LeafWarnings(sc: Schema, e: Expr): (ws: seq<Warning>)
    requires sc.Valid()
    ensures Accepted(ws)
  {
    match e
    case Atom(t) => DataLeaf(sc, t.str, t.pos).warnings
    case Group(_, i, _) => LeafWarnings(sc, i)
    case Negation(_, i) => LeafWarnings(sc, i)
    case Conj(l, _, r) => LeafWarnings(sc, l) + LeafWarnings(sc, r)
    case Alt(l, _, r) => LeafWarnings(sc, l) + LeafWarnings(sc, r)
  }

  /** No warning but those about leaves. */
  predicate Accepted(ws: seq<Warning>) {
    forall i :: 0 <= i < |ws| ==> ws[i].problem.InvalidField? || ws[i].problem.InvalidRegexp?
  }

  // Every written query is parsed as written

  lemma {:induction false} SpellingStart(e: Expr, level: Level)
    requires Fits(e, level)
    ensures StartsUnit(Spelling(e)[0].kind)
  {
    match e
    case Conj(l, _, _) => SpellingStart(l, AtUnit);
    case Alt(l, _, _) => SpellingStart(l, AtFactor);
    case _ =>
  }

  predicate StartsUnit(k: Kind) { k.Data? || k.Open? || k.Not? }

  /** A unit may be followed by an operand, with or without an AND. */
  lemma FactorStep(sc: Schema, ts: seq<Token>)
    requires sc.Valid()
    ensures var t, f := Unit(sc, ts), Factor1(sc, ts);
            if t.rest != [] && (t.rest[0].kind.And? || StartsUnit(t.rest[0].kind)) then
              var a := Factor1(sc, if t.rest[0].kind.And? then t.rest[1..] else t.rest);
              f == Parsed(Join(OpAnd, t.tree, a.tree), a.rest, t.warnings + a.warnings)
            else f == Parsed(t.tree, t.rest, t.warnings)
  {
    hide Unit, Term1, WellFormed;
    var t := Unit(sc, ts);
    assert t.warnings + [] == t.warnings;
  }

  lemma {:induction false} ParsesUnit(sc: Schema, e: Expr, rest: seq<Token>)
    requires sc.Valid() && Fits(e, AtUnit)
    ensures Unit(sc, Spelling(e) + rest) == Parsed(TreeOf(sc, e), rest, LeafWarnings(sc, e))
    decreases e, 0
  {
    hide Factor1, Factor2, Term1, Term2;
    var ts := Spelling(e) + rest;
    match e
    case Atom(t) => assert ts[1..] == rest && [] + LeafWarnings(sc, e) == LeafWarnings(sc, e);
    case Group(o, i, c) =>
      assert ts[1..] == Spelling(i) + ([c] + rest);
      assert ([c] + rest)[1..] == rest;
      ParsesTerm(sc, i, [c] + rest);
    case Negation(t, i) =>
      assert ts[1..] == Spelling(i) + rest;
      ParsesUnit(sc, i, rest);
  }

  /** What follows the left operand of an AND. */
  function AfterLeft(e: Expr, rest: seq<Token>): seq<Token>
    requires e.Conj?
  {
    (if e.word.Some? then [e.word.value] else []) + (Spelling(e.right) + rest)
  }

  lemma ConjSpelling(e: Expr, rest: seq<Token>)
    requires e.Conj? && Fits(e, AtFactor)
    ensures var more := AfterLeft(e, rest);
            && Spelling(e) + rest == Spelling(e.left) + more && more != []
            && (if e.word.Some? then more[0].kind.And? && more[1..] == Spelling(e.right) + rest
                else StartsUnit(more[0].kind) && !more[0].kind.And? && more == Spelling(e.right) + rest)
  {
    SpellingStart(e.right, AtFactor);
    var word := if e.word.Some? then [e.word.value] else [];
    Regroup(Spelling(e.left), word, Spelling(e.right), rest);
    if e.word.None? { assert [] + (Spelling(e.right) + rest) == Spelling(e.right) + rest; }
  }

  lemma Regroup(a: seq<Token>, b: seq<Token>, c: seq<Token>, d: seq<Token>)
    ensures a + b + c + d == a + (b + (c + d))
  {}

  lemma EndsFactor(rest: seq<Token>)
    requires rest == [] || rest[0].kind.Close? || rest[0].kind.Or? || rest[0].kind.Xor?
    ensures rest == [] || (!rest[0].kind.And? && !StartsUnit(rest[0].kind))
  {}

  lemma {:induction false} ParsesFactor(sc: Schema, e: Expr, rest: seq<Token>)
    requires sc.Valid() && Fits(e, AtFactor)
    requires rest == [] || rest[0].kind.Close? || rest[0].kind.Or? || rest[0].kind.Xor?
    ensures Factor1(sc, Spelling(e) + rest) == Parsed(TreeOf(sc, e), rest, LeafWarnings(sc, e))
    decreases e, 1
  {
    hide Unit, Factor1, Term1, WellFormed, Accepted, DataLeaf, Join, Spelling, StartsUnit, AfterLeft;
    FactorStep(sc, Spelling(e) + rest);
    EndsFactor(rest);
    if e.Conj? {
      ConjSpelling(e, rest);
      ParsesUnit(sc, e.left, AfterLeft(e, rest));
      ParsesFactor(sc, e.right, rest);
    } else {
      ParsesUnit(sc, e, rest);
    }
  }

  lemma AltSpelling(l: Expr, tok: Token, r: Expr, rest: seq<Token>)
    ensures Spelling(Alt(l, tok, r)) + rest == Spelling(l) + ([tok] + (Spelling(r) + rest))
  {
    Regroup(Spelling(l), [tok], Spelling(r), rest);
  }

  /** A factor may be followed by OR or XOR and an operand. */
  lemma TermStep(sc: Schema, ts: seq<Token>)
    requires sc.Valid()
    ensures var t, r := Factor1(sc, ts), Term1(sc, ts);
            if t.rest != [] && (t.rest[0].kind.Or? || t.rest[0].kind.Xor?) then
              var o := Term1(sc, t.rest[1..]);
              var op := if t.rest[0].kind.Or? then OpOr else OpXor;
              r == Parsed(Join(op, t.tree, o.tree), o.rest, t.warnings + o.warnings)
            else r == Parsed(t.tree, t.rest, t.warnings + if t.rest == [] || t.rest[0].kind.Close? then []
                                                         else [Warning(t.rest[0].pos, ExpectedOrXor)])
  {
    hide Unit, Factor1, WellFormed;
  }

  lemma {:induction false} ParsesTerm(sc: Schema, e: Expr, rest: seq<Token>)
    requires sc.Valid() && Fits(e, AtTerm)
    requires rest == [] || rest[0].kind.Close?
    ensures Term1(sc, Spelling(e) + rest) == Parsed(TreeOf(sc, e), rest, LeafWarnings(sc, e))
    decreases e, 2
  {
    hide Unit, Factor1, Term1, WellFormed, Accepted, DataLeaf, Join;
    TermStep(sc, Spelling(e) + rest);
    if e.Alt? {
      var more := [e.tok] + (Spelling(e.right) + rest);
      assert Spelling(e) + rest == Spelling(e.left) + more;
      ParsesFactor(sc, e.left, more);
      ParsesTerm(sc, e.right, rest);
      assert more[1..] == Spelling(e.right) + rest;
    } else {
      ParsesFactor(sc, e, rest);
      assert LeafWarnings(sc, e) + [] == LeafWarnings(sc, e);
    }
  }

  /** The round trip: a query that fits the grammar is parsed to its own tree, and
      no token is left. */
  lemma ParsesAsWritten(sc: Schema, e: Expr)
    requires sc.Valid() && Fits(e, AtTerm)
    ensures Parse(sc, Spelling(e)) == Parsed(TreeOf(sc, e), [], LeafWarnings(sc, e))
  {
    hide Term1, TreeOf, LeafWarnings, WellFormed, Fits, Spelling, Accepted;
    assert Spelling(e) + [] == Spelling(e);
    ParsesTerm(sc, e, []);
  }

  // Nothing else is accepted

  lemma AcceptedParts(a: seq<Warning>, b: seq<Warning>)
    ensures Accepted(a + b) <==> Accepted(a) && Accepted(b)
  {
    var ws := a + b;
    if Accepted(ws) {
      forall i | 0 <= i < |a| ensures a[i].problem.InvalidField? || a[i].problem.InvalidRegexp? {
        assert ws[i] == a[i];
      }
      forall i | 0 <= i < |b| ensures b[i].problem.InvalidField? || b[i].problem.InvalidRegexp? {
        assert ws[|a| + i] == b[i];
      }
    }
  }

  lemma OneAccepted(w: Warning)
    ensures Accepted([w]) <==> w.problem.InvalidField? || w.problem.InvalidRegexp?
  {
    assert [w][0] == w;
  }

  /** A unit without grammar warnings starts as a unit should, and its bracket is
      closed. */
  lemma UnitShape(sc: Schema, ts: seq<Token>)
    requires sc.Valid() && Accepted(Unit(sc, ts).warnings)
    ensures ts != [] && (ts[0].kind.Not? || ts[0].kind.Open? || ts[0].kind.Data?)
    ensures ts[0].kind.Not? ==> Accepted(Unit(sc, ts[1..]).warnings) && Unit(sc, ts).rest == Unit(sc, ts[1..]).rest
    ensures ts[0].kind.Open? ==>
              var s := Term1(sc, ts[1..]);
              Accepted(s.warnings) && s.rest != [] && s.rest[0].kind.Close? && Unit(sc, ts).rest == s.rest[1..]
    ensures ts[0].kind.Data? ==> Unit(sc, ts).rest == ts[1..]
  {
    hide Term1, WellFormed, Accepted, DataLeaf;
    OneAccepted(Warning(0, ExpectedUnit));
    if ts != [] && ts[0].kind.Open? {
      var s := Term1(sc, ts[1..]);
      var w := if s.rest == [] then Warning(ts[0].pos, ExpectedClose)
        else Warning(s.rest[0].pos, NotClose(s.rest[0].str));
      AcceptedParts(s.warnings, [w]);
      OneAccepted(w);
    } else if ts != [] {
      OneAccepted(Warning(ts[0].pos, ExpectedValue));
      AcceptedParts([Warning(ts[0].pos, ExpectedValue)], DataLeaf(sc, ts[0].str, ts[0].pos).warnings);
    }
  }

  lemma {:induction false} UnitWasWritten(sc: Schema, ts: seq<Token>) returns (e: Expr)
    requires sc.Valid() && Accepted(Unit(sc, ts).warnings)
    ensures Fits(e, AtUnit) && ts == Spelling(e) + Unit(sc, ts).rest
    decreases |ts|, 1
  {
    hide Unit, Term1, WellFormed, Accepted;
    UnitShape(sc, ts);
    if ts[0].kind.Not? {
      var i := UnitWasWritten(sc, ts[1..]);
      e := Negation(ts[0], i);
    } else if ts[0].kind.Open? {
      var i := TermWasWritten(sc, ts[1..]);
      e := Group(ts[0], i, Term1(sc, ts[1..]).rest[0]);
    } else {
      e := Atom(ts[0]);
    }
  }

  lemma {:induction false} FactorWasWritten(sc: Schema, ts: seq<Token>) returns (e: Expr)
    requires sc.Valid() && Accepted(Factor1(sc, ts).warnings)
    ensures Fits(e, AtFactor) && ts == Spelling(e) + Factor1(sc, ts).rest
    decreases |ts|, 2
  {
    hide Unit, Factor1, Term1, WellFormed, Accepted, Spelling;
    var t := Unit(sc, ts);
    FactorStep(sc, ts);
    if t.rest != [] && (t.rest[0].kind.And? || StartsUnit(t.rest[0].kind)) {
      var ts' := if t.rest[0].kind.And? then t.rest[1..] else t.rest;
      AcceptedParts(t.warnings, Factor1(sc, ts').warnings);
      var l := UnitWasWritten(sc, ts);
      var r := FactorWasWritten(sc, ts');
      e := Conj(l, if t.rest[0].kind.And? then Some(t.rest[0]) else None, r);
      ConjSpelling(e, Factor1(sc, ts).rest);
      assert t.rest == AfterLeft(e, Factor1(sc, ts).rest);
    } else {
      e := UnitWasWritten(sc, ts);
      FitsHigher(e);
    }
  }

  lemma {:induction false} TermWasWritten(sc: Schema, ts: seq<Token>) returns (e: Expr)
    requires sc.Valid() && Accepted(Term1(sc, ts).warnings)
    ensures Fits(e, AtTerm) && ts == Spelling(e) + Term1(sc, ts).rest
    ensures Term1(sc, ts).rest == [] || Term1(sc, ts).rest[0].kind.Close?
    decreases |ts|, 4
  {
    hide Unit, Factor1, Term1, WellFormed, Accepted, Join, StartsUnit, Spelling;
    var t := Factor1(sc, ts);
    TermStep(sc, ts);
    if t.rest != [] && (t.rest[0].kind.Or? || t.rest[0].kind.Xor?) {
      AcceptedParts(t.warnings, Term1(sc, t.rest[1..]).warnings);
      var l := FactorWasWritten(sc, ts);
      var r := TermWasWritten(sc, t.rest[1..]);
      e := Alt(l, t.rest[0], r);
      AltSpelling(l, t.rest[0], r, Term1(sc, ts).rest);
    } else {
      var ws := Term1(sc, ts).warnings[|t.warnings|..];
      AcceptedParts(t.warnings, ws);
      if t.rest != [] { OneAccepted(Warning(t.rest[0].pos, ExpectedOrXor)); }
      e := FactorWasWritten(sc, ts);
      FitsHigher(e);
    }
  }

  lemma FitsHigher(e: Expr)
    ensures Fits(e, AtUnit) ==> Fits(e, AtFactor)
    ensures Fits(e, AtFactor) ==> Fits(e, AtTerm)
  {}

  /** The query of the grammar that ts starts with, when nothing but the end or a
      closing bracket follows it. */
  predicate Starts(e: Expr, rest: seq<Token>, ts: seq<Token>) {
    Fits(e, AtTerm) && ts == Spelling(e) + rest && (rest == [] || rest[0].kind.Close?)
  }

  /** The parser accepts exactly the queries of the grammar; but what follows a
      closing bracket too many is dropped without a warning. */
  lemma AcceptsTheGrammar(sc: Schema, ts: seq<Token>)
    requires sc.Valid() && ts != []
    ensures Accepted(Parse(sc, ts).warnings) <==> exists e, rest :: Starts(e, rest, ts)
    ensures Accepted(Parse(sc, ts).warnings) && Parse(sc, ts).rest == [] <==> exists e :: Starts(e, [], ts)
  {
    hide Term1, Fits, Spelling, Accepted, WellFormed;
    if Accepted(Parse(sc, ts).warnings) {
      var e := TermWasWritten(sc, ts);
      assert Starts(e, Parse(sc, ts).rest, ts);
    }
    forall e, rest | Starts(e, rest, ts)
      ensures Accepted(Parse(sc, ts).warnings) && Parse(sc, ts).rest == rest
    {
      ParsesTerm(sc, e, rest);
    }
  }

  /** A bracket too many hides the rest of the query. */
  lemma StrayBracketHidesTheRest(sc: Schema, e: Expr, close: Token, more: seq<Token>)
    requires sc.Valid() && Fits(e, AtTerm) && close.kind.Close?
    ensures var r := Parse(sc, Spelling(e) + [close] + more);
            r.tree == TreeOf(sc, e) && r.warnings == LeafWarnings(sc, e) && r.rest == [close] + more
  {
    hide Term1, TreeOf, LeafWarnings, WellFormed, Fits, Spelling, Accepted;
    assert Spelling(e) + [close] + more == Spelling(e) + ([close] + more);
    ParsesTerm(sc, e, [close] + more);
  }

  // The word AND

  /** e' is e with some of its ANDs left out. */
  predicate DropsAnds(e: Expr, e': Expr) {
    match e
    case Atom(_) => e' == e
    case Group(o, i, c) => e'.Group? && e'.open == o && e'.close == c && DropsAnds(i, e'.inner)
    case Negation(t, i) => e'.Negation? && e'.tok == t && DropsAnds(i, e'.inner)
    case Conj(l, w, r) => e'.Conj? && (e'.word == w || e'.word.None?) && DropsAnds(l, e'.left) && DropsAnds(r, e'.right)
    case Alt(l, t, r) => e'.Alt? && e'.tok == t && DropsAnds(l, e'.left) && DropsAnds(r, e'.right)
  }

  lemma {:induction false} DroppedAnds(sc: Schema, e: Expr, e': Expr, level: Level)
    requires sc.Valid() && Fits(e, level) && DropsAnds(e, e')
    ensures Fits(e', level) && TreeOf(sc, e') == TreeOf(sc, e) && LeafWarnings(sc, e') == LeafWarnings(sc, e)
  {
    match e
    case Atom(_) =>
    case Group(_, i, _) => DroppedAnds(sc, i, e'.inner, AtTerm);
    case Negation(_, i) => DroppedAnds(sc, i, e'.inner, AtUnit);
    case Conj(l, _, r) => DroppedAnds(sc, l, e'.left, AtUnit); DroppedAnds(sc, r, e'.right, AtFactor);
    case Alt(l, _, r) => DroppedAnds(sc, l, e'.left, AtFactor); DroppedAnds(sc, r, e'.right, AtTerm);
  }

  /** Leaving out an AND changes nothing. */
  lemma AndIsImplicit(sc: Schema, e: Expr, e': Expr)
    requires sc.Valid() && Fits(e, AtTerm) && DropsAnds(e, e')
    ensures Parse(sc, Spelling(e')) == Parse(sc, Spelling(e))
  {
    hide Parse, TreeOf, LeafWarnings, Fits, Spelling, DropsAnds;
    DroppedAnds(sc, e, e', AtTerm);
    ParsesAsWritten(sc, e);
    ParsesAsWritten(sc, e');
  }

  // Printing a query

  /** A query as a formula over words. */
  datatype Formula = Word(str: string) | Not(arg: Formula) | And(l: Formula, r: Formula) | Or(l: Formula, r: Formula)
                   | Xor(l: Formula, r: Formula)

  function Tok(kind: Kind, str: string): Token { Token(0, kind, str) }

  function Wrapped(wrap: bool, e: Expr): Expr {
    if wrap then Group(Tok(Kind.Open, "("), e, Tok(Kind.Close, ")")) else e
  }

  /** The query with only the brackets its level needs. */
  function Print(f: Formula, level: Level): Expr {
    match f
    case Word(s) => Atom(Tok(Kind.Data, s))
    case Not(a) => Negation(Tok(Kind.Not, "not"), Print(a, AtUnit))
    case And(l, r) => Wrapped(level.AtUnit?, Conj(Print(l, AtUnit), Some(Tok(Kind.And, "and")), Print(r, AtFactor)))
    case Or(l, r) => Wrapped(!level.AtTerm?, Alt(Print(l, AtFactor), Tok(Kind.Or, "or"), Print(r, AtTerm)))
    case Xor(l, r) => Wrapped(!level.AtTerm?, Alt(Print(l, AtFactor), Tok(Kind.Xor, "xor"), Print(r, AtTerm)))
  }

  function FormulaTree(sc: Schema, f: Formula): Tree
    requires sc.Valid()
  {
    match f
    case Word(s) => DataLeaf(sc, s, 0).tree
    case Not(a) => Branch(OpNot, [FormulaTree(sc, a)])
    case And(l, r) => Join(OpAnd, FormulaTree(sc, l), FormulaTree(sc, r))
    case Or(l, r) => Join(OpOr, FormulaTree(sc, l), FormulaTree(sc, r))
    case Xor(l, r) => Join(OpXor, FormulaTree(sc, l), FormulaTree(sc, r))
  }

  lemma {:induction false} PrintFits(sc: Schema, f: Formula, level: Level)
    requires sc.Valid()
    ensures Fits(Print(f, level), level) && TreeOf(sc, Print(f, level)) == FormulaTree(sc, f)
  {
    hide DataLeaf, WellFormed, Join;
    match f
    case Word(_) =>
    case Not(a) => PrintFits(sc, a, AtUnit);
    case And(l, r) => PrintFits(sc, l, AtUnit); PrintFits(sc, r, AtFactor);
    case Or(l, r) => PrintFits(sc, l, AtFactor); PrintFits(sc, r, AtTerm);
    case Xor(l, r) => PrintFits(sc, l, AtFactor); PrintFits(sc, r, AtTerm);
  }

  /** A bracket is printed only where the query would not fit without it. */
  lemma OnlyNeededBrackets(f: Formula, level: Level)
    ensures Print(f, level).Group? ==> !Fits(Print(f, level).inner, level)
  {}

  predicate Quotable(f: Formula) {
    match f
    case Word(s) => '"' !in s
    case Not(a) => Quotable(a)
    case And(l, r) => Quotable(l) && Quotable(r)
    case Or(l, r) => Quotable(l) && Quotable(r)
    case Xor(l, r) => Quotable(l) && Quotable(r)
  }

  /** Tokens that can be written as text and do not end with an operator. */
  predicate Readable(ts: seq<Token>) {
    ts != [] && (forall t <- ts :: Writable(t)) && !IsOperator(ts[|ts| - 1].kind)
  }

  lemma ReadableWrapped(wrap: bool, e: Expr)
    requires Readable(Spelling(e))
    ensures Readable(Spelling(Wrapped(wrap, e)))
  {
    hide WordKind;
    forall t | t in Spelling(Wrapped(wrap, e)) ensures Writable(t) {}
  }

  lemma ReadableJoin(a: seq<Token>, t: Token, b: seq<Token>)
    requires (a == [] || Readable(a)) && Writable(t) && Readable(b)
    ensures Readable(a + [t] + b)
  {
    hide Writable;
  }

  lemma {:induction false} PrintReadable(f: Formula, level: Level)
    requires Quotable(f)
    ensures Readable(Spelling(Print(f, level)))
  {
    hide Readable, Lower, WordKind;
    OperatorsAreWords();
    match f
    case Word(s) => OneWord(s);
    case Not(a) =>
      PrintReadable(a, AtUnit);
      ReadableJoin([], Tok(Kind.Not, "not"), Spelling(Print(a, AtUnit)));
      assert [] + [Tok(Kind.Not, "not")] + Spelling(Print(a, AtUnit)) == Spelling(Print(f, level));
    case And(l, r) =>
      PrintReadable(l, AtUnit);
      PrintReadable(r, AtFactor);
      ReadableJoin(Spelling(Print(l, AtUnit)), Tok(Kind.And, "and"), Spelling(Print(r, AtFactor)));
      ReadableWrapped(level.AtUnit?, Conj(Print(l, AtUnit), Some(Tok(Kind.And, "and")), Print(r, AtFactor)));
    case Or(l, r) =>
      PrintReadable(l, AtFactor);
      PrintReadable(r, AtTerm);
      ReadableAlt(Print(l, AtFactor), Tok(Kind.Or, "or"), Print(r, AtTerm), level);
    case Xor(l, r) =>
      PrintReadable(l, AtFactor);
      PrintReadable(r, AtTerm);
      ReadableAlt(Print(l, AtFactor), Tok(Kind.Xor, "xor"), Print(r, AtTerm), level);
  }

  lemma ReadableAlt(l: Expr, t: Token, r: Expr, level: Level)
    requires Readable(Spelling(l)) && Readable(Spelling(r)) && Writable(t)
    ensures Readable(Spelling(Wrapped(!level.AtTerm?, Alt(l, t, r))))
  {
    hide Readable, Writable;
    ReadableJoin(Spelling(l), t, Spelling(r));
    ReadableWrapped(!level.AtTerm?, Alt(l, t, r));
  }

  lemma OneWord(s: string)
    requires '"' !in s
    ensures Readable([Tok(Kind.Data, s)])
  {}

  lemma OperatorsAreWords()
    ensures WordKind("and") == Kind.And && WordKind("or") == Kind.Or && WordKind("xor") == Kind.Xor &&
            WordKind("not") == Kind.Not
  {
    SmallLetters("and");
    SmallLetters("or");
    SmallLetters("xor");
    SmallLetters("not");
  }

  lemma {:induction false} SmallLetters(s: string)
    requires forall i :: 0 <= i < |s| ==> 'a' <= s[i] <= 'z'
    ensures Lower(s) == s
  {
    if s != "" { SmallLetters(s[1..]); }
  }

  /** From text to tree: a query printed as text, tokenized and parsed gives the
      tree of the query, and no warnings but those about its words. */
  lemma TextRoundTrip(sc: Schema, f: Formula)
    requires sc.Valid() && Quotable(f)
    ensures var r := Parse(sc, TokensOf(Render(Spelling(Print(f, AtTerm))), 0));
            && r.tree == FormulaTree(sc, f) && r.rest == [] && Accepted(r.warnings)
            && SameProblems(r.warnings, LeafWarnings(sc, Print(f, AtTerm)))
  {
    hide Print, Spelling, FormulaTree, TreeOf, Fits, Term1, TokensOf, Render, Writable, WellFormed, LeafWarnings,
      Quotable;
    var ts := Spelling(Print(f, AtTerm));
    var us := TokensOf(Render(ts), 0);
    PrintFits(sc, f, AtTerm);
    PrintReadable(f, AtTerm);
    RoundTrip(ts);
    ParsesAsWritten(sc, Print(f, AtTerm));
    AlikeTerm(sc, us, ts);
  }
}
