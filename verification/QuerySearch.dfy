/** What a query searches, from its text to the documents. */
module QuerySearch {
  import opened Wrappers
  import opened Substrings
  import opened QueryTree
  import opened QueryLeaf
  import opened Grammar
  import opened Syntax
  import opened XapianQuery
  import ByteStrings
  import Tokenizer

  // What a word searches

  /** text is a field, a colon and a value, parted at its first colon. */
  predicate Parted(text: string, field: string, val: string) {
    field != "" && val != "" && ':' !in field && text == field + ":" + val
  }

  /** val is a lower bound, two dots and an upper bound, parted at the first dots. */
  predicate Dotted(val: string, lower: string, upper: string) {
    val == lower + ".." + upper && forall k :: 0 <= k < |lower| ==> val[k] != '.' || val[k + 1] != '.'
  }

  /** d has val in one of the fields. */
  predicate InSome<D>(ix: Index<D>, sc: Schema, fields: seq<FieldInfo>, val: string, d: D) {
    exists f <- fields ::
      d in Docs(ix, ValueQuery(Value(f.field, f.prefix, f.id, sc.processValue(f.field, sc.flatten(val)), f.phrase)))
  }

  /** d has, in one of the fields, a term of the store that matches rx. */
  predicate HasMatch<D>(ix: Index<D>, sc: Schema, fields: seq<FieldInfo>, rx: string, d: D) {
    exists f <- fields, t <- sc.terms(f.field, rx) :: d in Docs(ix, ValueQuery(Value(f.field, "", f.id, t, false)))
  }

  /** d lies between the bounds in the first field; for a field that has no ranges
      the dots are text like any other. */
  predicate Between<D>(ix: Index<D>, sc: Schema, fields: seq<FieldInfo>, lower: string, upper: string, d: D)
    requires fields != []
  {
    var f := fields[0];
    if !sc.isRange(f.field) then InSome(ix, sc, fields, lower + ".." + upper, d)
    else
      var r, r' := sc.processRange(f.field, lower, upper), sc.processRange(f.field, upper, lower);
      d in Docs(ix, if ByteStrings.Le(r.0, r.1) then ValueRange(f.id, r.0, r.1) else ValueRange(f.id, r'.0, r'.1))
  }

  predicate Slashed(val: string) { |val| >= 2 && val[0] == '/' && val[|val| - 1] == '/' }

  /** d is found by val in these fields. */
  ghost predicate FoundIn<D>(ix: Index<D>, sc: Schema, fields: seq<FieldInfo>, val: string, d: D)
    requires fields != []
  {
    if Slashed(val) then
      var rx := sc.flatten(val[1..|val| - 1]);
      if sc.compiles(rx) then HasMatch(ix, sc, fields, rx, d) else InSome(ix, sc, fields, val, d)
    else if exists l, u :: Dotted(val, l, u) then
      exists l, u :: Dotted(val, l, u) && Between(ix, sc, fields, l, u, d)
    else if sc.isRange(fields[0].field) then Between(ix, sc, fields, val, val, d)
    else InSome(ix, sc, fields, val, d)
  }

  /** d is found by val in a field; if there is no such field, by the whole text in
      the fields of a search without one. */
  ghost predicate FoundBy<D>(ix: Index<D>, sc: Schema, field: string, val: string, d: D)
    requires sc.Valid()
  {
    if sc.fieldsOf(field) == [] then InSome(ix, sc, sc.fieldsOf(""), field + ":" + val, d)
    else FoundIn(ix, sc, sc.fieldsOf(field), val, d)
  }

  /** Whether the text of a word searches a document. */
  ghost predicate Searches<D>(ix: Index<D>, sc: Schema, text: string, d: D)
    requires sc.Valid()
  {
    if exists field, val :: Parted(text, field, val) then
      exists field, val :: Parted(text, field, val) && FoundBy(ix, sc, field, val, d)
    else FoundBy(ix, sc, "", text, d)
  }

  // A text is parted in one way at most

  /** A text is split if and only if it has a colon whose first place is neither
      first nor last, and then there. */
  lemma SplitIsParted(text: string)
    ensures forall field, val :: Parted(text, field, val) <==> field != "" && SplitField(text) == (field, val)
  {
    var col := Find(text, ":");
    FindChar(text, ':');
    forall field, val ensures Parted(text, field, val) <==> field != "" && SplitField(text) == (field, val) {
      if Parted(text, field, val) {
        assert text[|field|] == ':' && forall i :: 0 <= i < |field| ==> text[i] == field[i];
        assert col == Some(|field|);
        assert text[..|field|] == field && text[|field| + 1..] == val;
      }
    }
  }

  lemma DotsAt(val: string, k: int)
    ensures OccursAt(val, "..", k) <==> 0 <= k && k + 2 <= |val| && val[k] == '.' && val[k + 1] == '.'
  {
    if 0 <= k && k + 2 <= |val| { assert val[k..k + 2] == [val[k], val[k + 1]]; }
  }

  lemma DotsAreFirst(val: string, l: string, u: string)
    ensures Dotted(val, l, u) <==>
            var r := Find(val, ".."); r.Some? && l == val[..r.value] && u == val[r.value + 2..]
  {
    var r := Find(val, "..");
    if Dotted(val, l, u) {
      DotsAt(val, |l|);
      assert val[|l|] == '.' && val[|l| + 1] == '.';
      DotsAt(val, r.value);
      assert r.value == |l|;
      assert l == val[..r.value] && u == val[r.value + 2..];
    } else if r.Some? && l == val[..r.value] && u == val[r.value + 2..] {
      DotsAt(val, r.value);
      assert val == l + ".." + u;
      var k :| 0 <= k < |l| && val[k] == '.' && val[k + 1] == '.';
      DotsAt(val, k);
    }
  }

  // Leaves search what their text says

  lemma {:induction false} FieldValuesAre(sc: Schema, fields: seq<FieldInfo>, val: string)
    ensures var ts := FieldValues(sc, fields, val);
            |ts| == |fields| && forall i :: 0 <= i < |fields| ==> ts[i] == FieldValue(sc, fields[i], val)
  {
    if fields != [] { FieldValuesAre(sc, fields[..|fields| - 1], val); }
  }

  lemma ValueSearches<D>(ix: Index<D>, sc: Schema, fields: seq<FieldInfo>, v: string, d: D)
    requires fields != []
    ensures Holds(ix, ValueTree(sc, fields, v), d) <==> InSome(ix, sc, fields, v, d)
  {
    hide ValueQuery, Docs;
    var val := sc.flatten(v);
    if |fields| == 1 {
      assert fields[0] in fields;
    } else {
      FieldValuesAre(sc, fields, val);
      var t := ValueTree(sc, fields, v);
      assert t.children == FieldValues(sc, fields, val);
      forall f | f in fields ensures FieldValue(sc, f, val) in t.children {
        var i :| 0 <= i < |fields| && fields[i] == f;
        assert t.children[i] == FieldValue(sc, f, val);
      }
    }
  }

  lemma {:induction false} TermTreesAre(item: FieldInfo, terms: seq<string>, t: Tree)
    ensures t in TermTrees(item, terms) <==> exists s <- terms :: t == TermTree(item, s)
  {
    if terms != [] {
      var init, last := terms[..|terms| - 1], terms[|terms| - 1];
      TermTreesAre(item, init, t);
      assert terms == init + [last];
    }
  }

  lemma {:induction false} AllTermsAre(sc: Schema, fields: seq<FieldInfo>, rx: string, t: Tree)
    ensures t in AllTerms(sc, fields, rx) <==> exists f <- fields, s <- sc.terms(f.field, rx) :: t == TermTree(f, s)
  {
    hide TermTree, TermTrees;
    if fields != [] {
      var init, last := fields[..|fields| - 1], fields[|fields| - 1];
      AllTermsAre(sc, init, rx, t);
      TermTreesAre(last, sc.terms(last.field, rx), t);
      assert fields == init + [last];
    }
  }

  lemma TermsSearch<D>(ix: Index<D>, sc: Schema, fields: seq<FieldInfo>, rx: string, d: D)
    ensures var ts := AllTerms(sc, fields, rx);
            Holds(ix, if ts == [] then EmptyTree() else Branch(OpOr, ts), d) <==> HasMatch(ix, sc, fields, rx, d)
  {
    hide ValueQuery, Docs, AllTerms;
    var ts := AllTerms(sc, fields, rx);
    forall t ensures t in ts <==> exists f <- fields, s <- sc.terms(f.field, rx) :: t == TermTree(f, s) {
      AllTermsAre(sc, fields, rx, t);
    }
    forall f, s | f in fields && s in sc.terms(f.field, rx)
      ensures TermTree(f, s) in ts
      ensures Holds(ix, TermTree(f, s), d) <==> d in Docs(ix, ValueQuery(Value(f.field, "", f.id, s, false)))
    {}
  }

  lemma RangeSearches<D>(ix: Index<D>, sc: Schema, fields: seq<FieldInfo>, lower: string, upper: string, d: D)
    requires fields != []
    ensures Holds(ix, RangeTree(sc, fields, lower, upper), d) <==> Between(ix, sc, fields, lower, upper, d)
  {
    hide ValueTree, InSome;
    if !sc.isRange(fields[0].field) { ValueSearches(ix, sc, fields, lower + ".." + upper, d); }
  }

  lemma FieldSearches<D>(ix: Index<D>, sc: Schema, field: string, val: string, pos: nat, d: D)
    requires sc.Valid()
    ensures Holds(ix, FieldLeaf(sc, field, val, pos).tree, d) <==> FoundBy(ix, sc, field, val, d)
  {
    hide ValueTree, RangeTree, InSome, HasMatch, Between, AllTerms, Holds;
    var fields := sc.fieldsOf(field);
    if fields == [] {
      ValueSearches(ix, sc, sc.fieldsOf(""), field + ":" + val, d);
    } else if Slashed(val) {
      TermsSearch(ix, sc, fields, sc.flatten(val[1..|val| - 1]), d);
      ValueSearches(ix, sc, fields, val, d);
    } else {
      var dots := Find(val, "..");
      forall l, u ensures Dotted(val, l, u) <==> dots.Some? && l == val[..dots.value] && u == val[dots.value + 2..] {
        DotsAreFirst(val, l, u);
      }
      if dots.Some? {
        RangeSearches(ix, sc, fields, val[..dots.value], val[dots.value + 2..], d);
        assert Dotted(val, val[..dots.value], val[dots.value + 2..]);
      } else {
        RangeSearches(ix, sc, fields, val, val, d);
        ValueSearches(ix, sc, fields, val, d);
      }
    }
  }

  /** The leaf of a word finds what its text searches. */
  lemma LeafSearches<D>(ix: Index<D>, sc: Schema, text: string, pos: nat, d: D)
    requires sc.Valid()
    ensures Holds(ix, DataLeaf(sc, text, pos).tree, d) <==> Searches(ix, sc, text, d)
  {
    hide Holds, FieldLeaf, FoundBy, SplitField;
    var (field, val) := SplitField(text);
    SplitIsParted(text);
    FieldSearches(ix, sc, field, val, pos, d);
    if field != "" { assert Parted(text, field, val); }
  }

  /** A regular expression without matching terms. */
  predicate BarrenIn(sc: Schema, field: string, val: string) {
    && sc.fieldsOf(field) != [] && Slashed(val)
    && var rx := sc.flatten(val[1..|val| - 1]);
       sc.compiles(rx) && forall f <- sc.fieldsOf(field) :: sc.terms(f.field, rx) == []
  }

  ghost predicate Barren(sc: Schema, text: string) {
    if exists field, val :: Parted(text, field, val) then
      exists field, val :: Parted(text, field, val) && BarrenIn(sc, field, val)
    else BarrenIn(sc, "", text)
  }

  lemma LeafIsBarren(sc: Schema, text: string, pos: nat)
    requires sc.Valid()
    ensures DataLeaf(sc, text, pos).tree.node.Empty? <==> Barren(sc, text)
  {
    hide DataLeaf, SplitField;
    var (field, val) := SplitField(text);
    SplitIsParted(text);
    EmptyLeaf(sc, text, pos);
    if field != "" { assert Parted(text, field, val); }
  }

  lemma BarrenSearchesNothing<D>(ix: Index<D>, sc: Schema, text: string, d: D)
    requires sc.Valid() && Barren(sc, text)
    ensures !Searches(ix, sc, text, d)
  {
    hide DataLeaf, Searches, Barren;
    LeafIsBarren(sc, text, 0);
    LeafSearches(ix, sc, text, 0, d);
  }

  /** A leaf warns of an unknown field, or of an invalid regular expression in a
      known one; and of nothing else. */
  lemma LeafWarns(sc: Schema, text: string, pos: nat)
    requires sc.Valid()
    ensures var (field, val), ws := SplitField(text), DataLeaf(sc, text, pos).warnings;
            if sc.fieldsOf(field) == [] then Parted(text, field, val) && ws == [Warning(pos, InvalidField(field))]
            else if Slashed(val) && !sc.compiles(sc.flatten(val[1..|val| - 1])) then ws == [Warning(pos, InvalidRegexp)]
            else ws == []
  {
    hide SplitField;
    SplitIsParted(text);
    SplitWhole(text);
  }

  lemma SplitWhole(text: string)
    ensures SplitField(text).0 == "" ==> SplitField(text).1 == text
  {}

  // What a query searches

  /** Whether a written query asks for a document. */
  ghost predicate Asks<D>(ix: Index<D>, sc: Schema, e: Expr, d: D)
    requires sc.Valid()
  {
    match e
    case Atom(t) => Searches(ix, sc, t.str, d)
    case Group(_, i, _) => Asks(ix, sc, i, d)
    case Negation(_, i) => !Asks(ix, sc, i, d)
    case Conj(l, _, r) => Asks(ix, sc, l, d) && Asks(ix, sc, r, d)
    case Alt(l, t, r) =>
      if t.kind.Or? then Asks(ix, sc, l, d) || Asks(ix, sc, r, d) else Asks(ix, sc, l, d) != Asks(ix, sc, r, d)
  }

  /** Every word of e is a regular expression without matching terms, none of them
      negated: its tree is empty. */
  ghost predicate Blank(sc: Schema, e: Expr)
    requires sc.Valid()
  {
    match e
    case Atom(t) => Barren(sc, t.str)
    case Group(_, i, _) => Blank(sc, i)
    case Negation(_, _) => false
    case Conj(l, _, r) => Blank(sc, l) && Blank(sc, r)
    case Alt(l, _, r) => Blank(sc, l) && Blank(sc, r)
  }

  /** Whether a written query finds a document: as it asks, but an AND whose right
      operand is blank is its left operand alone. */
  ghost predicate Finds<D>(ix: Index<D>, sc: Schema, e: Expr, d: D)
    requires sc.Valid()
  {
    match e
    case Atom(t) => Searches(ix, sc, t.str, d)
    case Group(_, i, _) => Finds(ix, sc, i, d)
    case Negation(_, i) => !Finds(ix, sc, i, d)
    case Conj(l, _, r) => Finds(ix, sc, l, d) && (Blank(sc, r) || Finds(ix, sc, r, d))
    case Alt(l, t, r) =>
      if t.kind.Or? then Finds(ix, sc, l, d) || Finds(ix, sc, r, d) else Finds(ix, sc, l, d) != Finds(ix, sc, r, d)
  }

  /** No AND has a blank right operand. */
  ghost predicate NoBlankRight(sc: Schema, e: Expr)
    requires sc.Valid()
  {
    match e
    case Atom(_) => true
    case Group(_, i, _) => NoBlankRight(sc, i)
    case Negation(_, i) => NoBlankRight(sc, i)
    case Conj(l, _, r) => NoBlankRight(sc, l) && NoBlankRight(sc, r) && !Blank(sc, r)
    case Alt(l, _, r) => NoBlankRight(sc, l) && NoBlankRight(sc, r)
  }

  lemma {:induction false} BlankTree(sc: Schema, e: Expr)
    requires sc.Valid()
    ensures TreeOf(sc, e).node.Empty? <==> Blank(sc, e)
  {
    hide DataLeaf, Barren;
    match e
    case Atom(t) => LeafIsBarren(sc, t.str, t.pos);
    case Group(_, i, _) => BlankTree(sc, i);
    case Negation(_, _) =>
    case Conj(l, _, r) => BlankTree(sc, l); BlankTree(sc, r);
    case Alt(l, _, r) => BlankTree(sc, l); BlankTree(sc, r);
  }

  /** A blank query asks for no document. */
  lemma {:induction false} BlankAsksNothing<D>(ix: Index<D>, sc: Schema, e: Expr, d: D)
    requires sc.Valid() && Blank(sc, e)
    ensures !Asks(ix, sc, e, d) && !Finds(ix, sc, e, d)
  {
    hide Searches, Barren;
    match e
    case Atom(t) => BarrenSearchesNothing(ix, sc, t.str, d);
    case Group(_, i, _) => BlankAsksNothing(ix, sc, i, d);
    case Conj(l, _, r) => BlankAsksNothing(ix, sc, l, d); BlankAsksNothing(ix, sc, r, d);
    case Alt(l, _, r) => BlankAsksNothing(ix, sc, l, d); BlankAsksNothing(ix, sc, r, d);
  }

  /** Without blank right operands a query finds what it asks for. */
  lemma {:induction false} AsksIsFinds<D>(ix: Index<D>, sc: Schema, e: Expr, d: D)
    requires sc.Valid() && NoBlankRight(sc, e)
    ensures Finds(ix, sc, e, d) <==> Asks(ix, sc, e, d)
  {
    hide Searches, Blank;
    match e
    case Atom(_) =>
    case Group(_, i, _) => AsksIsFinds(ix, sc, i, d);
    case Negation(_, i) => AsksIsFinds(ix, sc, i, d);
    case Conj(l, _, r) => AsksIsFinds(ix, sc, l, d); AsksIsFinds(ix, sc, r, d);
    case Alt(l, _, r) => AsksIsFinds(ix, sc, l, d); AsksIsFinds(ix, sc, r, d);
  }

  lemma {:induction false} TreeIsWellFormed(sc: Schema, e: Expr)
    requires sc.Valid()
    ensures WellFormed(TreeOf(sc, e))
  {
    match e
    case Atom(_) =>
    case Group(_, i, _) => TreeIsWellFormed(sc, i);
    case Negation(_, i) => TreeIsWellFormed(sc, i);
    case Conj(l, _, r) => TreeIsWellFormed(sc, l); TreeIsWellFormed(sc, r);
    case Alt(l, _, r) => TreeIsWellFormed(sc, l); TreeIsWellFormed(sc, r);
  }

  lemma JoinHolds<D>(ix: Index<D>, op: NodeType, l: Tree, r: Tree, d: D)
    requires WellFormed(l) && WellFormed(r) && (op.OpAnd? || op.OpOr? || op.OpXor?)
    ensures WellFormed(Join(op, l, r))
    ensures Holds(ix, Join(op, l, r), d) <==>
            match op
            case OpAnd => Holds(ix, l, d) && (r.node.Empty? || Holds(ix, r, d))
            case OpOr => Holds(ix, l, d) || Holds(ix, r, d)
            case _ => Holds(ix, l, d) != Holds(ix, r, d)
  {
    var t := Branch(op, [l, r]);
    assert t.children[0] == l && t.children[1] == r;
  }

  lemma {:induction false} TreeHolds<D>(ix: Index<D>, sc: Schema, e: Expr, d: D)
    requires sc.Valid()
    ensures WellFormed(TreeOf(sc, e)) && (Holds(ix, TreeOf(sc, e), d) <==> Finds(ix, sc, e, d))
  {
    hide Searches, DataLeaf, Blank, WellFormed, Join;
    TreeIsWellFormed(sc, e);
    match e
    case Atom(t) => LeafSearches(ix, sc, t.str, t.pos, d);
    case Group(_, i, _) => TreeHolds(ix, sc, i, d);
    case Negation(_, i) => TreeHolds(ix, sc, i, d);
    case Conj(l, _, r) =>
      TreeHolds(ix, sc, l, d);
      TreeHolds(ix, sc, r, d);
      BlankTree(sc, r);
      JoinHolds(ix, OpAnd, TreeOf(sc, l), TreeOf(sc, r), d);
    case Alt(l, t, r) =>
      TreeHolds(ix, sc, l, d);
      TreeHolds(ix, sc, r, d);
      JoinHolds(ix, if t.kind.Or? then OpOr else OpXor, TreeOf(sc, l), TreeOf(sc, r), d);
  }

  /** The documents of every query of the grammar. */
  lemma FindsExactly<D>(ix: Index<D>, sc: Schema, e: Expr, d: D)
    requires sc.Valid() && Fits(e, AtTerm) && d in ix.docs
    ensures var q := QueryOf(Parse(sc, Spelling(e)).tree);
            q.Some? && (d in Docs(ix, q.value) <==> Finds(ix, sc, e, d))
  {
    ParsesAsWritten(sc, e);
    TreeHolds(ix, sc, e, d);
    QueryMeansTree(ix, TreeOf(sc, e), d);
  }

  /** The compiler keeps the meaning: a query of the grammar without blank right
      operands finds the documents it asks for. */
  lemma FindsWhatItAsks<D>(ix: Index<D>, sc: Schema, e: Expr, d: D)
    requires sc.Valid() && Fits(e, AtTerm) && NoBlankRight(sc, e) && d in ix.docs
    ensures var q := QueryOf(Parse(sc, Spelling(e)).tree);
            q.Some? && (d in Docs(ix, q.value) <==> Asks(ix, sc, e, d))
  {
    FindsExactly(ix, sc, e, d);
    AsksIsFinds(ix, sc, e, d);
  }

  /** An AND with a blank right operand asks for nothing and finds what its left
      operand does, wherever it stands: it is wrong on exactly those documents. */
  lemma BlankRightIsDropped<D>(ix: Index<D>, sc: Schema, e: Expr, d: D)
    requires sc.Valid() && e.Conj? && Blank(sc, e.right)
    ensures Finds(ix, sc, e, d) <==> Finds(ix, sc, e.left, d)
    ensures (Finds(ix, sc, e, d) <==> Asks(ix, sc, e, d)) <==> !Finds(ix, sc, e.left, d)
  {
    BlankAsksNothing(ix, sc, e.right, d);
  }

  // The same for formulas

  /** Whether a formula asks for a document. */
  ghost predicate Wants<D>(ix: Index<D>, sc: Schema, f: Formula, d: D)
    requires sc.Valid()
  {
    match f
    case Word(s) => Searches(ix, sc, s, d)
    case Not(a) => !Wants(ix, sc, a, d)
    case And(l, r) => Wants(ix, sc, l, d) && Wants(ix, sc, r, d)
    case Or(l, r) => Wants(ix, sc, l, d) || Wants(ix, sc, r, d)
    case Xor(l, r) => Wants(ix, sc, l, d) != Wants(ix, sc, r, d)
  }

  /** A formula of nothing but regular expressions without matching terms. */
  ghost predicate Void(sc: Schema, f: Formula)
    requires sc.Valid()
  {
    match f
    case Word(s) => Barren(sc, s)
    case Not(_) => false
    case And(l, r) => Void(sc, l) && Void(sc, r)
    case Or(l, r) => Void(sc, l) && Void(sc, r)
    case Xor(l, r) => Void(sc, l) && Void(sc, r)
  }

  /** Whether its text finds a document. */
  ghost predicate Gets<D>(ix: Index<D>, sc: Schema, f: Formula, d: D)
    requires sc.Valid()
  {
    match f
    case Word(s) => Searches(ix, sc, s, d)
    case Not(a) => !Gets(ix, sc, a, d)
    case And(l, r) => Gets(ix, sc, l, d) && (Void(sc, r) || Gets(ix, sc, r, d))
    case Or(l, r) => Gets(ix, sc, l, d) || Gets(ix, sc, r, d)
    case Xor(l, r) => Gets(ix, sc, l, d) != Gets(ix, sc, r, d)
  }

  ghost predicate NoVoidRight(sc: Schema, f: Formula)
    requires sc.Valid()
  {
    match f
    case Word(_) => true
    case Not(a) => NoVoidRight(sc, a)
    case And(l, r) => NoVoidRight(sc, l) && NoVoidRight(sc, r) && !Void(sc, r)
    case Or(l, r) => NoVoidRight(sc, l) && NoVoidRight(sc, r)
    case Xor(l, r) => NoVoidRight(sc, l) && NoVoidRight(sc, r)
  }

  lemma {:induction false} PrintFinds<D>(ix: Index<D>, sc: Schema, f: Formula, level: Level, d: D)
    requires sc.Valid()
    ensures Finds(ix, sc, Print(f, level), d) <==> Gets(ix, sc, f, d)
    ensures Blank(sc, Print(f, level)) <==> Void(sc, f)
    ensures NoVoidRight(sc, f) ==> (Gets(ix, sc, f, d) <==> Wants(ix, sc, f, d))
  {
    hide Searches, Barren;
    match f
    case Word(_) =>
    case Not(a) => PrintFinds(ix, sc, a, AtUnit, d);
    case And(l, r) => PrintFinds(ix, sc, l, AtUnit, d); PrintFinds(ix, sc, r, AtFactor, d);
    case Or(l, r) => PrintFinds(ix, sc, l, AtFactor, d); PrintFinds(ix, sc, r, AtTerm, d);
    case Xor(l, r) => PrintFinds(ix, sc, l, AtFactor, d); PrintFinds(ix, sc, r, AtTerm, d);
  }

  /** The whole way, from the text of a query to the documents. */
  lemma TextFindsWhatItAsks<D>(ix: Index<D>, sc: Schema, f: Formula, d: D)
    requires sc.Valid() && Quotable(f) && d in ix.docs
    ensures var q := QueryOf(Parse(sc, Tokenizer.TokensOf(Tokenizer.Render(Spelling(Print(f, AtTerm))), 0)).tree);
            && q.Some? && (d in Docs(ix, q.value) <==> Gets(ix, sc, f, d))
            && (NoVoidRight(sc, f) ==> (d in Docs(ix, q.value) <==> Wants(ix, sc, f, d)))
  {
    hide Parse, Spelling, Print, Finds, Wants, Gets, Holds, Docs, QueryOf, TreeOf, FormulaTree, Void, Blank,
      NoVoidRight;
    TextRoundTrip(sc, f);
    PrintFits(sc, f, AtTerm);
    TreeHolds(ix, sc, Print(f, AtTerm), d);
    PrintFinds(ix, sc, f, AtTerm, d);
    QueryMeansTree(ix, TreeOf(sc, Print(f, AtTerm)), d);
  }

  lemma NotParted(text: string)
    requires ':' !in text
    ensures forall field, val :: !Parted(text, field, val)
  {
    SplitIsParted(text);
    FindChar(text, ':');
  }

  /** A store with one document, which has every word, and no terms. */
  function OneDocument(): (r: (Schema, Index<nat>))
    ensures r.0.Valid()
  {
    var field := FieldInfo("subject", "S", false, 1);
    (Schema((_: string) => [field], (_: string) => false, (s: string) => s, (_: string, v: string) => v,
            (_: string, l: string, u: string) => (l, u), (_: string) => true, (_: string, _: string) => []),
     Index({0}, (_: Query, _: nat) => true))
  }

  lemma WordIsThere()
    ensures Searches(OneDocument().1, OneDocument().0, "a", 0) && Barren(OneDocument().0, "/z/")
  {
    var (sc, ix) := OneDocument();
    NotParted("a");
    NotParted("/z/");
    forall l, u ensures !Dotted("a", l, u) {}
    var f := sc.fieldsOf("")[0];
    assert f in sc.fieldsOf("");
    assert Docs(ix, Term("Sa")) == {0};
    assert ValueQuery(Value("subject", "S", 1, "a", false)) == Term("Sa");
    assert InSome(ix, sc, sc.fieldsOf(""), "a", 0);
  }

  /** For example: "a and /z/" finds a document with a, though no term matches z. */
  lemma BlankRightExample() returns (sc: Schema, ix: Index<nat>, e: Expr)
    ensures sc.Valid() && Fits(e, AtTerm) && 0 in ix.docs && !Asks(ix, sc, e, 0)
    ensures var q := QueryOf(Parse(sc, Spelling(e)).tree); q.Some? && 0 in Docs(ix, q.value)
  {
    hide Parse, Searches, Barren, Spelling;
    sc, ix := OneDocument().0, OneDocument().1;
    var a, z := Tok(Tokenizer.Kind.Data, "a"), Tok(Tokenizer.Kind.Data, "/z/");
    e := Conj(Atom(a), None, Atom(z));
    WordIsThere();
    FindsExactly(ix, sc, e, 0);
    BlankRightIsDropped(ix, sc, e, 0);
  }
}
