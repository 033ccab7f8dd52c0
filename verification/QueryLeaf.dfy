/** Leaves of the parse tree: values, ranges and regular expressions. */
module QueryLeaf {
  import opened QueryTree
  import opened Substrings
  import ByteStrings

  datatype FieldInfo = FieldInfo(field: string, prefix: string, phrase: bool, id: nat)

  /** What the parser asks of the field tables, of the date, size and UTF-8
      helpers, and of the store. */
  datatype Schema = Schema(
    fieldsOf: string -> seq<FieldInfo>,
    isRange: string -> bool,
    flatten: string -> string,
    processValue: (string, string) -> string,
    processRange: (string, string, string) -> (string, string),
    compiles: string -> bool,
    terms: (string, string) -> seq<string>)
  {
    /** A search without a field looks at some fields. */
    predicate Valid() { fieldsOf("") != [] }
  }

  datatype Problem =
    | ExpectedUnit | ExpectedValue | ExpectedClose | NotClose(got: string) | ExpectedOrXor
    | InvalidField(field: string) | InvalidRegexp

  datatype Warning = Warning(pos: nat, problem: Problem)

  /** A leaf and the warnings about it. */
  datatype Leaf = Leaf(tree: Tree, warnings: seq<Warning>)

  function FieldValue(sc: Schema, item: FieldInfo, val: string): (t: Tree)
    ensures WellFormed(t) && t.node.ValueNode?
  {
    LeafOf(Value(item.field, item.prefix, item.id, sc.processValue(item.field, val), item.phrase))
  }

  function FieldValues(sc: Schema, fields: seq<FieldInfo>, val: string): (ts: seq<Tree>)
    ensures |ts| == |fields| && forall t <- ts :: WellFormed(t) && t.node.ValueNode?
  {
    if fields == [] then []
    else FieldValues(sc, fields[..|fields| - 1], val) + [FieldValue(sc, fields[|fields| - 1], val)]
  }

  /** A value, searched in each of its fields. */
  function ValueTree(sc: Schema, fields: seq<FieldInfo>, v: string): (t: Tree)
    requires fields != []
    ensures WellFormed(t) && !t.node.Empty?
  {
    var val := sc.flatten(v);
    if |fields| == 1 then FieldValue(sc, fields[0], val) else Branch(OpOr, FieldValues(sc, fields, val))
  }

  function TermTree(item: FieldInfo, term: string): (t: Tree)
    ensures WellFormed(t) && t.node.ValueNode?
  {
    LeafOf(Value(item.field, "", item.id, term, false))
  }

  function TermTrees(item: FieldInfo, terms: seq<string>): (ts: seq<Tree>)
    ensures |ts| == |terms| && forall t <- ts :: WellFormed(t) && t.node.ValueNode?
  {
    if terms == [] then [] else TermTrees(item, terms[..|terms| - 1]) + [TermTree(item, terms[|terms| - 1])]
  }

  function AllTerms(sc: Schema, fields: seq<FieldInfo>, rx: string): (ts: seq<Tree>)
    ensures forall t <- ts :: WellFormed(t) && t.node.ValueNode?
  {
    if fields == [] then []
    else
      var last := fields[|fields| - 1];
      AllTerms(sc, fields[..|fields| - 1], rx) + TermTrees(last, sc.terms(last.field, rx))
  }

  /** The terms of the store that match the expression between the slashes; nothing
      when there are none; and plain text when it is no valid expression. */
  function RegexLeaf(sc: Schema, fields: seq<FieldInfo>, v: string, pos: nat): (l: Leaf)
    requires fields != [] && |v| >= 2
    ensures WellFormed(l.tree) && forall w <- l.warnings :: w.problem.InvalidRegexp?
  {
    var rx := sc.flatten(v[1..|v| - 1]);
    if sc.compiles(rx) then
      var ts := AllTerms(sc, fields, rx);
      Leaf(if ts == [] then EmptyTree() else Branch(OpOr, ts), [])
    else Leaf(ValueTree(sc, fields, v), [Warning(pos, InvalidRegexp)])
  }

  /** A range, its bounds put in order if need be. */
  function RangeTree(sc: Schema, fields: seq<FieldInfo>, lower: string, upper: string): (t: Tree)
    requires fields != []
    ensures WellFormed(t) && !t.node.Empty?
  {
    var f := fields[0];
    if !sc.isRange(f.field) then ValueTree(sc, fields, lower + ".." + upper)
    else
      var r := sc.processRange(f.field, lower, upper);
      var r' := if ByteStrings.Lt(r.1, r.0) then sc.processRange(f.field, upper, lower) else r;
      LeafOf(Range(f.field, f.prefix, f.id, r'.0, r'.1))
  }

  /** The part before the first colon, if that is neither first nor last, and the
      rest. */
  function SplitField(str: string): (r: (string, string))
    ensures r == ("", str) || (r.0 != "" && r.1 != "" && str == r.0 + ":" + r.1)
  {
    var col := Find(str, ":");
    if col.Some? && col.value != 0 && col.value != |str| - 1 then (str[..col.value], str[col.value + 1..])
      else ("", str)
  }

  /** The leaf for a value in a field, or in the usual fields. */
  function FieldLeaf(sc: Schema, field: string, val: string, pos: nat): (l: Leaf)
    requires sc.Valid()
    ensures WellFormed(l.tree)
    ensures forall w <- l.warnings :: w.problem.InvalidField? || w.problem.InvalidRegexp?
  {
    var fields := sc.fieldsOf(field);
    if fields == [] then
      Leaf(ValueTree(sc, sc.fieldsOf(""), field + ":" + val), [Warning(pos, InvalidField(field))])
    else if |val| >= 2 && val[0] == '/' && val[|val| - 1] == '/' then RegexLeaf(sc, fields, val, pos)
    else
      var dots := Find(val, "..");
      if dots.Some? then Leaf(RangeTree(sc, fields, val[..dots.value], val[dots.value + 2..]), [])
      else if sc.isRange(fields[0].field) then Leaf(RangeTree(sc, fields, val, val), [])
      else Leaf(ValueTree(sc, fields, val), [])
  }

  /** The leaf for the text of a token at pos. */
  function DataLeaf(sc: Schema, str: string, pos: nat): (l: Leaf)
    requires sc.Valid()
    ensures WellFormed(l.tree)
    ensures forall w <- l.warnings :: w.problem.InvalidField? || w.problem.InvalidRegexp?
  {
    FieldLeaf(sc, SplitField(str).0, SplitField(str).1, pos)
  }

  /** A lower bound stands for the first thing it may mean, an upper bound for the
      last.  The bounds of a range then end up in order.  The order they are written
      in matters only if the range makes sense both ways, as that of two bounds that
      overlap does. */
  lemma RangeBoundsAreOrdered(sc: Schema, fields: seq<FieldInfo>, lower: string, upper: string,
                              lo: string -> string, hi: string -> string)
    requires fields != [] && sc.isRange(fields[0].field)
    requires forall l, u :: sc.processRange(fields[0].field, l, u) == (lo(l), hi(u))
    requires ByteStrings.Le(lo(lower), hi(lower)) && ByteStrings.Le(lo(upper), hi(upper))
    ensures var d := RangeTree(sc, fields, lower, upper).data;
            && d.Range? && ByteStrings.Le(d.lower, d.upper)
            && (d.lower, d.upper) in {(lo(lower), hi(upper)), (lo(upper), hi(lower))}
    ensures RangeTree(sc, fields, lower, upper) == RangeTree(sc, fields, upper, lower) <==>
              || !ByteStrings.Le(lo(lower), hi(upper)) || !ByteStrings.Le(lo(upper), hi(lower))
              || (lo(lower), hi(upper)) == (lo(upper), hi(lower))
  {
    OneWayRound(lo(lower), hi(lower), lo(upper), hi(upper));
    OneWayRound(lo(upper), hi(upper), lo(lower), hi(lower));
  }

  /** Of two ranges, one reaches from the start of the first to the end of the
      second, or the other way round. */
  lemma OneWayRound(a: string, b: string, c: string, d: string)
    requires ByteStrings.Le(a, b) && ByteStrings.Le(c, d)
    ensures ByteStrings.Le(a, d) || ByteStrings.Le(c, b)
  {
    if !ByteStrings.Le(a, d) {
      ByteStrings.Total(a, d);
      ByteStrings.LeTransitive(c, d, a);
      ByteStrings.LeTransitive(c, a, b);
    }
  }

  /** The same warnings, wherever they stand. */
  predicate SameProblems(ws: seq<Warning>, us: seq<Warning>) {
    |ws| == |us| && forall i :: 0 <= i < |ws| ==> ws[i].problem == us[i].problem
  }

  lemma SameProblemsJoin(ws: seq<Warning>, us: seq<Warning>, ws': seq<Warning>, us': seq<Warning>)
    requires SameProblems(ws, us) && SameProblems(ws', us')
    ensures SameProblems(ws + ws', us + us')
  {}

  /** What a leaf is does not depend on where it stands. */
  lemma SameLeaf(sc: Schema, str: string, pos: nat, pos': nat)
    requires sc.Valid()
    ensures DataLeaf(sc, str, pos).tree == DataLeaf(sc, str, pos').tree
    ensures SameProblems(DataLeaf(sc, str, pos).warnings, DataLeaf(sc, str, pos').warnings)
  {}

  /** Only a regular expression that matches no term makes an empty leaf. */
  lemma EmptyLeaf(sc: Schema, str: string, pos: nat)
    requires sc.Valid()
    ensures var (field, val) := SplitField(str);
            DataLeaf(sc, str, pos).tree.node.Empty? <==>
              && |val| >= 2 && val[0] == '/' == val[|val| - 1]
              && var rx := sc.flatten(val[1..|val| - 1]);
                 sc.fieldsOf(field) != [] && sc.compiles(rx) &&
                   forall f <- sc.fieldsOf(field) :: sc.terms(f.field, rx) == []
  {
    var (field, val) := SplitField(str);
    if |val| >= 2 { NoTerms(sc, sc.fieldsOf(field), sc.flatten(val[1..|val| - 1])); }
  }

  lemma {:induction false} NoTerms(sc: Schema, fields: seq<FieldInfo>, rx: string)
    ensures AllTerms(sc, fields, rx) == [] <==> forall f <- fields :: sc.terms(f.field, rx) == []
  {
    if fields != [] {
      var init, last := fields[..|fields| - 1], fields[|fields| - 1];
      NoTerms(sc, init, rx);
      assert fields == init + [last];
    }
  }

  // As the parser builds them

  method MakeValue(sc: Schema, fields: seq<FieldInfo>, v: string) returns (tree: Tree)
    requires fields != []
    ensures tree == ValueTree(sc, fields, v)
  {
    var val := sc.flatten(v);
    if |fields| == 1 { return FieldValue(sc, fields[0], val); }
    var children := [];
    for i := 0 to |fields|
      invariant children == FieldValues(sc, fields[..i], val)
    {
      assert fields[..i + 1][..i] == fields[..i];
      children := children + [FieldValue(sc, fields[i], val)];
    }
    assert fields[..|fields|] == fields;
    tree := Branch(OpOr, children);
  }

  method MakeRegex(sc: Schema, fields: seq<FieldInfo>, v: string, pos: nat) returns (l: Leaf)
    requires fields != [] && |v| >= 2
    ensures l == RegexLeaf(sc, fields, v, pos)
  {
    var rx := sc.flatten(v[1..|v| - 1]);
    if !sc.compiles(rx) {
      var tree := MakeValue(sc, fields, v);
      return Leaf(tree, [Warning(pos, InvalidRegexp)]);
    }
    var children := [];
    for i := 0 to |fields|
      invariant children == AllTerms(sc, fields[..i], rx)
    {
      assert fields[..i + 1][..i] == fields[..i];
      var terms := sc.terms(fields[i].field, rx);
      ghost var before := children;
      for j := 0 to |terms|
        invariant children == before + TermTrees(fields[i], terms[..j])
      {
        assert terms[..j + 1][..j] == terms[..j];
        children := children + [TermTree(fields[i], terms[j])];
      }
      assert terms[..|terms|] == terms;
    }
    assert fields[..|fields|] == fields;
    l := Leaf(if children == [] then EmptyTree() else Branch(OpOr, children), []);
  }
}
