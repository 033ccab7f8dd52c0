/** The recursive-descent parser at work: it takes tokens from a shared list and
    adds to a shared list of warnings. */
module QueryParser {
  import opened QueryTree
  import opened QueryLeaf
  import opened Substrings
  import opened Tokenizer
  import G = Grammar

  class Parser {
    const schema: Schema
    var tokens: seq<Token>
    var warnings: seq<Warning>

    constructor (schema: Schema, tokens: seq<Token>)
      ensures this.schema == schema && this.tokens == tokens && warnings == []
    {
      this.schema, this.tokens, warnings := schema, tokens, [];
    }

    /** The tokens taken and the warnings added are those of r. */
    twostate predicate Did(r: G.Parsed)
      reads this
    {
      tokens == r.rest && warnings == old(warnings) + r.warnings
    }

    method Warn(pos: nat, problem: Problem)
      modifies `warnings
      ensures warnings == old(warnings) + [Warning(pos, problem)]
    {
      warnings := warnings + [Warning(pos, problem)];
    }

    method Data() returns (tree: Tree)
      requires schema.Valid() && tokens != []
      modifies this
      ensures var r := G.DataRule(schema, old(tokens)); tree == r.tree && Did(r)
    {
      hide ValueTree, RegexLeaf, RangeTree, Find, SplitField, WellFormed;
      var token := tokens[0];
      if !token.kind.Data? { Warn(token.pos, ExpectedValue); }
      tokens := tokens[1..];
      var (field, val) := SplitField(token.str);
      var fields := schema.fieldsOf(field);
      if fields == [] {
        Warn(token.pos, InvalidField(field));
        tree := MakeValue(schema, schema.fieldsOf(""), field + ":" + val);
        return;
      }
      if |val| >= 2 && val[0] == '/' && val[|val| - 1] == '/' {
        var leaf := MakeRegex(schema, fields, val, token.pos);
        warnings := warnings + leaf.warnings;
        return leaf.tree;
      }
      var dots := Find(val, "..");
      if dots.Some? { return RangeTree(schema, fields, val[..dots.value], val[dots.value + 2..]); }
      if schema.isRange(fields[0].field) { return RangeTree(schema, fields, val, val); }
      tree := MakeValue(schema, fields, val);
    }

    method Unit() returns (tree: Tree)
      requires schema.Valid()
      modifies this
      ensures var r := G.Unit(schema, old(tokens)); tree == r.tree && Did(r)
      decreases |tokens|, 1
    {
      if tokens == [] {
        Warn(0, ExpectedUnit);
        return EmptyTree();
      }
      var token := tokens[0];
      if token.kind.Not? {
        tokens := tokens[1..];
        var child := Unit();
        return Branch(OpNot, [child]);
      }
      if token.kind.Open? {
        tokens := tokens[1..];
        tree := Term1();
        if tokens == [] {
          Warn(token.pos, ExpectedClose);
        } else if tokens[0].kind.Close? {
          tokens := tokens[1..];
        } else {
          Warn(tokens[0].pos, NotClose(tokens[0].str));
        }
        return;
      }
      tree := Data();
    }

    method Factor2() returns (op: NodeType, tree: Tree)
      requires schema.Valid()
      modifies this
      ensures var r := G.Factor2(schema, old(tokens)); op == r.0 && tree == r.1.tree && Did(r.1)
      decreases |tokens|, if tokens == [] then 0 else 3
    {
      op := Invalid;
      if tokens == [] { return op, EmptyTree(); }
      match tokens[0].kind {
        case And => tokens, op := tokens[1..], OpAnd;
        case Open => op := OpAnd;
        case Data => op := OpAnd;
        case Not => op := OpAnd;
        case _ => return op, EmptyTree();
      }
      tree := Factor1();
    }

    method Factor1() returns (tree: Tree)
      requires schema.Valid()
      modifies this
      ensures var r := G.Factor1(schema, old(tokens)); tree == r.tree && Did(r)
      decreases |tokens|, 2
    {
      hide G.Unit, G.Factor2, WellFormed;
      var t := Unit();
      var op, a2 := Factor2();
      if a2.node.Empty? { return t; }
      tree := Branch(op, [t, a2]);
    }

    method Term2() returns (op: NodeType, tree: Tree)
      requires schema.Valid()
      modifies this
      ensures var r := G.Term2(schema, old(tokens)); op == r.0 && tree == r.1.tree && Did(r.1)
      decreases |tokens|, 0
    {
      op := Invalid;
      if tokens == [] { return op, EmptyTree(); }
      match tokens[0].kind {
        case Or => op := OpOr;
        case Xor => op := OpXor;
        case k =>
          if !k.Close? { Warn(tokens[0].pos, ExpectedOrXor); }
          return op, EmptyTree();
      }
      tokens := tokens[1..];
      tree := Term1();
    }

    method Term1() returns (tree: Tree)
      requires schema.Valid()
      modifies this
      ensures var r := G.Term1(schema, old(tokens)); tree == r.tree && Did(r)
      decreases |tokens|, 4
    {
      hide G.Factor1, G.Term2, WellFormed;
      var t := Factor1();
      var op, o2 := Term2();
      if o2.node.Empty? { return t; }
      tree := Branch(op, [t, o2]);
    }
  }

  /** A query text to a tree. */
  method Parse(sc: Schema, expr: string) returns (tree: Tree, warnings: seq<Warning>)
    requires sc.Valid()
    ensures var r := G.Parse(sc, TokensOf(expr, 0)); tree == r.tree && warnings == r.warnings
  {
    var tokens := Tokenize(expr);
    if tokens == [] { return EmptyTree(), []; }
    var parser := new Parser(sc, tokens);
    tree := parser.Term1();
    warnings := parser.warnings;
  }
}
