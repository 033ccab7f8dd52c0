/** Parse trees to Xapian queries, and the documents these find. */
module XapianQuery {
  import opened Wrappers
  import opened Substrings
  import opened QueryTree
  import opened QueryLeaf

  datatype Op = OpAND | OpOR | OpXOR | OpANDNOT | OpPHRASE

  datatype Query =
    | MatchNothing
    | MatchAll
    | Term(term: string)
    | Wildcard(prefix: string)
    | ValueRange(id: nat, lower: string, upper: string)
    | Combine(op: Op, parts: seq<Query>)

  // xapian_query and its helpers; None stands for the exceptions

  function MakeQuery(v: Data, str: string, maybeWildcard: bool): Query
    requires v.Value?
  {
    if !maybeWildcard || |str| <= 1 || str[|str| - 1] != '*' then Term(v.prefix + str)
    else Wildcard(v.prefix + str[..|str| - 1])
  }

  function PhraseParts(v: Data, parts: seq<string>): seq<Query>
    requires v.Value?
  {
    if parts == [] then [] else [MakeQuery(v, parts[0], false)] + PhraseParts(v, parts[1..])
  }

  function ValueQuery(v: Data): Query
    requires v.Value?
  {
    if !v.phrase then MakeQuery(v, v.value, true)
    else
      var parts := Split(v.value, ' ');
      if parts == [] then MatchNothing
      else if |parts| == 1 then MakeQuery(v, parts[0], true)
      else Combine(OpPHRASE, PhraseParts(v, parts))
  }

  lemma {:induction false} PhraseTerms(v: Data, parts: seq<string>)
    requires v.Value?
    ensures |PhraseParts(v, parts)| == |parts|
    ensures forall i :: 0 <= i < |parts| ==> PhraseParts(v, parts)[i] == Term(v.prefix + parts[i])
  {
    if parts != [] { PhraseTerms(v, parts[1..]); }
  }

  /** A value of several words is a phrase of just these words, as plain terms. */
  lemma PhraseOfWords(v: Data)
    requires v.Value? && v.phrase && |Split(v.value, ' ')| > 1
    ensures var q, words := ValueQuery(v), Split(v.value, ' ');
            && q.Combine? && q.op.OpPHRASE? && |q.parts| == |words| && Joined(words, ' ') == v.value
            && forall i :: 0 <= i < |words| ==> ' ' !in words[i] && q.parts[i] == Term(v.prefix + words[i])
  {
    PhraseTerms(v, Split(v.value, ' '));
    JoinedParts(v.value, ' ');
  }

  /** Any other value is one term, or a wildcard when it ends with a star. */
  lemma TermOrWildcard(v: Data)
    requires v.Value? && (v.phrase ==> |Split(v.value, ' ')| == 1)
    ensures match ValueQuery(v)
            case Term(t) => t == v.prefix + v.value && (|v.value| <= 1 || v.value[|v.value| - 1] != '*')
            case Wildcard(t) => t + "*" == v.prefix + v.value && |v.value| > 1
            case _ => false
  {
    if v.phrase { JoinedParts(v.value, ' '); }
  }

  /** A phrase of no words finds nothing. */
  lemma NoWordsNoQuery(v: Data)
    requires v.Value? && v.phrase
    ensures ValueQuery(v) == MatchNothing <==> v.value == ""
  {
    JoinedParts(v.value, ' ');
  }

  function QueryOf(t: Tree): Option<Query>
    decreases t, 2
  {
    match t.node
    case Empty => Some(MatchNothing)
    case ValueNode => if t.data.Value? then Some(ValueQuery(t.data)) else None
    case RangeNode => if t.data.Range? then Some(ValueRange(t.data.id, t.data.lower, t.data.upper)) else None
    case Invalid => None
    case OpNot =>
      if |t.children| != 1 then None
      else
        var q := QueryOf(t.children[0]);
        if q.None? then None else Some(Combine(OpANDNOT, [MatchAll, q.value]))
    case op =>
      var qs := QueriesOf(t, 0);
      if qs.None? then None
      else Some(Combine(match op case OpAnd => OpAND case OpOr => OpOR case OpXor => OpXOR case _ => OpANDNOT,
                        qs.value))
  }

  /** The queries of the children from the i-th on. */
  function QueriesOf(t: Tree, i: nat): (r: Option<seq<Query>>)
    requires i <= |t.children|
    decreases t, 1, |t.children| - i
  {
    if i == |t.children| then Some([])
    else
      var q, qs := QueryOf(t.children[i]), QueriesOf(t, i + 1);
      if q.None? || qs.None? then None else Some([q.value] + qs.value)
  }

  // Documents

  /** What is in the database: its documents, and what simple queries find. */
  datatype Index<!D(==)> = Index(docs: set<D>, finds: (Query, D) -> bool)

  /** The documents a query finds.  An operator takes its parts from left to right;
      of no parts it makes the empty query. */
  function Docs<D>(ix: Index<D>, q: Query): set<D>
    decreases q, 2
  {
    match q
    case MatchNothing => {}
    case MatchAll => ix.docs
    case Combine(op, parts) =>
      if op.OpPHRASE? then set d <- ix.docs | ix.finds(q, d)
      else if parts == [] then {}
      else DocsOf(ix, q, |parts|)
    case _ => set d <- ix.docs | ix.finds(q, d)
  }

  /** The documents of the first n parts, combined. */
  function DocsOf<D>(ix: Index<D>, q: Query, n: nat): set<D>
    requires q.Combine? && 0 < n <= |q.parts|
    decreases q, 1, n
  {
    var last := Docs(ix, q.parts[n - 1]);
    if n == 1 then last
    else
      var before := DocsOf(ix, q, n - 1);
      match q.op
      case OpOR => before + last
      case OpXOR => (before - last) + (last - before)
      case OpANDNOT => before - last
      case _ => before * last
  }

  /** Whether a tree holds of a document, as its node types say. */
  predicate Holds<D>(ix: Index<D>, t: Tree, d: D)
    requires WellFormed(t)
  {
    match t.node
    case OpNot => !Holds(ix, t.children[0], d)
    case OpAnd => Holds(ix, t.children[0], d) && Holds(ix, t.children[1], d)
    case OpOr => exists c <- t.children :: Holds(ix, c, d)
    case OpXor => Holds(ix, t.children[0], d) != Holds(ix, t.children[1], d)
    case ValueNode => d in Docs(ix, ValueQuery(t.data))
    case RangeNode => d in Docs(ix, ValueRange(t.data.id, t.data.lower, t.data.upper))
    case _ => false
  }

  /** A tree that has a query: no invalid node, and one child below a NOT. */
  predicate Translatable(t: Tree) {
    && !t.node.Invalid? && (t.node.ValueNode? ==> t.data.Value?) && (t.node.RangeNode? ==> t.data.Range?)
    && (t.node.OpNot? ==> |t.children| == 1)
    && (HasOperator(t) ==> forall c <- t.children :: Translatable(c))
  }

  predicate HasOperator(t: Tree) {
    t.node.OpNot? || t.node.OpAnd? || t.node.OpOr? || t.node.OpXor? || t.node.OpAndNot?
  }

  /** The translation fails exactly on trees with an invalid node, a NOT without
      its one child, or a leaf without its data. */
  lemma {:induction false} TranslatesExactly(t: Tree)
    ensures QueryOf(t).Some? <==> Translatable(t)
    decreases t, 2
  {
    if t.node.OpNot? && |t.children| == 1 { TranslatesExactly(t.children[0]); }
    else if HasOperator(t) { TranslatesChildren(t, 0); }
  }

  lemma {:induction false} TranslatesChildren(t: Tree, i: nat)
    requires i <= |t.children|
    ensures QueriesOf(t, i).Some? <==> forall j :: i <= j < |t.children| ==> Translatable(t.children[j])
    decreases t, 1, |t.children| - i
  {
    if i < |t.children| {
      TranslatesExactly(t.children[i]);
      TranslatesChildren(t, i + 1);
    }
  }

  /** What the parser produces is always translated. */
  lemma {:induction false} WellFormedTranslates(t: Tree)
    requires WellFormed(t)
    ensures QueryOf(t).Some?
  {
    WellFormedIsTranslatable(t);
    TranslatesExactly(t);
  }

  lemma {:induction false} WellFormedIsTranslatable(t: Tree)
    requires WellFormed(t)
    ensures Translatable(t)
  {
    forall c | c in t.children ensures Translatable(c) { WellFormedIsTranslatable(c); }
  }

  lemma {:induction false} QueriesAt(t: Tree, i: nat, j: nat)
    requires i <= j < |t.children| && QueriesOf(t, i).Some?
    ensures |QueriesOf(t, i).value| == |t.children| - i
    ensures QueryOf(t.children[j]) == Some(QueriesOf(t, i).value[j - i])
    decreases |t.children| - i
  {
    if i < j {
      QueriesAt(t, i + 1, j);
    } else if i + 1 < |t.children| {
      QueriesAt(t, i + 1, i + 1);
    }
  }

  /** The documents of an OR are those of its parts. */
  lemma {:induction false} OrDocs<D>(ix: Index<D>, q: Query, n: nat, d: D)
    requires q.Combine? && q.op.OpOR? && 0 < n <= |q.parts|
    ensures d in DocsOf(ix, q, n) <==> exists i :: 0 <= i < n && d in Docs(ix, q.parts[i])
  {
    if n > 1 { OrDocs(ix, q, n - 1, d); }
  }

  /** The query of a tree finds the documents of which the tree holds. */
  lemma {:induction false} QueryMeansTree<D>(ix: Index<D>, t: Tree, d: D)
    requires WellFormed(t) && d in ix.docs
    ensures QueryOf(t).Some? && (d in Docs(ix, QueryOf(t).value) <==> Holds(ix, t, d))
  {
    WellFormedTranslates(t);
    var q := QueryOf(t).value;
    if t.node.OpNot? {
      QueryMeansTree(ix, t.children[0], d);
      assert DocsOf(ix, q, 1) == ix.docs;
    } else if HasOperator(t) {
      forall i | 0 <= i < |t.children|
        ensures |q.parts| == |t.children| && (d in Docs(ix, q.parts[i]) <==> Holds(ix, t.children[i], d))
      {
        QueriesAt(t, 0, i);
        QueryMeansTree(ix, t.children[i], d);
      }
      if t.node.OpOr? { OrDocs(ix, q, |q.parts|, d); } else { assert DocsOf(ix, q, 1) == Docs(ix, q.parts[0]); }
    }
  }
}
