/** Parse trees of queries, and their leaves. */
module QueryTree {
  datatype Data =
    | NoData
    | Value(field: string, prefix: string, id: nat, value: string, phrase: bool)
    | Range(field: string, prefix: string, id: nat, lower: string, upper: string)

  datatype NodeType = Empty | OpAnd | OpOr | OpXor | OpAndNot | OpNot | ValueNode | RangeNode | Invalid

  datatype Tree = Tree(node: NodeType, data: Data, children: seq<Tree>)

  function EmptyTree(): Tree { Tree(Empty, NoData, []) }

  function Branch(op: NodeType, children: seq<Tree>): Tree { Tree(op, NoData, children) }

  function LeafOf(d: Data): Tree
    requires !d.NoData?
  {
    Tree(if d.Value? then ValueNode else RangeNode, d, [])
  }

  /** What the parser may produce: no invalid node, one child below a NOT, two
      below a binary operator; an OR of values may have any number above none. */
  predicate WellFormed(t: Tree) {
    && (forall c <- t.children :: WellFormed(c))
    && match t.node
       case Empty => t.children == []
       case ValueNode => t.children == [] && t.data.Value?
       case RangeNode => t.children == [] && t.data.Range?
       case OpNot => |t.children| == 1
       case OpAnd => |t.children| == 2
       case OpXor => |t.children| == 2
       case OpOr => |t.children| == 2 || (t.children != [] && forall c <- t.children :: c.node.ValueNode?)
       case _ => false
  }
}
