/** The connector-style parse-tree printer of `parser.tab.c`: `print_branch`
    writes the prefix of a line, `print_tree_visual` writes one line per node
    and descends into the children. `printf` is modelled as appending to the
    returned string. The ancestor mask, a C `int` whose bit `d` a node at
    depth `d` sets for its descendants when it has further siblings, is the
    set of the positions of its set bits. `print_branch` tests the wrong bit
    for each column. The rendering functions therefore take an `offset`:
    offset 0 is the prefix as `print_branch` writes it (`BranchAsWritten`),
    which the printer methods produce; offset 1 is the corrected prefix
    (`Branch`), under which every bar sits below its ancestor's connector. */
module Render {
  import opened Base
  import opened Ast

  /** The four characters of column `i` of a prefix: a vertical bar when
      bit `i + offset` of the mask is set, blank otherwise. `print_branch`
      as written tests bit `i` (offset 0); the corrected printer tests bit
      `i + 1` (offset 1). */
  function Segment(i: nat, mask: set<nat>, offset: nat): (s: string)
    ensures |s| == 4
  {
    if i + offset in mask then "|   " else "    "
  }

  /** Columns `0 .. k - 1`, in order. */
  function Segments(k: nat, mask: set<nat>, offset: nat): (s: string)
    ensures |s| == 4 * k
  {
    if k == 0 then "" else Segments(k - 1, mask, offset) + Segment(k - 1, mask, offset)
  }

  /** The connector of a node: `+-- ` for the last of its siblings. */
  function Connector(isLast: bool): string {
    if isLast then "+-- " else "|-- "
  }

  /** The prefix of a line for a node at `depth`: nothing for the root;
      otherwise the columns `0 .. depth - 2`, column `i` testing bit
      `i + offset`, then the connector. */
  function Prefix(depth: nat, isLast: bool, mask: set<nat>, offset: nat): string {
    if depth == 0 then "" else Segments(depth - 1, mask, offset) + Connector(isLast)
  }

  /** `print_branch(depth, is_last, mask)` as written: column `i` tests
      bit `i`. */
  function BranchAsWritten(depth: nat, isLast: bool, mask: set<nat>): string {
    Prefix(depth, isLast, mask, 0)
  }

  /** `print_branch` corrected: column `i` sits below the connector of the
      ancestor at depth `i + 1`, so it tests bit `i + 1`, the bit that
      ancestor set when it was not last. */
  function Branch(depth: nat, isLast: bool, mask: set<nat>): string {
    Prefix(depth, isLast, mask, 1)
  }

  /** The line `print_tree_visual` writes after the prefix. */
  function Label(kind: NodeType, sval: string, ival: int32): string {
    match kind
    case Decl => "DECL (" + sval + ")\n"
    case Assign => "ASSIGN (=) " + sval + "\n"
    case Print => "PRINT (Expr)\n"
    case PrintStr => "PRINT (String): " + sval + "\n"
    case If => "IF\n"
    case BinOp => "OP (" + sval + ")\n"
    case Num => "NUM (" + DecimalText(ival as int) + ")\n"
    case Id => "ID (" + sval + ")\n"
    case StmtList => "BLOCK\n"
  }

  /** The mask handed to the children: the node's own level is added
      exactly when the node is not the last of its siblings. */
  function ChildMask(depth: nat, isLast: bool, mask: set<nat>): (m: set<nat>)
    ensures depth in m <==> depth in mask || !isLast
    ensures forall d :: d != depth ==> (d in m <==> d in mask)
  {
    if isLast then mask else mask + {depth}
  }

  /** What `print_tree_visual(n, depth, is_last, mask)` prints for a node
      heading `t`, with prefixes of the given `offset` (0 as written, 1
      corrected): its prefix and label, then what it prints below itself. */
  function RenderNode(t: Tree, depth: nat, isLast: bool, mask: set<nat>, offset: nat): string
    decreases t, 2
  {
    Prefix(depth, isLast, mask, offset) + Label(t.kind, t.sval, t.ival)
    + RenderBelow(t, depth + 1, ChildMask(depth, isLast, mask), offset)
  }

  /** The lines below a node heading `t` whose children sit at `depth` under
      the ancestor mask `m`. A statement list prints every node of its child
      chain; any other node prints its operands and ignores `next`. */
  function RenderBelow(t: Tree, depth: nat, m: set<nat>, offset: nat): string
    decreases t, 1
  {
    if t.kind == StmtList then
      (if t.left.Some? then RenderChain(t.left.value, depth, m, offset) else "")
    else RenderOperands(t, depth, m, offset)
  }

  /** The left and right children of a node that is not a statement list:
      with both, the left one is not last and the right one is; a single
      child is last. */
  function RenderOperands(t: Tree, depth: nat, m: set<nat>, offset: nat): string
    decreases t, 0
  {
    if t.left.Some? && t.right.Some? then
      RenderNode(t.left.value, depth, false, m, offset) + RenderNode(t.right.value, depth, true, m, offset)
    else if t.left.Some? then RenderNode(t.left.value, depth, true, m, offset)
    else if t.right.Some? then RenderNode(t.right.value, depth, true, m, offset)
    else ""
  }

  /** The child loop of a statement list, from the child `c` on: each child
      is printed with `is_last` set exactly when its `next` is NULL. */
  function RenderChain(c: Tree, depth: nat, mask: set<nat>, offset: nat): string
    decreases c, 3
  {
    RenderNode(c, depth, c.next.None?, mask, offset) +
    if c.next.Some? then RenderChain(c.next.value, depth, mask, offset) else ""
  }

  /** The nodes `cs`, in order, each printed at `depth` and only the last
      one marked last: an independent account of the child loop. */
  function RenderAll(cs: seq<Tree>, depth: nat, mask: set<nat>, offset: nat): string {
    if cs == [] then ""
    else RenderNode(cs[0], depth, |cs| == 1, mask, offset) + RenderAll(cs[1..], depth, mask, offset)
  }

  /** Column `i` of the first `k` columns is the one for bit `i + offset`. */
  lemma {:induction false} SegmentAt(k: nat, mask: set<nat>, offset: nat, i: nat)
    requires i < k
    ensures Segments(k, mask, offset)[4 * i .. 4 * i + 4] == Segment(i, mask, offset)
  {
    var s, t := Segments(k - 1, mask, offset), Segment(k - 1, mask, offset);
    assert Segments(k, mask, offset) == s + t;
    if i < k - 1 {
      SegmentAt(k - 1, mask, offset, i);
      assert (s + t)[4 * i .. 4 * i + 4] == s[4 * i .. 4 * i + 4];
    } else {
      assert (s + t)[4 * i .. 4 * i + 4] == t;
    }
  }

  /** The prefix of a line is four characters per level of depth, none for
      the root, and ends with the node's connector. Below the connector of
      every ancestor (the ancestor at depth `j` has its connector in column
      `j - 1`) there is a vertical bar exactly when that ancestor set its
      bit, that is, when it has further siblings. */
  lemma BranchShape(depth: nat, isLast: bool, mask: set<nat>)
    ensures |Branch(depth, isLast, mask)| == 4 * depth
    ensures depth == 0 ==> Branch(depth, isLast, mask) == ""
    ensures forall j :: 1 <= j < depth ==>
              Branch(depth, isLast, mask)[4 * (j - 1) .. 4 * j] == (if j in mask then "|   " else "    ")
    ensures depth > 0 ==> Branch(depth, isLast, mask)[4 * depth - 4..] == Connector(isLast)
  {
    if depth > 0 {
      var s, c := Segments(depth - 1, mask, 1), Connector(isLast);
      forall j | 1 <= j < depth
        ensures (s + c)[4 * (j - 1) .. 4 * j] == (if j in mask then "|   " else "    ")
      {
        SegmentAt(depth - 1, mask, 1, j - 1);
        assert (s + c)[4 * (j - 1) .. 4 * j] == s[4 * (j - 1) .. 4 * (j - 1) + 4];
      }
      assert (s + c)[4 * depth - 4..] == c;
    }
  }

  /** As written, the bit an ancestor at depth `j` sets is drawn in column
      `j`, one column to the right of its connector, and column `j - 1`
      shows the bit of depth `j - 1` instead. */
  lemma BranchAsWrittenShape(depth: nat, isLast: bool, mask: set<nat>)
    ensures |BranchAsWritten(depth, isLast, mask)| == 4 * depth
    ensures depth == 0 ==> BranchAsWritten(depth, isLast, mask) == ""
    ensures forall j :: 1 <= j < depth ==>
              BranchAsWritten(depth, isLast, mask)[4 * (j - 1) .. 4 * j]
              == (if j - 1 in mask then "|   " else "    ")
    ensures depth > 0 ==> BranchAsWritten(depth, isLast, mask)[4 * depth - 4..] == Connector(isLast)
  {
    if depth > 0 {
      var s, c := Segments(depth - 1, mask, 0), Connector(isLast);
      forall j | 1 <= j < depth
        ensures (s + c)[4 * (j - 1) .. 4 * j] == (if j - 1 in mask then "|   " else "    ")
      {
        SegmentAt(depth - 1, mask, 0, j - 1);
        assert (s + c)[4 * (j - 1) .. 4 * j] == s[4 * (j - 1) .. 4 * (j - 1) + 4];
      }
      assert (s + c)[4 * depth - 4..] == c;
    }
  }

  /** A node at depth 1 that has a later sibling, such as a declaration
      followed by a print, sets bit 1 for its children. As written the line
      of its only child gets no bar in column 0, below the `|-- ` of the
      parent, and its grandchildren get the bar in column 1; corrected, the
      bar is in column 0 on both lines. */
  lemma BarShiftedAsWritten()
    ensures ChildMask(1, false, {}) == {1}
    ensures BranchAsWritten(2, true, {1}) == "    +-- "
    ensures BranchAsWritten(3, false, {1}) == "    |   |-- "
    ensures Branch(2, true, {1}) == "|   +-- "
    ensures Branch(3, false, {1}) == "|       |-- "
  {
    assert Segments(2, {1}, 0) == "    " + "|   ";
    assert Segments(2, {1}, 1) == "|   " + "    ";
  }

  /** The printer's line for the only child of a depth-1 node that has a
      later sibling (the `OP (*)` below `DECL (x)` in
      `int x = 2 * 8; print(x);`) starts with no bar in column 0; the
      corrected rendering puts the bar there. */
  lemma ChildLineShifted(t: Tree)
    ensures RenderNode(t, 2, true, ChildMask(1, false, {}), 0)[..8] == "    +-- "
    ensures RenderNode(t, 2, true, ChildMask(1, false, {}), 1)[..8] == "|   +-- "
  {
    BarShiftedAsWritten();
    RenderNodeStarts(t, 2, true, {1}, 0);
    RenderNodeStarts(t, 2, true, {1}, 1);
    var l := Label(t.kind, t.sval, t.ival);
    assert (BranchAsWritten(2, true, {1}) + l)[..8] == BranchAsWritten(2, true, {1});
    assert (Branch(2, true, {1}) + l)[..8] == Branch(2, true, {1});
  }

  /** The child loop prints the nodes of the child chain in order, and only
      the last one as last. */
  lemma {:induction false} RenderChainAll(c: Tree, depth: nat, mask: set<nat>, offset: nat)
    ensures RenderChain(c, depth, mask, offset) == RenderAll(Chain(c), depth, mask, offset)
    decreases c
  {
    var cs := Chain(c);
    assert cs[1..] == if c.next.None? then [] else Chain(c.next.value);
    if c.next.Some? {
      RenderChainAll(c.next.value, depth, mask, offset);
    }
  }

  /** The printer always starts a node's text with its prefix and label. */
  lemma RenderNodeStarts(t: Tree, depth: nat, isLast: bool, mask: set<nat>, offset: nat)
    ensures var p := Prefix(depth, isLast, mask, offset) + Label(t.kind, t.sval, t.ival);
      |p| <= |RenderNode(t, depth, isLast, mask, offset)| && RenderNode(t, depth, isLast, mask, offset)[..|p|] == p
  {
  }

  /** After an if/else the else-block, and the statements appended after the
      if/else on its chain, are printed as the following siblings of the IF
      line, at the same depth: the IF node is not marked last, and its own
      children do not include the else-block. */
  lemma IfElseRendersElseAsSibling(cond: Tree, thenB: Tree, elseB: Tree, depth: nat, mask: set<nat>, offset: nat)
    ensures var ifn := Tree(If, "", 0, Some(cond), Some(thenB), Some(elseB));
      && RenderChain(ifn, depth, mask, offset)
         == RenderNode(ifn, depth, false, mask, offset) + RenderChain(elseB, depth, mask, offset)
      && RenderNode(ifn, depth, false, mask, offset)
         == Prefix(depth, false, mask, offset) + "IF\n"
            + (RenderNode(cond, depth + 1, false, mask + {depth}, offset)
               + RenderNode(thenB, depth + 1, true, mask + {depth}, offset))
  {
    var ifn := Tree(If, "", 0, Some(cond), Some(thenB), Some(elseB));
    assert RenderBelow(ifn, depth + 1, mask + {depth}, offset) == RenderOperands(ifn, depth + 1, mask + {depth}, offset);
  }

  /** `print_tree_visual(n, depth, is_last, mask)` over the heap: nothing for
      NULL; otherwise the prefix and the label, then the children. The text
      is exactly the rendering of the tree `n` heads, and nothing is
      modified. */
  method PrintTreeVisual(n: Node?, depth: nat, isLast: bool, mask: set<nat>) returns (out: string)
    requires n != null ==> n.Valid()
    ensures n == null ==> out == ""
    ensures n != null ==> out == RenderNode(old(n.Value()), depth, isLast, mask, 0)
    decreases Footprint(n), 1
  {
    if n == null {
      return "";
    }
    ghost var t := n.Value();
    var head := BranchAsWritten(depth, isLast, mask) + Label(n.kind, n.sval, n.ival);
    var nextMask := mask;
    if !isLast {
      nextMask := nextMask + {depth};
    }
    assert nextMask == ChildMask(depth, isLast, mask);
    var below;
    if n.kind == StmtList {
      below := PrintChildren(n.left, depth + 1, nextMask);
    } else {
      below := PrintOperands(n, depth + 1, nextMask);
    }
    out := head + below;
  }

  /** The children of a node that is not a statement list, as
      `print_tree_visual` prints them. */
  method PrintOperands(n: Node, depth: nat, mask: set<nat>) returns (out: string)
    requires n.Valid()
    ensures out == RenderOperands(old(n.Value()), depth, mask, 0)
    decreases n.Repr, 0
  {
    ghost var t := n.Value();
    var left, right := n.left, n.right;
    assert t.left == ValueOf(left) && t.right == ValueOf(right);
    if left != null && right != null {
      label Before:
      var l := PrintTreeVisual(left, depth, false, mask);
      UntouchedSubtree@Before(right);
      var r := PrintTreeVisual(right, depth, true, mask);
      out := l + r;
    } else if left != null {
      out := PrintTreeVisual(left, depth, true, mask);
    } else if right != null {
      out := PrintTreeVisual(right, depth, true, mask);
    } else {
      out := "";
    }
  }

  /** The child loop of `print_tree_visual` for a statement list whose first
      child is `first`: each child is printed with `is_last` set exactly when
      its `next` is NULL. */
  method PrintChildren(first: Node?, depth: nat, mask: set<nat>) returns (out: string)
    requires first != null ==> first.Valid()
    ensures first == null ==> out == ""
    ensures first != null ==> out == RenderChain(old(first.Value()), depth, mask, 0)
    decreases Footprint(first), 2
  {
    var child := first;
    ghost var rest := ValueOf(first);
    out := "";
    while child != null
      invariant child != null ==> child.Valid() && child.Repr <= Footprint(first)
      invariant child != null <==> rest.Some?
      invariant child != null ==> child.Value() == rest.value
      invariant first != null ==>
                  RenderChain(old(first.Value()), depth, mask, 0)
                  == out + (if rest.None? then "" else RenderChain(rest.value, depth, mask, 0))
      invariant first == null ==> out == ""
      decreases Footprint(child)
    {
      ghost var c := rest.value;
      ghost var tail := if c.next.None? then "" else RenderChain(c.next.value, depth, mask, 0);
      assert RenderChain(c, depth, mask, 0) == RenderNode(c, depth, c.next.None?, mask, 0) + tail;
      var next := child.next;
      label Before:
      var s := PrintTreeVisual(child, depth, next == null, mask);
      ConcatAssoc(out, s, tail);
      out := out + s;
      if next != null {
        UntouchedSubtree@Before(next);
      }
      child := next;
      rest := c.next;
    }
  }
}
