/** The AST of `parser.tab.c`: one node record shared by every kind of node,
    linked through `left`, `right` and `next`, built bottom-up by `mknode`,
    with statement lists grown in place by `append_stmt`. */
module Ast {
  import opened Base

  /** `NodeType`. */
  datatype NodeType = Decl | Assign | Print | PrintStr | If | BinOp | Num | Id | StmtList

  /** The value of a node record together with everything reachable from it
      through `left`, `right` and `next`. A NULL `sval` is the empty string:
      no code path reads the `sval` of a node that was built without one. */
  datatype Tree = Tree(kind: NodeType, sval: string, ival: int32,
                       left: Option<Tree>, right: Option<Tree>, next: Option<Tree>)

  /** `struct Node`. `Repr` is the set of nodes reachable from this one;
      `Valid` says that what is reachable forms a tree: no cycles and no node
      shared between two links. */
  class Node {
    var kind: NodeType
    var sval: string
    var ival: int32
    var left: Node?
    var right: Node?
    var next: Node?
    ghost var Repr: set<Node>

    ghost predicate Valid()
      reads this, Repr
      decreases Repr
    {
      && this in Repr
      && (left != null ==> left in Repr && left.Repr <= Repr && this !in left.Repr && left.Valid())
      && (right != null ==> right in Repr && right.Repr <= Repr && this !in right.Repr && right.Valid())
      && (next != null ==> next in Repr && next.Repr <= Repr && this !in next.Repr && next.Valid())
      && (left != null && right != null ==> left.Repr !! right.Repr)
      && (left != null && next != null ==> left.Repr !! next.Repr)
      && (right != null && next != null ==> right.Repr !! next.Repr)
    }

    /** The tree this node heads. */
    ghost function Value(): Tree
      reads this, Repr
      requires Valid()
      decreases Repr
    {
      Tree(kind, sval, ival,
           if left == null then None else Some(left.Value()),
           if right == null then None else Some(right.Value()),
           if next == null then None else Some(next.Value()))
    }

    /** `mknode(t, s, val, l, r)`: a fresh node with the given kind, text,
        number and children, and no successor. */
    constructor Make(t: NodeType, s: string, val: int32, l: Node?, r: Node?)
      requires l != null ==> l.Valid()
      requires r != null ==> r.Valid()
      requires l != null && r != null ==> l.Repr !! r.Repr
      ensures Valid()
      ensures kind == t && sval == s && ival == val && left == l && right == r && next == null
      ensures Repr == {this} + Footprint(l) + Footprint(r)
      ensures Value() == Tree(t, s, val, ValueOf(l), ValueOf(r), None)
    {
      kind, sval, ival := t, s, val;
      left, right, next := l, r, null;
      Repr := {this} + Footprint(l) + Footprint(r);
    }
  }

  /** The nodes reachable from a possibly NULL pointer. */
  ghost function Footprint(n: Node?): set<Node>
    reads n
  {
    if n == null then {} else n.Repr
  }

  /** The tree a possibly NULL pointer heads. */
  ghost function ValueOf(n: Node?): Option<Tree>
    reads if n == null then {} else {n} + n.Repr
    requires n != null ==> n.Valid()
  {
    if n == null then None else Some(n.Value())
  }

  /** The nodes on the `next`-chain that starts at `t`, in order. */
  function Chain(t: Tree): (c: seq<Tree>)
    ensures |c| > 0 && c[0] == t
    decreases t
  {
    [t] + if t.next.None? then [] else Chain(t.next.value)
  }

  /** The last node of the `next`-chain that starts at `t`. */
  function Last(t: Tree): (l: Tree)
    ensures l.next.None?
    decreases t
  {
    if t.next.None? then t else Last(t.next.value)
  }

  /** What a chain element holds of its own: the node without its link. */
  function Unlinked(t: Tree): Tree {
    t.(next := None)
  }

  /** The unlinked nodes of a chain. */
  function UnlinkedAll(ts: seq<Tree>): seq<Tree> {
    if ts == [] then [] else [Unlinked(ts[0])] + UnlinkedAll(ts[1..])
  }

  lemma UnlinkedAllCons(t: Tree, ts: seq<Tree>)
    ensures UnlinkedAll([t] + ts) == [Unlinked(t)] + UnlinkedAll(ts)
  {
    assert ([t] + ts)[1..] == ts;
  }

  /** The tree `h` with `s` linked after the last node of its `next`-chain:
      the value of `append_stmt(h, s)`. */
  function AppendChain(h: Tree, s: Tree): Tree
    decreases h
  {
    h.(next := Some(if h.next.None? then s else AppendChain(h.next.value, s)))
  }

  /** Appending keeps the statement order: the chain from the head is the old
      chain followed by the chain from the appended statement, and every node
      other than the old last one keeps its kind, text, number and children. */
  lemma {:induction false} AppendChainConcat(h: Tree, s: Tree)
    ensures UnlinkedAll(Chain(AppendChain(h, s))) == UnlinkedAll(Chain(h)) + UnlinkedAll(Chain(s))
    decreases h
  {
    if h.next.None? {
      AppendChainConcatLast(h, s);
    } else {
      AppendChainConcat(h.next.value, s);
      AppendChainConcatStep(h, s);
    }
  }

  /** The base case: appending after a single node. */
  lemma AppendChainConcatLast(h: Tree, s: Tree)
    requires h.next.None?
    ensures UnlinkedAll(Chain(AppendChain(h, s))) == UnlinkedAll(Chain(h)) + UnlinkedAll(Chain(s))
  {
    var a := AppendChain(h, s);
    assert Unlinked(a) == Unlinked(h);
    assert Chain(a) == [a] + Chain(s);
    assert Chain(h) == [h] + [];
    UnlinkedAllCons(a, Chain(s));
    UnlinkedAllCons(h, []);
  }

  /** The inductive step: the chain after the head's successor already
      appends correctly. */
  lemma AppendChainConcatStep(h: Tree, s: Tree)
    requires h.next.Some?
    requires UnlinkedAll(Chain(AppendChain(h.next.value, s)))
             == UnlinkedAll(Chain(h.next.value)) + UnlinkedAll(Chain(s))
    ensures UnlinkedAll(Chain(AppendChain(h, s))) == UnlinkedAll(Chain(h)) + UnlinkedAll(Chain(s))
  {
    var a := AppendChain(h, s);
    var t := h.next.value;
    assert Unlinked(a) == Unlinked(h);
    assert Chain(a) == [a] + Chain(AppendChain(t, s));
    assert Chain(h) == [h] + Chain(t);
    UnlinkedAllCons(a, Chain(AppendChain(t, s)));
    UnlinkedAllCons(h, Chain(t));
    ConcatAssoc([Unlinked(h)], UnlinkedAll(Chain(t)), UnlinkedAll(Chain(s)));
  }

  /** After appending, the chain ends where the appended statement's chain
      ends. */
  lemma {:induction false} AppendChainLast(h: Tree, s: Tree)
    ensures Last(AppendChain(h, s)) == Last(s)
    decreases h
  {
    if h.next.Some? {
      AppendChainLast(h.next.value, s);
    }
  }

  /** The last node of the `next`-chain that starts at `n`. */
  ghost function LastNode(n: Node): (l: Node)
    reads n, n.Repr
    requires n.Valid()
    ensures l in n.Repr && l.Valid() && l.next == null
    decreases n.Repr
  {
    if n.next == null then n else LastNode(n.next)
  }

  /** The walk of `append_stmt`: follow `next` from `head` to the node whose
      `next` is NULL. */
  method FindLast(head: Node) returns (p: Node)
    requires head.Valid()
    ensures p == LastNode(head)
  {
    p := head;
    while p.next != null
      invariant p.Valid() && LastNode(p) == LastNode(head)
      decreases p.Repr
    {
      p := p.next;
    }
  }

  /** A subtree none of whose nodes changed keeps its validity and value. */
  twostate lemma UntouchedSubtree(n: Node)
    requires old(n.Valid())
    requires unchanged(old(n.Repr))
    ensures n.Valid() && n.Repr == old(n.Repr) && n.Value() == old(n.Value())
  {
  }

  /** The store of `append_stmt`, `p->next = stmt`, on a node with no
      successor. */
  method Store(p: Node, stmt: Node)
    requires p.Valid() && p.next == null && stmt.Valid() && p.Repr !! stmt.Repr
    modifies p
    ensures p.Valid() && p.Repr == old(p.Repr) + stmt.Repr
    ensures p.Value() == old(p.Value()).(next := Some(stmt.Value()))
  {
    p.next := stmt;
    p.Repr := p.Repr + stmt.Repr;
    if p.left != null { UntouchedSubtree(p.left); }
    if p.right != null { UntouchedSubtree(p.right); }
  }

  /** Linking `stmt` after the last node `p` of the chain from `n`: the store
      happens at `p`; on the way down only the ghost footprints of the
      chain's nodes grow. */
  method Link(n: Node, p: Node, stmt: Node)
    requires n.Valid() && stmt.Valid() && n.Repr !! stmt.Repr
    requires p == LastNode(n)
    modifies n.Repr
    ensures n.Valid() && n.Repr == old(n.Repr) + stmt.Repr
    ensures n.Value() == AppendChain(old(n.Value()), stmt.Value())
    decreases n.Repr
  {
    if n.next == null {
      assert p == n;
      Store(p, stmt);
    } else {
      assert p != n;
      Link(n.next, p, stmt);
      label Linked:
      n.Repr := n.Repr + stmt.Repr;
      if n.left != null { UntouchedSubtree(n.left); }
      if n.right != null { UntouchedSubtree(n.right); }
      UntouchedSubtree@Linked(n.next);
      UntouchedSubtree@Linked(stmt);
      assert old(n.Value()).next == Some(old(n.next.Value()));
    }
  }

  /** `append_stmt(head, stmt)`: with no list, the statement is the list;
      otherwise walk `next` to the last node and link the statement there,
      returning the same head. Only the last node's `next` changes. */
  method AppendStmt(head: Node?, stmt: Node) returns (r: Node)
    requires stmt.Valid()
    requires head != null ==> head.Valid() && head.Repr !! stmt.Repr
    modifies Footprint(head)
    ensures r.Valid()
    ensures head == null ==> r == stmt
    ensures head != null ==> r == head && r.Repr == old(head.Repr) + stmt.Repr
    ensures head != null ==> r.Value() == AppendChain(old(head.Value()), old(stmt.Value()))
    ensures stmt.Valid() && stmt.Value() == old(stmt.Value())
  {
    if head == null {
      return stmt;
    }
    var p := FindLast(head);
    Link(head, p, stmt);
    r := head;
  }
}
