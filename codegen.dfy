/** The C back end of `parser.tab.c`: `gen_expr` writes an expression fully
    parenthesised, `gen_stmt` writes one statement on its own indented line,
    and `generate_target_code` wraps the statement chain in a `main`
    function. `fprintf` to `output.c` is modelled as appending to the
    returned string. */
module Codegen {
  import opened Base
  import opened Ast

  /** The text before the first statement of `output.c`. */
  const Prologue: string := "#include <stdio.h>\n#include <stdlib.h>\n\nint main() {\n"

  /** The text after the last statement of `output.c`. */
  const Epilogue: string := "    return 0;\n}\n"

  /** `indent` repetitions of four spaces. */
  function Indent(indent: nat): string {
    if indent == 0 then "" else Indent(indent - 1) + "    "
  }

  /** The indentation is `4 * indent` spaces. */
  lemma {:induction false} IndentSpaces(indent: nat)
    ensures |Indent(indent)| == 4 * indent
    ensures forall i :: 0 <= i < |Indent(indent)| ==> Indent(indent)[i] == ' '
  {
    if indent > 0 {
      IndentSpaces(indent - 1);
    }
  }

  /** What `gen_expr` writes for a possibly NULL node: nothing for NULL and
      for a statement kind, the number or the name for a leaf, and one pair
      of parentheses around an assignment or an operator application. A
      missing operand writes nothing, so the unary `neg` node writes
      `(e neg )`. */
  function ExprText(o: Option<Tree>): string
    decreases o
  {
    match o
    case None => ""
    case Some(t) =>
      match t.kind
      case Num => DecimalText(t.ival as int)
      case Id => t.sval
      case Assign => "(" + t.sval + " = " + ExprText(t.left) + ")"
      case BinOp => "(" + ExprText(t.left) + " " + t.sval + " " + ExprText(t.right) + ")"
      case _ => ""
  }

  /** What `gen_stmt(s, indent)` writes: the indentation, then the statement. */
  function StmtText(t: Tree, indent: nat): string
    decreases t, 1
  {
    Indent(indent) + StmtBody(t, indent)
  }

  /** Every statement starts on its own indentation. */
  lemma StmtTextIndented(t: Tree, indent: nat)
    ensures var s := StmtText(t, indent);
      |Indent(indent)| <= |s| && s[..|Indent(indent)|] == Indent(indent)
  {
  }

  /** What `gen_stmt` writes after the indentation. A declaration gets its
      initializer only when it has one; a string print inserts the literal
      as it is; an `if` writes its then-block one level deeper and an
      `else` part only when its `next` is a block; a block reached as a
      statement writes nothing; anything else is an expression statement. */
  function StmtBody(t: Tree, indent: nat): string
    decreases t, 0
  {
    match t.kind
    case Decl => "int " + t.sval + (if t.left.Some? then " = " + ExprText(t.left) else "") + ";\n"
    case Print => "printf(\"%d\\n\", " + ExprText(t.left) + ");\n"
    case PrintStr => "printf(\"%s\\n\", " + t.sval + ");\n"
    case If =>
      "if (" + ExprText(t.left) + ") {\n"
      + (if t.right.Some? && t.right.value.kind == StmtList then ChainTextOpt(t.right.value.left, indent + 1) else "")
      + Indent(indent) + "}"
      + (if t.next.Some? && t.next.value.kind == StmtList
         then " else {\n" + ChainTextOpt(t.next.value.left, indent + 1) + Indent(indent) + "}\n"
         else "\n")
    case StmtList => ""
    case _ => ExprText(Some(t)) + ";\n"
  }

  /** The loop `for (p = c; p; p = p->next) gen_stmt(out, p, indent)`. */
  function ChainText(c: Tree, indent: nat): string
    decreases c, 2
  {
    StmtText(c, indent) + ChainTextOpt(c.next, indent)
  }

  /** The same loop from a possibly NULL start. */
  function ChainTextOpt(o: Option<Tree>, indent: nat): string
    decreases o, 3
  {
    if o.None? then "" else ChainText(o.value, indent)
  }

  /** The whole of `output.c` for the statement chain `stmts`. */
  function ProgramText(stmts: Option<Tree>): string {
    Prologue + ChainTextOpt(stmts, 1) + Epilogue
  }

  // Parenthesis structure of the generated expressions.

  function Delta(c: char): int {
    if c == '(' then 1 else if c == ')' then -1 else 0
  }

  /** Opening minus closing parentheses in `s`. */
  function Net(s: string): int {
    if s == [] then 0 else Net(s[..|s| - 1]) + Delta(s[|s| - 1])
  }

  predicate NoParens(s: string) {
    forall i :: 0 <= i < |s| ==> s[i] != '(' && s[i] != ')'
  }

  /** Every parenthesis in `s` is matched within `s`. */
  ghost predicate Balanced(s: string) {
    Net(s) == 0 && forall k :: 0 <= k <= |s| ==> Net(s[..k]) >= 0
  }

  /** `s` is one parenthesised group: its first character opens a
      parenthesis that is closed only by its last character. */
  ghost predicate Wrapped(s: string) {
    && |s| >= 2 && s[0] == '(' && s[|s| - 1] == ')'
    && Net(s) == 0
    && forall k :: 0 < k < |s| ==> Net(s[..k]) > 0
  }

  /** Names and operator texts of an expression contain no parentheses: the
      identifiers the scanner delivers and the operator literals of the
      grammar actions never do. */
  ghost predicate SvalsParenFree(o: Option<Tree>)
    decreases o
  {
    o.Some? ==> NoParens(o.value.sval) && SvalsParenFree(o.value.left) && SvalsParenFree(o.value.right)
  }

  lemma {:induction false} NetConcat(a: string, b: string)
    ensures Net(a + b) == Net(a) + Net(b)
    decreases |b|
  {
    if b != [] {
      assert (a + b)[..|a + b| - 1] == a + b[..|b| - 1];
      NetConcat(a, b[..|b| - 1]);
    } else {
      assert a + b == a;
    }
  }

  lemma {:induction false} NoParensNet(s: string)
    requires NoParens(s)
    ensures Net(s) == 0
    decreases |s|
  {
    if s != [] {
      NoParensNet(s[..|s| - 1]);
    }
  }

  lemma NoParensBalanced(s: string)
    requires NoParens(s)
    ensures Balanced(s)
  {
    NoParensNet(s);
    forall k | 0 <= k <= |s| ensures Net(s[..k]) >= 0 {
      NoParensNet(s[..k]);
    }
  }

  lemma BalancedConcat(a: string, b: string)
    requires Balanced(a) && Balanced(b)
    ensures Balanced(a + b)
  {
    NetConcat(a, b);
    var s := a + b;
    forall k | 0 <= k <= |s| ensures Net(s[..k]) >= 0 {
      if k <= |a| {
        assert s[..k] == a[..k];
      } else {
        assert s[..k] == a + b[..k - |a|];
        NetConcat(a, b[..k - |a|]);
      }
    }
  }

  lemma WrapBalanced(inner: string)
    requires Balanced(inner)
    ensures Wrapped("(" + inner + ")")
  {
    var s := "(" + inner + ")";
    NetConcat("(", inner);
    NetConcat("(" + inner, ")");
    forall k | 0 < k < |s| ensures Net(s[..k]) > 0 {
      assert s[..k] == "(" + inner[..k - 1];
      NetConcat("(", inner[..k - 1]);
    }
  }

  lemma WrappedBalanced(s: string)
    requires Wrapped(s)
    ensures Balanced(s)
  {
    assert s[..0] == "" && s[..|s|] == s;
  }

  /** The text of an assignment is one parenthesised group. */
  lemma AssignWrapped(name: string, value: string)
    requires NoParens(name) && Balanced(value)
    ensures Wrapped("(" + name + " = " + value + ")")
  {
    var head := name + " = ";
    assert NoParens(head);
    NoParensBalanced(head);
    BalancedConcat(head, value);
    assert "(" + name + " = " + value + ")" == "(" + (head + value) + ")";
    WrapBalanced(head + value);
  }

  /** The text of an operator application is one parenthesised group. */
  lemma BinOpWrapped(l: string, op: string, r: string)
    requires Balanced(l) && NoParens(op) && Balanced(r)
    ensures Wrapped("(" + l + " " + op + " " + r + ")")
  {
    var mid := " " + op + " ";
    assert NoParens(mid);
    NoParensBalanced(mid);
    BalancedConcat(l, mid);
    BalancedConcat(l + mid, r);
    assert "(" + l + " " + op + " " + r + ")" == "(" + (l + mid + r) + ")";
    WrapBalanced(l + mid + r);
  }

  /** Every expression `gen_expr` writes has balanced parentheses; the
      leaves contain none, and every assignment and operator application is
      exactly one parenthesised group, so the text fixes the tree shape
      whatever the precedence of the C grammar. */
  lemma {:induction false} ExprTextParenthesised(o: Option<Tree>)
    requires SvalsParenFree(o)
    ensures Balanced(ExprText(o))
    ensures o.Some? && (o.value.kind == Num || o.value.kind == Id) ==> NoParens(ExprText(o))
    ensures o.Some? && (o.value.kind == Assign || o.value.kind == BinOp) ==> Wrapped(ExprText(o))
    decreases o
  {
    match o
    case None =>
      NoParensBalanced("");
    case Some(t) =>
      var s := ExprText(o);
      match t.kind
      case Num =>
        assert NoParens(s);
        NoParensBalanced(s);
      case Id =>
        NoParensBalanced(s);
      case Assign =>
        ExprTextParenthesised(t.left);
        AssignWrapped(t.sval, ExprText(t.left));
        WrappedBalanced(s);
      case BinOp =>
        ExprTextParenthesised(t.left);
        ExprTextParenthesised(t.right);
        BinOpWrapped(ExprText(t.left), t.sval, ExprText(t.right));
        WrappedBalanced(s);
      case _ =>
        NoParensBalanced(s);
  }

  /** Unary minus is written as an operator application with an empty right
      operand, not as a C negation. */
  lemma NegText(e: Tree)
    ensures ExprText(Some(Tree(BinOp, "neg", 0, Some(e), None, None))) == "(" + ExprText(Some(e)) + " neg )"
  {
  }

  /** A statement's text does not depend on its `next` link, except that an
      `if` looks at whether the link is a block and at that block's own
      statements. */
  lemma StmtTextRelinked(t: Tree, n: Option<Tree>, indent: nat)
    requires t.kind == If ==>
               (t.next.Some? && t.next.value.kind == StmtList) == (n.Some? && n.value.kind == StmtList)
    requires t.kind == If && t.next.Some? && t.next.value.kind == StmtList ==> n.value.left == t.next.value.left
    ensures StmtText(t.(next := n), indent) == StmtText(t, indent)
  {
  }

  /** `append_stmt` extends the generated code: the code for the extended
      chain is the code for the old chain followed by the code for the new
      statement, unless the new statement is a block linked after an `if`,
      which the `if` would take as its `else`. */
  lemma {:induction false} ChainTextAppend(h: Tree, s: Tree, indent: nat)
    requires !(Last(h).kind == If && s.kind == StmtList)
    ensures ChainText(AppendChain(h, s), indent) == ChainText(h, indent) + ChainText(s, indent)
    decreases h
  {
    var a := AppendChain(h, s);
    if h.next.None? {
      StmtTextRelinked(h, Some(s), indent);
    } else {
      var t := h.next.value;
      assert a.next == Some(AppendChain(t, s));
      StmtTextRelinked(h, a.next, indent);
      ChainTextAppend(t, s, indent);
      ConcatAssoc(StmtText(h, indent), ChainText(t, indent), ChainText(s, indent));
    }
  }

  /** After an `if … else` on a statement chain the else-block is visited once
      more as the next statement of the chain, where it writes only its
      indentation; the statements after it follow on the same line. */
  lemma IfElseStrayIndent(cond: Tree, thenB: Tree, elseB: Tree, indent: nat)
    requires thenB.kind == StmtList && elseB.kind == StmtList
    ensures var ifn := Tree(If, "", 0, Some(cond), Some(thenB), Some(elseB));
      && ChainText(ifn, indent)
         == StmtText(ifn, indent) + (Indent(indent) + ChainTextOpt(elseB.next, indent))
      && StmtText(ifn, indent)
         == Indent(indent)
            + ("if (" + ExprText(Some(cond)) + ") {\n" + ChainTextOpt(thenB.left, indent + 1)
               + Indent(indent) + "}"
               + (" else {\n" + ChainTextOpt(elseB.left, indent + 1) + Indent(indent) + "}\n"))
  {
    var ifn := Tree(If, "", 0, Some(cond), Some(thenB), Some(elseB));
    assert StmtText(elseB, indent) == Indent(indent) + "" == Indent(indent);
    assert ChainTextOpt(ifn.next, indent) == ChainText(elseB, indent);
  }

  /** An empty program is only the `main` wrapper. */
  lemma EmptyProgram()
    ensures ProgramText(None) == "#include <stdio.h>\n#include <stdlib.h>\n\nint main() {\n    return 0;\n}\n"
  {
  }

  // The emitters over the node records.

  /** `gen_expr(out, n)`, which only appends text, over the heap: the text
      of the expression the node heads. */
  function GenExpr(n: Node?): (r: string)
    reads if n == null then {} else {n} + n.Repr
    requires n != null ==> n.Valid()
    ensures r == ExprText(ValueOf(n))
    decreases Footprint(n)
  {
    if n == null then ""
    else match n.kind
      case Num => DecimalText(n.ival as int)
      case Id => n.sval
      case Assign => "(" + n.sval + " = " + GenExpr(n.left) + ")"
      case BinOp => "(" + GenExpr(n.left) + " " + n.sval + " " + GenExpr(n.right) + ")"
      case _ => ""
  }

  /** The loop `for (int i = 0; i < indent; i++) fprintf(out, "    ")`. */
  method WriteIndent(indent: nat) returns (out: string)
    ensures out == Indent(indent)
  {
    out := "";
    var i := 0;
    while i < indent
      invariant 0 <= i <= indent && out == Indent(i)
    {
      out := out + "    ";
      i := i + 1;
    }
  }

  /** `gen_stmt(out, s, indent)`: nothing for NULL; otherwise the text of
      the statement the node heads. Nothing is modified. */
  method GenStmt(s: Node?, indent: nat) returns (out: string)
    requires s != null ==> s.Valid()
    ensures s == null ==> out == ""
    ensures s != null ==> out == StmtText(old(s.Value()), indent)
    decreases Footprint(s), 1
  {
    if s == null {
      return "";
    }
    ghost var t := s.Value();
    var left, right, next := s.left, s.right, s.next;
    assert t.left == ValueOf(left) && t.right == ValueOf(right) && t.next == ValueOf(next);
    var pad := WriteIndent(indent);
    var body := "";
    match s.kind {
      case Decl =>
        body := "int " + s.sval;
        if left != null {
          body := body + " = " + GenExpr(left);
        }
        body := body + ";\n";
        assert body == StmtBody(t, indent);
      case Print =>
        body := "printf(\"%d\\n\", " + GenExpr(left) + ");\n";
        assert body == StmtBody(t, indent);
      case PrintStr =>
        body := "printf(\"%s\\n\", " + s.sval + ");\n";
        assert body == StmtBody(t, indent);
      case If =>
        body := GenIf(s, indent);
      case StmtList =>
        assert body == StmtBody(t, indent);
      case _ =>
        body := GenExpr(s) + ";\n";
        assert body == StmtBody(t, indent);
    }
    out := pad + body;
  }

  /** The `N_IF` case of `gen_stmt` after the indentation: the condition, the
      then-block's statements one level deeper, the closing brace, and an
      `else` part exactly when `next` is a block. */
  method GenIf(s: Node, indent: nat) returns (out: string)
    requires s.Valid() && s.kind == If
    ensures out == StmtBody(old(s.Value()), indent)
    decreases s.Repr, 0
  {
    ghost var t := s.Value();
    var right, next := s.right, s.next;
    assert t.right == ValueOf(right) && t.next == ValueOf(next);
    var cond := "if (" + GenExpr(s.left) + ") {\n";
    assert cond == "if (" + ExprText(t.left) + ") {\n";
    var hasThen := right != null && right.kind == StmtList;
    var hasElse := next != null && next.kind == StmtList;
    var thenFirst: Node? := if hasThen then right.left else null;
    var elseFirst: Node? := if hasElse then next.left else null;
    assert hasThen ==> ValueOf(thenFirst) == t.right.value.left;
    assert hasElse ==> ValueOf(elseFirst) == t.next.value.left;
    label Before:
    var thenText := "";
    if hasThen {
      thenText := GenChain(thenFirst, indent + 1);
    }
    assert thenText == if t.right.Some? && t.right.value.kind == StmtList
                       then ChainTextOpt(t.right.value.left, indent + 1) else "";
    var close := WriteIndent(indent);
    var elsePart := "\n";
    if hasElse {
      if elseFirst != null {
        UntouchedSubtree@Before(elseFirst);
      }
      var elseText := GenChain(elseFirst, indent + 1);
      var close2 := WriteIndent(indent);
      elsePart := " else {\n" + elseText + close2 + "}\n";
    }
    assert elsePart == if t.next.Some? && t.next.value.kind == StmtList
                       then " else {\n" + ChainTextOpt(t.next.value.left, indent + 1) + Indent(indent) + "}\n"
                       else "\n";
    out := cond + thenText + close + "}" + elsePart;
  }

  /** The loop `for (Node *p = first; p; p = p->next) gen_stmt(out, p,
      indent)`: the text of every statement of the chain, in order. */
  method GenChain(first: Node?, indent: nat) returns (out: string)
    requires first != null ==> first.Valid()
    ensures out == ChainTextOpt(old(ValueOf(first)), indent)
    decreases Footprint(first), 2
  {
    var p := first;
    ghost var rest := ValueOf(first);
    out := "";
    while p != null
      invariant p != null ==> p.Valid() && p.Repr <= Footprint(first)
      invariant p != null <==> rest.Some?
      invariant p != null ==> p.Value() == rest.value
      invariant ChainTextOpt(old(ValueOf(first)), indent) == out + ChainTextOpt(rest, indent)
      decreases Footprint(p)
    {
      ghost var c := rest.value;
      var next := p.next;
      label Before:
      var s := GenStmt(p, indent);
      ConcatAssoc(out, s, ChainTextOpt(c.next, indent));
      out := out + s;
      if next != null {
        UntouchedSubtree@Before(next);
      }
      p := next;
      rest := c.next;
    }
  }

  /** The text `generate_target_code(stmts)` writes to `output.c`: the
      prologue, every statement of the chain at indentation 1, and the
      epilogue. */
  method GenerateTargetCode(stmts: Node?) returns (out: string)
    requires stmts != null ==> stmts.Valid()
    ensures out == ProgramText(old(ValueOf(stmts)))
  {
    var body := GenChain(stmts, 1);
    out := "#include <stdio.h>\n#include <stdlib.h>\n\nint main() {\n" + body + "    return 0;\n}\n";
  }
}
