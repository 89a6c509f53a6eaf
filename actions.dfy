/** The semantic actions of the grammar rules of `parser.tab.c`, in the form
    the LALR driver runs them: rules 14 to 23 share one method, rules 3, 7
    and 25 build nothing, and every other rule has its own. Each takes the values
    of the rule's right-hand side, already built by earlier reductions, and
    returns the value of its left-hand side. A failed symbol-table check,
    which exits the process, is an `Err` result. */
module Actions {
  import opened Base
  import opened Symbols
  import opened Ast
  import opened Render
  import opened Codegen

  /** The ten binary operators of rules 14 to 23. */
  datatype Operator = Add | Sub | Mul | Div | Eq | Ne | Lt | Gt | Le | Ge

  /** The operator text each rule stores in the node's `sval`. */
  function OpText(op: Operator): (s: string)
    ensures 1 <= |s| <= 2 && NoParens(s)
  {
    match op
    case Add => "+"
    case Sub => "-"
    case Mul => "*"
    case Div => "/"
    case Eq => "=="
    case Ne => "!="
    case Lt => "<"
    case Gt => ">"
    case Le => "<="
    case Ge => ">="
  }

  /** Distinct operators are written differently, so the generated C keeps
      the operator the program used; none of them is the `neg` of unary
      minus. */
  lemma OpTextInjective(a: Operator, b: Operator)
    ensures OpText(a) == OpText(b) <==> a == b
    ensures OpText(a) != "neg"
  {
  }

  /** Rule 4, `stmt_list: stmt_list statement`: with no list yet (rule 3
      gives NULL) the statement is the list, otherwise it is appended. */
  method ListAppend(list: Node?, stmt: Node) returns (r: Node)
    requires stmt.Valid()
    requires list != null ==> list.Valid() && list.Repr !! stmt.Repr
    modifies Footprint(list)
    ensures r.Valid()
    ensures list == null ==> r == stmt
    ensures list != null ==> r == list && r.Repr == old(list.Repr) + stmt.Repr
    ensures list != null ==> r.Value() == AppendChain(old(list.Value()), old(stmt.Value()))
    ensures stmt.Valid() && stmt.Value() == old(stmt.Value())
  {
    if list == null {
      r := stmt;
    } else {
      r := AppendStmt(list, stmt);
    }
  }

  /** Rule 5, `statement: INT ID ';'`: declare the name, then build the
      declaration. */
  method DeclStmt(st: SymbolTable, name: string) returns (r: Result<Node>)
    requires st.Valid()
    modifies st
    ensures st.Valid()
    ensures Step(old(st.names), Declare(name)) == if r.Ok? then Ok(st.names) else Err(r.error)
    ensures r.Ok? ==> && fresh(r.value) && r.value.Valid() && r.value.Repr == {r.value}
                      && r.value.Value() == Tree(Decl, name, 0, None, None, None)
  {
    var o := st.AddSymbol(name);
    if o.Fail? {
      return Err(o.error);
    }
    var n := new Node.Make(Decl, name, 0, null, null);
    r := Ok(n);
  }

  /** Rule 6, `statement: INT ID '=' expr ';'`: the initializer has already
      been reduced, so its names were looked up before this declaration. */
  method DeclInitStmt(st: SymbolTable, name: string, init: Node) returns (r: Result<Node>)
    requires st.Valid() && init.Valid()
    modifies st
    ensures st.Valid()
    ensures Step(old(st.names), Declare(name)) == if r.Ok? then Ok(st.names) else Err(r.error)
    ensures r.Ok? ==> && fresh(r.value) && r.value.Valid()
                      && r.value.Repr == {r.value} + init.Repr
                      && r.value.Value() == Tree(Decl, name, 0, Some(old(init.Value())), None, None)
  {
    var o := st.AddSymbol(name);
    if o.Fail? {
      return Err(o.error);
    }
    var n := new Node.Make(Decl, name, 0, init, null);
    r := Ok(n);
  }

  /** Rule 8, `statement: PRINT '(' expr ')' ';'`. */
  method PrintStmt(e: Node) returns (r: Node)
    requires e.Valid()
    ensures fresh(r) && r.Valid() && r.Repr == {r} + e.Repr
    ensures r.Value() == Tree(Print, "", 0, Some(e.Value()), None, None)
  {
    r := new Node.Make(Print, "", 0, e, null);
  }

  /** Rule 9, `statement: PRINT '(' STRING ')' ';'`: the literal, quotes
      included, becomes the node's text. */
  method PrintStrStmt(literal: string) returns (r: Node)
    ensures fresh(r) && r.Valid() && r.Repr == {r}
    ensures r.Value() == Tree(PrintStr, literal, 0, None, None, None)
  {
    r := new Node.Make(PrintStr, literal, 0, null, null);
  }

  /** Rule 10, `statement: IF '(' expr ')' block`. */
  method IfStmt(cond: Node, thenB: Node) returns (r: Node)
    requires cond.Valid() && thenB.Valid() && cond.Repr !! thenB.Repr
    ensures fresh(r) && r.Valid() && r.Repr == {r} + cond.Repr + thenB.Repr
    ensures r.Value() == Tree(If, "", 0, Some(cond.Value()), Some(thenB.Value()), None)
  {
    r := new Node.Make(If, "", 0, cond, thenB);
  }

  /** Rule 11, `statement: IF '(' expr ')' block ELSE block`: the else-block
      is stored in the If node's own `next` link. */
  method IfElseStmt(cond: Node, thenB: Node, elseB: Node) returns (r: Node)
    requires cond.Valid() && thenB.Valid() && elseB.Valid()
    requires cond.Repr !! thenB.Repr && cond.Repr !! elseB.Repr && thenB.Repr !! elseB.Repr
    ensures fresh(r) && r.Valid() && r.Repr == {r} + cond.Repr + thenB.Repr + elseB.Repr
    ensures r.Value() == Tree(If, "", 0, Some(old(cond.Value())), Some(old(thenB.Value())), Some(old(elseB.Value())))
  {
    r := new Node.Make(If, "", 0, cond, thenB);
    label Made:
    r.next := elseB;
    r.Repr := r.Repr + elseB.Repr;
    UntouchedSubtree@Made(cond);
    UntouchedSubtree@Made(thenB);
    UntouchedSubtree@Made(elseB);
  }

  /** Rule 12, `block: '{' stmt_list '}'`: a block node whose left child is
      the statement chain, NULL for an empty block. */
  method Block(list: Node?) returns (r: Node)
    requires list != null ==> list.Valid()
    ensures fresh(r) && r.Valid() && r.Repr == {r} + Footprint(list)
    ensures r.Value() == Tree(StmtList, "", 0, ValueOf(list), None, None)
  {
    r := new Node.Make(StmtList, "", 0, list, null);
  }

  /** Rule 13, `expr: ID '=' expr`: the target must already be declared. */
  method AssignExpr(st: SymbolTable, name: string, value: Node) returns (r: Result<Node>)
    requires value.Valid()
    ensures Step(st.names, Lookup(name)) == if r.Ok? then Ok(st.names) else Err(r.error)
    ensures r.Ok? ==> && fresh(r.value) && r.value.Valid() && r.value.Repr == {r.value} + value.Repr
                      && r.value.Value() == Tree(Assign, name, 0, Some(value.Value()), None, None)
  {
    var o := st.CheckDeclared(name);
    if o.Fail? {
      return Err(o.error);
    }
    var n := new Node.Make(Assign, name, 0, value, null);
    r := Ok(n);
  }

  /** Rules 14 to 23, `expr: expr op expr`. */
  method BinOpExpr(op: Operator, l: Node, r: Node) returns (n: Node)
    requires l.Valid() && r.Valid() && l.Repr !! r.Repr
    ensures fresh(n) && n.Valid() && n.Repr == {n} + l.Repr + r.Repr
    ensures n.Value() == Tree(BinOp, OpText(op), 0, Some(l.Value()), Some(r.Value()), None)
  {
    n := new Node.Make(BinOp, OpText(op), 0, l, r);
  }

  /** Rule 24, `expr: '-' expr`: an operator node `neg` with only a left
      operand. */
  method NegExpr(e: Node) returns (r: Node)
    requires e.Valid()
    ensures fresh(r) && r.Valid() && r.Repr == {r} + e.Repr
    ensures r.Value() == Tree(BinOp, "neg", 0, Some(e.Value()), None, None)
  {
    r := new Node.Make(BinOp, "neg", 0, e, null);
  }

  /** Rule 26, `expr: NUMBER`. */
  method NumExpr(v: int32) returns (r: Node)
    ensures fresh(r) && r.Valid() && r.Repr == {r}
    ensures r.Value() == Tree(Num, "", v, None, None, None)
  {
    r := new Node.Make(Num, "", v, null, null);
  }

  /** Rule 27, `expr: ID`: the name must already be declared. */
  method IdExpr(st: SymbolTable, name: string) returns (r: Result<Node>)
    ensures Step(st.names, Lookup(name)) == if r.Ok? then Ok(st.names) else Err(r.error)
    ensures r.Ok? ==> && fresh(r.value) && r.value.Valid() && r.value.Repr == {r.value}
                      && r.value.Value() == Tree(Id, name, 0, None, None, None)
  {
    var o := st.CheckDeclared(name);
    if o.Fail? {
      return Err(o.error);
    }
    var n := new Node.Make(Id, name, 0, null, null);
    r := Ok(n);
  }

  /** The banner lines `program: stmt_list` prints around the tree. */
  const TreeBanner: string := "\n--- VISUAL PARSE TREE ---\n"
  const TreeFooter: string := "-------------------------\n\n"

  /** What rule 2 prints on standard output: the banners around the tree of
      a block wrapping the whole statement chain, printed as the last (and
      only) root with the prefixes `print_branch` writes; nothing between
      the banners for an empty program. */
  function ScreenText(stmts: Option<Tree>): string {
    TreeBanner
    + (if stmts.None? then "" else RenderNode(Tree(StmtList, "", 0, stmts, None, None), 0, true, {}, 0))
    + TreeFooter
  }

  /** Rule 2, `program: stmt_list`: print the tree, then write `output.c`.
      The standard output and the file are returned as two strings. */
  method Program(stmts: Node?) returns (screen: string, code: string)
    requires stmts != null ==> stmts.Valid()
    ensures screen == ScreenText(old(ValueOf(stmts)))
    ensures code == ProgramText(old(ValueOf(stmts)))
  {
    var tree := "";
    if stmts != null {
      var root := new Node.Make(StmtList, "", 0, stmts, null);
      tree := PrintTreeVisual(root, 0, true, {});
    }
    screen := TreeBanner + tree + TreeFooter;
    if stmts != null {
      UntouchedSubtree(stmts);
    }
    code := GenerateTargetCode(stmts);
  }

  // The order of symbol-table operations.

  /** The symbol-table operations of reducing an expression tree: operands
      are reduced before the rule that combines them, so lookups happen in
      post-order; an assignment looks up its target after its value. */
  function ExprEvents(o: Option<Tree>): seq<Event>
    decreases o
  {
    match o
    case None => []
    case Some(t) =>
      match t.kind
      case Id => [Lookup(t.sval)]
      case Assign => ExprEvents(t.left) + [Lookup(t.sval)]
      case BinOp => ExprEvents(t.left) + ExprEvents(t.right)
      case _ => []
  }

  /** Reducing an expression only looks names up. */
  lemma {:induction false} ExprEventsLookups(o: Option<Tree>)
    ensures forall e :: e in ExprEvents(o) ==> e.Lookup?
    decreases o
  {
    match o
    case None =>
    case Some(t) =>
      ExprEventsLookups(t.left);
      ExprEventsLookups(t.right);
  }

  /** A run of lookups changes nothing when it succeeds, fails only with
      "not declared", and fails whenever one of the names is missing. */
  lemma {:induction false} LookupRun(names: seq<string>, trace: seq<Event>)
    requires forall e :: e in trace ==> e.Lookup?
    ensures Run(names, trace) == Ok(names) || (Run(names, trace).Err? && Run(names, trace).error.NotDeclared?)
    ensures (exists e :: e in trace && e.name !in names) ==> Run(names, trace).Err?
    decreases |trace|
  {
    if trace != [] {
      assert trace[0] in trace;
      forall e | e in trace[1..] ensures e.Lookup? {
        assert e in trace;
      }
      LookupRun(names, trace[1..]);
      assert forall e :: e in trace ==> e == trace[0] || e in trace[1..];
    }
  }

  /** `int x = e;` where `e` uses `x` and `x` is not yet declared fails as
      an undeclared use, never as a duplicate declaration: the initializer's
      lookups all happen before `x` is added. */
  lemma SelfInitializedDeclFails(names: seq<string>, x: string, e: Tree)
    requires x !in names
    requires Lookup(x) in ExprEvents(Some(e))
    ensures var r := Run(names, ExprEvents(Some(e)) + [Declare(x)]);
      r.Err? && r.error.NotDeclared?
  {
    var l := ExprEvents(Some(e));
    ExprEventsLookups(Some(e));
    RunAppend(names, l, [Declare(x)]);
    assert Lookup(x) in l && Lookup(x).name !in names;
    LookupRun(names, l);
  }

  /** A statement appended after an `if … else` is linked onto the
      else-block, not onto the If node: the If keeps its else-block, whose
      chain now holds the new statement. */
  lemma AppendAfterIfElse(ifn: Tree, s: Tree)
    requires ifn.kind == If && ifn.next.Some?
    ensures AppendChain(ifn, s) == ifn.(next := Some(AppendChain(ifn.next.value, s)))
    ensures AppendChain(ifn, s).next.value.kind == ifn.next.value.kind
    ensures AppendChain(ifn, s).next.value.left == ifn.next.value.left
  {
  }

  // Small whole programs, built by the actions in the order of their
  // reductions.

  /** The statement chain of `int x = 2 * 8; print(x);`. */
  function DeclAndPrintTree(): Tree {
    var product := Tree(BinOp, "*", 0, Some(Tree(Num, "", 2, None, None, None)),
                        Some(Tree(Num, "", 8, None, None, None)), None);
    var use := Tree(Print, "", 0, Some(Tree(Id, "x", 0, None, None, None)), None, None);
    Tree(Decl, "x", 0, Some(product), None, Some(use))
  }

  /** The two statement lines of the `output.c` of `int x = 2 * 8; print(x);`,
      `    int x = (2 * 8);` and `    printf("%d\n", x);`, written piece by
      piece as the generator emits them. */
  const DeclAndPrintDeclLine: string :=
    "    " + ("int " + "x" + (" = " + ("(" + "2" + " " + "*" + " " + "8" + ")")) + ";\n")
  const DeclAndPrintPrintLine: string :=
    "    " + ("printf(\"%d\\n\", " + "x" + ");\n")

  lemma SmallNumbersText()
    ensures DecimalText(2) == "2" && DecimalText(8) == "8"
  {
    assert DigitChar(2) == '2' && DigitChar(8) == '8';
  }

  lemma DeclAndPrintDeclGenerated()
    ensures StmtText(DeclAndPrintTree(), 1) == DeclAndPrintDeclLine
  {
    SmallNumbersText();
    assert Indent(1) == "    ";
  }

  lemma DeclAndPrintPrintGenerated()
    ensures StmtText(DeclAndPrintTree().next.value, 1) == DeclAndPrintPrintLine
  {
  }

  /** The `output.c` of `int x = 2 * 8; print(x);`: the declaration with its
      initializer in parentheses, then the print, inside `main`. */
  lemma DeclAndPrintGenerated()
    ensures ProgramText(Some(DeclAndPrintTree()))
            == Prologue + DeclAndPrintDeclLine + DeclAndPrintPrintLine + Epilogue
  {
    var d := DeclAndPrintTree();
    DeclAndPrintDeclGenerated();
    DeclAndPrintPrintGenerated();
    assert ChainTextOpt(Some(d), 1) == DeclAndPrintDeclLine + (DeclAndPrintPrintLine + "");
  }

  /** `int x = 2 * 8; print(x);` as its reductions build it: the
      declaration is checked and added after its initializer is built (no
      names in it), the print's `x` is looked up after that; rule 4 appends
      the print to the chain the declaration started. The run succeeds and
      the chain has the declaration followed by the print. */
  lemma DeclAndPrintReductions()
    ensures Run([], ExprEvents(DeclAndPrintTree().left) + [Declare("x")] + [Lookup("x")]) == Ok(["x"])
    ensures var d := DeclAndPrintTree();
      AppendChain(d.(next := None), d.next.value) == d
  {
    var trace := ExprEvents(DeclAndPrintTree().left) + [Declare("x")] + [Lookup("x")];
    assert ExprEvents(DeclAndPrintTree().left) == [];
    assert trace == [Declare("x"), Lookup("x")];
    assert "x" !in [] && ["x"] + [] == ["x"];
    assert Step([], Declare("x")) == Ok(["x"]);
    assert trace[1..] == [Lookup("x")];
    assert Run(["x"], [Lookup("x")]) == Ok(["x"]) by {
      assert [Lookup("x")][1..] == [];
      assert Step(["x"], Lookup("x")) == Ok(["x"]);
    }
  }

  /** `print(y);` with nothing declared: reducing `y` fails as an undeclared
      use, before the print statement is built. */
  method CompileUndeclared() returns (r: Result<Node>)
    ensures r == Err(NotDeclared("y"))
  {
    var st := new SymbolTable();
    r := IdExpr(st, "y");
  }

  /** `int x; int x;`: the first declaration succeeds and the second fails
      as a duplicate declaration of `x`. */
  method CompileDuplicate() returns (first: Result<Node>, second: Result<Node>)
    ensures first.Ok? && second == Err(AlreadyDeclared("x"))
  {
    var st := new SymbolTable();
    first := DeclStmt(st, "x");
    second := DeclStmt(st, "x");
  }
}
