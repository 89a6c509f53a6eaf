# A verified model of a minimal compiler front end

The system is a front end for a small imperative language: integer
declarations, assignment, `print`, `if`/`else`, arithmetic and relational
expressions, and string literals. A Bison-generated parser calls
hand-written semantic actions. These actions do four things:

- they keep a flat symbol table that checks each name is declared before
  it is used;
- they build an abstract syntax tree out of one generic node record;
- they print that tree as a connector-style text drawing;
- they translate the program into a C file, `output.c`.

This project models that hand-written layer in Dafny and proves its
properties. The model has these files:

- `base.dfy`: the optional value, the two fatal semantic errors, the C
  `int` range, and the text `printf("%d")` writes, with its read-back
  proof.
- `symbols.dfy`: the symbol table as a class holding the list of names,
  newest first. Its two scanning loops are `AddSymbol` and
  `CheckDeclared`. A trace model, `Step` and `Run`, describes a whole
  compilation's sequence of table operations.
- `ast.dfy`: the node record as a heap class `Node`. Its ghost footprint
  `Repr` and invariant `Valid` make the reachable nodes a tree. Its value
  is the datatype `Tree`. The file also holds `mknode` (the constructor
  `Make`) and `append_stmt`: the tail walk `FindLast` and the store,
  modelled by `Store`, `Link` and `AppendStmt`. `AppendChain` is the
  value-level account of the append.
- `render.dfy`: `print_branch` and `print_tree_visual`. The printer
  methods walk the heap and are proved equal to the pure rendering
  functions `RenderNode`, `RenderBelow`, `RenderOperands` and
  `RenderChain`. These take an `offset`: offset 0 is the prefix as
  `print_branch` writes it, which is what the printer methods produce;
  offset 1 is the corrected prefix (see "Findings").
- `codegen.dfy`: `gen_expr`, `gen_stmt` and the text of
  `generate_target_code`. The heap methods are proved equal to the pure
  functions `ExprText`, `StmtText`, `StmtBody`, `ChainText` and
  `ProgramText`. The file also proves the parenthesis structure of the
  generated expressions.
- `reader.dfy`: a reader for the expression text `gen_expr` writes. It
  uses no operator precedence, and it is proved to give back every
  expression tree the rules build.
- `actions.dfy`: the semantic actions of rules 2 to 27. Rules 14 to 23
  share one method, `BinOpExpr`. Rules 3, 7 and 25 build nothing and
  have no method. Every other rule has its own method. Each method takes
  the already-built right-hand-side values in reduction order. A failed
  symbol-table check ends the process with `exit(1)`; here it is an
  `Err` result. The file also proves the order of table operations
  inside an expression and a few whole-program scenarios.

Output is modelled as text: `printf` and `fprintf` append to a returned
string. The standard output of rule 2 and the contents of `output.c` are
two separate strings.

The model follows the code, including these behaviours, which a reader
of the grammar might not expect:

- Unary minus is an operator node with text `neg` and no right operand.
  `gen_expr` therefore writes `(e neg )`, not `(-e)`. `Codegen.NegText`
  states this.
- The if/else action stores the else-block in the If node's `next`
  link, which is also the statement-chain link. That has three effects:
  - A statement appended after an if/else is linked onto the else-block
    (`AppendAfterIfElse`).
  - The printer shows the else-block as a separate `BLOCK` sibling of the
    `IF` line (`IfElseRendersElseAsSibling`).
  - `generate_target_code` visits the else-block a second time as a
    statement. There it writes only its indentation, so the statement
    after the if/else starts on that indented line
    (`IfElseStrayIndent`).
- `print_branch` draws each ancestor's continuation bar one column to the
  right of that ancestor's connector. The printer is modelled as written
  (offset 0). The corrected prefix (offset 1) is defined and proved
  beside it. See "Findings" below.

## Model

| member | source | states |
|---|---|---|
| Base.DecimalText | parser.tab.c:1650 | the `%d` text of an `int` is non-empty, is made of digits except that its first character may be a minus sign, and starts with `-` exactly when the number is negative |
| Base.NatTextRoundTrip | parser.tab.c:1650 | reading the digits written for a natural number gives back that number |
| Base.DecimalTextRoundTrip | parser.tab.c:1650 | reading back the `%d` text of any `int` gives the number: a leading `-` for negatives, then the magnitude's digits |
| Symbols.SymbolTable.constructor | parser.tab.c:81 | the table starts empty |
| Symbols.SymbolTable.AddSymbol | parser.tab.c:83-96 | a name already present fails as "already declared" and leaves the list unchanged; otherwise the new list is the name followed by the old list; the list stays free of duplicates; the result agrees with `Step` on a declaration |
| Symbols.SymbolTable.CheckDeclared | parser.tab.c:98-106 | succeeds exactly when the name is on the list, otherwise fails as "not declared"; modifies nothing; agrees with `Step` on a lookup |
| Symbols.RunAppend | parser.tab.c:83-106 | running two sequences of table operations one after the other is running their concatenation, and a failure ends the run |
| Symbols.StepKeeps | parser.tab.c:83-96 | one successful operation keeps the list free of duplicates and only adds names in front of it |
| Symbols.RunRemembers | parser.tab.c:83-96 | a name that was present, or was declared during a successful run, is present at its end: nothing is ever removed, not even at the end of a block |
| Symbols.RunOnlyDeclares | parser.tab.c:83-106 | a name present after a successful run was present before it or was declared by it |
| Symbols.RunKeepsNames | parser.tab.c:83-106 | after a successful run the list has no duplicates, ends with the old list, and holds exactly the old names plus the declared ones |
| Symbols.DuplicateDeclarationFails | parser.tab.c:86-89 | two declarations of the same name make the compilation fail; if nothing before the second one fails, the error is "already declared" for that name |
| Symbols.UndeclaredUseFails | parser.tab.c:98-106 | a lookup of a name that was neither present at the start nor declared earlier makes the run fail; if nothing before it fails, the error is "not declared" for that name |
| Ast.Node.Make | parser.tab.c:1575-1585 | `mknode` gives a fresh valid node with the given kind, text, number and children and no successor, whose value is built from its children's values |
| Ast.AppendChainConcat | parser.tab.c:1587-1593 | after an append, the chain from the head is the old chain followed by the appended statement's chain, and every node on it keeps its kind, text, number and children |
| Ast.AppendChainLast | parser.tab.c:1587-1593 | after an append, the chain ends where the appended statement's chain ends |
| Ast.LastNode | parser.tab.c:1590 | the node the tail walk stops at is reachable from the head and has no successor |
| Ast.FindLast | parser.tab.c:1589-1590 | the walk along `next` stops at the last node of the chain |
| Ast.Store | parser.tab.c:1591 | linking a statement after a node with no successor sets that node's successor and changes nothing else |
| Ast.Link | parser.tab.c:1589-1591 | linking at the last node turns the chain's value into the old chain with the statement appended; the footprint grows by the statement's nodes |
| Ast.AppendStmt | parser.tab.c:1587-1593 | with no list the statement becomes the list; otherwise the same head comes back, its chain's value is the old chain with the statement appended (`AppendChain`), and the statement itself is unchanged |
| Render.Segment | parser.tab.c:1597-1600 | one column of the prefix is four characters |
| Render.Segments | parser.tab.c:1597-1600 | `k` columns are `4 * k` characters |
| Render.SegmentAt | parser.tab.c:1597-1600 | column `i` of the prefix is the bar or the blank chosen by the mask bit for that column |
| Render.ChildMask | parser.tab.c:1625-1626 | the mask given to the children gains the node's own depth exactly when the node is not last, and no other bit changes |
| Render.BranchShape | parser.tab.c:1596-1605 | the corrected prefix is `4 * depth` characters, empty for the root, and ends with `+-- ` for a last child and `|-- ` otherwise; below each ancestor's connector it has a bar exactly when that ancestor has further siblings |
| Render.BranchAsWrittenShape | parser.tab.c:1596-1605 | the prefix as written is `4 * depth` characters, empty for the root, and ends with the connector; but the column below the connector of the ancestor at depth `j` shows that ancestor's parent's bit, `j - 1`, instead of bit `j` |
| Render.BarShiftedAsWritten | parser.tab.c:1596-1626 | for a depth-1 node with a later sibling, the line of its child has no bar as written and has one when corrected; its grandchildren get the bar one column to the right as written |
| Render.ChildLineShifted | parser.tab.c:1596-1626 | the printed line of the only child of a depth-1 node with a later sibling starts with `    +-- `, with no bar below the parent's `\|-- `; the corrected rendering starts it with `\|   +-- ` |
| Render.RenderChainAll | parser.tab.c:1628-1633 | with either prefix, the child loop prints the chain's nodes in order, marking only the last one as last |
| Render.RenderNodeStarts | parser.tab.c:1609-1621 | with either prefix, each node's text starts with its prefix followed by its label line |
| Render.IfElseRendersElseAsSibling | parser.tab.c:1607-1644 | in a statement list, an if/else prints as an `IF` line that is not last, with the condition and then-block below it, followed by the else-block's whole chain as siblings at the same depth |
| Render.PrintTreeVisual | parser.tab.c:1596-1644 | prints nothing for NULL; otherwise prints exactly `RenderNode` of the tree the node heads, with the prefixes `print_branch` writes; modifies nothing, so printing twice gives the same text |
| Render.PrintOperands | parser.tab.c:1634-1643 | with two children, prints the left one as not last and then the right one as last; a single child is printed as last; prints nothing when there are no children; prefixes as `print_branch` writes them |
| Render.PrintChildren | parser.tab.c:1628-1633 | the child loop prints exactly `RenderChain` of the first child, with the prefixes `print_branch` writes, each child marked last exactly when its `next` is NULL |
| Codegen.IndentSpaces | parser.tab.c:1670 | the indentation is `4 * indent` characters, all spaces |
| Codegen.StmtTextIndented | parser.tab.c:1668-1670 | every statement's text starts with its indentation |
| Codegen.AssignWrapped | parser.tab.c:1652-1656 | an assignment's text is one parenthesised group when its value's text is balanced |
| Codegen.BinOpWrapped | parser.tab.c:1657-1663 | an operator application's text is one parenthesised group when its operands' texts are balanced |
| Codegen.ExprTextParenthesised | parser.tab.c:1647-1666 | every expression text has balanced parentheses; numbers and names contain none; each assignment and operator application is exactly one parenthesised group |
| Codegen.NegText | parser.tab.c:1657-1663 | unary minus is written as `(e neg )` |
| Codegen.StmtTextRelinked | parser.tab.c:1668-1709 | a statement's text does not depend on its `next` link, except that an `if` looks at whether `next` is a block and at that block's statements |
| Codegen.ChainTextAppend | parser.tab.c:1738 | appending a statement to a chain appends its code to the chain's code, unless a block is appended directly after an `if`, which then takes it as its `else` |
| Codegen.IfElseStrayIndent | parser.tab.c:1689-1703 | after an if/else the chain's code is the `if … else` text followed by the else-block's indentation alone, then the following statements |
| Reader.BuiltExpressionsReadable | parser.tab.c:1278-1372 | the nodes the expression rules build from readable operands are readable: operator texts, `neg`, non-negative numbers, names and assignments to names |
| Reader.ParseExprText | parser.tab.c:1647-1666 | reading the text of a readable expression, followed by nothing, a space or `)`, gives back the expression and leaves exactly what followed |
| Reader.ReadBack | parser.tab.c:1647-1666 | the text `gen_expr` writes for a readable expression reads back to that expression, without any operator precedence |
| Reader.ExprTextInjective | parser.tab.c:1647-1666 | two readable expressions have the same text exactly when they are the same tree |
| Codegen.EmptyProgram | parser.tab.c:1733-1740 | an empty program gives only the prologue and the epilogue |
| Codegen.GenExpr | parser.tab.c:1647-1666 | the text written for a node is `ExprText` of the tree it heads |
| Codegen.WriteIndent | parser.tab.c:1670 | the indentation loop writes `Indent(indent)` |
| Codegen.GenStmt | parser.tab.c:1668-1709 | writes nothing for NULL; otherwise writes exactly `StmtText` of the node's tree |
| Codegen.GenIf | parser.tab.c:1689-1701 | the `if` case writes the condition, the then-block one level deeper, the closing brace, and an `else` part only when `next` is a block |
| Codegen.GenChain | parser.tab.c:1692 | the statement loop writes exactly `ChainTextOpt` of the chain |
| Codegen.GenerateTargetCode | parser.tab.c:1733-1740 | `output.c` is exactly `ProgramText`: the prologue, each statement of the chain at indentation 1, then the epilogue |
| Actions.OpText | parser.tab.c:1288-1344 | an operator's text is one or two characters and contains no parenthesis |
| Actions.OpTextInjective | parser.tab.c:1288-1350 | different operators get different texts, and none of them is `neg` |
| Actions.ListAppend | parser.tab.c:1205-1207 | with no list the statement is the list; otherwise the statement is appended to the chain and the same head comes back; the statement itself is unchanged |
| Actions.DeclStmt | parser.tab.c:1211-1217 | declares the name (as `Step` on a declaration) and, on success, gives a fresh declaration node with no initializer |
| Actions.DeclInitStmt | parser.tab.c:1221-1227 | declares the name after its initializer was built and, on success, gives a fresh declaration node whose left child is the initializer |
| Actions.PrintStmt | parser.tab.c:1239-1241 | a fresh print node over the expression |
| Actions.PrintStrStmt | parser.tab.c:1245-1250 | a fresh string-print node holding the literal verbatim |
| Actions.IfStmt | parser.tab.c:1254-1258 | a fresh If node with the condition on the left and the then-block on the right |
| Actions.IfElseStmt | parser.tab.c:1262-1268 | the same If node, with the else-block in its `next` link |
| Actions.Block | parser.tab.c:1272-1274 | a fresh block node whose left child is the statement chain, NULL when the block is empty |
| Actions.AssignExpr | parser.tab.c:1278-1284 | looks the target up (as `Step` on a lookup) and, on success, gives a fresh assignment node over the value |
| Actions.BinOpExpr | parser.tab.c:1288-1344 | a fresh operator node with the operator's text and both operands |
| Actions.NegExpr | parser.tab.c:1348-1350 | a fresh `neg` operator node with only a left operand |
| Actions.NumExpr | parser.tab.c:1360-1362 | a fresh number leaf |
| Actions.IdExpr | parser.tab.c:1366-1372 | looks the name up and, on success, gives a fresh name leaf; a missing name fails as "not declared" |
| Actions.Program | parser.tab.c:1188-1195 | the screen output is the banner, then the drawing of a block wrapping the chain with the prefixes `print_branch` writes (nothing for an empty program), then the footer; the file is `ProgramText` of the chain |
| Actions.ExprEventsLookups | parser.tab.c:1278-1372 | reducing an expression only performs lookups |
| Actions.LookupRun | parser.tab.c:98-106 | a run of lookups either changes nothing or fails as "not declared", and it fails whenever one of its names is missing |
| Actions.SelfInitializedDeclFails | parser.tab.c:1221-1227 | `int x = e;` where `e` uses an undeclared `x` fails as an undeclared use, not as a duplicate declaration |
| Actions.AppendAfterIfElse | parser.tab.c:1587-1593 | a statement appended after an if/else is linked onto the else-block's chain; the If keeps the same else-block |
| Actions.DeclAndPrintDeclGenerated | parser.tab.c:1673-1680 | `int x = 2 * 8;` is written as `    int x = (2 * 8);` |
| Actions.DeclAndPrintPrintGenerated | parser.tab.c:1681-1684 | `print(x);` is written as `    printf("%d\n", x);` |
| Actions.DeclAndPrintGenerated | parser.tab.c:1733-1740 | the `output.c` of `int x = 2 * 8; print(x);` is the prologue, the two lines, then the epilogue |
| Actions.DeclAndPrintReductions | parser.tab.c:1205-1227 | for `int x = 2 * 8; print(x);` the table operations succeed and leave `x` declared, and appending the print to the declaration gives the program's chain |
| Actions.CompileUndeclared | parser.tab.c:1366-1372 | `print(y);` with nothing declared fails as "not declared" for `y` |
| Actions.CompileDuplicate | parser.tab.c:1211-1217 | in `int x; int x;` the first declaration succeeds and the second fails as "already declared" for `x` |

## Left out

- The Bison LALR(1) driver and its tables are machine-generated skeleton code, so they are not modelled. The model takes the reductions as given, in bottom-up order, and each rule is a method a caller applies to already-built values.
- The scanner is not part of this model. The text of identifiers and string literals is taken as given, and `SvalsParenFree` assumes identifiers contain no parentheses.
- Rules 3, 7 and 25 have no method. Rule 3, the empty statement list, gives NULL, which `ListAppend` takes as its `list` argument. Rules 7 and 25 return their operand unchanged.
- File and process I/O is left out: `fopen`/`fclose` of `output.c` and of the input file, `execute_generated_code` (the external C compiler and the run of its result), `main` and `yyerror`. These depend on the file system and on external programs.
- `malloc`, `strdup`, `free` and `perror` are left out. Nodes and names are values in the model, and allocation never fails.
- `exit(1)` after a semantic error is modelled as an `Err` result. The diagnostic text printed before it is not modelled.
- `Render.ChildMask`: the mask is an unbounded set of depths. The model therefore does not capture the undefined behaviour of `1 << depth` once depth reaches the width of `int`.
- `Render.Label`: the `UNKNOWN` default of the label switch is not modelled. No node can have a kind outside the enumeration.
- `Ast.Tree`: a NULL `sval` is the empty string. No code path reads the text of a node that was built without one.
- `Reader.ReadBack`: the reader is the model's own, not a C compiler's expression grammar. It reads back the trees the rules build from names that hold no space or parenthesis and do not start with a digit, and from non-negative `NUMBER` values. A negative number arises only through a `neg` node.
- No scenario builds a whole program in the heap. The scenario lemmas (`DeclAndPrint…`, `CompileUndeclared`, `CompileDuplicate`) work on values or on single rule actions. For the heap, the per-rule `ensures` clauses carry the same facts.
- No scenario computes a concrete tree drawing. Rendering is covered by the general lemmas of `render.dfy`, and `Render.BarShiftedAsWritten` computes concrete prefixes.

## Findings

| source | as written | input that shows it | evidently intended | confidence | as-written member | corrected member |
|---|---|---|---|---|---|---|
| parser.tab.c:1597-1600 | column `i` of the prefix tests mask bit `i`, but the node at depth `d` records "has further siblings" in bit `d` (line 1626), and its connector sits in column `d - 1`; every continuation bar lands one column to the right of its connector | `int x = 2 * 8; print(x);`: `DECL (x)` at depth 1 has a later sibling, so it sets bit 1. The line of its child `OP (*)` gets prefix `    +-- ` with no bar under `|-- `, and the operands get `    |   |-- ` | column `i` tests bit `i + 1`, giving `|   +-- ` and `|       |-- ` | not executed | `Render.BranchAsWritten`, `Render.BarShiftedAsWritten`, `Render.ChildLineShifted` | `Render.Branch`, `Render.BranchShape` |
