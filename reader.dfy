/** Reading back the expression text `gen_expr` writes. Every assignment and
    operator application is written inside its own pair of parentheses, so a
    reader that knows no precedence at all recovers the tree: after `(` comes
    the left operand, a space, the operator, a space, the right operand if
    there is one, and `)`. An assignment is the operator `=` after a name. */
module Reader {
  import opened Base
  import opened Ast
  import opened Codegen
  import opened Actions

  /** A character that ends a name or an operator. */
  predicate IsDelimiter(c: char) {
    c == ' ' || c == '(' || c == ')'
  }

  /** A name as the scanner delivers it: non-empty, not starting with a digit,
      and free of spaces and parentheses. */
  predicate IsName(s: string) {
    |s| > 0 && !IsDigit(s[0]) && forall i :: 0 <= i < |s| ==> !IsDelimiter(s[i])
  }

  /** An operator text: non-empty, free of spaces and parentheses, and not the
      `=` of an assignment. */
  predicate IsOperator(s: string) {
    |s| > 0 && s != "=" && forall i :: 0 <= i < |s| ==> !IsDelimiter(s[i])
  }

  /** An expression tree as the expression rules build it: a NUMBER token's
      non-negative value, a name, an assignment to a name, or an operator
      application with a left operand (unary minus has no right one). No
      expression node has a successor. */
  predicate Readable(t: Tree)
    decreases t
  {
    && t.next.None?
    && match t.kind
       case Num => t.sval == "" && t.ival >= 0 && t.left.None? && t.right.None?
       case Id => IsName(t.sval) && t.ival == 0 && t.left.None? && t.right.None?
       case Assign =>
         IsName(t.sval) && t.ival == 0 && t.right.None?
         && (t.left.Some? ==> Readable(t.left.value))
       case BinOp =>
         IsOperator(t.sval) && t.ival == 0 && t.left.Some? && Readable(t.left.value)
         && (t.right.Some? ==> Readable(t.right.value))
       case _ => false
  }

  /** The nodes rules 13, 14 to 23, 24, 26 and 27 build from readable
      operands are readable, given a NUMBER value that is not negative and a
      name as the scanner delivers it. */
  lemma BuiltExpressionsReadable(op: Operator, l: Tree, r: Tree, name: string, v: int32)
    ensures Readable(l) && Readable(r) ==> Readable(Tree(BinOp, OpText(op), 0, Some(l), Some(r), None))
    ensures Readable(l) ==> Readable(Tree(BinOp, "neg", 0, Some(l), None, None))
    ensures v >= 0 ==> Readable(Tree(Num, "", v, None, None, None))
    ensures IsName(name) ==> Readable(Tree(Id, name, 0, None, None, None))
    ensures IsName(name) && Readable(l) ==> Readable(Tree(Assign, name, 0, Some(l), None, None))
  {
    assert OpText(op) != "=";
  }

  /** The length of the run of digits at the front of `s`. */
  function DigitSpan(s: string): (k: nat)
    ensures k <= |s|
    ensures forall i :: 0 <= i < k ==> IsDigit(s[i])
    ensures k < |s| ==> !IsDigit(s[k])
  {
    if s == [] || !IsDigit(s[0]) then 0 else 1 + DigitSpan(s[1..])
  }

  /** The length of the run of characters other than delimiters at the front
      of `s`. */
  function WordSpan(s: string): (k: nat)
    ensures k <= |s|
    ensures forall i :: 0 <= i < k ==> !IsDelimiter(s[i])
    ensures k < |s| ==> IsDelimiter(s[k])
  {
    if s == [] || IsDelimiter(s[0]) then 0 else 1 + WordSpan(s[1..])
  }

  /** Reads one expression at the front of `s`; gives the tree and the text
      after it. */
  function Parse(s: string): (r: Option<(Tree, string)>)
    ensures r.Some? ==> |r.value.1| < |s|
    decreases |s|, 0
  {
    if s == [] then None
    else if s[0] == '(' then
      var inner := Parse(s[1..]);
      if inner.None? then None else ParseApplication(inner.value.0, inner.value.1)
    else if IsDigit(s[0]) then
      var k := DigitSpan(s);
      assert AllDigits(s[..k]);
      var v := DigitsValue(s[..k]);
      if v < 0x8000_0000 then Some((Tree(Num, "", v as int32, None, None, None), s[k..])) else None
    else
      var k := WordSpan(s);
      if k == 0 then None else Some((Tree(Id, s[..k], 0, None, None, None), s[k..]))
  }

  /** The rest of a parenthesised expression whose left operand `l` has been
      read: a space, the operator, a space, the right operand if the next
      character does not close the parenthesis, and `)`. */
  function ParseApplication(l: Tree, s: string): (r: Option<(Tree, string)>)
    ensures r.Some? ==> |r.value.1| < |s|
    decreases |s|, 1
  {
    if s == [] || s[0] != ' ' then None
    else
      var w := s[1..];
      var k := WordSpan(w);
      if k == 0 || k == |w| || w[k] != ' ' then None
      else
        var op, tail := w[..k], w[k + 1..];
        if tail != [] && tail[0] == ')' then Some((Apply(op, l, None), tail[1..]))
        else
          var right := Parse(tail);
          if right.None? || right.value.1 == [] || right.value.1[0] != ')' then None
          else Some((Apply(op, l, Some(right.value.0)), right.value.1[1..]))
  }

  /** The node an operator and its operands denote: `=` after a name is an
      assignment to that name. */
  function Apply(op: string, l: Tree, r: Option<Tree>): Tree {
    if op == "=" && l.kind == Id then Tree(Assign, l.sval, 0, r, None, None)
    else Tree(BinOp, op, 0, Some(l), r, None)
  }

  /** Reads a text that is exactly one expression. */
  function ParseExpr(s: string): Option<Tree> {
    match Parse(s)
    case None => None
    case Some((t, rest)) => if rest == [] then Some(t) else None
  }

  /** What may follow an expression inside the text: nothing, a space or a
      closing parenthesis. */
  predicate Follows(rest: string) {
    rest == [] || rest[0] == ' ' || rest[0] == ')'
  }

  lemma DigitSpanOf(d: string, rest: string)
    requires AllDigits(d) && (rest == [] || !IsDigit(rest[0]))
    ensures DigitSpan(d + rest) == |d|
  {
    var s := d + rest;
    assert forall i :: 0 <= i < |d| ==> s[i] == d[i];
    assert |d| < |s| ==> s[|d|] == rest[0];
  }

  lemma WordSpanOf(w: string, rest: string)
    requires forall i :: 0 <= i < |w| ==> !IsDelimiter(w[i])
    requires rest == [] || IsDelimiter(rest[0])
    ensures WordSpan(w + rest) == |w|
  {
    var s := w + rest;
    assert forall i :: 0 <= i < |w| ==> s[i] == w[i];
    assert |w| < |s| ==> s[|w|] == rest[0];
  }

  /** A written expression is non-empty and starts with neither a space nor a
      closing parenthesis. */
  lemma ExprTextStart(t: Tree)
    requires Readable(t)
    ensures |ExprText(Some(t))| > 0
    ensures ExprText(Some(t))[0] != ' ' && ExprText(Some(t))[0] != ')'
  {
  }

  lemma ParseNum(t: Tree, rest: string)
    requires Readable(t) && t.kind == Num && Follows(rest)
    ensures Parse(ExprText(Some(t)) + rest) == Some((t, rest))
  {
    var d := NatText(t.ival as int);
    assert ExprText(Some(t)) == d;
    DigitSpanOf(d, rest);
    var s := d + rest;
    assert s[..|d|] == d && s[|d|..] == rest;
    NatTextRoundTrip(t.ival as int);
  }

  lemma ParseId(t: Tree, rest: string)
    requires Readable(t) && t.kind == Id && Follows(rest)
    ensures Parse(ExprText(Some(t)) + rest) == Some((t, rest))
  {
    var w := t.sval;
    WordSpanOf(w, rest);
    var s := w + rest;
    assert s[0] == w[0];
    assert s[..|w|] == w && s[|w|..] == rest;
  }

  /** The operator part of a parenthesised expression, given that the right
      operand, when there is one, reads back. */
  lemma ParseApplicationText(l: Tree, op: string, right: Option<Tree>, rest: string)
    requires |op| > 0 && forall i :: 0 <= i < |op| ==> !IsDelimiter(op[i])
    requires right.Some? ==> Readable(right.value)
    requires right.Some? ==> Parse(ExprText(right) + (")" + rest)) == Some((right.value, ")" + rest))
    ensures ParseApplication(l, Tail(op, ExprText(right), rest)) == Some((Apply(op, l, right), rest))
  {
    var r := ExprText(right);
    var tail := r + (")" + rest);
    var w := op + (" " + tail);
    if right.Some? {
      ExprTextStart(right.value);
    }
    assert (" " + w)[1..] == w;
    WordSpanOf(op, " " + tail);
    assert w[..|op|] == op && w[|op|] == ' ' && w[|op| + 1..] == tail;
    if right.None? {
      assert tail == ")" + rest;
      assert tail[1..] == rest;
    } else {
      assert tail[0] == r[0];
      assert (")" + rest)[1..] == rest;
    }
  }

  /** What follows the left operand inside the parentheses: a space, the
      operator, a space, the right operand's text, `)` and `rest`. */
  function Tail(op: string, e: string, rest: string): string {
    " " + (op + (" " + (e + (")" + rest))))
  }

  /** `"(" + a + " " + op + " " + e + ")"` followed by `rest`, regrouped as the
      reader takes it apart. */
  lemma Regroup(a: string, op: string, e: string, rest: string)
    ensures "(" + a + " " + op + " " + e + ")" + rest == "(" + (a + Tail(op, e, rest))
  {
    ConcatAssoc(e, ")", rest);
    ConcatAssoc(" ", e, ")" + rest);
    ConcatAssoc(op, " ", e + (")" + rest));
    ConcatAssoc(" ", op, " " + (e + (")" + rest)));
    ConcatAssoc(a, " ", op + (" " + (e + (")" + rest))));
    ConcatAssoc("(", a, Tail(op, e, rest));
    ConcatAssoc("(" + a, " ", op);
    ConcatAssoc("(" + a + " ", op, " ");
    ConcatAssoc("(" + a + " " + op, " ", e);
    ConcatAssoc("(" + a + " " + op + " ", e, ")");
    ConcatAssoc("(" + a + " " + op + " " + e, ")", rest);
  }

  /** The same regrouping for the text of an assignment. */
  lemma RegroupAssign(a: string, e: string, rest: string)
    ensures "(" + a + " = " + e + ")" + rest == "(" + (a + Tail("=", e, rest))
  {
    var x := e + (")" + rest);
    ConcatAssoc(e, ")", rest);
    ConcatAssoc(" = ", e, ")" + rest);
    ConcatAssoc(a, " = ", x);
    ConcatAssoc("(", a, " = " + x);
    ConcatAssoc("(" + a, " = ", e);
    ConcatAssoc("(" + a + " = ", e, ")");
    ConcatAssoc("(" + a + " = " + e, ")", rest);
    assert " = " + x == Tail("=", e, rest);
  }

  /** An opening parenthesis hands what follows its left operand to
      `ParseApplication`. */
  lemma ParseOpen(x: string, l: Tree, tail: string)
    requires Parse(x) == Some((l, tail))
    ensures Parse("(" + x) == ParseApplication(l, tail)
  {
    assert ("(" + x)[1..] == x;
  }

  /** The step for an assignment, given that its value reads back. */
  lemma {:induction false} ParseAssignText(t: Tree, rest: string)
    requires Readable(t) && t.kind == Assign && Follows(rest)
    requires t.left.Some? ==> Parse(ExprText(t.left) + (")" + rest)) == Some((t.left.value, ")" + rest))
    ensures Parse(ExprText(Some(t)) + rest) == Some((t, rest))
  {
    var l := Tree(Id, t.sval, 0, None, None, None);
    var e := ExprText(t.left);
    var tail := Tail("=", e, rest);
    ParseId(l, tail);
    assert ExprText(Some(l)) == t.sval;
    ParseOpen(t.sval + tail, l, tail);
    ParseApplicationText(l, "=", t.left, rest);
    assert Apply("=", l, t.left) == t;
    RegroupAssign(t.sval, e, rest);
  }

  /** The step for an operator application, given that its operands read
      back. */
  lemma {:induction false} ParseBinOpText(t: Tree, rest: string)
    requires Readable(t) && t.kind == BinOp && Follows(rest)
    requires t.right.Some? ==> Parse(ExprText(t.right) + (")" + rest)) == Some((t.right.value, ")" + rest))
    requires Parse(ExprText(t.left) + Tail(t.sval, ExprText(t.right), rest))
             == Some((t.left.value, Tail(t.sval, ExprText(t.right), rest)))
    ensures Parse(ExprText(Some(t)) + rest) == Some((t, rest))
  {
    var e := ExprText(t.right);
    ParseApplicationText(t.left.value, t.sval, t.right, rest);
    ParseOpen(ExprText(t.left) + Tail(t.sval, e, rest), t.left.value, Tail(t.sval, e, rest));
    Regroup(ExprText(t.left), t.sval, e, rest);
  }

  /** Reading the text of an expression followed by what may follow it gives
      back the expression and leaves what followed. */
  lemma {:induction false} ParseExprText(t: Tree, rest: string)
    requires Readable(t) && Follows(rest)
    ensures Parse(ExprText(Some(t)) + rest) == Some((t, rest))
    decreases t
  {
    match t.kind
    case Num => ParseNum(t, rest);
    case Id => ParseId(t, rest);
    case Assign =>
      if t.left.Some? {
        ParseExprText(t.left.value, ")" + rest);
      }
      ParseAssignText(t, rest);
    case BinOp =>
      if t.right.Some? {
        ParseExprText(t.right.value, ")" + rest);
      }
      ParseExprText(t.left.value, Tail(t.sval, ExprText(t.right), rest));
      ParseBinOpText(t, rest);
  }

  /** The text `gen_expr` writes for an expression the rules build reads back
      to that expression, whatever precedence a reader of C would apply. */
  lemma ReadBack(t: Tree)
    requires Readable(t)
    ensures ParseExpr(ExprText(Some(t))) == Some(t)
  {
    ParseExprText(t, "");
    assert ExprText(Some(t)) + "" == ExprText(Some(t));
  }

  /** Different expressions are written differently. */
  lemma ExprTextInjective(a: Tree, b: Tree)
    requires Readable(a) && Readable(b)
    ensures ExprText(Some(a)) == ExprText(Some(b)) <==> a == b
  {
    ReadBack(a);
    ReadBack(b);
  }
}
