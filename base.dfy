/** Values shared by every component: optional values, the two fatal semantic
    errors, the C `int` range, and the text `printf("%d")` produces. */
module Base {

  datatype Option<T> = None | Some(value: T)

  /** The two conditions on which the front end calls `exit(1)` during
      parsing: a second declaration of a name, and a use of a name that was
      never declared. The process exit is modelled as this error value. */
  datatype Error = AlreadyDeclared(name: string) | NotDeclared(name: string)

  /** The outcome of a symbol-table operation that returns nothing. */
  datatype Outcome = Pass | Fail(error: Error)

  /** The outcome of a semantic action that builds a node. */
  datatype Result<T> = Ok(value: T) | Err(error: Error)

  /** The C `int` of a NUMBER token and of a node's `ival`. */
  newtype int32 = x: int | -0x8000_0000 <= x < 0x8000_0000

  /** Text (or any sequence) appended piece by piece is the same whichever
      pieces are joined first. */
  lemma ConcatAssoc<T>(a: seq<T>, b: seq<T>, c: seq<T>)
    ensures a + (b + c) == (a + b) + c
  {
  }

  predicate IsDigit(c: char) { '0' <= c <= '9' }

  predicate AllDigits(s: string) { forall i :: 0 <= i < |s| ==> IsDigit(s[i]) }

  function DigitChar(d: nat): (c: char)
    requires d < 10
    ensures IsDigit(c) && c as int - '0' as int == d
  {
    (d + '0' as int) as char
  }

  /** The decimal digits of `n`, most significant first, without leading zeros. */
  function NatText(n: nat): (s: string)
    ensures |s| > 0 && AllDigits(s)
    ensures s[0] == '0' ==> n == 0
    decreases n
  {
    if n < 10 then [DigitChar(n)] else NatText(n / 10) + [DigitChar(n % 10)]
  }

  /** What `printf("%d", n)` writes: a minus sign for a negative number, then
      the digits of its magnitude. */
  function DecimalText(n: int): (s: string)
    ensures |s| > 0
    ensures forall i :: 0 <= i < |s| ==> s[i] == '-' || IsDigit(s[i])
    ensures forall i :: 0 < i < |s| ==> IsDigit(s[i])
    ensures s[0] == '-' <==> n < 0
  {
    if n < 0 then "-" + NatText(-n) else NatText(n)
  }

  /** The number a string of decimal digits denotes (the reading direction of
      `NatText`). */
  function DigitsValue(s: string): nat
    requires AllDigits(s)
  {
    if s == [] then 0
    else DigitsValue(s[..|s| - 1]) * 10 + (s[|s| - 1] as int - '0' as int)
  }

  /** Reading back the digits `%d` wrote for a non-negative number gives the
      number. */
  lemma {:induction false} NatTextRoundTrip(n: nat)
    ensures DigitsValue(NatText(n)) == n
  {
    var s := NatText(n);
    if n >= 10 {
      NatTextRoundTrip(n / 10);
      assert s[..|s| - 1] == NatText(n / 10);
    }
  }

  /** Reading back the text `%d` wrote for any `int` gives the number: the sign
      is a leading '-', the rest is the magnitude. */
  lemma DecimalTextRoundTrip(n: int)
    ensures n < 0 ==> DecimalText(n)[0] == '-' && AllDigits(DecimalText(n)[1..])
                      && DigitsValue(DecimalText(n)[1..]) == -n
    ensures n >= 0 ==> AllDigits(DecimalText(n)) && DigitsValue(DecimalText(n)) == n
  {
    if n < 0 {
      NatTextRoundTrip(-n);
      assert DecimalText(n)[1..] == NatText(-n);
    } else {
      NatTextRoundTrip(n);
    }
  }
}
