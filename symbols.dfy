/** The flat symbol table: one unscoped list of declared names, with a
    duplicate check on declaration and a membership check on use. */
module Symbols {
  import opened Base

  ghost predicate NoDuplicates(s: seq<string>) {
    forall i, j :: 0 <= i < j < |s| ==> s[i] != s[j]
  }

  /** One symbol-table operation: `add_symbol` or `check_declared`. */
  datatype Event = Declare(name: string) | Lookup(name: string)

  /** What one operation does to the list of names (newest first). */
  function Step(names: seq<string>, e: Event): Result<seq<string>> {
    match e
    case Declare(x) => if x in names then Err(AlreadyDeclared(x)) else Ok([x] + names)
    case Lookup(x) => if x in names then Ok(names) else Err(NotDeclared(x))
  }

  /** A whole compilation's operations, in the order the semantic actions
      perform them. The first failure ends the run: `exit(1)` leaves no chance
      to report a second error. */
  function Run(names: seq<string>, trace: seq<Event>): Result<seq<string>>
    decreases |trace|
  {
    if trace == [] then Ok(names)
    else match Step(names, trace[0])
      case Err(e) => Err(e)
      case Ok(next) => Run(next, trace[1..])
  }

  /** The global `symbol_table` of `parser.tab.c`, a linked list of names
      with the newest at the head; the list is the sequence `names`. */
  class SymbolTable {
    var names: seq<string>

    ghost predicate Valid()
      reads this
    {
      NoDuplicates(names)
    }

    /** `symbol_table = NULL`. */
    constructor ()
      ensures Valid() && names == []
    {
      names := [];
    }

    /** `add_symbol`: scan the whole list for the name; on a match fail with
        "already declared" and leave the list alone, otherwise prepend it. */
    method AddSymbol(name: string) returns (r: Outcome)
      requires Valid()
      modifies this
      ensures Valid()
      ensures name in old(names) ==> r == Fail(AlreadyDeclared(name)) && names == old(names)
      ensures name !in old(names) ==> r == Pass && names == [name] + old(names)
      ensures Step(old(names), Declare(name)) == if r.Pass? then Ok(names) else Err(r.error)
    {
      var i := 0;
      while i < |names|
        invariant 0 <= i <= |names|
        invariant name !in names[..i]
      {
        if names[i] == name {
          return Fail(AlreadyDeclared(name));
        }
        i := i + 1;
      }
      assert names[..i] == names;
      names := [name] + names;
      r := Pass;
    }

    /** `check_declared`: succeed exactly when the name is on the list; the
        list is never changed. */
    method CheckDeclared(name: string) returns (r: Outcome)
      ensures r == if name in names then Pass else Fail(NotDeclared(name))
      ensures Step(names, Lookup(name)) == if r.Pass? then Ok(names) else Err(r.error)
    {
      var i := 0;
      while i < |names|
        invariant 0 <= i <= |names|
        invariant name !in names[..i]
      {
        if names[i] == name {
          return Pass;
        }
        i := i + 1;
      }
      assert names[..i] == names;
      r := Fail(NotDeclared(name));
    }
  }

  /** Running two traces one after the other is running their concatenation. */
  lemma {:induction false} RunAppend(names: seq<string>, a: seq<Event>, b: seq<Event>)
    ensures Run(names, a + b) == match Run(names, a)
                                 case Ok(m) => Run(m, b)
                                 case Err(e) => Err(e)
    decreases |a|
  {
    if a != [] {
      assert (a + b)[0] == a[0] && (a + b)[1..] == a[1..] + b;
      match Step(names, a[0])
      case Err(e) =>
      case Ok(next) => RunAppend(next, a[1..], b);
    } else {
      assert a + b == b;
    }
  }

  /** A name declared (or successfully looked up) by a run is still declared
      at its end. */
  lemma {:induction false} RunRemembers(names: seq<string>, trace: seq<Event>, x: string)
    requires Run(names, trace).Ok?
    requires x in names || Declare(x) in trace
    ensures x in Run(names, trace).value
    decreases |trace|
  {
    if trace != [] {
      var next := Step(names, trace[0]).value;
      assert x in next || Declare(x) in trace[1..] by {
        assert trace == [trace[0]] + trace[1..];
      }
      RunRemembers(next, trace[1..], x);
    }
  }

  /** A name on the final list was on the initial list or declared by the run. */
  lemma {:induction false} RunOnlyDeclares(names: seq<string>, trace: seq<Event>, x: string)
    requires Run(names, trace).Ok?
    requires x in Run(names, trace).value
    ensures x in names || Declare(x) in trace
    decreases |trace|
  {
    if trace != [] {
      var next := Step(names, trace[0]).value;
      RunOnlyDeclares(next, trace[1..], x);
      assert trace == [trace[0]] + trace[1..];
    }
  }

  /** One successful operation keeps the list free of duplicates and only
      puts names in front of it. */
  lemma StepKeeps(names: seq<string>, e: Event)
    requires NoDuplicates(names)
    requires Step(names, e).Ok?
    ensures var next := Step(names, e).value;
      && NoDuplicates(next)
      && |names| <= |next| && next[|next| - |names|..] == names
  {
    var next := Step(names, e).value;
    if e.Declare? {
      assert next == [e.name] + names;
      forall i, j | 0 <= i < j < |next| ensures next[i] != next[j] {
        if i > 0 { assert next[i] == names[i - 1] && next[j] == names[j - 1]; }
        else { assert next[j] == names[j - 1]; }
      }
    }
  }

  /** A successful run never loses a name and never holds a duplicate: the
      final list is the old list with the names the run declared prepended,
      and a name is on it exactly when it was there before or the run
      declared it. Declarations inside a block are events like any other, so
      nothing is removed at the end of a block. */
  lemma {:induction false} RunKeepsNames(names: seq<string>, trace: seq<Event>)
    requires NoDuplicates(names)
    requires Run(names, trace).Ok?
    ensures var m := Run(names, trace).value;
      && NoDuplicates(m)
      && |names| <= |m| && m[|m| - |names|..] == names
      && forall x :: x in m <==> x in names || Declare(x) in trace
    decreases |trace|
  {
    var m := Run(names, trace).value;
    if trace != [] {
      var next := Step(names, trace[0]).value;
      StepKeeps(names, trace[0]);
      RunKeepsNames(next, trace[1..]);
      assert m == Run(next, trace[1..]).value;
      assert m[|m| - |names|..] == names by {
        assert m[|m| - |names|..] == m[|m| - |next|..][|next| - |names|..];
      }
    }
    forall x ensures x in m <==> x in names || Declare(x) in trace {
      if x in names || Declare(x) in trace { RunRemembers(names, trace, x); }
      if x in m { RunOnlyDeclares(names, trace, x); }
    }
  }

  /** Two declarations of one name fail the compilation, whatever lies between
      them; when nothing before the second declaration fails, the error is
      "already declared" for that name. */
  lemma DuplicateDeclarationFails(names: seq<string>, trace: seq<Event>, i: nat, j: nat)
    requires i < j < |trace|
    requires trace[i].Declare? && trace[j] == trace[i]
    ensures Run(names, trace).Err?
    ensures Run(names, trace[..j]).Ok? ==> Run(names, trace) == Err(AlreadyDeclared(trace[j].name))
  {
    var x := trace[j].name;
    assert trace == trace[..j] + trace[j..];
    RunAppend(names, trace[..j], trace[j..]);
    if Run(names, trace[..j]).Ok? {
      assert trace[..j][i] == Declare(x);
      RunRemembers(names, trace[..j], x);
      var m := Run(names, trace[..j]).value;
      assert trace[j..][0] == Declare(x);
      assert Step(m, Declare(x)) == Err(AlreadyDeclared(x));
    }
  }

  /** A use of a name that is not on the initial list and is not declared
      earlier in the run fails the compilation; when nothing before the use
      fails, the error is "used but not declared" for that name. */
  lemma UndeclaredUseFails(names: seq<string>, trace: seq<Event>, j: nat)
    requires j < |trace| && trace[j].Lookup?
    requires trace[j].name !in names
    requires Declare(trace[j].name) !in trace[..j]
    ensures Run(names, trace).Err?
    ensures Run(names, trace[..j]).Ok? ==> Run(names, trace) == Err(NotDeclared(trace[j].name))
  {
    var x := trace[j].name;
    assert trace == trace[..j] + trace[j..];
    RunAppend(names, trace[..j], trace[j..]);
    if Run(names, trace[..j]).Ok? {
      var m := Run(names, trace[..j]).value;
      if x in m {
        RunOnlyDeclares(names, trace[..j], x);
      }
      assert trace[j..][0] == Lookup(x);
    }
  }
}
