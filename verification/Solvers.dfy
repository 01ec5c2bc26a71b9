/**
 The constraint solver as the executor sees it: an oracle that may run out of
 time, and that is right whenever it answers.
 */
module Solvers {
  import opened Exprs

  ghost predicate Feasible(constraints: set<Expr>) {
    exists sigma: Assignment :: Sat(constraints, sigma)
  }

  ghost predicate May(constraints: set<Expr>, e: Expr) {
    exists sigma: Assignment :: Sat(constraints, sigma) && Eval(e, sigma) == 1
  }

  ghost predicate Must(constraints: set<Expr>, e: Expr) {
    forall sigma: Assignment :: Sat(constraints, sigma) ==> Eval(e, sigma) == 1
  }

  ghost predicate MustNot(constraints: set<Expr>, e: Expr) {
    forall sigma: Assignment :: Sat(constraints, sigma) ==> Eval(e, sigma) != 1
  }

  ghost predicate CanBe(constraints: set<Expr>, e: Expr, v: nat) {
    exists sigma: Assignment :: Sat(constraints, sigma) && Eval(e, sigma) == v
  }

  datatype Validity = True | False | Unknown

  class Solver {
    /** The answers to "may be true" and "a possible value"; None is a timeout. The
        number of earlier queries is an argument, so that answers may come and go. */
    const may: (nat, set<Expr>, Expr) -> Option<bool>
    const value: (nat, set<Expr>, Expr) -> Option<nat>
    var queries: nat

    ghost predicate Sound() {
      && (forall t, constraints, e :: may(t, constraints, e).Some? ==>
            (may(t, constraints, e).value <==> May(constraints, e)))
      && (forall t, constraints, e :: value(t, constraints, e).Some? ==>
            CanBe(constraints, e, value(t, constraints, e).value))
    }

    /** Every query is answered: no timeout, and a value whenever there is one. */
    ghost predicate Answers() {
      && (forall t, constraints, e :: may(t, constraints, e).Some?)
      && (forall t, constraints, e :: Feasible(constraints) ==> value(t, constraints, e).Some?)
    }

    constructor (may: (nat, set<Expr>, Expr) -> Option<bool>, value: (nat, set<Expr>, Expr) -> Option<nat>)
      ensures this.may == may && this.value == value
    {
      this.may, this.value, queries := may, value, 0;
    }

    method MayBeTrue(constraints: set<Expr>, e: Expr) returns (r: Option<bool>)
      requires Sound()
      modifies this`queries
      ensures r.Some? ==> (r.value <==> May(constraints, e))
      ensures Answers() ==> r.Some?
    {
      r := may(queries, constraints, e);
      queries := queries + 1;
    }

    method MustBeFalse(constraints: set<Expr>, e: Expr) returns (r: Option<bool>)
      requires Sound()
      modifies this`queries
      ensures r.Some? ==> (r.value <==> MustNot(constraints, e))
      ensures Answers() ==> r.Some?
    {
      var m := MayBeTrue(constraints, e);
      r := if m.None? then None else Some(!m.value);
    }

    method MustBeTrue(constraints: set<Expr>, e: Expr) returns (r: Option<bool>)
      requires Sound() && WellFormed(e) && Width(e) == 1
      modifies this`queries
      ensures r.Some? ==> (r.value <==> Must(constraints, e))
      ensures Answers() ==> r.Some?
    {
      var m := MayBeTrue(constraints, IsZero(e));
      Negation(constraints, e);
      r := if m.None? then None else Some(!m.value);
    }

    method GetValue(constraints: set<Expr>, e: Expr) returns (r: Option<nat>)
      requires Sound()
      modifies this`queries
      ensures r.Some? ==> CanBe(constraints, e, r.value)
      ensures Answers() && Feasible(constraints) ==> r.Some?
    {
      r := value(queries, constraints, e);
      queries := queries + 1;
    }

    method Evaluate(constraints: set<Expr>, e: Expr) returns (r: Option<Validity>)
      requires Sound() && WellFormed(e) && Width(e) == 1
      modifies this`queries
      ensures r == Some(True) ==> Must(constraints, e)
      ensures r == Some(False) ==> MustNot(constraints, e)
      ensures r == Some(Unknown) ==> May(constraints, e) && May(constraints, IsZero(e))
      ensures Answers() ==> r.Some?
    {
      Negation(constraints, e);
      var t := MustBeTrue(constraints, e);
      if t.None? { return None; }
      if t.value { return Some(True); }
      var f := MustBeFalse(constraints, e);
      if f.None? { return None; }
      return Some(if f.value then False else Unknown);
    }
  }

  lemma IsZeroMeaning(e: Expr, sigma: Assignment)
    requires WellFormed(e) && Width(e) == 1
    ensures WellFormed(IsZero(e)) && Width(IsZero(e)) == 1
    ensures Eval(IsZero(e), sigma) == 1 <==> Eval(e, sigma) != 1
  {
    EvalRange(e, sigma);
  }

  lemma Negation(constraints: set<Expr>, e: Expr)
    requires WellFormed(e) && Width(e) == 1
    ensures May(constraints, IsZero(e)) <==> !Must(constraints, e)
  {
    hide Eval, IsZero, WellFormed, Width, Sat;
    forall sigma: Assignment
      ensures Eval(IsZero(e), sigma) == 1 <==> Eval(e, sigma) != 1
    {
      IsZeroMeaning(e, sigma);
    }
  }
}
