/**
 The symbolic switch: one guard per successor block, and one state per guard.
 */
module Switching {
  import opened Arithmetic
  import opened Exprs
  import opened AddressSpaces
  import opened Solvers
  import M = Merging
  import R = MemoryRuns
  import opened MemoryOps

  datatype Case = Case(value: nat, block: nat)

  /** The block a concrete switch goes to. */
  function Target(cases: seq<Case>, default_: nat, v: nat): nat {
    if cases == [] then default_
    else if cases[0].value == v then cases[0].block
    else Target(cases[1..], default_, v)
  }

  predicate DistinctValues(cases: seq<Case>) {
    forall i, j :: 0 <= i < j < |cases| ==> cases[i].value != cases[j].value
  }

  lemma {:induction false} TargetHit(cases: seq<Case>, default_: nat, i: nat)
    requires i < |cases| && DistinctValues(cases)
    ensures Target(cases, default_, cases[i].value) == cases[i].block
  {
    if i > 0 {
      assert cases[1..][i - 1] == cases[i];
      assert DistinctValues(cases[1..]);
      TargetHit(cases[1..], default_, i - 1);
    }
  }

  lemma {:induction false} TargetMiss(cases: seq<Case>, default_: nat, v: nat)
    requires forall i :: 0 <= i < |cases| ==> cases[i].value != v
    ensures Target(cases, default_, v) == default_
  {
    if cases != [] { TargetMiss(cases[1..], default_, v); }
  }

  function Match(cond: Expr, c: Case): Expr { Binary(Eq, cond, Const(Width(cond), c.value)) }

  lemma MatchMeaning(cond: Expr, c: Case, sigma: Assignment)
    requires WellFormed(cond) && Width(cond) > 0 && c.value < Pow2(Width(cond))
    ensures WellFormed(Match(cond, c)) && Width(Match(cond, c)) == 1
    ensures Eval(Match(cond, c), sigma) == 1 <==> Eval(cond, sigma) == c.value
  {
  }

  // ------------------------------------------------------------ the guards

  /** The default guard so far: no case with another block has matched. */
  ghost predicate DefaultOk(cond: Expr, cases: seq<Case>, default_: nat, guard: Expr) {
    WellFormed(guard) && Width(guard) == 1 &&
    forall sigma: Assignment :: Eval(guard, sigma) == 1 <==> !MatchedOther(cases, default_, Eval(cond, sigma))
  }

  predicate MatchedOther(cases: seq<Case>, default_: nat, v: nat) {
    exists j :: 0 <= j < |cases| && cases[j].block != default_ && cases[j].value == v
  }

  predicate MatchedTo(cases: seq<Case>, block: nat, v: nat) {
    exists j :: 0 <= j < |cases| && cases[j].block == block && cases[j].value == v
  }

  /** A block's guard so far: on the path, one of the block's cases has matched. */
  ghost predicate GuardOk(constraints: set<Expr>, cond: Expr, cases: seq<Case>, block: nat, guard: Expr) {
    WellFormed(guard) && Width(guard) == 1 &&
    forall sigma: Assignment :: Sat(constraints, sigma) ==>
      (Eval(guard, sigma) == 1 <==> MatchedTo(cases, block, Eval(cond, sigma)))
  }

  /** A block without a guard is never reached through a case. */
  ghost predicate Unreached(constraints: set<Expr>, cond: Expr, cases: seq<Case>, block: nat) {
    forall sigma: Assignment :: Sat(constraints, sigma) ==> !MatchedTo(cases, block, Eval(cond, sigma))
  }

  lemma MatchedMore(cases: seq<Case>, c: Case, block: nat, default_: nat, v: nat)
    ensures MatchedTo(cases + [c], block, v) <==> MatchedTo(cases, block, v) || (c.block == block && c.value == v)
    ensures MatchedOther(cases + [c], default_, v) <==>
            MatchedOther(cases, default_, v) || (c.block != default_ && c.value == v)
  {
    var more := cases + [c];
    assert more[|cases|] == c && forall j :: 0 <= j < |cases| ==> more[j] == cases[j];
    if MatchedTo(more, block, v) {
      var j :| 0 <= j < |more| && more[j].block == block && more[j].value == v;
    }
    if MatchedOther(more, default_, v) {
      var j :| 0 <= j < |more| && more[j].block != default_ && more[j].value == v;
    }
  }

  /** All guards so far. */
  ghost predicate GuardsOk(constraints: set<Expr>, cond: Expr, cases: seq<Case>, default_: nat,
                           targets: map<nat, Expr>, order: seq<nat>)
  {
    && default_ !in targets
    && (forall b :: b in targets <==> b in order)
    && (forall i, j :: 0 <= i < j < |order| ==> order[i] != order[j])
    && (forall b :: b in targets ==> GuardOk(constraints, cond, cases, b, targets[b]))
    && (forall b :: b !in targets && b != default_ ==> Unreached(constraints, cond, cases, b))
  }

  /** A feasible case: its match is or-ed into the guard of its block. */
  lemma AddMatch(constraints: set<Expr>, cond: Expr, cases: seq<Case>, c: Case, match_: Expr, guard: Expr, guard': Expr)
    requires WellFormed(cond) && Width(cond) > 0 && c.value < Pow2(Width(cond))
    requires GuardOk(constraints, cond, cases, c.block, guard)
    requires Preserves(Match(cond, c), match_) && Preserves(Binary(Or, match_, guard), guard')
    ensures GuardOk(constraints, cond, cases + [c], c.block, guard')
  {
    hide Eval, WellFormed, Width, Sat, Match, MatchedTo;
    MatchMeaning(cond, c, (_, _) => 0);
    M.AndMeaning(match_, guard, (_, _) => 0);
    forall sigma: Assignment | Sat(constraints, sigma)
      ensures Eval(guard', sigma) == 1 <==> MatchedTo(cases + [c], c.block, Eval(cond, sigma))
    {
      MatchMeaning(cond, c, sigma);
      M.AndMeaning(match_, guard, sigma);
      MatchedMore(cases, c, c.block, 0, Eval(cond, sigma));
    }
  }

  /** The guards of other blocks do not notice a case. */
  lemma OtherBlock(constraints: set<Expr>, cond: Expr, cases: seq<Case>, c: Case, block: nat)
    requires block != c.block
    ensures forall guard :: GuardOk(constraints, cond, cases, block, guard) ==>
              GuardOk(constraints, cond, cases + [c], block, guard)
    ensures Unreached(constraints, cond, cases, block) ==> Unreached(constraints, cond, cases + [c], block)
  {
    hide Eval, WellFormed, Width, Sat, MatchedTo;
    forall v: nat
      ensures MatchedTo(cases + [c], block, v) <==> MatchedTo(cases, block, v)
    {
      MatchedMore(cases, c, block, 0, v);
    }
  }

  /** An infeasible case changes no guard on the path. */
  lemma Infeasible(constraints: set<Expr>, cond: Expr, cases: seq<Case>, c: Case, match_: Expr)
    requires WellFormed(cond) && Width(cond) > 0 && c.value < Pow2(Width(cond))
    requires Preserves(Match(cond, c), match_) && !May(constraints, match_)
    ensures forall guard :: GuardOk(constraints, cond, cases, c.block, guard) ==>
              GuardOk(constraints, cond, cases + [c], c.block, guard)
    ensures Unreached(constraints, cond, cases, c.block) ==> Unreached(constraints, cond, cases + [c], c.block)
  {
    hide Eval, WellFormed, Width, Sat, Match, MatchedTo;
    forall sigma: Assignment | Sat(constraints, sigma)
      ensures MatchedTo(cases + [c], c.block, Eval(cond, sigma)) <==> MatchedTo(cases, c.block, Eval(cond, sigma))
    {
      MatchMeaning(cond, c, sigma);
      MatchedMore(cases, c, c.block, 0, Eval(cond, sigma));
    }
  }

  /** The default guard takes in the negation of a match. */
  lemma AddToDefault(cond: Expr, cases: seq<Case>, c: Case, default_: nat, guard: Expr, guard': Expr)
    requires c.block != default_ && WellFormed(cond) && Width(cond) > 0 && c.value < Pow2(Width(cond))
    requires DefaultOk(cond, cases, default_, guard)
    requires Preserves(Binary(And, guard, IsZero(Match(cond, c))), guard')
    ensures DefaultOk(cond, cases + [c], default_, guard')
  {
    hide Eval, WellFormed, Width, Match, IsZero, MatchedOther;
    var match_ := Match(cond, c);
    AndNotMatch(cond, c, guard, (_, _) => 0);
    forall sigma: Assignment
      ensures Eval(guard', sigma) == 1 <==> !MatchedOther(cases + [c], default_, Eval(cond, sigma))
    {
      AndNotMatch(cond, c, guard, sigma);
      MatchedMore(cases, c, 0, default_, Eval(cond, sigma));
    }
  }

  lemma AndNotMatch(cond: Expr, c: Case, guard: Expr, sigma: Assignment)
    requires WellFormed(cond) && Width(cond) > 0 && c.value < Pow2(Width(cond)) && WellFormed(guard) &&
             Width(guard) == 1
    ensures var e := Binary(And, guard, IsZero(Match(cond, c)));
            WellFormed(e) && Width(e) == 1 &&
            (Eval(e, sigma) == 1 <==> Eval(guard, sigma) == 1 && Eval(cond, sigma) != c.value)
  {
    hide Eval, WellFormed, Width, Match, IsZero;
    MatchMeaning(cond, c, sigma);
    IsZeroMeaning(Match(cond, c), sigma);
    M.AndMeaning(guard, IsZero(Match(cond, c)), sigma);
  }

  /** A case that goes to the default block changes nothing. */
  lemma SkipCase(constraints: set<Expr>, cond: Expr, cases: seq<Case>, c: Case, default_: nat, targets: map<nat, Expr>,
                 order: seq<nat>, guard: Expr)
    requires c.block == default_ && GuardsOk(constraints, cond, cases, default_, targets, order)
    requires DefaultOk(cond, cases, default_, guard)
    ensures GuardsOk(constraints, cond, cases + [c], default_, targets, order)
    ensures DefaultOk(cond, cases + [c], default_, guard)
  {
    hide Eval, WellFormed, Width, Sat, MatchedTo, MatchedOther, GuardOk, Unreached;
    forall v: nat
      ensures MatchedOther(cases + [c], default_, v) <==> MatchedOther(cases, default_, v)
    {
      MatchedMore(cases, c, 0, default_, v);
    }
    forall b | b != default_
      ensures b in targets ==> GuardOk(constraints, cond, cases + [c], b, targets[b])
      ensures b !in targets ==> Unreached(constraints, cond, cases + [c], b)
    {
      OtherBlock(constraints, cond, cases, c, b);
    }
  }

  lemma DropCase(constraints: set<Expr>, cond: Expr, cases: seq<Case>, c: Case, default_: nat, targets: map<nat, Expr>,
                 order: seq<nat>, match_: Expr)
    requires WellFormed(cond) && Width(cond) > 0 && c.value < Pow2(Width(cond)) && c.block != default_
    requires GuardsOk(constraints, cond, cases, default_, targets, order)
    requires Preserves(Match(cond, c), match_) && !May(constraints, match_)
    ensures GuardsOk(constraints, cond, cases + [c], default_, targets, order)
  {
    hide GuardOk, Unreached, WellFormed, Width, Match, May, Preserves;
    Infeasible(constraints, cond, cases, c, match_);
    forall b | b != default_ && b != c.block
      ensures b in targets ==> GuardOk(constraints, cond, cases + [c], b, targets[b])
      ensures b !in targets ==> Unreached(constraints, cond, cases + [c], b)
    {
      OtherBlock(constraints, cond, cases, c, b);
    }
  }

  /** A feasible case of a block seen before, or of a new one. */
  lemma TakeCase(constraints: set<Expr>, cond: Expr, cases: seq<Case>, c: Case, default_: nat, targets: map<nat, Expr>,
                 order: seq<nat>, match_: Expr, guard': Expr)
    requires WellFormed(cond) && Width(cond) > 0 && c.value < Pow2(Width(cond)) && c.block != default_
    requires GuardsOk(constraints, cond, cases, default_, targets, order)
    requires Preserves(Match(cond, c), match_)
    requires Preserves(Binary(Or, match_, if c.block in targets then targets[c.block] else Const(1, 0)), guard')
    ensures GuardsOk(constraints, cond, cases + [c], default_, targets[c.block := guard'],
                     if c.block in targets then order else order + [c.block])
  {
    hide GuardOk, Unreached, WellFormed, Width, Match, Preserves;
    var guard := if c.block in targets then targets[c.block] else Const(1, 0);
    if c.block !in targets { FalseGuard(constraints, cond, cases, c.block); }
    AddMatch(constraints, cond, cases, c, match_, guard, guard');
    forall b | b != default_ && b != c.block
      ensures b in targets ==> GuardOk(constraints, cond, cases + [c], b, targets[b])
      ensures b !in targets ==> Unreached(constraints, cond, cases + [c], b)
    {
      OtherBlock(constraints, cond, cases, c, b);
    }
  }

  lemma FalseGuard(constraints: set<Expr>, cond: Expr, cases: seq<Case>, block: nat)
    requires Unreached(constraints, cond, cases, block)
    ensures GuardOk(constraints, cond, cases, block, Const(1, 0))
  {
    assert Pow2(1) == 2;
    hide MatchedTo, Sat;
  }

  /** On every assignment of the path exactly one guard is true: that of the block
      the concrete switch goes to. */
  ghost predicate ExactGuards(constraints: set<Expr>, cond: Expr, cases: seq<Case>, default_: nat, order: seq<nat>,
                              guards: seq<Expr>)
  {
    && |guards| == |order|
    && (forall k :: 0 <= k < |guards| ==> WellFormed(guards[k]) && Width(guards[k]) == 1)
    && (forall sigma: Assignment :: Sat(constraints, sigma) ==>
          exists k :: 0 <= k < |order| && order[k] == Target(cases, default_, Eval(cond, sigma)) &&
                      OnlyGuard(guards, k, sigma))
  }

  ghost predicate OnlyGuard(guards: seq<Expr>, k: nat, sigma: Assignment) {
    forall l :: 0 <= l < |guards| ==> (Eval(guards[l], sigma) == 1 <==> l == k)
  }

  lemma OneBlock(cases: seq<Case>, default_: nat, block: nat, v: nat)
    requires DistinctValues(cases) && MatchedTo(cases, block, v)
    ensures Target(cases, default_, v) == block
    ensures MatchedOther(cases, default_, v) <==> block != default_
  {
    var j :| 0 <= j < |cases| && cases[j].block == block && cases[j].value == v;
    TargetHit(cases, default_, j);
  }

  lemma NoBlock(cases: seq<Case>, default_: nat, v: nat)
    requires DistinctValues(cases) && !MatchedOther(cases, default_, v)
    ensures Target(cases, default_, v) == default_
    ensures forall b :: b != default_ ==> !MatchedTo(cases, b, v)
  {
    if j :| 0 <= j < |cases| && cases[j].value == v {
      TargetHit(cases, default_, j);
    } else {
      TargetMiss(cases, default_, v);
    }
  }

  /** The guards on one assignment. */
  lemma ExactHere(constraints: set<Expr>, cond: Expr, cases: seq<Case>, default_: nat, targets: map<nat, Expr>,
                  order: seq<nat>, guards: seq<Expr>, guard: Expr, withDefault: bool, sigma: Assignment)
    returns (k: nat)
    requires DistinctValues(cases) && Sat(constraints, sigma)
    requires GuardsOk(constraints, cond, cases, default_, targets, order) && DefaultOk(cond, cases, default_, guard)
    requires |guards| == |order| && forall l :: 0 <= l < |order| ==> guards[l] == targets[order[l]]
    requires Eval(guard, sigma) == 1 ==> withDefault
    ensures var order', guards' := if withDefault then order + [default_] else order,
                                   if withDefault then guards + [guard] else guards;
            k < |order'| && order'[k] == Target(cases, default_, Eval(cond, sigma)) && OnlyGuard(guards', k, sigma)
  {
    var v := Eval(cond, sigma);
    hide Eval, WellFormed, Width, Sat, MatchedTo, MatchedOther, Target, DistinctValues;
    forall l | 0 <= l < |order|
      ensures Eval(guards[l], sigma) == 1 <==> MatchedTo(cases, order[l], v)
    {
      assert GuardOk(constraints, cond, cases, order[l], targets[order[l]]);
    }
    if b: nat :| b != default_ && MatchedTo(cases, b, v) {
      OneBlock(cases, default_, b, v);
      assert !Unreached(constraints, cond, cases, b);
      k :| 0 <= k < |order| && order[k] == b;
      forall l | 0 <= l < |order| && MatchedTo(cases, order[l], v)
        ensures l == k
      {
        OneBlock(cases, default_, order[l], v);
      }
    } else {
      NoOther(cases, default_, v);
      NoBlock(cases, default_, v);
      k := |order|;
      assert forall l :: 0 <= l < |order| ==> order[l] != default_;
    }
  }

  lemma NoOther(cases: seq<Case>, default_: nat, v: nat)
    requires forall b: nat :: b != default_ ==> !MatchedTo(cases, b, v)
    ensures !MatchedOther(cases, default_, v)
  {
    if MatchedOther(cases, default_, v) {
      var j :| 0 <= j < |cases| && cases[j].block != default_ && cases[j].value == v;
      assert MatchedTo(cases, cases[j].block, v);
    }
  }

  lemma Exact(constraints: set<Expr>, cond: Expr, cases: seq<Case>, default_: nat, targets: map<nat, Expr>,
              order: seq<nat>, guards: seq<Expr>, guard: Expr, withDefault: bool)
    requires DistinctValues(cases)
    requires GuardsOk(constraints, cond, cases, default_, targets, order) && DefaultOk(cond, cases, default_, guard)
    requires |guards| == |order| && forall l :: 0 <= l < |order| ==> guards[l] == targets[order[l]]
    requires withDefault <==> May(constraints, guard)
    ensures ExactGuards(constraints, cond, cases, default_, if withDefault then order + [default_] else order,
                        if withDefault then guards + [guard] else guards)
  {
    var order', guards' := if withDefault then order + [default_] else order,
                           if withDefault then guards + [guard] else guards;
    hide Eval, Sat, Target, OnlyGuard, WellFormed, Width;
    forall l | 0 <= l < |guards'|
      ensures WellFormed(guards'[l]) && Width(guards'[l]) == 1
    {
      if l < |order| { assert GuardOk(constraints, cond, cases, order[l], targets[order[l]]); }
    }
    hide GuardsOk, DefaultOk, DistinctValues;
    forall sigma: Assignment | Sat(constraints, sigma)
      ensures exists k :: 0 <= k < |order'| && order'[k] == Target(cases, default_, Eval(cond, sigma)) &&
                          OnlyGuard(guards', k, sigma)
    {
      var k := ExactHere(constraints, cond, cases, default_, targets, order, guards, guard, withDefault, sigma);
    }
  }

  lemma StartGuards(constraints: set<Expr>, cond: Expr, default_: nat)
    ensures Built(constraints, cond, [], default_, map[], [], Const(1, 1))
  {
    assert Pow2(1) == 2;
  }

  lemma NextCase(cond: Expr, cases: seq<Case>, c: Case, default_: nat, guard: Expr)
    requires WellFormed(cond) && Width(cond) > 0 && c.value < Pow2(Width(cond))
    requires DefaultOk(cond, cases, default_, guard)
    ensures WellFormed(Binary(And, guard, IsZero(Match(cond, c)))) && WellFormed(Match(cond, c))
  {
    AndNotMatch(cond, c, guard, (_, _) => 0);
    MatchMeaning(cond, c, (_, _) => 0);
  }

  ghost predicate AllMay(constraints: set<Expr>, targets: map<nat, Expr>) {
    forall b :: b in targets ==> May(constraints, targets[b])
  }

  lemma OrOk(constraints: set<Expr>, cond: Expr, cases: seq<Case>, c: Case, default_: nat, targets: map<nat, Expr>,
             order: seq<nat>, match_: Expr)
    requires WellFormed(cond) && Width(cond) > 0 && c.value < Pow2(Width(cond))
    requires GuardsOk(constraints, cond, cases, default_, targets, order)
    requires Preserves(Match(cond, c), match_) && May(constraints, match_)
    ensures var e := Binary(Or, match_, if c.block in targets then targets[c.block] else Const(1, 0));
            WellFormed(e) && forall e' :: Preserves(e, e') ==> May(constraints, e')
  {
    var guard := if c.block in targets then targets[c.block] else Const(1, 0);
    assert Pow2(1) == 2;
    assert WellFormed(guard) && Width(guard) == 1 by {
      if c.block in targets { assert GuardOk(constraints, cond, cases, c.block, targets[c.block]); }
    }
    MatchMeaning(cond, c, (_, _) => 0);
    hide Eval, WellFormed, Width, Sat, Match;
    M.AndMeaning(match_, guard, (_, _) => 0);
    var sigma: Assignment :| Sat(constraints, sigma) && Eval(match_, sigma) == 1;
    M.AndMeaning(match_, guard, sigma);
  }

  lemma SameDefault(cond: Expr, cases: seq<Case>, default_: nat, guard: Expr, guard': Expr)
    requires DefaultOk(cond, cases, default_, guard) && Preserves(guard, guard')
    ensures DefaultOk(cond, cases, default_, guard')
  {
    hide Eval, WellFormed, Width, MatchedOther;
  }

  lemma BuiltParts(constraints: set<Expr>, cond: Expr, cases: seq<Case>, default_: nat, targets: map<nat, Expr>,
                   order: seq<nat>, guard: Expr)
    requires Built(constraints, cond, cases, default_, targets, order, guard)
    ensures WellFormed(guard) && DefaultOk(cond, cases, default_, guard)
    ensures GuardsOk(constraints, cond, cases, default_, targets, order)
    ensures forall l :: 0 <= l < |order| ==>
              order[l] in targets && order[l] != default_ && May(constraints, targets[order[l]])
    ensures forall i, j :: 0 <= i < j < |order| ==> order[i] != order[j]
  {
    hide May, Eval, MatchedOther;
  }

  ghost predicate Built(constraints: set<Expr>, cond: Expr, cases: seq<Case>, default_: nat, targets: map<nat, Expr>,
                        order: seq<nat>, guard: Expr)
  {
    GuardsOk(constraints, cond, cases, default_, targets, order) && DefaultOk(cond, cases, default_, guard) &&
    AllMay(constraints, targets)
  }

  predicate Fits(cond: Expr, c: Case) { WellFormed(cond) && Width(cond) > 0 && c.value < Pow2(Width(cond)) }

  /** One case: nothing for a case of the default block; otherwise the default guard
      excludes it, and the guard of its block takes it in when it is feasible. */
  method AddCase(solver: Solver, constraints: set<Expr>, cond: Expr, ghost cases: seq<Case>, c: Case, default_: nat,
                 targets: map<nat, Expr>, order: seq<nat>, guard: Expr)
    returns (answered: bool, targets': map<nat, Expr>, order': seq<nat>, guard': Expr)
    requires solver.Sound() && Fits(cond, c) && Built(constraints, cond, cases, default_, targets, order, guard)
    modifies solver`queries
    ensures answered ==> Built(constraints, cond, cases + [c], default_, targets', order', guard')
    ensures |order'| <= |order| + 1
    ensures solver.Answers() ==> answered
  {
    hide GuardsOk, DefaultOk, AllMay, Eval, WellFormed, Width, May, Match, IsZero, Preserves, Pow2;
    answered, targets', order', guard' := true, targets, order, guard;
    if c.block == default_ {
      SkipCase(constraints, cond, cases, c, default_, targets, order, guard);
      return;
    }
    NextCase(cond, cases, c, default_, guard);
    guard' := Create(Binary(And, guard, IsZero(Match(cond, c))));
    AddToDefault(cond, cases, c, default_, guard, guard');
    var match_ := Create(Match(cond, c));
    var may := solver.MayBeTrue(constraints, match_);
    if may.None? {
      answered := false;
    } else if may.value {
      OrOk(constraints, cond, cases, c, default_, targets, order, match_);
      var known := if c.block in targets then targets[c.block] else Const(1, 0);
      var widened := Create(Binary(Or, match_, known));
      TakeCase(constraints, cond, cases, c, default_, targets, order, match_, widened);
      OneMore(constraints, targets, c.block, widened);
      targets' := targets[c.block := widened];
      order' := if c.block in targets then order else order + [c.block];
    } else {
      DropCase(constraints, cond, cases, c, default_, targets, order, match_);
    }
  }

  /** The guards of a symbolic switch, the cases listed in the order of their values;
      fails only when the solver does. */
  method BuildGuards(solver: Solver, constraints: set<Expr>, cond: Expr, cases: seq<Case>, default_: nat)
    returns (answered: bool, order: seq<nat>, guards: seq<Expr>)
    requires solver.Sound() && DistinctValues(cases) && WellFormed(cond)
    requires forall i :: 0 <= i < |cases| ==> Fits(cond, cases[i])
    modifies solver`queries
    ensures answered ==> ExactGuards(constraints, cond, cases, default_, order, guards)
    ensures answered ==> forall k :: 0 <= k < |guards| ==> May(constraints, guards[k])
    ensures answered ==> forall i, j :: 0 <= i < j < |order| ==> order[i] != order[j]
    ensures |order| <= |cases| + 1
    ensures solver.Answers() ==> answered
  {
    hide *;
    StartGuards(constraints, cond, default_);
    var targets: map<nat, Expr> := map[];
    var defaultValue := Const(1, 1);
    order, guards := [], [];
    for i := 0 to |cases|
      invariant Built(constraints, cond, cases[..i], default_, targets, order, defaultValue) && |order| <= i
    {
      assert cases[..i + 1] == cases[..i] + [cases[i]];
      answered, targets, order, defaultValue :=
        AddCase(solver, constraints, cond, cases[..i], cases[i], default_, targets, order, defaultValue);
      if !answered { return; }
    }
    assert cases[..|cases|] == cases;
    BuiltParts(constraints, cond, cases, default_, targets, order, defaultValue);
    var optimized := Create(defaultValue);
    SameDefault(cond, cases, default_, defaultValue, optimized);
    var may := solver.MayBeTrue(constraints, optimized);
    if may.None? { return false, order, guards; }
    guards := seq(|order|, l requires 0 <= l < |order| => targets[order[l]]);
    Exact(constraints, cond, cases, default_, targets, order, guards, optimized, may.value);
    if may.value { order, guards := order + [default_], guards + [optimized]; }
    answered := true;
  }

  lemma OneMore(constraints: set<Expr>, targets: map<nat, Expr>, block: nat, guard: Expr)
    requires AllMay(constraints, targets) && May(constraints, guard)
    ensures AllMay(constraints, targets[block := guard])
  {
    hide May;
  }

  // ------------------------------------------------------------ the states

  function Constrained(s: State, e: Expr): State { s.(constraints := s.constraints + {e}) }

  /** Where the states of a branch end up: the first stays, the others are new. */
  function Slot(i: nat, n: nat, k: nat): nat { if k == 0 then i else n + k - 1 }

  /** A branch over a list of conditions leaves one copy of the state for each, and
      each copy knows its own condition only. */
  ghost predicate Branched(states: seq<State>, i: nat, conditions: seq<Expr>, states': seq<State>,
                           result: seq<Option<nat>>)
    requires i < |states|
  {
    && |result| == |conditions| > 0 && |states'| == |states| + |conditions| - 1
    && (forall l :: 0 <= l < |states| && l != i ==> states'[l] == states[l])
    && (forall k :: 0 <= k < |conditions| ==>
          result[k] == Some(Slot(i, |states|, k)) && states'[result[k].value] == Constrained(states[i], conditions[k]))
  }

  /** When forking is inhibited one condition is picked and the others are lost. */
  ghost predicate Picked(states: seq<State>, i: nat, conditions: seq<Expr>, states': seq<State>,
                         result: seq<Option<nat>>)
    requires i < |states|
  {
    |result| == |conditions| &&
    exists k :: 0 <= k < |result| && states' == states[i := Constrained(states[i], conditions[k])] &&
                OnlyResult(result, k, i)
  }

  function Copies<T>(x: T, n: nat): seq<T> { seq(n, _ => x) }

  /** The copies a branch makes; each is copied from any of those before it. */
  method MakeCopies(m: Machine, i: nat, count: nat, ghost g: Shadow)
    returns (m': Machine, result: seq<Option<nat>>, ghost g': Shadow)
    requires InStep(m, g) && i < |m.states| && 0 < count && R.Epoch(g, i) + count <= UINT32
    modifies g.repr
    ensures InStep(m', g') && fresh(g'.repr - g.repr)
    ensures g'.ms == g.ms + Copies(g.ms[i], count - 1) && m'.states == m.states + Copies(m.states[i], count - 1)
    ensures |result| == count && forall k :: 0 <= k < count ==> result[k] == Some(Slot(i, |m.states|, k))
  {
    hide R.InStep;
    g', m', result := g, m, [Some(i)];
    for k := 1 to count
      invariant InStep(m', g') && fresh(g'.repr - g.repr)
      invariant forall l :: 0 <= l < k ==> R.Epoch(g', Slot(i, |m.states|, l)) <= R.Epoch(g, i) + k - 1
      invariant g'.ms == g.ms + Copies(g.ms[i], k - 1) && m'.states == m.states + Copies(m.states[i], k - 1)
      invariant |result| == k && forall l :: 0 <= l < k ==> result[l] == Some(Slot(i, |m.states|, l))
    {
      var r: nat := *;
      var es := result[r % k].value;
      CopyOf(m.states, i, k, r % k);
      CopyOf(g.ms, i, k, r % k);
      ghost var was := g';
      R.SameEpochs(m'.spaces, was);
      var spaces;
      spaces, g' := R.DoFork(m'.spaces, es, g');
      R.SameCount(spaces, g');
      R.ForkEpochs(was, es, g', R.Epoch(g, i) + k - 1);
      m' := Machine(spaces, m'.states + [m'.states[es]]);
      result := result + [Some(|m'.states| - 1)];
    }
  }

  lemma CopyOf<T>(xs: seq<T>, i: nat, k: nat, r: nat)
    requires i < |xs| && r < k
    ensures Slot(i, |xs|, r) < |xs| + k - 1
    ensures (xs + Copies(xs[i], k - 1))[Slot(i, |xs|, r)] == xs[i]
    ensures xs + Copies(xs[i], k - 1) + [xs[i]] == xs + Copies(xs[i], k)
  {
  }

  /** Each state then gets its own condition. */
  method AddConditions(states: seq<State>, i: nat, conditions: seq<Expr>, result: seq<Option<nat>>)
    returns (states': seq<State>)
    requires i < |states| && 0 < |conditions| == |result|
    requires forall k :: 0 <= k < |result| ==> result[k] == Some(Slot(i, |states|, k))
    ensures Branched(states, i, conditions, states', result)
  {
    states' := states + Copies(states[i], |conditions| - 1);
    for k := 0 to |conditions|
      invariant |states'| == |states| + |conditions| - 1
      invariant forall l :: 0 <= l < |states| && l != i ==> states'[l] == states[l]
      invariant forall l :: 0 <= l < |conditions| ==>
                  states'[Slot(i, |states|, l)] ==
                  if l < k then Constrained(states[i], conditions[l]) else states[i]
    {
      var es := result[k].value;
      states' := states'[es := Constrained(states'[es], conditions[k])];
    }
  }

  method Branch(m: Machine, i: nat, conditions: seq<Expr>, permitted: bool, ghost g: Shadow)
    returns (m': Machine, result: seq<Option<nat>>, ghost g': Shadow)
    requires InStep(m, g) && i < |m.states| && 0 < |conditions|
    requires permitted ==> R.Epoch(g, i) + |conditions| <= UINT32
    modifies g.repr
    ensures InStep(m', g') && fresh(g'.repr - g.repr)
    ensures permitted ==> Branched(m.states, i, conditions, m'.states, result) &&
                          g'.ms == g.ms + Copies(g.ms[i], |conditions| - 1)
    ensures !permitted ==> Picked(m.states, i, conditions, m'.states, result) && g' == g
  {
    hide R.InStep;
    if permitted {
      m', result, g' := MakeCopies(m, i, |conditions|, g);
      var states := AddConditions(m.states, i, conditions, result);
      m' := m'.(states := states);
    } else {
      var next: nat := *;
      next := next % |conditions|;
      result := seq(|conditions|, k => if k == next then Some(i) else None);
      assert OnlyResult(result, next, i);
      m', g' := m.(states := m.states[i := Constrained(m.states[i], conditions[next])]), g;
    }
  }

  /** An expression with one possible value on the path becomes that value. */
  method ToUnique(solver: Solver, constraints: set<Expr>, e: Expr) returns (r: Expr)
    requires solver.Sound() && WellFormed(e)
    modifies solver`queries
    ensures WellFormed(r) && Width(r) == Width(e)
    ensures r.Const? || r == e
    ensures forall sigma: Assignment :: Sat(constraints, sigma) ==> Eval(r, sigma) == Eval(e, sigma)
    ensures solver.Answers() && IsUnique(constraints, e) ==> r.Const?
  {
    hide Eval, WellFormed, Width, Sat, Pow2, Solver.Answers, Solver.Sound, IsUnique;
    if IsUnique(constraints, e) { UniqueFeasible(constraints, e); }
    r := e;
    if e.Const? { return; }
    var optimized := Create(e);
    var value := solver.GetValue(constraints, optimized);
    if value.None? { return; }
    var known := Const(Width(e), value.value);
    UniqueParts(constraints, optimized, value.value);
    var isValue := Create(Binary(Eq, optimized, known));
    if IsUnique(constraints, e) { UniqueTest(constraints, e, optimized, value.value, isValue); }
    var must := solver.MustBeTrue(constraints, isValue);
    if must == Some(true) { r := known; }
  }

  /** The expression has one value on the path. */
  ghost predicate IsUnique(constraints: set<Expr>, e: Expr) {
    exists v: nat :: OnlyValue(constraints, e, v)
  }

  ghost predicate OnlyValue(constraints: set<Expr>, e: Expr, v: nat) {
    Feasible(constraints) && forall sigma: Assignment :: Sat(constraints, sigma) ==> Eval(e, sigma) == v
  }

  lemma UniqueFeasible(constraints: set<Expr>, e: Expr)
    requires IsUnique(constraints, e)
    ensures Feasible(constraints)
  {
  }

  lemma UniqueTest(constraints: set<Expr>, e: Expr, optimized: Expr, v: nat, test: Expr)
    requires IsUnique(constraints, e) && Preserves(e, optimized) && CanBe(constraints, optimized, v)
    requires forall sigma: Assignment ::
               Eval(test, sigma) == 1 <==> Eval(optimized, sigma) == Eval(Const(Width(e), v), sigma)
    ensures Must(constraints, test)
  {
    assert forall sigma: Assignment :: Eval(Const(Width(e), v), sigma) == v;
    hide Eval, Sat, WellFormed, Width;
    var sigma: Assignment :| Sat(constraints, sigma) && Eval(optimized, sigma) == v;
    var w: nat :| OnlyValue(constraints, e, w);
  }

  lemma UniqueParts(constraints: set<Expr>, e: Expr, v: nat)
    requires WellFormed(e) && CanBe(constraints, e, v)
    ensures WellFormed(Const(Width(e), v)) && Width(Const(Width(e), v)) == Width(e)
    ensures var test := Binary(Eq, e, Const(Width(e), v));
            WellFormed(test) && Width(test) == 1 &&
            forall sigma: Assignment :: Eval(test, sigma) == 1 <==> Eval(e, sigma) == Eval(Const(Width(e), v), sigma)
  {
    var sigma: Assignment :| Sat(constraints, sigma) && Eval(e, sigma) == v;
    EvalRange(e, sigma);
  }

  /** Each concrete execution of the path goes on in exactly one of the resulting
      states, and that state is at the block the concrete switch jumps to. */
  ghost predicate Switched(s: State, cond: Expr, cases: seq<Case>, default_: nat, states': seq<State>,
                           order: seq<nat>, result: seq<Option<nat>>)
  {
    && |order| == |result|
    && (forall k :: 0 <= k < |result| ==> result[k].Some? && result[k].value < |states'|)
    && (forall k :: 0 <= k < |result| ==> Follows(s, states'[result[k].value]))
    && (forall sigma: Assignment :: Sat(s.constraints, sigma) ==>
          exists k :: 0 <= k < |order| && order[k] == Target(cases, default_, Eval(cond, sigma)) &&
                      OnlyState(states', result, k, sigma))
  }

  /** A feasible state on a path of another, with that state's register. */
  ghost predicate Follows(s: State, s': State) {
    Feasible(s'.constraints) && s.constraints <= s'.constraints && s'.register == s.register
  }

  ghost predicate OnlyState(states: seq<State>, result: seq<Option<nat>>, k: nat, sigma: Assignment)
    requires forall l :: 0 <= l < |result| ==> result[l].Some? && result[l].value < |states|
  {
    forall l :: 0 <= l < |result| ==> (Sat(states[result[l].value].constraints, sigma) <==> l == k)
  }

  lemma BranchSwitched(states: seq<State>, i: nat, cond: Expr, cases: seq<Case>, default_: nat, order: seq<nat>,
                       guards: seq<Expr>, states': seq<State>, result: seq<Option<nat>>)
    requires i < |states| && Branched(states, i, guards, states', result)
    requires ExactGuards(states[i].constraints, cond, cases, default_, order, guards)
    requires forall k :: 0 <= k < |guards| ==> May(states[i].constraints, guards[k])
    ensures Switched(states[i], cond, cases, default_, states', order, result)
  {
    var c := states[i].constraints;
    hide Eval, WellFormed, Width, Target, Sat;
    forall k, sigma: Assignment | 0 <= k < |guards|
      ensures Sat(states'[result[k].value].constraints, sigma) <==> Sat(c, sigma) && Eval(guards[k], sigma) == 1
    {
      SatExtend(c, guards[k], sigma);
    }
    forall k | 0 <= k < |result|
      ensures Follows(states[i], states'[result[k].value])
    {
      var sigma: Assignment :| Sat(c, sigma) && Eval(guards[k], sigma) == 1;
    }
    forall sigma: Assignment | Sat(c, sigma)
      ensures exists k :: 0 <= k < |order| && order[k] == Target(cases, default_, Eval(cond, sigma)) &&
                          OnlyState(states', result, k, sigma)
    {
      var k :| 0 <= k < |order| && order[k] == Target(cases, default_, Eval(cond, sigma)) &&
               OnlyGuard(guards, k, sigma);
    }
  }

  lemma SomeGuard(constraints: set<Expr>, cond: Expr, cases: seq<Case>, default_: nat, order: seq<nat>,
                  guards: seq<Expr>)
    requires ExactGuards(constraints, cond, cases, default_, order, guards) && Feasible(constraints)
    ensures 0 < |guards| == |order|
  {
    hide Eval, Sat, Target;
    var sigma: Assignment :| Sat(constraints, sigma);
  }

  /** When forking is inhibited the one state that is left is at the right block for
      every execution it still stands for. */
  ghost predicate SwitchedOnce(s: State, cond: Expr, cases: seq<Case>, default_: nat, s': State, block: nat) {
    Follows(s, s') &&
    forall sigma: Assignment :: Sat(s'.constraints, sigma) ==> block == Target(cases, default_, Eval(cond, sigma))
  }

  ghost predicate Narrowed(s: State, cond: Expr, cases: seq<Case>, default_: nat, s': State, i: nat, order: seq<nat>,
                           result: seq<Option<nat>>)
  {
    |order| == |result| &&
    exists k :: 0 <= k < |result| && SwitchedOnce(s, cond, cases, default_, s', order[k]) && OnlyResult(result, k, i)
  }

  predicate OnlyResult(result: seq<Option<nat>>, k: nat, i: nat) {
    forall l :: 0 <= l < |result| ==> result[l] == if l == k then Some(i) else None
  }

  lemma PickSwitched(s: State, cond: Expr, cases: seq<Case>, default_: nat, order: seq<nat>, guards: seq<Expr>, k: nat)
    requires ExactGuards(s.constraints, cond, cases, default_, order, guards)
    requires k < |guards| && May(s.constraints, guards[k])
    ensures SwitchedOnce(s, cond, cases, default_, Constrained(s, guards[k]), order[k])
  {
    hide Eval, WellFormed, Width, Target, Sat;
    var c := s.constraints;
    var sigma0: Assignment :| Sat(c, sigma0) && Eval(guards[k], sigma0) == 1;
    SatExtend(c, guards[k], sigma0);
    forall sigma: Assignment | Sat(c + {guards[k]}, sigma)
      ensures order[k] == Target(cases, default_, Eval(cond, sigma))
    {
      SatExtend(c, guards[k], sigma);
      var l :| 0 <= l < |order| && order[l] == Target(cases, default_, Eval(cond, sigma)) &&
               OnlyGuard(guards, l, sigma);
    }
  }

  lemma UniqueSwitched(states: seq<State>, i: nat, cond: Expr, cases: seq<Case>, default_: nat, v: nat)
    requires i < |states| && Feasible(states[i].constraints)
    requires forall sigma: Assignment :: Sat(states[i].constraints, sigma) ==> Eval(cond, sigma) == v
    ensures Switched(states[i], cond, cases, default_, states, [Target(cases, default_, v)], [Some(i)])
    ensures SwitchedOnce(states[i], cond, cases, default_, states[i], Target(cases, default_, v))
  {
    hide Eval, Sat, Target;
    var order, result := [Target(cases, default_, v)], [Some(i)];
    forall sigma: Assignment | Sat(states[i].constraints, sigma)
      ensures exists k :: 0 <= k < |order| && order[k] == Target(cases, default_, Eval(cond, sigma)) &&
                          OnlyState(states, result, k, sigma)
    {
      assert OnlyState(states, result, 0, sigma) && order[0] == Target(cases, default_, Eval(cond, sigma));
    }
  }

  /** The switch instruction. The case values are distinct and have the width of the
      condition, as the instruction set demands, and the path is feasible, as every
      path of the executor is. Each result names a state and the block it is at. */
  method ExecuteSwitch(solver: Solver, m: Machine, i: nat, cond: Expr, cases: seq<Case>, default_: nat, permitted: bool,
                       ghost g: Shadow)
    returns (answered: bool, m': Machine, order: seq<nat>, result: seq<Option<nat>>, ghost g': Shadow)
    requires InStep(m, g) && i < |m.states| && R.Epoch(g, i) + |cases| + 1 <= UINT32 &&
             Feasible(m.states[i].constraints)
    requires solver.Sound() && solver !in g.repr && WellFormed(cond) && DistinctValues(cases)
    requires forall k :: 0 <= k < |cases| ==> Fits(cond, cases[k])
    modifies g.repr, solver`queries
    ensures InStep(m', g') && fresh(g'.repr - g.repr)
    ensures forall l :: 0 <= l < |m.states| && l != i ==> l < |m'.states| && m'.states[l] == m.states[l]
    ensures |g'.ms| >= |g.ms| && g'.ms == g.ms + Copies(g.ms[i], |g'.ms| - |g.ms|)
    ensures answered && permitted ==> Switched(m.states[i], cond, cases, default_, m'.states, order, result)
    ensures answered ==> |m'.states| == |m.states| + if permitted then |result| - 1 else 0
    ensures solver.Answers() ==> answered
    ensures answered && !permitted ==>
              Narrowed(m.states[i], cond, cases, default_, m'.states[i], i, order, result)
  {
    hide Eval, WellFormed, Width, Sat, Target, Switched, SwitchedOnce, ExactGuards, May, Feasible, R.InStep,
         DistinctValues, Fits, Branched, Solver.Sound;
    var c := m.states[i].constraints;
    answered, m', g', result := true, m, g, [Some(i)];
    var unique := ToUnique(solver, c, cond);
    if unique.Const? {
      order := [Target(cases, default_, unique.value)];
      ConstValue(unique);
      UniqueSwitched(m.states, i, cond, cases, default_, unique.value);
      assert OnlyResult(result, 0, i);
      return;
    }
    var guards;
    answered, order, guards := BuildGuards(solver, c, cond, cases, default_);
    if !answered { return; }
    SomeGuard(c, cond, cases, default_, order, guards);
    m', result, g' := Branch(m, i, guards, permitted, g);
    if permitted {
      BranchSwitched(m.states, i, cond, cases, default_, order, guards, m'.states, result);
      BranchedOthers(m.states, i, guards, m'.states, result);
    } else {
      ghost var k :|
        0 <= k < |result| && m'.states == m.states[i := Constrained(m.states[i], guards[k])] &&
        OnlyResult(result, k, i);
      PickSwitched(m.states[i], cond, cases, default_, order, guards, k);
    }
  }

  lemma ConstValue(e: Expr)
    requires e.Const?
    ensures forall sigma: Assignment :: Eval(e, sigma) == e.value
  {
  }

  lemma BranchedOthers(states: seq<State>, i: nat, conditions: seq<Expr>, states': seq<State>, result: seq<Option<nat>>)
    requires i < |states| && Branched(states, i, conditions, states', result)
    ensures forall l :: 0 <= l < |states| && l != i ==> l < |states'| && states'[l] == states[l]
    ensures |states'| == |states| + |result| - 1
  {
  }
}
