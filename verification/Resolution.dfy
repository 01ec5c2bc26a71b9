/**
 Resolving a pointer to the memory objects it may lie in. The objects are
 searched in address order from a solver example outwards, and each direction
 stops as soon as the solver rules out everything further on.
 */
module Resolution {
  import opened Arithmetic
  import opened Exprs
  import opened ObjectStates
  import opened Solvers

  // --------------------------------------------------------- bounds checks

  function BaseExpr(mo: MemoryObject): Expr { Const(64, mo.address) }

  function OffsetExpr(mo: MemoryObject, p: Expr): Expr { Binary(Sub, p, BaseExpr(mo)) }

  /** Whether the byte at the pointer is in the object; an empty object has its base. */
  function BoundsCheckPointer(mo: MemoryObject, p: Expr): Expr {
    if mo.size == 0 then Binary(Eq, OffsetExpr(mo, p), Const(64, 0))
    else Binary(Ult, OffsetExpr(mo, p), Const(64, mo.size))
  }

  /** Whether all the bytes of an access at the pointer are in the object. */
  function BoundsCheckAccess(mo: MemoryObject, p: Expr, bytes: nat): Expr {
    if bytes <= mo.size then Binary(Ult, OffsetExpr(mo, p), Const(64, mo.size - bytes + 1))
    else Const(1, 0)
  }

  predicate Inside(mo: MemoryObject, v: nat) {
    if mo.size == 0 then v == mo.address else mo.address <= v < mo.address + mo.size
  }

  predicate Covers(mo: MemoryObject, v: nat, bytes: nat) {
    mo.address <= v && v + bytes <= mo.address + mo.size
  }

  predicate Fits(mo: MemoryObject) { mo.address < UINT64 && mo.address + mo.size <= UINT64 && mo.size < UINT32 }

  predicate IsPointer(p: Expr) { WellFormed(p) && Width(p) == 64 }

  lemma OffsetMeaning(mo: MemoryObject, p: Expr, sigma: Assignment)
    requires Fits(mo) && IsPointer(p)
    ensures WellFormed(OffsetExpr(mo, p)) && Width(OffsetExpr(mo, p)) == 64 && Eval(p, sigma) < UINT64
    ensures Eval(OffsetExpr(mo, p), sigma)
            == if Eval(p, sigma) >= mo.address then Eval(p, sigma) - mo.address
               else Eval(p, sigma) + UINT64 - mo.address
  {
    Pow2Values();
    EvalRange(p, sigma);
    assert WellFormed(BaseExpr(mo));
    assert WellFormed(OffsetExpr(mo, p)) && Width(OffsetExpr(mo, p)) == 64;
    SubMeaning(p, BaseExpr(mo), sigma);
    hide Eval, Pow2, WellFormed, EvalBinary;
    Sub64(Eval(p, sigma), mo.address);
  }

  lemma SubMeaning(a: Expr, b: Expr, sigma: Assignment)
    ensures Eval(Binary(Sub, a, b), sigma) == EvalBinary(Sub, Width(a), Eval(a, sigma), Eval(b, sigma))
    ensures b.Const? ==> Eval(b, sigma) == b.value
  {
    hide EvalBinary, Width;
  }

  lemma Sub64(x: nat, y: nat)
    requires x < UINT64 && y < UINT64
    ensures EvalBinary(Sub, 64, x, y) == if x >= y then x - y else x + UINT64 - y
  {
    Pow2Values();
    NearMod(x - y, UINT64);
    hide Pow2;
  }

  lemma Compare64(off: Expr, c: nat, sigma: Assignment)
    requires WellFormed(off) && Width(off) == 64 && c < UINT64
    ensures WellFormed(Const(64, c)) && Width(Const(64, c)) == 64
    ensures forall op | op in {Eq, Ult, Ule} ::
              WellFormed(Binary(op, off, Const(64, c))) && Width(Binary(op, off, Const(64, c))) == 1
    ensures Eval(Binary(Eq, off, Const(64, c)), sigma) == 1 <==> Eval(off, sigma) == c
    ensures Eval(Binary(Ult, off, Const(64, c)), sigma) == 1 <==> Eval(off, sigma) < c
    ensures WellFormed(Binary(Ule, Const(64, c), off)) && Width(Binary(Ule, Const(64, c), off)) == 1
    ensures Eval(Binary(Ule, Const(64, c), off), sigma) == 1 <==> c <= Eval(off, sigma)
  {
    Pow2Values();
    hide Pow2;
  }

  /** The one-byte check is true exactly inside the object. */
  lemma BoundsCheckPointerMeaning(mo: MemoryObject, p: Expr, sigma: Assignment)
    requires Fits(mo) && IsPointer(p)
    ensures WellFormed(BoundsCheckPointer(mo, p)) && Width(BoundsCheckPointer(mo, p)) == 1
    ensures Eval(BoundsCheckPointer(mo, p), sigma) == 1 <==> Inside(mo, Eval(p, sigma))
  {
    hide Eval, WellFormed, Width, OffsetExpr;
    OffsetMeaning(mo, p, sigma);
    Compare64(OffsetExpr(mo, p), mo.size, sigma);
    Compare64(OffsetExpr(mo, p), 0, sigma);
  }

  lemma FalseExpr(sigma: Assignment)
    ensures WellFormed(Const(1, 0)) && Width(Const(1, 0)) == 1 && Eval(Const(1, 0), sigma) == 0
  {
    assert Pow2(1) == 2;
  }

  /** The access check is true exactly when the object covers the whole access. */
  lemma BoundsCheckAccessMeaning(mo: MemoryObject, p: Expr, bytes: nat, sigma: Assignment)
    requires Fits(mo) && IsPointer(p) && bytes > 0
    ensures WellFormed(BoundsCheckAccess(mo, p, bytes)) && Width(BoundsCheckAccess(mo, p, bytes)) == 1
    ensures Eval(BoundsCheckAccess(mo, p, bytes), sigma) == 1 <==> Covers(mo, Eval(p, sigma), bytes)
  {
    FalseExpr(sigma);
    hide Eval, WellFormed, Width, OffsetExpr;
    OffsetMeaning(mo, p, sigma);
    if bytes <= mo.size { Compare64(OffsetExpr(mo, p), mo.size - bytes + 1, sigma); }
  }

  // ------------------------------------------------------------ the layout

  /** The live objects in address order: distinct bases, no overlap, no wrap. */
  predicate Layout(order: seq<MemoryObject>) {
    && (forall i :: 0 <= i < |order| ==> Fits(order[i]))
    && (forall i, j :: 0 <= i < j < |order| ==>
          order[i].address < order[j].address && order[i].address + order[i].size <= order[j].address)
  }

  ghost predicate MayPoint(constraints: set<Expr>, p: Expr, mo: MemoryObject) {
    exists sigma: Assignment :: Sat(constraints, sigma) && Inside(mo, Eval(p, sigma))
  }

  ghost predicate MustPoint(constraints: set<Expr>, p: Expr, mo: MemoryObject) {
    forall sigma: Assignment :: Sat(constraints, sigma) ==> Inside(mo, Eval(p, sigma))
  }

  lemma MayPointMeaning(constraints: set<Expr>, p: Expr, mo: MemoryObject)
    requires Fits(mo) && IsPointer(p)
    ensures WellFormed(BoundsCheckPointer(mo, p)) && Width(BoundsCheckPointer(mo, p)) == 1
    ensures May(constraints, BoundsCheckPointer(mo, p)) <==> MayPoint(constraints, p, mo)
    ensures Must(constraints, BoundsCheckPointer(mo, p)) <==> MustPoint(constraints, p, mo)
  {
    hide Eval, WellFormed, Width, BoundsCheckPointer, Inside, Sat;
    BoundsCheckPointerMeaning(mo, p, (_, _) => 0);
    forall sigma: Assignment
      ensures Eval(BoundsCheckPointer(mo, p), sigma) == 1 <==> Inside(mo, Eval(p, sigma))
    {
      BoundsCheckPointerMeaning(mo, p, sigma);
    }
  }

  function AtOrAbove(mo: MemoryObject, p: Expr): Expr { Binary(Ule, BaseExpr(mo), p) }

  function Below(mo: MemoryObject, p: Expr): Expr { Binary(Ult, p, BaseExpr(mo)) }

  lemma AtOrAboveMeaning(constraints: set<Expr>, p: Expr, mo: MemoryObject)
    requires Fits(mo) && IsPointer(p)
    ensures WellFormed(AtOrAbove(mo, p)) && Width(AtOrAbove(mo, p)) == 1
    ensures Must(constraints, AtOrAbove(mo, p)) <==>
            forall sigma: Assignment :: Sat(constraints, sigma) ==> mo.address <= Eval(p, sigma)
  {
    hide Eval, WellFormed, Width, Sat;
    Compare64(p, mo.address, (_, _) => 0);
    forall sigma: Assignment
      ensures Eval(AtOrAbove(mo, p), sigma) == 1 <==> mo.address <= Eval(p, sigma)
    {
      Compare64(p, mo.address, sigma);
    }
  }

  lemma BelowMeaning(constraints: set<Expr>, p: Expr, mo: MemoryObject)
    requires Fits(mo) && IsPointer(p)
    ensures WellFormed(Below(mo, p)) && Width(Below(mo, p)) == 1
    ensures Must(constraints, Below(mo, p)) <==>
            forall sigma: Assignment :: Sat(constraints, sigma) ==> Eval(p, sigma) < mo.address
  {
    hide Eval, WellFormed, Width, Sat;
    Compare64(p, mo.address, (_, _) => 0);
    forall sigma: Assignment
      ensures Eval(Below(mo, p), sigma) == 1 <==> Eval(p, sigma) < mo.address
    {
      Compare64(p, mo.address, sigma);
    }
  }

  /** A pointer that is never below an object's base is in no earlier object. */
  lemma NothingBefore(constraints: set<Expr>, p: Expr, order: seq<MemoryObject>, i: nat)
    requires Layout(order) && i < |order|
    requires forall sigma: Assignment :: Sat(constraints, sigma) ==> order[i].address <= Eval(p, sigma)
    ensures forall j :: 0 <= j < i ==> !MayPoint(constraints, p, order[j])
  {
    hide Eval, Sat;
  }

  /** A pointer that is always below an object's base is in that object nor any later one. */
  lemma NothingAfter(constraints: set<Expr>, p: Expr, order: seq<MemoryObject>, i: nat)
    requires Layout(order) && i < |order|
    requires forall sigma: Assignment :: Sat(constraints, sigma) ==> Eval(p, sigma) < order[i].address
    ensures forall j :: i <= j < |order| ==> !MayPoint(constraints, p, order[j])
  {
    hide Eval, Sat;
  }

  /** Objects do not share addresses. */
  lemma InsideOne(order: seq<MemoryObject>, i: nat, j: nat, v: nat)
    requires Layout(order) && i < |order| && j < |order| && Inside(order[i], v) && Inside(order[j], v)
    ensures i == j
  {
  }

  lemma OnlyOne(constraints: set<Expr>, p: Expr, order: seq<MemoryObject>, i: nat)
    requires Layout(order) && i < |order| && MustPoint(constraints, p, order[i])
    ensures forall j :: 0 <= j < |order| && j != i ==> !MayPoint(constraints, p, order[j])
  {
    hide Eval, Sat, Inside;
    forall j, sigma: Assignment | 0 <= j < |order| && j != i && Sat(constraints, sigma)
      ensures !Inside(order[j], Eval(p, sigma))
    {
      if Inside(order[j], Eval(p, sigma)) { InsideOne(order, i, j, Eval(p, sigma)); }
    }
  }

  // ------------------------------------------------------------ the search

  /** The position of the first object above an address. */
  method UpperBound(order: seq<MemoryObject>, v: nat) returns (k: nat)
    requires Layout(order)
    ensures k <= |order|
    ensures forall i :: 0 <= i < k ==> order[i].address <= v
    ensures forall i :: k <= i < |order| ==> v < order[i].address
  {
    k := 0;
    while k < |order| && order[k].address <= v
      invariant k <= |order|
      invariant forall i :: 0 <= i < k ==> order[i].address <= v
    {
      k := k + 1;
    }
  }

  /** The object at a known address: the last one that does not start above it. */
  method ResolveAddress(order: seq<MemoryObject>, v: nat) returns (r: Option<MemoryObject>)
    requires Layout(order)
    ensures r.Some? ==> r.value in order && Inside(r.value, v)
    ensures r.None? ==> forall mo :: mo in order ==> !Inside(mo, v)
  {
    var k := UpperBound(order, v);
    if k > 0 {
      var mo := order[k - 1];
      if (mo.size == 0 && v == mo.address) || v - mo.address < mo.size { return Some(mo); }
    }
    return None;
  }

  datatype Answer = OnlyThis | Incomplete | GoOn

  /** Adds an object to the list if the pointer may lie in it. */
  method CheckPointerInObject(solver: Solver, constraints: set<Expr>, p: Expr, mo: MemoryObject, rl: seq<MemoryObject>,
                              maxResolutions: nat)
    returns (answer: Answer, rl': seq<MemoryObject>, ghost timedOut: bool)
    requires solver.Sound() && IsPointer(p) && Fits(mo)
    modifies solver`queries
    ensures rl' == rl || rl' == rl + [mo]
    ensures answer != Incomplete ==> rl' == if MayPoint(constraints, p, mo) then rl + [mo] else rl
    ensures answer == OnlyThis ==> rl == [] && MustPoint(constraints, p, mo)
    ensures answer == Incomplete ==> timedOut || (maxResolutions >= 2 && |rl'| == maxResolutions)
    ensures answer == GoOn ==> |rl'| != maxResolutions || maxResolutions == 1 || rl' == rl
    ensures timedOut ==> answer == Incomplete && !solver.Answers()
  {
    rl', timedOut := rl, false;
    MayPointMeaning(constraints, p, mo);
    hide May, Must, MayPoint, MustPoint, BoundsCheckPointer, WellFormed, Width;
    var inBounds := BoundsCheckPointer(mo, p);
    var may := solver.MayBeTrue(constraints, inBounds);
    if may.None? { return Incomplete, rl, true; }
    if may.value {
      rl' := rl + [mo];
      if |rl'| == 1 {
        var must := solver.MustBeTrue(constraints, inBounds);
        if must.None? { return Incomplete, rl', true; }
        if must.value { return OnlyThis, rl', false; }
      } else if |rl'| == maxResolutions {
        return Incomplete, rl', false;
      }
    }
    answer := GoOn;
  }

  ghost predicate InRange(order: seq<MemoryObject>, lo: nat, hi: nat, mo: MemoryObject)
    requires lo <= hi <= |order|
  {
    exists j :: lo <= j < hi && order[j] == mo
  }

  /** The list holds exactly the objects in a range that the pointer may lie in, once each. */
  ghost predicate Collected(constraints: set<Expr>, p: Expr, order: seq<MemoryObject>, lo: nat, hi: nat,
                            rl: seq<MemoryObject>)
    requires lo <= hi <= |order|
  {
    && (forall i :: lo <= i < hi && MayPoint(constraints, p, order[i]) ==> order[i] in rl)
    && (forall k :: 0 <= k < |rl| ==> InRange(order, lo, hi, rl[k]) && MayPoint(constraints, p, rl[k]))
    && (forall k, l :: 0 <= k < l < |rl| ==> rl[k] != rl[l])
  }

  /** Object i is the one next to the range [lo, hi), which it widens to [lo', hi'). */
  predicate Widens(lo: nat, hi: nat, i: nat, lo': nat, hi': nat) {
    lo <= hi && ((i == hi && lo' == lo && hi' == hi + 1) || (i + 1 == lo && lo' == i && hi' == hi))
  }

  lemma CollectSkip(constraints: set<Expr>, p: Expr, order: seq<MemoryObject>, lo: nat, hi: nat, i: nat,
                    lo': nat, hi': nat, rl: seq<MemoryObject>)
    requires Widens(lo, hi, i, lo', hi') && hi' <= |order| && !MayPoint(constraints, p, order[i])
    requires Collected(constraints, p, order, lo, hi, rl)
    ensures Collected(constraints, p, order, lo', hi', rl)
  {
    hide MayPoint;
    forall k | 0 <= k < |rl|
      ensures InRange(order, lo', hi', rl[k])
    {
      assert InRange(order, lo, hi, rl[k]);
      var j :| lo <= j < hi && order[j] == rl[k];
    }
  }

  lemma InRangeMore(order: seq<MemoryObject>, lo: nat, hi: nat, i: nat, lo': nat, hi': nat, mo: MemoryObject)
    requires Layout(order) && Widens(lo, hi, i, lo', hi') && hi' <= |order| && InRange(order, lo, hi, mo)
    ensures i < |order| && InRange(order, lo', hi', mo) && mo != order[i]
  {
    hide Layout;
    var j :| lo <= j < hi && order[j] == mo;
    DistinctObjects(order, j, i);
  }

  lemma InRangeNew(order: seq<MemoryObject>, lo: nat, hi: nat, i: nat, lo': nat, hi': nat)
    requires Widens(lo, hi, i, lo', hi') && hi' <= |order|
    ensures i < |order| && InRange(order, lo', hi', order[i])
  {
  }

  lemma CollectAdd(constraints: set<Expr>, p: Expr, order: seq<MemoryObject>, lo: nat, hi: nat, i: nat,
                   lo': nat, hi': nat, rl: seq<MemoryObject>)
    requires Layout(order) && Widens(lo, hi, i, lo', hi') && hi' <= |order| && MayPoint(constraints, p, order[i])
    requires Collected(constraints, p, order, lo, hi, rl)
    ensures Collected(constraints, p, order, lo', hi', rl + [order[i]])
  {
    hide MayPoint, Layout, InRange;
    var rl' := rl + [order[i]];
    forall k | 0 <= k < |rl|
      ensures InRange(order, lo', hi', rl[k]) && rl[k] != order[i]
    {
      InRangeMore(order, lo, hi, i, lo', hi', rl[k]);
    }
    InRangeNew(order, lo, hi, i, lo', hi');
    assert InRange(order, lo', hi', rl'[|rl|]);
    assert order[i] in rl' && forall mo :: mo in rl ==> mo in rl';
  }

  lemma DistinctObjects(order: seq<MemoryObject>, i: nat, j: nat)
    requires Layout(order) && i < |order| && j < |order| && i != j
    ensures order[i] != order[j]
  {
  }

  lemma CollectAll(constraints: set<Expr>, p: Expr, order: seq<MemoryObject>, lo: nat, hi: nat, rl: seq<MemoryObject>)
    requires lo <= hi <= |order| && Collected(constraints, p, order, lo, hi, rl)
    requires forall i :: 0 <= i < |order| && !(lo <= i < hi) ==> !MayPoint(constraints, p, order[i])
    ensures Collected(constraints, p, order, 0, |order|, rl)
  {
    hide MayPoint;
  }

  /** What holds when a search gives its final answer. */
  ghost predicate Answered(constraints: set<Expr>, p: Expr, order: seq<MemoryObject>, maxResolutions: nat,
                           incomplete: bool, rl: seq<MemoryObject>, timedOut: bool)
  {
    && (!incomplete ==> Collected(constraints, p, order, 0, |order|, rl))
    && (maxResolutions >= 2 ==> |rl| <= maxResolutions)
    && (incomplete ==> timedOut || (maxResolutions >= 2 && |rl| == maxResolutions))
  }

  /** Checks one object next to the range searched so far. */
  method SearchNext(solver: Solver, constraints: set<Expr>, p: Expr, order: seq<MemoryObject>, maxResolutions: nat,
                    i: nat, rl: seq<MemoryObject>, ghost lo: nat, ghost hi: nat)
    returns (final: Option<bool>, rl': seq<MemoryObject>, ghost timedOut: bool)
    requires solver.Sound() && IsPointer(p) && Layout(order)
    requires lo <= hi <= |order| && i < |order| && (i == hi || i + 1 == lo)
    requires Collected(constraints, p, order, lo, hi, rl) && (maxResolutions >= 2 ==> |rl| < maxResolutions)
    modifies solver`queries
    ensures final.Some? ==> Answered(constraints, p, order, maxResolutions, final.value, rl', timedOut)
    ensures final.None? ==>
              Collected(constraints, p, order, if i == hi then lo else i, if i == hi then hi + 1 else hi, rl')
    ensures final.None? && maxResolutions >= 2 ==> |rl'| < maxResolutions
    ensures timedOut ==> final.Some? && !solver.Answers()
  {
    hide Collected, MayPoint, MustPoint, WellFormed, Width;
    var answer;
    answer, rl', timedOut := CheckPointerInObject(solver, constraints, p, order[i], rl, maxResolutions);
    if answer == Incomplete { return Some(true), rl', timedOut; }
    ghost var lo', hi' := if i == hi then lo else i, if i == hi then hi + 1 else hi;
    if MayPoint(constraints, p, order[i]) {
      CollectAdd(constraints, p, order, lo, hi, i, lo', hi', rl);
    } else {
      CollectSkip(constraints, p, order, lo, hi, i, lo', hi', rl);
    }
    if answer == OnlyThis {
      OnlyOne(constraints, p, order, i);
      FoundOnly(constraints, p, order, i, rl');
      return Some(false), rl', timedOut;
    }
    final := None;
  }

  /** Searches downwards until the pointer cannot be below the last object checked. A
      wall-clock limit, when one is in force, may end the search at any object. */
  method SearchDown(solver: Solver, constraints: set<Expr>, p: Expr, order: seq<MemoryObject>, maxResolutions: nat,
                    limited: bool, start: nat)
    returns (final: Option<bool>, lo: nat, rl: seq<MemoryObject>, ghost timedOut: bool)
    requires solver.Sound() && IsPointer(p) && Layout(order) && start <= |order|
    modifies solver`queries
    ensures final.Some? ==> Answered(constraints, p, order, maxResolutions, final.value, rl, timedOut)
    ensures final.None? ==> lo <= start && Collected(constraints, p, order, lo, start, rl)
    ensures final.None? ==> forall j :: 0 <= j < lo ==> !MayPoint(constraints, p, order[j])
    ensures final.None? && maxResolutions >= 2 ==> |rl| < maxResolutions
    ensures timedOut ==> limited || !solver.Answers()
  {
    hide Collected, MayPoint, WellFormed, Width, Must, AtOrAbove, Eval, Sat;
    final, lo, rl, timedOut := None, start, [], false;
    CollectNone(constraints, p, order, start);
    while lo > 0
      invariant final == None && !timedOut && lo <= start && Collected(constraints, p, order, lo, start, rl)
      invariant maxResolutions >= 2 ==> |rl| < maxResolutions
    {
      var late: bool := *;
      if limited && late { return Some(true), lo, rl, true; }
      final, rl, timedOut := SearchNext(solver, constraints, p, order, maxResolutions, lo - 1, rl, lo, start);
      if final.Some? { return; }
      lo := lo - 1;
      AtOrAboveMeaning(constraints, p, order[lo]);
      var above := solver.MustBeTrue(constraints, AtOrAbove(order[lo], p));
      if above.None? { return Some(true), lo, rl, true; }
      if above.value {
        NothingBefore(constraints, p, order, lo);
        return;
      }
    }
  }

  /** Searches upwards until the pointer must be below the next object. */
  method SearchUp(solver: Solver, constraints: set<Expr>, p: Expr, order: seq<MemoryObject>, maxResolutions: nat,
                  limited: bool, start: nat, rl0: seq<MemoryObject>, ghost lo: nat)
    returns (incomplete: bool, rl: seq<MemoryObject>, ghost timedOut: bool)
    requires solver.Sound() && IsPointer(p) && Layout(order) && lo <= start <= |order|
    requires Collected(constraints, p, order, lo, start, rl0) && (maxResolutions >= 2 ==> |rl0| < maxResolutions)
    requires forall j :: 0 <= j < lo ==> !MayPoint(constraints, p, order[j])
    modifies solver`queries
    ensures Answered(constraints, p, order, maxResolutions, incomplete, rl, timedOut)
    ensures timedOut ==> limited || !solver.Answers()
  {
    hide Collected, MayPoint, WellFormed, Width, Must, Below, Eval, Sat;
    var hi := start;
    rl, timedOut := rl0, false;
    while hi < |order|
      invariant !timedOut && start <= hi <= |order| && Collected(constraints, p, order, lo, hi, rl)
      invariant maxResolutions >= 2 ==> |rl| < maxResolutions
    {
      var late: bool := *;
      if limited && late { return true, rl, true; }
      BelowMeaning(constraints, p, order[hi]);
      var below := solver.MustBeTrue(constraints, Below(order[hi], p));
      if below.None? { return true, rl, true; }
      if below.value {
        NothingAfter(constraints, p, order, hi);
        break;
      }
      var final;
      final, rl, timedOut := SearchNext(solver, constraints, p, order, maxResolutions, hi, rl, lo, hi);
      if final.Some? { return final.value, rl, timedOut; }
      hi := hi + 1;
    }
    CollectAll(constraints, p, order, lo, hi, rl);
    return false, rl, timedOut;
  }

  /** A complete resolution lists exactly the possible objects, although both scans
      stop early. A cap of two or more is respected; a cap of one is not compared against. */
  method Resolve(solver: Solver, constraints: set<Expr>, p: Expr, order: seq<MemoryObject>, maxResolutions: nat,
                 limited: bool)
    returns (incomplete: bool, rl: seq<MemoryObject>, ghost timedOut: bool)
    requires solver.Sound() && IsPointer(p) && Layout(order) && Feasible(constraints)
    modifies solver`queries
    ensures !incomplete ==> Collected(constraints, p, order, 0, |order|, rl)
    ensures maxResolutions >= 2 ==> |rl| <= maxResolutions
    ensures incomplete ==> timedOut || (maxResolutions >= 2 && |rl| == maxResolutions)
    ensures timedOut ==> limited || !solver.Answers()
  {
    hide Collected, WellFormed, Width;
    if p.Const? {
      var r := ResolveAddress(order, p.value);
      ConstantPointer(constraints, p, order, r);
      return false, if r.Some? then [r.value] else [], false;
    }
    var example := solver.GetValue(constraints, p);
    if example.None? { return true, [], true; }
    var start := UpperBound(order, example.value);
    var final, lo;
    final, lo, rl, timedOut := SearchDown(solver, constraints, p, order, maxResolutions, limited, start);
    if final.Some? { return final.value, rl, timedOut; }
    incomplete, rl, timedOut := SearchUp(solver, constraints, p, order, maxResolutions, limited, start, rl, lo);
  }

  lemma CollectNone(constraints: set<Expr>, p: Expr, order: seq<MemoryObject>, k: nat)
    requires k <= |order|
    ensures Collected(constraints, p, order, k, k, [])
  {
  }

  lemma FoundOnly(constraints: set<Expr>, p: Expr, order: seq<MemoryObject>, i: nat, rl: seq<MemoryObject>)
    requires i < |order| && rl == (if MayPoint(constraints, p, order[i]) then [order[i]] else [])
    requires forall j :: 0 <= j < |order| && j != i ==> !MayPoint(constraints, p, order[j])
    ensures Collected(constraints, p, order, 0, |order|, rl)
  {
    hide MayPoint;
  }

  lemma ConstantPointer(constraints: set<Expr>, p: Expr, order: seq<MemoryObject>, r: Option<MemoryObject>)
    requires p.Const? && Layout(order) && Feasible(constraints)
    requires r.Some? ==> r.value in order && Inside(r.value, p.value)
    requires r.None? ==> forall mo :: mo in order ==> !Inside(mo, p.value)
    ensures Collected(constraints, p, order, 0, |order|, if r.Some? then [r.value] else [])
  {
    hide Inside, Sat;
    ConstantMayPoint(constraints, p);
    if r.Some? {
      forall i | 0 <= i < |order| && Inside(order[i], p.value)
        ensures order[i] == r.value
      {
        var j :| 0 <= j < |order| && order[j] == r.value;
        InsideOne(order, i, j, p.value);
      }
    }
  }

  /** None of the objects in a range is possible. */
  ghost predicate NoneIn(constraints: set<Expr>, p: Expr, order: seq<MemoryObject>, lo: int, hi: int)
    requires 0 <= lo <= hi <= |order|
  {
    forall j :: lo <= j < hi ==> !MayPoint(constraints, p, order[j])
  }

  method FindDown(solver: Solver, constraints: set<Expr>, p: Expr, order: seq<MemoryObject>, start: nat)
    returns (answered: bool, r: Option<MemoryObject>)
    requires solver.Sound() && IsPointer(p) && Layout(order) && start <= |order|
    modifies solver`queries
    ensures answered && r.Some? ==> r.value in order && MayPoint(constraints, p, r.value)
    ensures answered && r.None? ==> NoneIn(constraints, p, order, 0, start)
    ensures solver.Answers() ==> answered
  {
    hide MayPoint, MustPoint, WellFormed, Width, Must, May, AtOrAbove, BoundsCheckPointer, Eval, Sat;
    var lo := start;
    while lo > 0
      invariant 0 <= lo <= start && NoneIn(constraints, p, order, lo, start)
    {
      lo := lo - 1;
      MayPointMeaning(constraints, p, order[lo]);
      var may := solver.MayBeTrue(constraints, BoundsCheckPointer(order[lo], p));
      if may.None? { return false, None; }
      if may.value { return true, Some(order[lo]); }
      AtOrAboveMeaning(constraints, p, order[lo]);
      var above := solver.MustBeTrue(constraints, AtOrAbove(order[lo], p));
      if above.None? { return false, None; }
      if above.value {
        NothingBefore(constraints, p, order, lo);
        break;
      }
    }
    return true, None;
  }

  method FindUp(solver: Solver, constraints: set<Expr>, p: Expr, order: seq<MemoryObject>, start: nat)
    returns (answered: bool, r: Option<MemoryObject>)
    requires solver.Sound() && IsPointer(p) && Layout(order) && start <= |order|
    modifies solver`queries
    ensures answered && r.Some? ==> r.value in order && MayPoint(constraints, p, r.value)
    ensures answered && r.None? ==> NoneIn(constraints, p, order, start, |order|)
    ensures solver.Answers() ==> answered
  {
    hide MayPoint, MustPoint, WellFormed, Width, Must, May, Below, BoundsCheckPointer, Eval, Sat;
    var hi := start;
    while hi < |order|
      invariant start <= hi <= |order| && NoneIn(constraints, p, order, start, hi)
    {
      BelowMeaning(constraints, p, order[hi]);
      var below := solver.MustBeTrue(constraints, Below(order[hi], p));
      if below.None? { return false, None; }
      if below.value {
        NothingAfter(constraints, p, order, hi);
        break;
      }
      MayPointMeaning(constraints, p, order[hi]);
      var may := solver.MayBeTrue(constraints, BoundsCheckPointer(order[hi], p));
      if may.None? { return false, None; }
      if may.value { return true, Some(order[hi]); }
      hi := hi + 1;
    }
    return true, None;
  }

  /** Any one object the pointer may lie in; failure means there is none. */
  method ResolveOne(solver: Solver, constraints: set<Expr>, p: Expr, order: seq<MemoryObject>)
    returns (answered: bool, r: Option<MemoryObject>)
    requires solver.Sound() && IsPointer(p) && Layout(order) && Feasible(constraints)
    modifies solver`queries
    ensures answered && r.Some? ==> r.value in order && MayPoint(constraints, p, r.value)
    ensures answered && r.None? ==> forall mo :: mo in order ==> !MayPoint(constraints, p, mo)
    ensures solver.Answers() ==> answered
  {
    if p.Const? {
      r := ResolveAddress(order, p.value);
      ConstantMayPoint(constraints, p);
      hide MayPoint, Inside;
      return true, r;
    }
    hide WellFormed, Width, Eval, Sat, Layout;
    var example := solver.GetValue(constraints, p);
    if example.None? { return false, None; }
    var start := UpperBound(order, example.value);
    if start > 0 && example.value - order[start - 1].address < order[start - 1].size {
      assert Inside(order[start - 1], example.value);
      return true, Some(order[start - 1]);
    }
    hide MayPoint;
    answered, r := FindDown(solver, constraints, p, order, start);
    if !answered || r.Some? { return; }
    answered, r := FindUp(solver, constraints, p, order, start);
  }

  lemma ConstantMayPoint(constraints: set<Expr>, p: Expr)
    requires p.Const? && Feasible(constraints)
    ensures forall mo :: MayPoint(constraints, p, mo) <==> Inside(mo, p.value)
  {
    hide Inside, Sat;
  }

  // -------------------------------------------------------- a cap of one

  /** The documented bound on the list fails for a cap of one, which is never
      compared against, exactly when the pointer may lie in two objects. */
  lemma CapOfOne(constraints: set<Expr>, p: Expr, order: seq<MemoryObject>, rl: seq<MemoryObject>)
    requires Layout(order) && Collected(constraints, p, order, 0, |order|, rl)
    ensures |rl| > 1 <==>
            exists i, j ::
              0 <= i < j < |order| && MayPoint(constraints, p, order[i]) && MayPoint(constraints, p, order[j])
  {
    hide MayPoint;
    if |rl| > 1 {
      assert InRange(order, 0, |order|, rl[0]) && InRange(order, 0, |order|, rl[1]);
      var i :| 0 <= i < |order| && order[i] == rl[0];
      var j :| 0 <= j < |order| && order[j] == rl[1];
      assert i != j;
      if i < j { assert MayPoint(constraints, p, order[i]); } else { assert MayPoint(constraints, p, order[j]); }
    }
    if i, j :| 0 <= i < j < |order| && MayPoint(constraints, p, order[i]) && MayPoint(constraints, p, order[j]) {
      DistinctObjects(order, i, j);
      var k :| 0 <= k < |rl| && rl[k] == order[i];
      var l :| 0 <= l < |rl| && rl[l] == order[j];
    }
  }

  lemma FreeByte(p: Expr, mo: MemoryObject, v: byte)
    requires p == ZExt(Expr.Read(Array(0, 1, []), Nil, Const(32, 0)), 64) && Inside(mo, v)
    ensures MayPoint({}, p, mo)
  {
    var sigma: Assignment := (_, _) => v;
    assert Sat({}, sigma) && Eval(p, sigma) == v;
  }

  /** A pointer that is one free byte may lie in both of two objects below 256. */
  lemma CapOfOneExample()
    ensures var order := [MemoryObject(0, 16, 16), MemoryObject(1, 64, 16)];
            var p := ZExt(Expr.Read(Array(0, 1, []), Nil, Const(32, 0)), 64);
            && Layout(order) && IsPointer(p) && Feasible({})
            && forall rl :: Collected({}, p, order, 0, 2, rl) ==> |rl| > 1
  {
    var order := [MemoryObject(0, 16, 16), MemoryObject(1, 64, 16)];
    var p := ZExt(Expr.Read(Array(0, 1, []), Nil, Const(32, 0)), 64);
    FreeByte(p, order[0], 16);
    FreeByte(p, order[1], 64);
    FreePointer();
    hide IsPointer, Feasible;
    hide MayPoint, Collected, Inside;
    BothListed(p, order);
  }

  lemma BothListed(p: Expr, order: seq<MemoryObject>)
    requires Layout(order) && |order| == 2 && MayPoint({}, p, order[0]) && MayPoint({}, p, order[1])
    ensures forall rl :: Collected({}, p, order, 0, 2, rl) ==> |rl| > 1
  {
    hide MayPoint;
    forall rl | Collected({}, p, order, 0, 2, rl)
      ensures |rl| > 1
    {
      CapOfOne({}, p, order, rl);
    }
  }

  lemma FreePointer()
    ensures IsPointer(ZExt(Expr.Read(Array(0, 1, []), Nil, Const(32, 0)), 64)) && Feasible({})
  {
    Const32(0);
    assert Sat({}, (_, _) => 0);
  }
}
