/**
 Loads and stores through a symbolic pointer. The executor first tries one
 object, and otherwise forks once per candidate; every concrete execution of
 the path must end in exactly one of the resulting states, with the effect a
 concrete memory access would have.
 */
module MemoryOps {
  import opened Arithmetic
  import opened Exprs
  import opened ByteOrder
  import opened ObjectStates
  import opened AddressSpaces
  import opened Solvers
  import opened Resolution
  import R = MemoryRuns

  /** The part of an execution state that is not its address space: the path
      constraints and the register a load defines. */
  datatype State = State(constraints: set<Expr>, register: Option<Expr>)

  datatype Outcome = Performed(mo: MemoryObject) | ReadOnlyError(mo: MemoryObject) | PointerError

  datatype Result = Result(index: nat, outcome: Outcome)

  datatype Access = Load(width: nat) | Store(value: Expr)

  function AccessWidth(access: Access): nat {
    match access
    case Load(w) => w
    case Store(v) => Width(v)
  }

  predicate IsAccess(access: Access) {
    IsAccessWidth(AccessWidth(access)) && (access.Store? ==> WellFormed(access.value))
  }

  datatype Machine = Machine(spaces: seq<AddressSpace>, states: seq<State>)

  type Shadow = R.Shadow

  ghost predicate InStep(m: Machine, g: Shadow)
    reads m.spaces, g.repr
  {
    R.InStep(m.spaces, g) && |m.states| == |m.spaces| == |g.ms|
  }

  // ------------------------------------------------------- forking a state

  /** What a fork on a condition does to a list of states: the condition is decided,
      or the given state takes it and a new last state takes its negation. */
  ghost predicate Forked(states: seq<State>, i: nat, cond: Expr, states': seq<State>, t: Option<nat>, f: Option<nat>)
    requires i < |states|
  {
    var c := states[i].constraints;
    || (t == Some(i) && f == None && states' == states && Must(c, cond))
    || (t == None && f == Some(i) && states' == states && MustNot(c, cond))
    || (t == Some(i) && f == Some(|states|) && May(c, cond) && May(c, IsZero(cond)) &&
        states' == states[i := states[i].(constraints := c + {cond})] + [states[i].(constraints := c + {IsZero(cond)})])
  }

  method Fork(solver: Solver, m: Machine, i: nat, cond: Expr, ghost g: Shadow)
    returns (timedOut: bool, m': Machine, t: Option<nat>, f: Option<nat>, ghost g': Shadow)
    requires InStep(m, g) && i < |m.states| && R.Epoch(g, i) < UINT32
    requires solver.Sound() && solver !in g.repr && WellFormed(cond) && Width(cond) == 1
    modifies g.repr, solver`queries
    ensures InStep(m', g') && fresh(g'.repr - g.repr)
    ensures f.Some? ==> R.Epoch(g', f.value) <= R.Epoch(g, i) + 1
    ensures !timedOut ==> Forked(m.states, i, cond, m'.states, t, f)
    ensures timedOut ==> m'.states == m.states && !solver.Answers()
    ensures g'.ms == if |m'.states| == |m.states| then g.ms else g.ms + [g.ms[i]]
  {
    hide R.InStep, Must, MustNot, May, IsZero, WellFormed, Width, Eval, Pow2;
    R.SameCount(m.spaces, g);
    R.SameEpochs(m.spaces, g);
    timedOut, m', g', t, f := false, m, g, None, None;
    var validity := solver.Evaluate(m.states[i].constraints, cond);
    match validity
    case None => timedOut := true;
    case Some(True) => t := Some(i);
    case Some(False) => f := Some(i);
    case Some(Unknown) =>
      var c := m.states[i].constraints;
      var spaces;
      spaces, g' := R.DoFork(m.spaces, i, g);
      R.SameCount(spaces, g');
      R.ForkEpochs(g, i, g', R.Epoch(g, i));
      m' := Machine(spaces, m.states[i := m.states[i].(constraints := c + {cond})]
                            + [m.states[i].(constraints := c + {IsZero(cond)})]);
      t, f := Some(i), Some(|m.states|);
  }

  // ---------------------------------------------------- one access, one object

  /** What a load at a pointer into an object gives, wherever it is in bounds. */
  ghost predicate LoadGives(bytes: seq<Expr>, mo: MemoryObject, p: Expr, width: nat, littleEndian: bool, r: Expr)
    requires IsAccessWidth(width)
  {
    WellFormed(r) && Width(r) == width && |bytes| == mo.size &&
    forall sigma: Assignment :: Covers(mo, Eval(p, sigma), NumBytes(width)) ==>
      Eval(r, sigma) == Eval(ByteOrder.Load(bytes, Eval(p, sigma) - mo.address, width, littleEndian), sigma)
  }

  /** The outcome of an access on an object, and the memory and register it leaves. */
  ghost predicate Effect(access: Access, mo: MemoryObject, p: Expr, littleEndian: bool, m: Memory, outcome: Outcome,
                         m': Memory, register: Option<Expr>)
    requires IsAccess(access)
  {
    mo in m &&
    match access
    case Store(value) =>
      if m[mo].readOnly then outcome == ReadOnlyError(mo) && m' == m
      else outcome == Performed(mo) &&
           m' == m[mo := R.Stored(m[mo], OffsetExpr(mo, p), value, littleEndian)]
    case Load(width) =>
      outcome == Performed(mo) && m' == m &&
      register.Some? && LoadGives(m[mo].bytes, mo, p, width, littleEndian, register.value)
  }

  lemma OffsetInBounds(mo: MemoryObject, p: Expr, bytes: nat)
    requires Fits(mo) && IsPointer(p) && bytes > 0
    ensures WellFormed(OffsetExpr(mo, p)) && Width(OffsetExpr(mo, p)) == 64
    ensures forall sigma: Assignment :: Covers(mo, Eval(p, sigma), bytes) ==>
              Eval(OffsetExpr(mo, p), sigma) == Eval(p, sigma) - mo.address &&
              Eval(OffsetExpr(mo, p), sigma) + bytes <= mo.size
  {
    hide Eval, WellFormed, Width, OffsetExpr;
    OffsetMeaning(mo, p, (_, _) => 0);
    forall sigma: Assignment | Covers(mo, Eval(p, sigma), bytes)
      ensures Eval(OffsetExpr(mo, p), sigma) == Eval(p, sigma) - mo.address
    {
      OffsetMeaning(mo, p, sigma);
    }
  }

  lemma LoadGiven(bytes: seq<Expr>, mo: MemoryObject, p: Expr, width: nat, littleEndian: bool, r: Expr)
    requires IsAccessWidth(width) && Fits(mo) && IsPointer(p) && |bytes| == mo.size
    requires WellFormed(r) && Width(r) == width
    requires forall sigma: Assignment :: Eval(OffsetExpr(mo, p), sigma) + NumBytes(width) <= |bytes| ==>
               Eval(r, sigma) == Eval(ByteOrder.Load(bytes, Eval(OffsetExpr(mo, p), sigma), width, littleEndian), sigma)
    ensures LoadGives(bytes, mo, p, width, littleEndian, r)
  {
    hide Eval, WellFormed, Width, OffsetExpr, ByteOrder.Load;
    OffsetInBounds(mo, p, NumBytes(width));
    hide Covers, IsPointer, Fits, IsAccessWidth, NumBytes;
    forall sigma: Assignment | Covers(mo, Eval(p, sigma), NumBytes(width))
      ensures Eval(r, sigma) == Eval(ByteOrder.Load(bytes, Eval(p, sigma) - mo.address, width, littleEndian), sigma)
    {
      assert Eval(OffsetExpr(mo, p), sigma) + NumBytes(width) <= |bytes|;
    }
  }

  /** A store, on an assignment that lands in the object: its bytes mean those of the
      store at the concrete offset, and no other object has changed. */
  lemma StoreLands(value: Expr, mo: MemoryObject, p: Expr, littleEndian: bool, m: Memory, outcome: Outcome, m': Memory,
                   register: Option<Expr>, sigma: Assignment)
    requires IsAccess(Store(value)) && Fits(mo) && IsPointer(p)
    requires Effect(Store(value), mo, p, littleEndian, m, outcome, m', register) && outcome == Performed(mo)
    requires IsBytes(m[mo].bytes) && |m[mo].bytes| == mo.size < UINT32
    requires Covers(mo, Eval(p, sigma), NumBytes(Width(value)))
    ensures m'.Keys == m.Keys && forall x :: x in m && x != mo ==> m'[x] == m[x]
    ensures var offset, parts := Eval(p, sigma) - mo.address, Parts(value);
            && |m'[mo].bytes| == mo.size && 0 <= offset && offset + |parts| <= mo.size
            && forall j :: 0 <= j < mo.size ==>
                 Eval(m'[mo].bytes[j], sigma) ==
                 Eval(ByteOrder.Store(m[mo].bytes, offset, parts, littleEndian)[j], sigma)
  {
    hide Eval, WellFormed, Width, OffsetExpr, StoreAt, ByteOrder.Store, Parts, Resize, Covers, IsPointer, Fits, IsBytes,
         NumBytes, IsAccessWidth, LoadGives;
    BytesLand(m[mo].bytes, mo, p, value, littleEndian, sigma);
  }

  /** The bytes of the object where the store lands. */
  lemma BytesLand(bytes: seq<Expr>, mo: MemoryObject, p: Expr, value: Expr, littleEndian: bool, sigma: Assignment)
    requires WellFormed(value) && IsAccessWidth(Width(value)) && Fits(mo) && IsPointer(p)
    requires IsBytes(bytes) && |bytes| == mo.size < UINT32 && Covers(mo, Eval(p, sigma), NumBytes(Width(value)))
    ensures var offset, parts, stored := Eval(p, sigma) - mo.address, Parts(value), OffsetExpr(mo, p);
            && 0 <= offset && offset + |parts| <= mo.size
            && forall j :: 0 <= j < mo.size ==>
                 Eval(StoreAt(bytes, Resize(stored, 32), parts, littleEndian)[j], sigma) ==
                 Eval(ByteOrder.Store(bytes, offset, parts, littleEndian)[j], sigma)
  {
    hide Eval, WellFormed, Width, OffsetExpr, StoreAt, ByteOrder.Store, Resize, IsPointer, Fits, IsBytes;
    assert |Parts(value)| == NumBytes(Width(value)) > 0;
    assert mo.address <= Eval(p, sigma);
    hide Parts, NumBytes, IsAccessWidth, Covers;
    OffsetInBounds(mo, p, NumBytes(Width(value)));
    ResizeOk(OffsetExpr(mo, p), mo.size);
    PartsAreBytes(value);
    StoreAtMeaning(bytes, Resize(OffsetExpr(mo, p), 32), Parts(value), littleEndian, sigma);
  }

  method PerformStore(m: Machine, i: nat, value: Expr, p: Expr, mo: MemoryObject, littleEndian: bool, ghost g: Shadow)
    returns (ghost g': Shadow)
    requires InStep(m, g) && i < |m.states| && mo in g.ms[i] && !g.ms[i][mo].readOnly
    requires IsAccess(Store(value)) && IsPointer(p) && Fits(mo)
    requires exists sigma: Assignment :: Covers(mo, Eval(p, sigma), NumBytes(Width(value)))
    modifies g.repr
    ensures InStep(m, g') && fresh(g'.repr - g.repr) && g'.epochs == g.epochs
    ensures g'.ms == g.ms[i := g.ms[i][mo := R.Stored(g.ms[i][mo], OffsetExpr(mo, p), value, littleEndian)]]
  {
    hide R.InStep, R.Legal, R.DeepStep, Eval, WellFormed, Width, OffsetExpr, R.Stored, IsAccess, IsPointer, Covers;
    var c := R.Write(i, mo, OffsetExpr(mo, p), value);
    StoreLegal(g.ms, i, value, p, mo, littleEndian);
    g' := R.DoWrite(m.spaces, c, littleEndian, g);
  }

  lemma StoreLegal(ms: seq<Memory>, i: nat, value: Expr, p: Expr, mo: MemoryObject, littleEndian: bool)
    requires i < |ms| && mo in ms[i] && !ms[i][mo].readOnly && IsAccess(Store(value)) && IsPointer(p) && Fits(mo)
    requires exists sigma: Assignment :: Covers(mo, Eval(p, sigma), NumBytes(Width(value)))
    ensures var c := R.Write(i, mo, OffsetExpr(mo, p), value);
            R.Legal(ms, c) && R.DeepStep(ms, c, littleEndian) ==
                              ms[i := ms[i][mo := R.Stored(ms[i][mo], OffsetExpr(mo, p), value, littleEndian)]]
  {
    OffsetInBounds(mo, p, NumBytes(Width(value)));
    hide Eval, WellFormed, Width, OffsetExpr, R.Stored;
  }

  method PerformLoad(m: Machine, i: nat, width: nat, p: Expr, mo: MemoryObject, littleEndian: bool, ghost g: Shadow)
    returns (r: Expr)
    requires InStep(m, g) && i < |m.states| && mo in g.ms[i]
    requires IsAccessWidth(width) && IsPointer(p) && Fits(mo)
    requires exists sigma: Assignment :: Covers(mo, Eval(p, sigma), NumBytes(width))
    modifies g.repr
    ensures InStep(m, g)
    ensures LoadGives(g.ms[i][mo].bytes, mo, p, width, littleEndian, r)
  {
    OffsetInBounds(mo, p, NumBytes(width));
    R.Sizes(m.spaces, g, i, mo);
    hide R.InStep, Eval, WellFormed, Width, OffsetExpr, LoadGives, ByteOrder.Load;
    var c := R.Read(i, mo, OffsetExpr(mo, p), width);
    r := R.DoRead(m.spaces, c, littleEndian, g);
    LoadGiven(g.ms[i][mo].bytes, mo, p, width, littleEndian, r);
  }

  method IsReadOnly(m: Machine, i: nat, mo: MemoryObject, ghost g: Shadow) returns (b: bool)
    requires InStep(m, g) && i < |m.states| && mo in g.ms[i]
    ensures b == g.ms[i][mo].readOnly
  {
    assert R.Sees(m.spaces[i], g.ms[i]);
    b := m.spaces[i].objects[mo].readOnly;
  }

  method Perform(m: Machine, i: nat, access: Access, p: Expr, mo: MemoryObject, littleEndian: bool, ghost g: Shadow)
    returns (m': Machine, outcome: Outcome, ghost g': Shadow)
    requires InStep(m, g) && i < |m.states| && mo in g.ms[i]
    requires IsAccess(access) && IsPointer(p) && Fits(mo)
    requires exists sigma: Assignment :: Covers(mo, Eval(p, sigma), NumBytes(AccessWidth(access)))
    modifies g.repr
    ensures InStep(m', g') && fresh(g'.repr - g.repr) && g'.epochs == g.epochs
    ensures |g'.ms| == |g.ms| && g'.ms == g.ms[i := g'.ms[i]]
    ensures |m'.states| == |m.states| && m'.states == m.states[i := m.states[i].(register := m'.states[i].register)]
    ensures Effect(access, mo, p, littleEndian, g.ms[i], outcome, g'.ms[i], m'.states[i].register)
    ensures access.Store? ==> m'.states == m.states
  {
    hide *;
    m', g', outcome := m, g, Performed(mo);
    Lengths(m, g);
    match access {
      case Store(value) =>
        AccessParts(access);
        var readOnly := IsReadOnly(m, i, mo, g);
        if readOnly {
          outcome := ReadOnlyError(mo);
        } else {
          g' := PerformStore(m, i, value, p, mo, littleEndian, g);
        }
        StoreEffect(value, mo, p, littleEndian, g.ms[i], g'.ms[i], m.states[i].register);
      case Load(width) =>
        AccessParts(access);
        var r := PerformLoad(m, i, width, p, mo, littleEndian, g);
        m' := m.(states := m.states[i := m.states[i].(register := Some(r))]);
        SetRegister(m, m', g);
        LoadEffect(width, mo, p, littleEndian, g.ms[i], r);
    }
  }

  lemma AccessParts(access: Access)
    requires IsAccess(access)
    ensures access.Store? ==> AccessWidth(access) == Width(access.value)
    ensures access.Load? ==> AccessWidth(access) == access.width && IsAccessWidth(access.width)
  {
  }

  lemma SetRegister(m: Machine, m': Machine, g: Shadow)
    requires InStep(m, g) && m'.spaces == m.spaces && |m'.states| == |m.states|
    ensures InStep(m', g)
  {
    hide R.InStep;
  }

  lemma StoreEffect(value: Expr, mo: MemoryObject, p: Expr, littleEndian: bool, m: Memory, m': Memory,
                    register: Option<Expr>)
    requires IsAccess(Store(value)) && mo in m
    requires m' == if m[mo].readOnly then m else m[mo := R.Stored(m[mo], OffsetExpr(mo, p), value, littleEndian)]
    ensures Effect(Store(value), mo, p, littleEndian, m,
                   if m[mo].readOnly then ReadOnlyError(mo) else Performed(mo), m',
                   register)
  {
    hide R.Stored, OffsetExpr, IsAccess;
  }

  lemma LoadEffect(width: nat, mo: MemoryObject, p: Expr, littleEndian: bool, m: Memory, r: Expr)
    requires IsAccess(Load(width)) && IsAccessWidth(width) && mo in m
    requires LoadGives(m[mo].bytes, mo, p, width, littleEndian, r)
    ensures Effect(Load(width), mo, p, littleEndian, m, Performed(mo), m, Some(r))
  {
    hide LoadGives;
  }

  // ------------------------------------------------------ splitting the path

  /** The path c is the part of the path c0 on which the object covers the access. */
  ghost predicate Landed(c0: set<Expr>, p: Expr, bytes: nat, c: set<Expr>, mo: MemoryObject) {
    forall sigma: Assignment :: Sat(c, sigma) <==> Sat(c0, sigma) && Covers(mo, Eval(p, sigma), bytes)
  }

  predicate CoveredBy(tried: seq<MemoryObject>, v: nat, bytes: nat) {
    exists j :: 0 <= j < |tried| && Covers(tried[j], v, bytes)
  }

  /** The path c is the part of the path c0 on which no tried object covers the access. */
  ghost predicate Missed(c0: set<Expr>, p: Expr, bytes: nat, c: set<Expr>, tried: seq<MemoryObject>) {
    forall sigma: Assignment :: Sat(c, sigma) <==> Sat(c0, sigma) && !CoveredBy(tried, Eval(p, sigma), bytes)
  }

  /** The whole path c0 is covered by the tried objects. */
  ghost predicate Exhausted(c0: set<Expr>, p: Expr, bytes: nat, tried: seq<MemoryObject>) {
    forall sigma: Assignment :: Sat(c0, sigma) ==> CoveredBy(tried, Eval(p, sigma), bytes)
  }

  lemma SatExtend(c: set<Expr>, e: Expr, sigma: Assignment)
    ensures Sat(c + {e}, sigma) <==> Sat(c, sigma) && Eval(e, sigma) == 1
  {
    hide Eval;
  }

  lemma CoveredMore(tried: seq<MemoryObject>, mo: MemoryObject, v: nat, bytes: nat)
    ensures CoveredBy(tried + [mo], v, bytes) <==> CoveredBy(tried, v, bytes) || Covers(mo, v, bytes)
  {
    var more := tried + [mo];
    assert more[|tried|] == mo && forall j :: 0 <= j < |tried| ==> more[j] == tried[j];
    hide Covers;
    if CoveredBy(more, v, bytes) {
      var j :| 0 <= j < |more| && Covers(more[j], v, bytes);
    }
  }

  /** An access is covered by one object at most. */
  lemma CoveredOnce(order: seq<MemoryObject>, a: MemoryObject, b: MemoryObject, v: nat, bytes: nat)
    requires Layout(order) && bytes > 0 && a in order && b in order && Covers(a, v, bytes) && Covers(b, v, bytes)
    ensures a == b
  {
    var i :| 0 <= i < |order| && order[i] == a;
    var j :| 0 <= j < |order| && order[j] == b;
    assert Inside(order[i], v) && Inside(order[j], v);
    InsideOne(order, i, j, v);
  }

  /** What the access check says on one assignment of an unresolved path. */
  lemma CheckSplits(c0: set<Expr>, p: Expr, bytes: nat, c: set<Expr>, order: seq<MemoryObject>,
                    tried: seq<MemoryObject>, mo: MemoryObject, sigma: Assignment)
    requires Layout(order) && IsPointer(p) && bytes > 0 && mo in order && mo !in tried
    requires forall j :: 0 <= j < |tried| ==> tried[j] in order
    requires Sat(c, sigma) <==> Sat(c0, sigma) && !CoveredBy(tried, Eval(p, sigma), bytes)
    ensures var cond := BoundsCheckAccess(mo, p, bytes);
            && (Sat(c, sigma) && Eval(cond, sigma) == 1 <==> Sat(c0, sigma) && Covers(mo, Eval(p, sigma), bytes))
            && (Sat(c, sigma) && Eval(cond, sigma) != 1 <==>
                Sat(c0, sigma) && !CoveredBy(tried + [mo], Eval(p, sigma), bytes))
  {
    var v := Eval(p, sigma);
    hide Eval, Sat, WellFormed, Width, BoundsCheckAccess, Covers;
    BoundsCheckAccessMeaning(mo, p, bytes, sigma);
    CoveredMore(tried, mo, v, bytes);
    if Covers(mo, v, bytes) && CoveredBy(tried, v, bytes) {
      var j :| 0 <= j < |tried| && Covers(tried[j], v, bytes);
      CoveredOnce(order, mo, tried[j], v, bytes);
    }
  }

  /** Each way a fork on the access check can end keeps the account of the path. */
  lemma CheckForks(c0: set<Expr>, p: Expr, bytes: nat, c: set<Expr>, order: seq<MemoryObject>, tried: seq<MemoryObject>,
                   mo: MemoryObject)
    requires Layout(order) && IsPointer(p) && bytes > 0 && mo in order && mo !in tried
    requires forall j :: 0 <= j < |tried| ==> tried[j] in order
    requires Missed(c0, p, bytes, c, tried)
    ensures var cond := BoundsCheckAccess(mo, p, bytes);
            && Landed(c0, p, bytes, c + {cond}, mo)
            && Missed(c0, p, bytes, c + {IsZero(cond)}, tried + [mo])
            && (Must(c, cond) ==> Landed(c0, p, bytes, c, mo) && Exhausted(c0, p, bytes, tried + [mo]))
            && (MustNot(c, cond) ==> Missed(c0, p, bytes, c, tried + [mo]))
  {
    hide Eval, Sat, WellFormed, Width, BoundsCheckAccess, Covers, CoveredBy, IsZero;
    var cond := BoundsCheckAccess(mo, p, bytes);
    forall sigma: Assignment
      ensures Sat(c + {cond}, sigma) <==> Sat(c, sigma) && Eval(cond, sigma) == 1
      ensures Sat(c + {IsZero(cond)}, sigma) <==> Sat(c, sigma) && Eval(cond, sigma) != 1
      ensures Sat(c, sigma) && Eval(cond, sigma) == 1 <==> Sat(c0, sigma) && Covers(mo, Eval(p, sigma), bytes)
      ensures Sat(c, sigma) && Eval(cond, sigma) != 1 <==>
              Sat(c0, sigma) && !CoveredBy(tried + [mo], Eval(p, sigma), bytes)
    {
      SatExtend(c, cond, sigma);
      SatExtend(c, IsZero(cond), sigma);
      BoundsCheckAccessMeaning(mo, p, bytes, sigma);
      IsZeroMeaning(cond, sigma);
      CheckSplits(c0, p, bytes, c, order, tried, mo, sigma);
    }
  }

  /** A state that the access was done in: its path and what it holds afterwards. */
  ghost predicate Done(c0: set<Expr>, p: Expr, access: Access, littleEndian: bool, m0: Memory, mo: MemoryObject,
                       outcome: Outcome, state: State, m: Memory)
    requires IsAccess(access)
  {
    && Landed(c0, p, NumBytes(AccessWidth(access)), state.constraints, mo)
    && Effect(access, mo, p, littleEndian, m0, outcome, m, state.register)
  }

  /** The state left to try: its path and its untouched memory. */
  ghost predicate Left(c0: set<Expr>, p: Expr, bytes: nat, m0: Memory, tried: seq<MemoryObject>, state: State,
                       m: Memory)
  {
    Missed(c0, p, bytes, state.constraints, tried) && Feasible(state.constraints) && m == m0
  }

  ghost predicate NeverCovers(c0: set<Expr>, p: Expr, bytes: nat, mo: MemoryObject) {
    forall sigma: Assignment :: Sat(c0, sigma) ==> !Covers(mo, Eval(p, sigma), bytes)
  }

  lemma LandedSomewhere(c0: set<Expr>, p: Expr, bytes: nat, c: set<Expr>, mo: MemoryObject)
    requires Landed(c0, p, bytes, c, mo) && Feasible(c)
    ensures exists sigma: Assignment :: Covers(mo, Eval(p, sigma), bytes)
  {
    hide Sat, Eval, Covers;
  }

  lemma MissedAll(c0: set<Expr>, p: Expr, bytes: nat, c: set<Expr>, order: seq<MemoryObject>, tried: seq<MemoryObject>,
                  mo: MemoryObject)
    requires Layout(order) && IsPointer(p) && bytes > 0 && mo in order && mo !in tried
    requires forall j :: 0 <= j < |tried| ==> tried[j] in order
    requires Missed(c0, p, bytes, c, tried) && MustNot(c, BoundsCheckAccess(mo, p, bytes))
    ensures NeverCovers(c0, p, bytes, mo)
  {
    hide Sat, Eval, Covers, WellFormed, Width, BoundsCheckAccess, CoveredBy;
    forall sigma: Assignment | Sat(c0, sigma)
      ensures !Covers(mo, Eval(p, sigma), bytes)
    {
      CheckSplits(c0, p, bytes, c, order, tried, mo, sigma);
    }
  }

  lemma FeasibleSplit(c: set<Expr>, e: Expr)
    requires May(c, e)
    ensures Feasible(c + {e})
  {
    hide Sat, Eval;
    var sigma: Assignment :| Sat(c, sigma) && Eval(e, sigma) == 1;
    SatExtend(c, e, sigma);
  }

  /** What a fork on the access check leaves on both sides. */
  lemma ForkAccount(states: seq<State>, u: nat, states': seq<State>, t: Option<nat>, f: Option<nat>, p: Expr,
                    bytes: nat, mo: MemoryObject, c0: set<Expr>, order: seq<MemoryObject>, tried: seq<MemoryObject>)
    requires u < |states| && Layout(order) && IsPointer(p) && bytes > 0
    requires mo in order && mo !in tried && forall j :: 0 <= j < |tried| ==> tried[j] in order
    requires Missed(c0, p, bytes, states[u].constraints, tried) && Feasible(states[u].constraints)
    requires Forked(states, u, BoundsCheckAccess(mo, p, bytes), states', t, f)
    ensures t.Some? ==> Landed(c0, p, bytes, states'[u].constraints, mo) && Feasible(states'[u].constraints)
    ensures t.None? ==> NeverCovers(c0, p, bytes, mo)
    ensures f.Some? ==> Missed(c0, p, bytes, states'[f.value].constraints, tried + [mo])
    ensures f.Some? ==> Feasible(states'[f.value].constraints)
    ensures f.None? ==> Exhausted(c0, p, bytes, tried + [mo])
  {
    hide Eval, WellFormed, Width, Sat, Covers, Layout, BoundsCheckAccess, CoveredBy,
         IsZero, Landed, Missed, Exhausted, May, Must, MustNot, Feasible, IsPointer, NeverCovers;
    var c, cond := states[u].constraints, BoundsCheckAccess(mo, p, bytes);
    CheckForks(c0, p, bytes, c, order, tried, mo);
    if t.None? {
      MissedAll(c0, p, bytes, c, order, tried, mo);
    } else if f.Some? {
      FeasibleSplit(c, cond);
      FeasibleSplit(c, IsZero(cond));
    }
  }

  /** The states and memories after one candidate was tried in state u. */
  ghost predicate Tried(c0: set<Expr>, p: Expr, access: Access, littleEndian: bool, tried: seq<MemoryObject>,
                        mo: MemoryObject, u: nat, states: seq<State>, ms: seq<Memory>, states': seq<State>,
                        ms': seq<Memory>, outcome: Option<Outcome>, unbound: Option<nat>)
    requires IsAccess(access) && u < |states| == |ms| && |states'| == |ms'|
  {
    var bytes := NumBytes(AccessWidth(access));
    && |states| <= |states'|
    && (forall j :: 0 <= j < |states| && j != u ==> states'[j] == states[j] && ms'[j] == ms[j])
    && (outcome.Some? ==> Done(c0, p, access, littleEndian, ms[u], mo, outcome.value, states'[u], ms'[u]))
    && (outcome.None? ==> unbound == Some(u) && NeverCovers(c0, p, bytes, mo))
    && (unbound.Some? ==> unbound.value < |states'| && (outcome.Some? ==> unbound.value == |states|))
    && (unbound.Some? ==> Left(c0, p, bytes, ms[u], tried + [mo], states'[unbound.value], ms'[unbound.value]))
    && (unbound.None? ==> Exhausted(c0, p, bytes, tried + [mo]))
  }

  /** One candidate: fork on the access check, and do the access where it holds. */
  method TryObject(solver: Solver, m: Machine, u: nat, access: Access, p: Expr, mo: MemoryObject, littleEndian: bool,
                   ghost g: Shadow, ghost c0: set<Expr>, ghost order: seq<MemoryObject>, ghost tried: seq<MemoryObject>)
    returns (timedOut: bool, m': Machine, outcome: Option<Outcome>, unbound: Option<nat>, ghost g': Shadow)
    requires InStep(m, g) && u < |m.states| && mo in g.ms[u] && R.Epoch(g, u) < UINT32
    requires solver.Sound() && solver !in g.repr && IsAccess(access) && IsPointer(p) && Layout(order)
    requires mo in order && mo !in tried && forall j :: 0 <= j < |tried| ==> tried[j] in order
    requires Left(c0, p, NumBytes(AccessWidth(access)), g.ms[u], tried, m.states[u], g.ms[u])
    modifies g.repr, solver`queries
    ensures InStep(m', g') && fresh(g'.repr - g.repr)
    ensures unbound.Some? ==> R.Epoch(g', unbound.value) <= R.Epoch(g, u) + 1
    ensures !timedOut ==>
              Tried(c0, p, access, littleEndian, tried, mo, u, m.states, g.ms, m'.states, g'.ms, outcome, unbound)
    ensures !timedOut ==> TriedRegisters(access, m.states[u].register, m'.states, u, outcome, unbound)
    ensures timedOut ==> !solver.Answers()
  {
    hide *;
    var bytes := NumBytes(AccessWidth(access));
    AccessBytes(access);
    FitsInLayout(order, mo);
    Lengths(m, g);
    LeftParts(c0, p, bytes, g.ms[u], tried, m.states[u], g.ms[u]);
    var cond := BoundsCheckAccess(mo, p, bytes);
    BoundsCheckAccessMeaning(mo, p, bytes, (_, _) => 0);
    outcome, unbound := None, None;
    var t;
    timedOut, m', t, unbound, g' := Fork(solver, m, u, cond, g);
    if timedOut { return; }
    ghost var states', ms' := m'.states, g'.ms;
    ForkAccount(m.states, u, states', t, unbound, p, bytes, mo, c0, order, tried);
    ForkShape(m.states, g.ms, u, cond, states', ms', t, unbound);
    ForkRegisters(m.states, u, cond, states', t, unbound);
    if t.Some? {
      LandedSomewhere(c0, p, bytes, states'[u].constraints, mo);
      var o;
      ghost var forked := g';
      m', o, g' := Perform(m', u, access, p, mo, littleEndian, g');
      R.KeptEpochs(forked, g');
      outcome := Some(o);
      TriedHere(c0, p, access, littleEndian, tried, mo, u, m.states, g.ms, states', ms', m'.states, g'.ms, o, unbound);
      PerformRegisters(access, m.states[u].register, states', u, m'.states, o, unbound);
    } else {
      TriedElsewhere(c0, p, access, littleEndian, tried, mo, u, m.states, g.ms);
      TriedRegistersOf(access, m.states[u].register, m'.states, u, outcome, unbound);
    }
  }

  /** What one candidate does to registers: only a load sets one, in the state it is done
      in; the state left to try has the register it had. */
  predicate TriedRegisters(access: Access, before: Option<Expr>, states: seq<State>, u: nat, outcome: Option<Outcome>,
                           unbound: Option<nat>)
  {
    && (outcome.Some? && access.Store? ==> u < |states| && states[u].register == before)
    && (unbound.Some? ==> unbound.value < |states| && states[unbound.value].register == before)
  }

  lemma TriedRegistersOf(access: Access, before: Option<Expr>, states: seq<State>, u: nat, outcome: Option<Outcome>,
                         unbound: Option<nat>)
    requires u < |states| && states[u].register == before
    requires unbound.Some? ==> unbound.value < |states| && states[unbound.value].register == before
    ensures TriedRegisters(access, before, states, u, outcome, unbound)
  {
  }

  lemma ForkRegisters(states: seq<State>, u: nat, cond: Expr, states': seq<State>, t: Option<nat>, f: Option<nat>)
    requires u < |states| && Forked(states, u, cond, states', t, f)
    ensures u < |states'| && states'[u].register == states[u].register
    ensures f.Some? ==> f.value < |states'| && states'[f.value].register == states[u].register
    ensures t.Some? && f.Some? ==> f.value != u
  {
  }

  lemma PerformRegisters(access: Access, before: Option<Expr>, states: seq<State>, u: nat, states': seq<State>,
                         o: Outcome, unbound: Option<nat>)
    requires u < |states| == |states'| && states[u].register == before
    requires states' == states[u := states[u].(register := states'[u].register)]
    requires access.Store? ==> states' == states
    requires unbound.Some? ==> unbound.value != u && unbound.value < |states|
    requires unbound.Some? ==> states[unbound.value].register == before
    ensures TriedRegisters(access, before, states', u, Some(o), unbound)
  {
  }

  /** What an access does to registers: the states of a store, and every state of a pointer
      error or still to try, have the register the state had before. */
  predicate KeepsRegister(access: Access, before: Option<Expr>, states: seq<State>, results: seq<Result>,
                          unbound: Option<nat>)
  {
    && (forall s :: 0 <= s < |results| && (access.Store? || results[s].outcome.PointerError?) ==>
          results[s].index < |states| && states[results[s].index].register == before)
    && (unbound.Some? ==> unbound.value < |states| && states[unbound.value].register == before)
  }

  lemma RegistersStep(c0: set<Expr>, p: Expr, access: Access, littleEndian: bool, states0: seq<State>, ms0: seq<Memory>,
                      k: nat, states: seq<State>, ms: seq<Memory>, tried: seq<MemoryObject>, results: seq<Result>,
                      u: nat, mo: MemoryObject, states': seq<State>, ms': seq<Memory>, outcome: Option<Outcome>,
                      unbound: Option<nat>)
    requires IsAccess(access) && u < |states| == |ms| && |states'| == |ms'| && k < |states0|
    requires Account(c0, p, access, littleEndian, states0, ms0, k, states, ms, tried, results, Some(u))
    requires Tried(c0, p, access, littleEndian, tried, mo, u, states, ms, states', ms', outcome, unbound)
    requires KeepsRegister(access, states0[k].register, states, results, Some(u))
    requires TriedRegisters(access, states[u].register, states', u, outcome, unbound)
    ensures KeepsRegister(access, states0[k].register, states', Extended(results, u, outcome), unbound)
  {
    hide *;
    RegistersPlaces(c0, p, access, littleEndian, states0, ms0, k, states, ms, tried, results, u);
    TriedPlaces(c0, p, access, littleEndian, tried, mo, u, states, ms, states', ms', outcome, unbound);
    RegistersMore(access, states0[k].register, states, results, u, states', outcome, unbound);
  }

  lemma RegistersPlaces(c0: set<Expr>, p: Expr, access: Access, littleEndian: bool, states0: seq<State>,
                        ms0: seq<Memory>, k: nat, states: seq<State>, ms: seq<Memory>, tried: seq<MemoryObject>,
                        results: seq<Result>, u: nat)
    requires IsAccess(access) && u < |states| == |ms| && k < |states0|
    requires Account(c0, p, access, littleEndian, states0, ms0, k, states, ms, tried, results, Some(u))
    ensures forall s :: 0 <= s < |results| ==>
              results[s].index < |states| && results[s].index != u && !results[s].outcome.PointerError?
  {
    hide IsAccess, NumBytes, AccessWidth, Done, Left, Landed, Exhausted, NeverCovers, Accounted, DistinctObject;
    forall s | 0 <= s < |results|
      ensures results[s].index < |states| && results[s].index != u && !results[s].outcome.PointerError?
    {
      assert ResultOk(c0, p, access, littleEndian, ms0[k], states, ms, tried, results[s]);
    }
  }

  lemma TriedPlaces(c0: set<Expr>, p: Expr, access: Access, littleEndian: bool, tried: seq<MemoryObject>,
                    mo: MemoryObject, u: nat, states: seq<State>, ms: seq<Memory>, states': seq<State>,
                    ms': seq<Memory>, outcome: Option<Outcome>, unbound: Option<nat>)
    requires IsAccess(access) && u < |states| == |ms| && |states'| == |ms'|
    requires Tried(c0, p, access, littleEndian, tried, mo, u, states, ms, states', ms', outcome, unbound)
    ensures |states| <= |states'| && forall j :: 0 <= j < |states| && j != u ==> states'[j] == states[j]
    ensures outcome.Some? ==> !outcome.value.PointerError?
  {
    hide IsAccess, NumBytes, AccessWidth, Done, Left, Landed, Exhausted, NeverCovers;
    if outcome.Some? { DoneObject(c0, p, access, littleEndian, ms[u], mo, outcome.value, states'[u], ms'[u]); }
  }

  lemma RegistersMore(access: Access, before: Option<Expr>, states: seq<State>, results: seq<Result>, u: nat,
                      states': seq<State>, outcome: Option<Outcome>, unbound: Option<nat>)
    requires u < |states| <= |states'| && forall j :: 0 <= j < |states| && j != u ==> states'[j] == states[j]
    requires forall s :: 0 <= s < |results| ==> results[s].index < |states| && results[s].index != u
    requires outcome.Some? ==> !outcome.value.PointerError?
    requires KeepsRegister(access, before, states, results, Some(u))
    requires TriedRegisters(access, states[u].register, states', u, outcome, unbound)
    ensures KeepsRegister(access, before, states', Extended(results, u, outcome), unbound)
  {
  }

  lemma RegistersStart(access: Access, states: seq<State>, k: nat)
    requires k < |states|
    ensures KeepsRegister(access, states[k].register, states, [], Some(k))
  {
  }

  lemma RegistersEnd(access: Access, before: Option<Expr>, states: seq<State>, results: seq<Result>,
                     unbound: Option<nat>)
    requires KeepsRegister(access, before, states, results, unbound)
    ensures var all := if unbound.Some? then results + [Result(unbound.value, PointerError)] else results;
            KeepsRegister(access, before, states, all, None)
  {
  }

  lemma RegistersOne(access: Access, states: seq<State>, k: nat, states': seq<State>, outcome: Outcome)
    requires k < |states| == |states'| && (access.Store? ==> states' == states) && !outcome.PointerError?
    ensures KeepsRegister(access, states[k].register, states', [Result(k, outcome)], None)
  {
  }

  lemma EffectOutcome(access: Access, mo: MemoryObject, p: Expr, littleEndian: bool, m: Memory, outcome: Outcome,
                      m': Memory, register: Option<Expr>)
    requires IsAccess(access) && Effect(access, mo, p, littleEndian, m, outcome, m', register)
    ensures !outcome.PointerError?
  {
  }

  lemma AccessBytes(access: Access)
    requires IsAccess(access)
    ensures NumBytes(AccessWidth(access)) > 0
  {
  }

  lemma Lengths(m: Machine, g: Shadow)
    requires InStep(m, g)
    ensures |m.states| == |g.ms|
  {
  }

  lemma LeftParts(c0: set<Expr>, p: Expr, bytes: nat, m0: Memory, tried: seq<MemoryObject>, state: State, m: Memory)
    requires Left(c0, p, bytes, m0, tried, state, m)
    ensures Missed(c0, p, bytes, state.constraints, tried) && Feasible(state.constraints) && m == m0
  {
  }

  lemma FitsInLayout(order: seq<MemoryObject>, mo: MemoryObject)
    requires Layout(order) && mo in order
    ensures Fits(mo)
  {
    var j :| 0 <= j < |order| && order[j] == mo;
  }

  lemma ForkShape(states: seq<State>, ms: seq<Memory>, u: nat, cond: Expr, states': seq<State>, ms': seq<Memory>,
                  t: Option<nat>, f: Option<nat>)
    requires u < |states| == |ms| && Forked(states, u, cond, states', t, f)
    requires ms' == if |states'| == |states| then ms else ms + [ms[u]]
    ensures |ms'| == |states'| >= |states| && ms'[u] == ms[u]
    ensures forall j :: 0 <= j < |states| && j != u ==> states'[j] == states[j] && ms'[j] == ms[j]
    ensures t.None? ==> f == Some(u) && states' == states && ms' == ms
    ensures t.Some? && f.Some? ==> f.value == |states| < |states'| && ms'[f.value] == ms[u]
  {
    hide May, Must, MustNot, IsZero;
  }

  lemma TriedHere(c0: set<Expr>, p: Expr, access: Access, littleEndian: bool, tried: seq<MemoryObject>,
                  mo: MemoryObject, u: nat, states: seq<State>, ms: seq<Memory>, mid: seq<State>, mids: seq<Memory>,
                  states': seq<State>, ms': seq<Memory>, o: Outcome, unbound: Option<nat>)
    requires IsAccess(access) && u < |states| == |ms| <= |mid| == |mids| == |states'| == |ms'|
    requires forall j :: 0 <= j < |states| && j != u ==> mid[j] == states[j] && mids[j] == ms[j]
    requires mids[u] == ms[u] && ms' == mids[u := ms'[u]]
    requires states' == mid[u := mid[u].(register := states'[u].register)]
    requires Landed(c0, p, NumBytes(AccessWidth(access)), mid[u].constraints, mo)
    requires Effect(access, mo, p, littleEndian, mids[u], o, ms'[u], states'[u].register)
    requires unbound.Some? ==> unbound.value == |states| < |mid| && mids[unbound.value] == ms[u]
    requires unbound.Some? ==>
               Missed(c0, p, NumBytes(AccessWidth(access)), mid[unbound.value].constraints, tried + [mo]) &&
               Feasible(mid[unbound.value].constraints)
    requires unbound.None? ==> Exhausted(c0, p, NumBytes(AccessWidth(access)), tried + [mo])
    ensures Tried(c0, p, access, littleEndian, tried, mo, u, states, ms, states', ms', Some(o), unbound)
  {
    hide Landed, Missed, Exhausted, Effect, Feasible, NeverCovers, NumBytes, AccessWidth, IsAccess;
  }

  lemma TriedElsewhere(c0: set<Expr>, p: Expr, access: Access, littleEndian: bool, tried: seq<MemoryObject>,
                       mo: MemoryObject, u: nat, states: seq<State>, ms: seq<Memory>)
    requires IsAccess(access) && u < |states| == |ms|
    requires NeverCovers(c0, p, NumBytes(AccessWidth(access)), mo)
    requires Missed(c0, p, NumBytes(AccessWidth(access)), states[u].constraints, tried + [mo])
    requires Feasible(states[u].constraints)
    ensures Tried(c0, p, access, littleEndian, tried, mo, u, states, ms, states, ms, None, Some(u))
  {
    hide Landed, Missed, Exhausted, Effect, Feasible, NeverCovers, NumBytes, AccessWidth, IsAccess;
  }

  // ------------------------------------------------------- the whole operation

  function Object(outcome: Outcome): MemoryObject
    requires !outcome.PointerError?
  {
    outcome.mo
  }

  /** A finished state: either the access was done on an object that covers it, or
      the state is the part of the path that no live object covers. */
  ghost predicate Ended(c0: set<Expr>, p: Expr, access: Access, littleEndian: bool, order: seq<MemoryObject>,
                        m0: Memory, outcome: Outcome, state: State, m: Memory)
    requires IsAccess(access)
  {
    if outcome.PointerError? then
      Missed(c0, p, NumBytes(AccessWidth(access)), state.constraints, order) && m == m0
    else
      Object(outcome) in order && Done(c0, p, access, littleEndian, m0, Object(outcome), outcome, state, m)
  }

  ghost predicate OnlyIn(results: seq<Result>, states: seq<State>, r: nat, sigma: Assignment)
    requires r < |results| && forall s :: 0 <= s < |results| ==> results[s].index < |states|
  {
    forall s :: 0 <= s < |results| ==> (Sat(states[results[s].index].constraints, sigma) <==> s == r)
  }

  /** Every assignment of the path ends in exactly one state, and that state has the
      effect a concrete access would have had. */
  ghost predicate Settled(c0: set<Expr>, p: Expr, access: Access, littleEndian: bool, order: seq<MemoryObject>,
                          m0: Memory, states: seq<State>, ms: seq<Memory>, results: seq<Result>)
    requires IsAccess(access) && |states| == |ms|
  {
    && (forall s :: 0 <= s < |results| ==> results[s].index < |states|)
    && (forall s :: 0 <= s < |results| ==>
          Ended(c0, p, access, littleEndian, order, m0, results[s].outcome, states[results[s].index],
                ms[results[s].index]))
    && (forall sigma: Assignment :: Sat(c0, sigma) ==>
          exists r :: 0 <= r < |results| && OnlyIn(results, states, r, sigma))
  }

  ghost predicate HasResult(results: seq<Result>, mo: MemoryObject) {
    exists r :: 0 <= r < |results| && !results[r].outcome.PointerError? && Object(results[r].outcome) == mo
  }

  /** A result on one of the tried objects. */
  ghost predicate ResultOk(c0: set<Expr>, p: Expr, access: Access, littleEndian: bool, m0: Memory, states: seq<State>,
                           ms: seq<Memory>, tried: seq<MemoryObject>, r: Result)
    requires IsAccess(access) && |states| == |ms|
  {
    && r.index < |states| && !r.outcome.PointerError? && Object(r.outcome) in tried
    && Done(c0, p, access, littleEndian, m0, Object(r.outcome), r.outcome, states[r.index], ms[r.index])
  }

  ghost predicate ResultsOk(c0: set<Expr>, p: Expr, access: Access, littleEndian: bool, m0: Memory, states: seq<State>,
                            ms: seq<Memory>, tried: seq<MemoryObject>, results: seq<Result>)
    requires IsAccess(access) && |states| == |ms|
  {
    && (forall r :: 0 <= r < |results| ==>
          ResultOk(c0, p, access, littleEndian, m0, states, ms, tried, results[r]))
    && (forall r, s :: 0 <= r < s < |results| ==> DistinctObject(results[r], results[s]))
  }

  predicate DistinctObject(r: Result, s: Result) {
    !r.outcome.PointerError? && !s.outcome.PointerError? && Object(r.outcome) != Object(s.outcome)
  }

  /** Each tried object has a result, unless the path never reaches it. */
  ghost predicate Accounted(c0: set<Expr>, p: Expr, bytes: nat, tried: seq<MemoryObject>, results: seq<Result>) {
    forall j :: 0 <= j < |tried| ==> HasResult(results, tried[j]) || NeverCovers(c0, p, bytes, tried[j])
  }

  /** What is left of the path after the tried objects, in a state of its own. */
  ghost predicate Remaining(c0: set<Expr>, p: Expr, bytes: nat, m0: Memory, states: seq<State>, ms: seq<Memory>,
                            tried: seq<MemoryObject>, results: seq<Result>, unbound: Option<nat>)
    requires |states| == |ms|
  {
    match unbound
    case None => Exhausted(c0, p, bytes, tried)
    case Some(u) =>
      && u < |states| && Left(c0, p, bytes, m0, tried, states[u], ms[u])
      && forall r :: 0 <= r < |results| ==> results[r].index != u
  }

  function Extended(results: seq<Result>, u: nat, outcome: Option<Outcome>): seq<Result> {
    if outcome.Some? then results + [Result(u, outcome.value)] else results
  }

  lemma ResultsStep(c0: set<Expr>, p: Expr, access: Access, littleEndian: bool, m0: Memory, states: seq<State>,
                    ms: seq<Memory>, tried: seq<MemoryObject>, results: seq<Result>, u: nat, mo: MemoryObject,
                    states': seq<State>, ms': seq<Memory>, outcome: Option<Outcome>, unbound: Option<nat>)
    requires IsAccess(access) && |states| == |ms| && |states'| == |ms'| && u < |states| && ms[u] == m0 && mo !in tried
    requires ResultsOk(c0, p, access, littleEndian, m0, states, ms, tried, results)
    requires forall r :: 0 <= r < |results| ==> results[r].index != u
    requires Tried(c0, p, access, littleEndian, tried, mo, u, states, ms, states', ms', outcome, unbound)
    ensures ResultsOk(c0, p, access, littleEndian, m0, states', ms', tried + [mo], Extended(results, u, outcome))
  {
    hide NumBytes, AccessWidth, IsAccess, Done, Left, Landed, Exhausted, NeverCovers;
    var results', tried' := Extended(results, u, outcome), tried + [mo];
    assert mo in tried' && forall x :: x in tried ==> x in tried';
    if outcome.Some? { DoneObject(c0, p, access, littleEndian, m0, mo, outcome.value, states'[u], ms'[u]); }
    forall r | 0 <= r < |results'|
      ensures ResultOk(c0, p, access, littleEndian, m0, states', ms', tried', results'[r])
    {
      if r < |results| { assert ResultOk(c0, p, access, littleEndian, m0, states, ms, tried, results[r]); }
    }
    forall r, s | 0 <= r < s < |results'|
      ensures DistinctObject(results'[r], results'[s])
    {
      assert ResultOk(c0, p, access, littleEndian, m0, states, ms, tried, results[r]);
    }
  }

  lemma DoneObject(c0: set<Expr>, p: Expr, access: Access, littleEndian: bool, m0: Memory, mo: MemoryObject,
                   outcome: Outcome, state: State, m: Memory)
    requires IsAccess(access) && Done(c0, p, access, littleEndian, m0, mo, outcome, state, m)
    ensures !outcome.PointerError? && Object(outcome) == mo
  {
  }

  lemma TriedAccount(c0: set<Expr>, p: Expr, bytes: nat, tried: seq<MemoryObject>, results: seq<Result>, u: nat,
                    mo: MemoryObject, outcome: Option<Outcome>)
    requires Accounted(c0, p, bytes, tried, results)
    requires outcome.Some? ==> !outcome.value.PointerError? && Object(outcome.value) == mo
    requires outcome.None? ==> NeverCovers(c0, p, bytes, mo)
    ensures Accounted(c0, p, bytes, tried + [mo], Extended(results, u, outcome))
  {
    hide NeverCovers;
    var results' := Extended(results, u, outcome);
    if outcome.Some? { assert results'[|results|].outcome == outcome.value; }
    forall x | HasResult(results, x)
      ensures HasResult(results', x)
    {
      var r :| 0 <= r < |results| && !results[r].outcome.PointerError? && Object(results[r].outcome) == x;
      assert results'[r] == results[r];
    }
  }

  lemma RemainingStep(c0: set<Expr>, p: Expr, access: Access, littleEndian: bool, m0: Memory, states: seq<State>,
                      ms: seq<Memory>, tried: seq<MemoryObject>, results: seq<Result>, u: nat, mo: MemoryObject,
                      states': seq<State>, ms': seq<Memory>, outcome: Option<Outcome>, unbound: Option<nat>)
    requires IsAccess(access) && |states| == |ms| && |states'| == |ms'| && u < |states| && ms[u] == m0
    requires ResultsOk(c0, p, access, littleEndian, m0, states, ms, tried, results)
    requires forall r :: 0 <= r < |results| ==> results[r].index != u
    requires Tried(c0, p, access, littleEndian, tried, mo, u, states, ms, states', ms', outcome, unbound)
    ensures Remaining(c0, p, NumBytes(AccessWidth(access)), m0, states', ms', tried + [mo],
                      Extended(results, u, outcome), unbound)
  {
    hide NumBytes, AccessWidth, IsAccess, Done, Left, Landed, Exhausted, NeverCovers;
    forall r | 0 <= r < |results|
      ensures results[r].index < |states|
    {
      assert ResultOk(c0, p, access, littleEndian, m0, states, ms, tried, results[r]);
    }
  }

  /** Candidates come from a one-byte check, and yet none that covers the access is missing. */
  lemma CandidatesSuffice(c0: set<Expr>, p: Expr, order: seq<MemoryObject>, rl: seq<MemoryObject>, bytes: nat,
                          sigma: Assignment)
    requires Layout(order) && bytes > 0 && Collected(c0, p, order, 0, |order|, rl) && Sat(c0, sigma)
    ensures CoveredBy(order, Eval(p, sigma), bytes) <==> CoveredBy(rl, Eval(p, sigma), bytes)
  {
    var v := Eval(p, sigma);
    hide Eval, Sat;
    if CoveredBy(order, v, bytes) {
      var i :| 0 <= i < |order| && Covers(order[i], v, bytes);
      assert Inside(order[i], Eval(p, sigma)) && MayPoint(c0, p, order[i]);
      var j :| 0 <= j < |rl| && rl[j] == order[i];
    }
    if CoveredBy(rl, v, bytes) {
      var j :| 0 <= j < |rl| && Covers(rl[j], v, bytes);
      assert InRange(order, 0, |order|, rl[j]);
      var i :| 0 <= i < |order| && order[i] == rl[j];
    }
  }

  lemma MissedEverything(c0: set<Expr>, p: Expr, order: seq<MemoryObject>, rl: seq<MemoryObject>, bytes: nat,
                         c: set<Expr>)
    requires Layout(order) && bytes > 0 && Collected(c0, p, order, 0, |order|, rl)
    requires Missed(c0, p, bytes, c, rl)
    ensures Missed(c0, p, bytes, c, order)
  {
    hide Eval, Sat, Layout, Collected, CoveredBy;
    forall sigma: Assignment | Sat(c0, sigma)
      ensures CoveredBy(order, Eval(p, sigma), bytes) <==> CoveredBy(rl, Eval(p, sigma), bytes)
    {
      CandidatesSuffice(c0, p, order, rl, bytes, sigma);
    }
  }

  /** A result on a tried object holds an assignment exactly when its object covers the access. */
  lemma ResultHolds(c0: set<Expr>, p: Expr, access: Access, littleEndian: bool, m0: Memory, states: seq<State>,
                    ms: seq<Memory>, tried: seq<MemoryObject>, r: Result, sigma: Assignment)
    requires IsAccess(access) && |states| == |ms| && Sat(c0, sigma)
    requires ResultOk(c0, p, access, littleEndian, m0, states, ms, tried, r)
    ensures Sat(states[r.index].constraints, sigma) <==>
            Covers(Object(r.outcome), Eval(p, sigma), NumBytes(AccessWidth(access)))
  {
    hide Eval, Sat, Covers, Effect;
  }

  /** Where the tried objects cover the access, exactly one result on them holds. */
  lemma OneResult(c0: set<Expr>, p: Expr, access: Access, littleEndian: bool, m0: Memory, states: seq<State>,
                  ms: seq<Memory>, order: seq<MemoryObject>, tried: seq<MemoryObject>, results: seq<Result>,
                  sigma: Assignment)
    returns (r: nat)
    requires IsAccess(access) && |states| == |ms| && Layout(order) && Sat(c0, sigma)
    requires forall j :: 0 <= j < |tried| ==> tried[j] in order
    requires ResultsOk(c0, p, access, littleEndian, m0, states, ms, tried, results)
    requires Accounted(c0, p, NumBytes(AccessWidth(access)), tried, results)
    requires CoveredBy(tried, Eval(p, sigma), NumBytes(AccessWidth(access)))
    ensures r < |results| && forall s :: 0 <= s < |results| ==> results[s].index < |states|
    ensures OnlyIn(results, states, r, sigma)
  {
    var v, bytes := Eval(p, sigma), NumBytes(AccessWidth(access));
    AccessBytes(access);
    hide Eval, Sat, Covers, Effect, IsAccess, NumBytes, AccessWidth, Layout, Done, OnlyIn;
    var j :| 0 <= j < |tried| && Covers(tried[j], v, bytes);
    assert HasResult(results, tried[j]);
    r :| 0 <= r < |results| && !results[r].outcome.PointerError? && Object(results[r].outcome) == tried[j];
    forall s | 0 <= s < |results|
      ensures results[s].index < |states| && (Sat(states[results[s].index].constraints, sigma) <==> s == r)
    {
      assert ResultOk(c0, p, access, littleEndian, m0, states, ms, tried, results[s]);
      ResultHolds(c0, p, access, littleEndian, m0, states, ms, tried, results[s], sigma);
      if s != r {
        assert DistinctObject(results[s], results[r]) || DistinctObject(results[r], results[s]);
        if Covers(Object(results[s].outcome), v, bytes) {
          CoveredOnce(order, Object(results[s].outcome), tried[j], v, bytes);
        }
      }
    }
    ShowOnly(results, states, r, sigma);
  }

  lemma ShowOnly(results: seq<Result>, states: seq<State>, r: nat, sigma: Assignment)
    requires r < |results| && forall s :: 0 <= s < |results| ==> results[s].index < |states|
    requires forall s :: 0 <= s < |results| ==> (Sat(states[results[s].index].constraints, sigma) <==> s == r)
    ensures OnlyIn(results, states, r, sigma)
  {
    hide Sat;
  }

  lemma EndedResults(c0: set<Expr>, p: Expr, access: Access, littleEndian: bool, m0: Memory, states: seq<State>,
                     ms: seq<Memory>, order: seq<MemoryObject>, tried: seq<MemoryObject>, results: seq<Result>)
    requires IsAccess(access) && |states| == |ms|
    requires forall j :: 0 <= j < |tried| ==> tried[j] in order
    requires ResultsOk(c0, p, access, littleEndian, m0, states, ms, tried, results)
    ensures forall s :: 0 <= s < |results| ==> results[s].index < |states|
    ensures forall s :: 0 <= s < |results| ==>
              Ended(c0, p, access, littleEndian, order, m0, results[s].outcome, states[results[s].index],
                    ms[results[s].index])
  {
    hide IsAccess, Done, NumBytes, AccessWidth;
    forall s | 0 <= s < |results|
      ensures results[s].index < |states|
      ensures Ended(c0, p, access, littleEndian, order, m0, results[s].outcome, states[results[s].index],
                    ms[results[s].index])
    {
      assert ResultOk(c0, p, access, littleEndian, m0, states, ms, tried, results[s]);
    }
  }

  /** Nothing of the path is left. */
  lemma SettleAll(c0: set<Expr>, p: Expr, access: Access, littleEndian: bool, m0: Memory, states: seq<State>,
                  ms: seq<Memory>, order: seq<MemoryObject>, tried: seq<MemoryObject>, results: seq<Result>)
    requires IsAccess(access) && |states| == |ms| && Layout(order)
    requires forall j :: 0 <= j < |tried| ==> tried[j] in order
    requires ResultsOk(c0, p, access, littleEndian, m0, states, ms, tried, results)
    requires Accounted(c0, p, NumBytes(AccessWidth(access)), tried, results)
    requires Exhausted(c0, p, NumBytes(AccessWidth(access)), tried)
    ensures Settled(c0, p, access, littleEndian, order, m0, states, ms, results)
  {
    hide IsAccess, NumBytes, AccessWidth, Layout, Accounted, ResultsOk, Eval, Sat, CoveredBy, OnlyIn, Ended;
    EndedResults(c0, p, access, littleEndian, m0, states, ms, order, tried, results);
    forall sigma: Assignment | Sat(c0, sigma)
      ensures exists r :: 0 <= r < |results| && OnlyIn(results, states, r, sigma)
    {
      var r := OneResult(c0, p, access, littleEndian, m0, states, ms, order, tried, results, sigma);
    }
  }

  /** What is left of the path becomes the error state. */
  lemma SettleError(c0: set<Expr>, p: Expr, access: Access, littleEndian: bool, m0: Memory, states: seq<State>,
                    ms: seq<Memory>, order: seq<MemoryObject>, rl: seq<MemoryObject>, results: seq<Result>, u: nat)
    requires IsAccess(access) && |states| == |ms| && Layout(order) && Collected(c0, p, order, 0, |order|, rl)
    requires forall j :: 0 <= j < |rl| ==> rl[j] in order
    requires ResultsOk(c0, p, access, littleEndian, m0, states, ms, rl, results)
    requires Accounted(c0, p, NumBytes(AccessWidth(access)), rl, results)
    requires u < |states| && ms[u] == m0 && Missed(c0, p, NumBytes(AccessWidth(access)), states[u].constraints, rl)
    ensures Settled(c0, p, access, littleEndian, order, m0, states, ms, results + [Result(u, PointerError)])
  {
    hide *;
    var bytes, all := NumBytes(AccessWidth(access)), results + [Result(u, PointerError)];
    AccessBytes(access);
    EndedResults(c0, p, access, littleEndian, m0, states, ms, order, rl, results);
    MissedEverything(c0, p, order, rl, bytes, states[u].constraints);
    EndedError(c0, p, access, littleEndian, order, m0, states[u], ms[u]);
    forall sigma: Assignment | Sat(c0, sigma)
      ensures exists r :: 0 <= r < |all| && OnlyIn(all, states, r, sigma)
    {
      MissedHere(c0, p, bytes, states[u].constraints, rl, sigma);
      if CoveredBy(rl, Eval(p, sigma), bytes) {
        var r := OneResult(c0, p, access, littleEndian, m0, states, ms, order, rl, results, sigma);
        OnlyParts(results, states, r, sigma);
        ShowOnly(all, states, r, sigma);
      } else {
        NoResult(c0, p, access, littleEndian, m0, states, ms, rl, results, sigma);
        ShowOnly(all, states, |results|, sigma);
      }
    }
    ShowSettled(c0, p, access, littleEndian, order, m0, states, ms, all);
  }

  lemma EndedError(c0: set<Expr>, p: Expr, access: Access, littleEndian: bool, order: seq<MemoryObject>, m0: Memory,
                   state: State, m: Memory)
    requires IsAccess(access) && m == m0
    requires Missed(c0, p, NumBytes(AccessWidth(access)), state.constraints, order)
    ensures Ended(c0, p, access, littleEndian, order, m0, PointerError, state, m)
  {
    hide Missed, IsAccess, NumBytes, AccessWidth;
  }

  lemma ShowSettled(c0: set<Expr>, p: Expr, access: Access, littleEndian: bool, order: seq<MemoryObject>, m0: Memory,
                    states: seq<State>, ms: seq<Memory>, results: seq<Result>)
    requires IsAccess(access) && |states| == |ms|
    requires forall s :: 0 <= s < |results| ==> results[s].index < |states|
    requires forall s :: 0 <= s < |results| ==>
               Ended(c0, p, access, littleEndian, order, m0, results[s].outcome, states[results[s].index],
                     ms[results[s].index])
    requires forall sigma: Assignment :: Sat(c0, sigma) ==>
               exists r :: 0 <= r < |results| && OnlyIn(results, states, r, sigma)
    ensures Settled(c0, p, access, littleEndian, order, m0, states, ms, results)
  {
    hide Ended, OnlyIn, Sat, IsAccess;
  }

  lemma MissedHere(c0: set<Expr>, p: Expr, bytes: nat, c: set<Expr>, tried: seq<MemoryObject>, sigma: Assignment)
    requires Missed(c0, p, bytes, c, tried) && Sat(c0, sigma)
    ensures Sat(c, sigma) <==> !CoveredBy(tried, Eval(p, sigma), bytes)
  {
    hide Sat, Eval, CoveredBy;
  }

  lemma OnlyParts(results: seq<Result>, states: seq<State>, r: nat, sigma: Assignment)
    requires r < |results| && forall s :: 0 <= s < |results| ==> results[s].index < |states|
    requires OnlyIn(results, states, r, sigma)
    ensures forall s :: 0 <= s < |results| ==> (Sat(states[results[s].index].constraints, sigma) <==> s == r)
  {
    hide Sat;
  }

  lemma NoResult(c0: set<Expr>, p: Expr, access: Access, littleEndian: bool, m0: Memory, states: seq<State>,
                 ms: seq<Memory>, tried: seq<MemoryObject>, results: seq<Result>, sigma: Assignment)
    requires IsAccess(access) && |states| == |ms| && Sat(c0, sigma)
    requires ResultsOk(c0, p, access, littleEndian, m0, states, ms, tried, results)
    requires !CoveredBy(tried, Eval(p, sigma), NumBytes(AccessWidth(access)))
    ensures forall s :: 0 <= s < |results| ==> results[s].index < |states|
    ensures forall s :: 0 <= s < |results| ==> !Sat(states[results[s].index].constraints, sigma)
  {
    hide IsAccess, NumBytes, AccessWidth, Eval, Sat, Done, Covers;
    forall s | 0 <= s < |results|
      ensures results[s].index < |states| && !Sat(states[results[s].index].constraints, sigma)
    {
      assert ResultOk(c0, p, access, littleEndian, m0, states, ms, tried, results[s]);
      ResultHolds(c0, p, access, littleEndian, m0, states, ms, tried, results[s], sigma);
    }
  }

  /** States other than the one that made the access are as they were. */
  ghost predicate Others(states: seq<State>, ms: seq<Memory>, k: nat, states': seq<State>, ms': seq<Memory>) {
    && |states| == |ms| <= |states'| == |ms'|
    && forall j :: 0 <= j < |states| && j != k ==> states'[j] == states[j] && ms'[j] == ms[j]
  }

  /** Everything the loop over the candidates keeps. */
  ghost predicate Account(c0: set<Expr>, p: Expr, access: Access, littleEndian: bool, states0: seq<State>,
                          ms0: seq<Memory>, k: nat, states: seq<State>, ms: seq<Memory>, tried: seq<MemoryObject>,
                          results: seq<Result>, unbound: Option<nat>)
    requires IsAccess(access)
  {
    && Others(states0, ms0, k, states, ms) && k < |states0|
    && (unbound.Some? ==> unbound.value == k || |states0| <= unbound.value)
    && ResultsOk(c0, p, access, littleEndian, ms0[k], states, ms, tried, results)
    && Accounted(c0, p, NumBytes(AccessWidth(access)), tried, results)
    && Remaining(c0, p, NumBytes(AccessWidth(access)), ms0[k], states, ms, tried, results, unbound)
  }

  lemma AccountStart(p: Expr, access: Access, littleEndian: bool, states: seq<State>, ms: seq<Memory>, k: nat)
    requires IsAccess(access) && k < |states| == |ms| && Feasible(states[k].constraints)
    ensures Account(states[k].constraints, p, access, littleEndian, states, ms, k, states, ms, [], [], Some(k))
  {
    hide Sat, Eval, IsAccess, Feasible, AccessWidth, NumBytes;
  }

  lemma AccountParts(c0: set<Expr>, p: Expr, access: Access, littleEndian: bool, states0: seq<State>, ms0: seq<Memory>,
                     k: nat, states: seq<State>, ms: seq<Memory>, tried: seq<MemoryObject>, results: seq<Result>,
                     u: nat)
    requires IsAccess(access)
    requires Account(c0, p, access, littleEndian, states0, ms0, k, states, ms, tried, results, Some(u))
    ensures k < |states0| == |ms0| && u < |states| == |ms| && ms[u] == ms0[k]
    ensures Left(c0, p, NumBytes(AccessWidth(access)), ms[u], tried, states[u], ms[u])
  {
    hide IsAccess, Missed, Feasible, NumBytes, AccessWidth;
  }

  lemma AccountStep(c0: set<Expr>, p: Expr, access: Access, littleEndian: bool, states0: seq<State>, ms0: seq<Memory>,
                    k: nat, states: seq<State>, ms: seq<Memory>, tried: seq<MemoryObject>, results: seq<Result>, u: nat,
                    mo: MemoryObject, states': seq<State>, ms': seq<Memory>, outcome: Option<Outcome>,
                    unbound: Option<nat>)
    requires IsAccess(access) && u < |states| == |ms| && |states'| == |ms'| && mo !in tried
    requires Account(c0, p, access, littleEndian, states0, ms0, k, states, ms, tried, results, Some(u))
    requires Tried(c0, p, access, littleEndian, tried, mo, u, states, ms, states', ms', outcome, unbound)
    ensures Account(c0, p, access, littleEndian, states0, ms0, k, states', ms', tried + [mo],
                    Extended(results, u, outcome), unbound)
  {
    hide IsAccess, ResultsOk, Accounted, NumBytes, AccessWidth, Landed, Exhausted, Missed, Feasible, NeverCovers,
         Effect;
    if outcome.Some? { DoneObject(c0, p, access, littleEndian, ms[u], mo, outcome.value, states'[u], ms'[u]); }
    ResultsStep(c0, p, access, littleEndian, ms0[k], states, ms, tried, results, u, mo, states', ms', outcome, unbound);
    TriedAccount(c0, p, NumBytes(AccessWidth(access)), tried, results, u, mo, outcome);
    RemainingStep(c0, p, access, littleEndian, ms0[k], states, ms, tried, results, u, mo, states', ms', outcome,
                  unbound);
  }

  /** The error path: fork on every candidate in turn. */
  method TryAll(solver: Solver, m: Machine, k: nat, access: Access, p: Expr, rl: seq<MemoryObject>, littleEndian: bool,
                ghost g: Shadow, ghost order: seq<MemoryObject>)
    returns (timedOut: bool, m': Machine, results: seq<Result>, unbound: Option<nat>, ghost tried: seq<MemoryObject>,
             ghost g': Shadow)
    requires InStep(m, g) && k < |m.states| && R.Epoch(g, k) + |rl| <= UINT32
    requires solver.Sound() && solver !in g.repr && IsAccess(access) && IsPointer(p) && Layout(order)
    requires forall j :: 0 <= j < |rl| ==> rl[j] in order
    requires forall i, j :: 0 <= i < j < |rl| ==> rl[i] != rl[j]
    requires Feasible(m.states[k].constraints) && forall mo :: mo in order ==> mo in g.ms[k]
    modifies g.repr, solver`queries
    ensures InStep(m', g') && fresh(g'.repr - g.repr)
    ensures !timedOut ==> tried <= rl && (unbound.Some? ==> tried == rl)
    ensures !timedOut ==>
              Account(m.states[k].constraints, p, access, littleEndian, m.states, g.ms, k, m'.states, g'.ms, tried,
                      results, unbound)
    ensures !timedOut ==> KeepsRegister(access, m.states[k].register, m'.states, results, unbound)
    ensures timedOut ==> !solver.Answers()
  {
    hide *;
    ghost var c0 := m.states[k].constraints;
    timedOut, m', results, unbound, tried, g' := false, m, [], Some(k), [], g;
    Lengths(m, g);
    AccountStart(p, access, littleEndian, m.states, g.ms, k);
    RegistersStart(access, m.states, k);
    for i := 0 to |rl|
      invariant !timedOut && InStep(m', g') && fresh(g'.repr - g.repr) && |m'.states| == |g'.ms|
      invariant unbound.Some? && R.Epoch(g', unbound.value) <= R.Epoch(g, k) + i && tried == rl[..i]
      invariant Account(c0, p, access, littleEndian, m.states, g.ms, k, m'.states, g'.ms, tried, results, unbound)
      invariant KeepsRegister(access, m.states[k].register, m'.states, results, unbound)
    {
      var mo, u := rl[i], unbound.value;
      AccountParts(c0, p, access, littleEndian, m.states, g.ms, k, m'.states, g'.ms, tried, results, u);
      ghost var states, ms := m'.states, g'.ms;
      var outcome;
      timedOut, m', outcome, unbound, g' := TryObject(solver, m', u, access, p, mo, littleEndian, g', c0, order, tried);
      if timedOut { return; }
      Lengths(m', g');
      AccountStep(c0, p, access, littleEndian, m.states, g.ms, k, states, ms, tried, results, u, mo, m'.states, g'.ms,
                  outcome, unbound);
      RegistersStep(c0, p, access, littleEndian, m.states, g.ms, k, states, ms, tried, results, u, mo, m'.states, g'.ms,
                    outcome, unbound);
      ExtendedIs(results, u, outcome);
      if outcome.Some? { results := results + [Result(u, outcome.value)]; }
      tried := tried + [mo];
      assert tried == rl[..i + 1];
      if unbound.None? { return; }
    }
  }

  lemma ExtendedIs(results: seq<Result>, u: nat, outcome: Option<Outcome>)
    ensures Extended(results, u, outcome) == if outcome.Some? then results + [Result(u, outcome.value)] else results
  {
  }

  /** A load or store of state k. Unless a query timed out or a wall-clock limit was
      reached, every assignment of its path ends in exactly one resulting state, with a
      concrete access's effect. */
  method ExecuteMemoryOperation(solver: Solver, m: Machine, k: nat, access: Access, p: Expr, littleEndian: bool,
                                order: seq<MemoryObject>, limited: bool, ghost g: Shadow)
    returns (timedOut: bool, m': Machine, results: seq<Result>, ghost g': Shadow)
    requires InStep(m, g) && k < |m.states| && R.Epoch(g, k) + |order| <= UINT32
    requires solver.Sound() && solver !in g.repr && IsAccess(access) && IsPointer(p)
    requires Layout(order) && (set mo | mo in order) == g.ms[k].Keys
    requires Feasible(m.states[k].constraints)
    modifies g.repr, solver`queries
    ensures InStep(m', g') && fresh(g'.repr - g.repr)
    ensures !timedOut ==>
              Settled(m.states[k].constraints, p, access, littleEndian, order, g.ms[k], m'.states, g'.ms, results)
    ensures !timedOut ==> Others(m.states, g.ms, k, m'.states, g'.ms)
    ensures !timedOut ==> KeepsRegister(access, m.states[k].register, m'.states, results, None)
    ensures timedOut ==> limited || !solver.Answers()
  {
    hide *;
    ghost var c0 := m.states[k].constraints;
    m', g', results := m, g, [];
    Lengths(m, g);
    AccessBytes(access);
    var bytes := NumBytes(AccessWidth(access));
    var answered, one := ResolveOne(solver, m.states[k].constraints, p, order);
    if !answered { return true, m', results, g'; }
    if one.Some? {
      var mo := one.value;
      FitsInLayout(order, mo);
      BoundsCheckAccessMeaning(mo, p, bytes, (_, _) => 0);
      var inBounds := solver.MustBeTrue(m.states[k].constraints, BoundsCheckAccess(mo, p, bytes));
      if inBounds.None? { return true, m', results, g'; }
      if inBounds.value {
        AlwaysCovers(c0, p, bytes, mo);
        LandedSomewhere(c0, p, bytes, c0, mo);
        var outcome;
        m', outcome, g' := Perform(m, k, access, p, mo, littleEndian, g);
        results := [Result(k, outcome)];
        SettleOne(p, access, littleEndian, m.states, g.ms, k, m'.states, g'.ms, order, mo, outcome);
        EffectOutcome(access, mo, p, littleEndian, g.ms[k], outcome, g'.ms[k], m'.states[k].register);
        RegistersOne(access, m.states, k, m'.states, outcome);
        return false, m', results, g';
      }
    }
    var incomplete, rl;
    ghost var late;
    incomplete, rl, late := Resolve(solver, m.states[k].constraints, p, order, 0, limited);
    if incomplete { return true, m', results, g'; }
    CollectedFacts(c0, p, order, rl);
    var unbound;
    ghost var tried;
    timedOut, m', results, unbound, tried, g' := TryAll(solver, m, k, access, p, rl, littleEndian, g, order);
    if timedOut { return; }
    Lengths(m', g');
    FinishAccount(c0, p, access, littleEndian, m.states, g.ms, k, m'.states, g'.ms, order, rl, tried, results, unbound);
    RegistersEnd(access, m.states[k].register, m'.states, results, unbound);
    if unbound.Some? { results := results + [Result(unbound.value, PointerError)]; }
  }

  lemma AlwaysCovers(c0: set<Expr>, p: Expr, bytes: nat, mo: MemoryObject)
    requires Fits(mo) && IsPointer(p) && bytes > 0 && Must(c0, BoundsCheckAccess(mo, p, bytes))
    ensures Landed(c0, p, bytes, c0, mo) && Exhausted(c0, p, bytes, [mo])
  {
    hide Eval, Sat, Covers, BoundsCheckAccess, IsPointer, Fits;
    forall sigma: Assignment | Sat(c0, sigma)
      ensures Covers(mo, Eval(p, sigma), bytes)
    {
      BoundsCheckAccessMeaning(mo, p, bytes, sigma);
    }
    assert [mo][0] == mo;
  }

  lemma SettleOne(p: Expr, access: Access, littleEndian: bool, states: seq<State>, ms: seq<Memory>, k: nat,
                  states': seq<State>, ms': seq<Memory>, order: seq<MemoryObject>, mo: MemoryObject, outcome: Outcome)
    requires IsAccess(access) && k < |states| == |ms| && Layout(order) && mo in order
    requires Landed(states[k].constraints, p, NumBytes(AccessWidth(access)), states[k].constraints, mo)
    requires Exhausted(states[k].constraints, p, NumBytes(AccessWidth(access)), [mo])
    requires |ms'| == |ms| && ms' == ms[k := ms'[k]]
    requires |states'| == |states| && states' == states[k := states[k].(register := states'[k].register)]
    requires Effect(access, mo, p, littleEndian, ms[k], outcome, ms'[k], states'[k].register)
    ensures Settled(states[k].constraints, p, access, littleEndian, order, ms[k], states', ms', [Result(k, outcome)])
    ensures Others(states, ms, k, states', ms')
  {
    var c0, results := states[k].constraints, [Result(k, outcome)];
    hide IsAccess, NumBytes, AccessWidth, Layout, Exhausted, Settled, NeverCovers, Landed, Effect;
    assert Done(c0, p, access, littleEndian, ms[k], mo, outcome, states'[k], ms'[k]);
    hide Done;
    DoneObject(c0, p, access, littleEndian, ms[k], mo, outcome, states'[k], ms'[k]);
    assert ResultOk(c0, p, access, littleEndian, ms[k], states', ms', [mo], results[0]);
    assert ResultsOk(c0, p, access, littleEndian, ms[k], states', ms', [mo], results);
    assert HasResult(results, mo) by { assert Object(results[0].outcome) == mo; }
    SettleAll(c0, p, access, littleEndian, ms[k], states', ms', order, [mo], results);
  }

  lemma CollectedFacts(c0: set<Expr>, p: Expr, order: seq<MemoryObject>, rl: seq<MemoryObject>)
    requires Layout(order) && Collected(c0, p, order, 0, |order|, rl)
    ensures forall j :: 0 <= j < |rl| ==> rl[j] in order
    ensures forall i, j :: 0 <= i < j < |rl| ==> rl[i] != rl[j]
    ensures |rl| <= |order|
  {
    hide MayPoint;
    forall j | 0 <= j < |rl|
      ensures rl[j] in order
    {
      assert InRange(order, 0, |order|, rl[j]);
    }
    DistinctLength(rl, order);
  }

  lemma {:induction false} DistinctLength(rl: seq<MemoryObject>, order: seq<MemoryObject>)
    requires forall j :: 0 <= j < |rl| ==> rl[j] in order
    requires forall i, j :: 0 <= i < j < |rl| ==> rl[i] != rl[j]
    ensures |rl| <= |order|
    decreases |rl|
  {
    if rl != [] {
      var last := rl[|rl| - 1];
      var i :| 0 <= i < |order| && order[i] == last;
      var rest := order[..i] + order[i + 1..];
      forall j | 0 <= j < |rl| - 1
        ensures rl[j] in rest
      {
        var l :| 0 <= l < |order| && order[l] == rl[j];
        assert rest[if l < i then l else l - 1] == rl[j];
      }
      DistinctLength(rl[..|rl| - 1], rest);
    }
  }

  lemma FinishAccount(c0: set<Expr>, p: Expr, access: Access, littleEndian: bool, states0: seq<State>, ms0: seq<Memory>,
                      k: nat, states: seq<State>, ms: seq<Memory>, order: seq<MemoryObject>, rl: seq<MemoryObject>,
                      tried: seq<MemoryObject>, results: seq<Result>, unbound: Option<nat>)
    requires IsAccess(access) && |states| == |ms| && Layout(order) && Collected(c0, p, order, 0, |order|, rl)
    requires tried <= rl && (unbound.Some? ==> tried == rl) && k < |ms0|
    requires Account(c0, p, access, littleEndian, states0, ms0, k, states, ms, tried, results, unbound)
    ensures Settled(c0, p, access, littleEndian, order, ms0[k], states, ms,
                    if unbound.Some? then results + [Result(unbound.value, PointerError)] else results)
    ensures Others(states0, ms0, k, states, ms)
  {
    CollectedFacts(c0, p, order, rl);
    hide IsAccess, NumBytes, AccessWidth, Layout, Collected, ResultsOk, Accounted, Exhausted, Missed, Feasible, Settled;
    assert forall j :: 0 <= j < |tried| ==> tried[j] in order;
    match unbound
    case None => SettleAll(c0, p, access, littleEndian, ms0[k], states, ms, order, tried, results);
    case Some(u) => SettleError(c0, p, access, littleEndian, ms0[k], states, ms, order, rl, results, u);
  }
}
