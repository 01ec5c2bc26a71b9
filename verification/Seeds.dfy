/**
 Seeds: bytes for the symbolic arrays, carried along a path. When a path takes a
 branch that its seed contradicts, the seed is patched byte by byte.
 */
module Seeds {
  import opened Arithmetic
  import opened Exprs
  import opened ExprReads
  import opened PartialEvaluation
  import opened Solvers

  // ----------------------------------------------------------- patching a seed

  function ReadOf(a: Array, i: nat): Expr { Read(a, Nil, Const(32, i)) }

  function IsByte(a: Array, i: nat, v: byte): Expr { Binary(Eq, ReadOf(a, i), Const(8, v)) }

  lemma ByteMeaning(a: Array, i: nat, v: byte, sigma: Assignment)
    requires a.constants == [] && i < UINT32
    ensures WellFormed(ReadOf(a, i)) && Width(ReadOf(a, i)) == 8 && Eval(ReadOf(a, i), sigma) == sigma(a, i)
    ensures WellFormed(IsByte(a, i, v)) && Width(IsByte(a, i, v)) == 1
    ensures Eval(IsByte(a, i, v), sigma) == 1 <==> sigma(a, i) == v
  {
    Const32(i);
    Pow2Values();
    assert Lookup(Some(a), Nil, i, sigma) == sigma(a, i);
  }

  /** A byte that has been fixed, with the constraint that fixes it. */
  datatype Pin = Pin(source: Array, index: nat, was: byte, now: byte, expr: Expr)

  ghost function Required(base: set<Expr>, pins: seq<Pin>): set<Expr> {
    if pins == [] then base else Required(base, pins[..|pins| - 1]) + {pins[|pins| - 1].expr}
  }

  ghost function Apply(b: Bindings, pins: seq<Pin>): Bindings {
    if pins == [] then b else SetByte(Apply(b, pins[..|pins| - 1]), pins[|pins| - 1])
  }

  ghost function SetByte(b: Bindings, p: Pin): Bindings {
    if p.source in b && p.index < |b[p.source]| then
      var bytes: seq<byte> := b[p.source][p.index := p.now];
      b[p.source := bytes]
    else b
  }

  /** A pin fixes a byte to the value the seed has, unless that value is impossible with
      what is required before, in which case it takes a possible one. */
  ghost predicate IsPin(required: set<Expr>, b: Bindings, p: Pin) {
    && p.source in b && p.index < |b[p.source]| && p.was == b[p.source][p.index]
    && Preserves(IsByte(p.source, p.index, p.now), p.expr)
    && (p.was != p.now ==> MustNot(required, IsByte(p.source, p.index, p.was)))
    && CanBe(required, ReadOf(p.source, p.index), p.now)
  }

  ghost predicate ArePins(base: set<Expr>, b: Bindings, pins: seq<Pin>) {
    forall k :: 0 <= k < |pins| ==> IsPin(Required(base, pins[..k]), Apply(b, pins[..k]), pins[k])
  }

  ghost function PlacesOf(pins: seq<Pin>): set<(Array, nat)> {
    set k | 0 <= k < |pins| :: (pins[k].source, pins[k].index)
  }

  /** Every assignment of the constraints has the bytes of the seed at these places. */
  ghost predicate Fixed(required: set<Expr>, b: Bindings, places: set<(Array, nat)>) {
    forall x, sigma: Assignment :: x in places && Sat(required, sigma) && x.0 in b && x.1 < |b[x.0]| ==>
      sigma(x.0, x.1) == b[x.0][x.1]
  }

  /** The state of a patch: the pins so far explain the seed and the requirements, which
      are still satisfiable. */
  ghost predicate Patching(base: set<Expr>, before: Bindings, pins: seq<Pin>, required: set<Expr>, b: Bindings,
                           places: set<(Array, nat)>)
  {
    && IsBindings(b) && b.Keys == before.Keys && Feasible(required)
    && required == Required(base, pins) && b == Apply(before, pins) && ArePins(base, before, pins)
    && Fixed(required, b, places) && places == PlacesOf(pins)
  }

  lemma ByteSat(required: set<Expr>, a: Array, i: nat, v: byte, e: Expr, sigma: Assignment)
    requires a.constants == [] && i < UINT32 && Preserves(IsByte(a, i, v), e)
    ensures Sat(required + {e}, sigma) <==> Sat(required, sigma) && sigma(a, i) == v
  {
    ByteMeaning(a, i, v, sigma);
    assert Eval(e, sigma) == Eval(IsByte(a, i, v), sigma);
    hide Eval, IsByte;
    assert e in required + {e} && forall x :: x in required ==> x in required + {e};
  }

  lemma ByteFeasible(required: set<Expr>, a: Array, i: nat, v: byte, e: Expr)
    requires a.constants == [] && i < UINT32 && Preserves(IsByte(a, i, v), e) && CanBe(required, ReadOf(a, i), v)
    ensures Feasible(required + {e})
  {
    hide Eval, Preserves, IsByte, ReadOf;
    var sigma: Assignment :| Sat(required, sigma) && Eval(ReadOf(a, i), sigma) == v;
    ByteMeaning(a, i, v, sigma);
    ByteSat(required, a, i, v, e, sigma);
  }

  /** One more pin. */
  lemma PinMore(base: set<Expr>, before: Bindings, pins: seq<Pin>, required: set<Expr>, b: Bindings,
                places: set<(Array, nat)>, p: Pin)
    requires Patching(base, before, pins, required, b, places) && IsPin(required, b, p)
    ensures Patching(base, before, pins + [p], required + {p.expr}, SetByte(b, p), places + {(p.source, p.index)})
  {
    hide Eval, Sat, Preserves, IsByte, ReadOf, MustNot, CanBe, ArePins, Fixed, Feasible, Required, Apply, SetByte;
    assert PlacesOf(pins + [p]) == PlacesOf(pins) + {(p.source, p.index)} by { PlacesMore(pins, p); }
    ByteFeasible(required, p.source, p.index, p.now, p.expr);
    PinFixes(required, b, places, p);
    PinsMore(base, before, pins, p);
    SetByteOk(b, p);
  }

  lemma PlacesMore(pins: seq<Pin>, p: Pin)
    ensures PlacesOf(pins + [p]) == PlacesOf(pins) + {(p.source, p.index)}
  {
    var more := pins + [p];
    assert more[|pins|] == p;
    forall x | x in PlacesOf(pins) ensures x in PlacesOf(more) {
      var k :| 0 <= k < |pins| && x == (pins[k].source, pins[k].index);
      assert more[k] == pins[k];
    }
  }

  lemma PinsMore(base: set<Expr>, before: Bindings, pins: seq<Pin>, p: Pin)
    requires ArePins(base, before, pins) && IsPin(Required(base, pins), Apply(before, pins), p)
    ensures Required(base, pins + [p]) == Required(base, pins) + {p.expr}
    ensures Apply(before, pins + [p]) == SetByte(Apply(before, pins), p)
    ensures ArePins(base, before, pins + [p])
  {
    hide IsPin, SetByte;
    var more := pins + [p];
    assert more[..|pins|] == pins;
    forall k | 0 <= k < |more|
      ensures IsPin(Required(base, more[..k]), Apply(before, more[..k]), more[k])
    {
      if k < |pins| { assert more[..k] == pins[..k]; }
    }
  }

  lemma SetByteOk(b: Bindings, p: Pin)
    requires IsBindings(b)
    ensures IsBindings(SetByte(b, p)) && SetByte(b, p).Keys == b.Keys
  {
  }

  /** A byte that is already fixed is not changed by another pin. */
  lemma PinFixes(required: set<Expr>, b: Bindings, places: set<(Array, nat)>, p: Pin)
    requires IsBindings(b) && Feasible(required) && Fixed(required, b, places) && IsPin(required, b, p)
    ensures Fixed(required + {p.expr}, SetByte(b, p), places + {(p.source, p.index)})
  {
    hide Eval, Sat, Preserves, IsByte, ReadOf;
    var b' := SetByte(b, p);
    var here := (p.source, p.index);
    if here in places { PinKept(required, b, places, p); }
    forall x, sigma: Assignment |
      x in places + {here} && Sat(required + {p.expr}, sigma) && x.0 in b' && x.1 < |b'[x.0]|
      ensures sigma(x.0, x.1) == b'[x.0][x.1]
    {
      ByteSat(required, p.source, p.index, p.now, p.expr, sigma);
      if x != here { assert b'[x.0][x.1] == b[x.0][x.1]; }
    }
  }

  lemma PinKept(required: set<Expr>, b: Bindings, places: set<(Array, nat)>, p: Pin)
    requires IsBindings(b) && Feasible(required) && Fixed(required, b, places) && IsPin(required, b, p)
    requires (p.source, p.index) in places
    ensures p.now == p.was
  {
    hide Eval, Sat, Preserves, IsByte, ReadOf;
    var x, sigma: Assignment :| x == (p.source, p.index) && Sat(required, sigma);
    assert sigma(x.0, x.1) == b[x.0][x.1];
    ByteMeaning(p.source, p.index, p.was, sigma);
  }

  /** The places read directly by a condition: reads at a constant index, wherever they
      occur outside update lists. */
  ghost function DirectReads(e: Expr): set<(Array, nat)> {
    match e
    case Const(_, _) => {}
    case Read(root, _, i) => (if i.Const? then {(root, i.value)} else {}) + DirectReads(i)
    case Select(c, t, f) => DirectReads(c) + DirectReads(t) + DirectReads(f)
    case Concat(h, l) => DirectReads(h) + DirectReads(l)
    case Extract(s, _, _) => DirectReads(s)
    case ZExt(s, _) => DirectReads(s)
    case SExt(s, _) => DirectReads(s)
    case Binary(_, l, r) => DirectReads(l) + DirectReads(r)
    case NotOptimized(s) => DirectReads(s)
  }

  /** A read of an array at a constant index, whatever its updates. */
  ghost predicate ReadsAt(x: Expr, place: (Array, nat)) {
    x.Read? && x.root == place.0 && x.index.Const? && x.index.value == place.1
  }

  /** A place is read directly if and only if a read of it occurs outside update lists. */
  lemma {:induction false} DirectReadsExact(e: Expr, place: (Array, nat))
    ensures place in DirectReads(e) <==> exists x :: Occurs(e, x, false) && ReadsAt(x, place)
  {
    hide Occurs, ReadsAt;
    forall c | c in Kids(e)
      ensures place in DirectReads(c) <==> exists x :: Occurs(c, x, false) && ReadsAt(x, place)
    {
      KidSmaller(e, c);
      DirectReadsExact(c, place);
    }
    DirectReadsParts(e, place);
    OccursSelf(e, false);
    if x :| Occurs(e, x, false) && ReadsAt(x, place) {
      if x != e {
        var c := OccursFirst(e, x, false);
        assert c in Kids(e) && place in DirectReads(c);
      }
    }
    if c :| c in Kids(e) && place in DirectReads(c) {
      var x :| Occurs(c, x, false) && ReadsAt(x, place);
      OccursUnder(e, c, x, false);
    }
  }

  lemma DirectReadsParts(e: Expr, place: (Array, nat))
    ensures place in DirectReads(e) <==> ReadsAt(e, place) || exists c :: c in Kids(e) && place in DirectReads(c)
  {
    forall c | c in Kids(e) && place in DirectReads(c) ensures place in DirectReads(e) {}
    if place in DirectReads(e) && !ReadsAt(e, place) {
      match e
      case Const(_, _) =>
      case Read(_, _, i) => assert i in Kids(e) && place in DirectReads(i);
      case Select(c, t, f) => assert c in Kids(e) && t in Kids(e) && f in Kids(e);
      case Concat(h, l) => assert h in Kids(e) && l in Kids(e);
      case Extract(s, _, _) => assert s in Kids(e);
      case ZExt(s, _) => assert s in Kids(e);
      case SExt(s, _) => assert s in Kids(e);
      case Binary(_, l, r) => assert l in Kids(e) && r in Kids(e);
      case NotOptimized(s) => assert s in Kids(e);
    }
  }

  /** The places read directly, from the reads that a search finds outside update lists. */
  method FindDirectReads(e: Expr) returns (places: set<(Array, nat)>)
    ensures places == DirectReads(e)
  {
    hide Occurs, DirectReads;
    var found := FindReads(e, false);
    places := {};
    for k := 0 to |found|
      invariant forall place :: place in places <==> exists j :: 0 <= j < k && ReadsAt(found[j], place)
    {
      if found[k].index.Const? { places := places + {(found[k].root, found[k].index.value)}; }
    }
    forall place ensures place in places <==> place in DirectReads(e) {
      DirectReadsExact(e, place);
    }
  }

  predicate ConstUpdates(u: UpdateNode) {
    match u
    case Nil => true
    case Node(next, at, val) => at.Const? && val.Const? && ConstUpdates(next)
  }

  lemma {:induction false} ConstLookup(root: Array, u: UpdateNode, i: nat, sigma: Assignment, tau: Assignment)
    requires ConstUpdates(u) && sigma(root, i) == tau(root, i)
    ensures Lookup(Some(root), u, i, sigma) == Lookup(Some(root), u, i, tau)
  {
    if u.Node? { ConstLookup(root, u.next, i, sigma, tau); }
  }

  /** Reads at constant indices, with constants for updates, and no other reads. */
  predicate IsFlat(e: Expr) {
    match e
    case Const(_, _) => true
    case Read(_, u, i) => ConstUpdates(u) && i.Const?
    case Select(c, t, f) => IsFlat(c) && IsFlat(t) && IsFlat(f)
    case Concat(h, l) => IsFlat(h) && IsFlat(l)
    case Extract(s, _, _) => IsFlat(s)
    case ZExt(s, _) => IsFlat(s)
    case SExt(s, _) => IsFlat(s)
    case Binary(_, l, r) => IsFlat(l) && IsFlat(r)
    case NotOptimized(s) => IsFlat(s)
  }

  /** The places read directly decide the value of such an expression, so that fixing them
      decides a condition. */
  lemma {:induction false} DirectReadsDecide(e: Expr, sigma: Assignment, tau: Assignment)
    requires IsFlat(e) && forall x :: x in DirectReads(e) ==> sigma(x.0, x.1) == tau(x.0, x.1)
    ensures Eval(e, sigma) == Eval(e, tau)
  {
    match e
    case Const(_, _) =>
    case Read(root, u, i) =>
      assert (root, i.value) in DirectReads(e);
      ConstLookup(root, u, i.value, sigma, tau);
    case Select(c, t, f) =>
      DirectReadsDecide(c, sigma, tau);
      DirectReadsDecide(t, sigma, tau);
      DirectReadsDecide(f, sigma, tau);
    case Concat(h, l) => DirectReadsDecide(h, sigma, tau); DirectReadsDecide(l, sigma, tau);
    case Extract(s, _, _) => DirectReadsDecide(s, sigma, tau);
    case ZExt(s, _) => DirectReadsDecide(s, sigma, tau);
    case SExt(s, _) => DirectReadsDecide(s, sigma, tau);
    case Binary(_, l, r) => DirectReadsDecide(l, sigma, tau); DirectReadsDecide(r, sigma, tau);
    case NotOptimized(s) => DirectReadsDecide(s, sigma, tau);
  }

  /** The places read directly that the seed binds. */
  ghost function BoundReads(b: Bindings, e: Expr): set<(Array, nat)> {
    Bound(b, DirectReads(e))
  }

  ghost function Bound(b: Bindings, places: set<(Array, nat)>): set<(Array, nat)> { set x | x in places && x.0 in b }

  lemma BoundMore(b: Bindings, places: set<(Array, nat)>, todo: set<(Array, nat)>, x: (Array, nat))
    requires x in todo && todo <= places
    ensures Bound(b, places - (todo - {x})) == Bound(b, places - todo) + if x.0 in b then {x} else {}
  {
  }

  lemma BoundEnds(b: Bindings, places: set<(Array, nat)>)
    ensures Bound(b, places - places) == {} && Bound(b, places - {}) == Bound(b, places)
  {
    assert places - {} == places;
  }

  ghost predicate InBounds(places: set<(Array, nat)>) { forall x :: x in places ==> x.1 < x.0.size }

  class SeedInfo {
    var bindings: Bindings

    constructor (bindings: Bindings)
      ensures this.bindings == bindings
    {
      this.bindings := bindings;
    }

    /** One byte is fixed: at its old value if that is possible, and otherwise at a
        possible one. */
    method PinByte(solver: Solver, required: set<Expr>, a: Array, i: nat) returns (answered: bool, p: Pin)
      requires solver.Sound() && IsBindings(bindings) && a in bindings && i < |bindings[a]| && Feasible(required)
      modifies this`bindings, solver`queries
      ensures solver.Answers() ==> answered
      ensures answered ==> IsPin(required, old(bindings), p) && p.source == a && p.index == i
      ensures answered ==> bindings == SetByte(old(bindings), p)
    {
      PlaceOk(bindings, a, i);
      hide Eval, Sat, Preserves, IsByte, ReadOf, WellFormed, Width, IsBindings, MustNot, CanBe, Feasible;
      var v := bindings[a][i];
      p := Pin(a, i, v, v, Const(1, 1));
      answered := false;
      var isSeed := Create(IsByte(a, i, v));
      var impossible := solver.MustBeFalse(required, isSeed);
      if impossible.None? { return; }
      SeedMeans(required, a, i, v, isSeed);
      if impossible.value {
        var value := solver.GetValue(required, ReadOf(a, i));
        if value.None? { return; }
        ByteValue(required, a, i, value.value);
        var now: byte := value.value;
        PlaceRead(a, i, now);
        var bytes: seq<byte> := bindings[a][i := now];
        bindings := bindings[a := bytes];
        var expr := Create(IsByte(a, i, now));
        p := Pin(a, i, v, now, expr);
      } else {
        p := Pin(a, i, v, v, isSeed);
        SetSame(bindings, p);
      }
      answered := true;
    }

    /** The places a condition reads directly are fixed first. */
    method PatchDirect(solver: Solver, condition: Expr, required: set<Expr>, ghost base: set<Expr>)
      returns (answered: bool, required': set<Expr>, ghost pins: seq<Pin>, ghost places: set<(Array, nat)>)
      requires solver.Sound() && Patching(base, bindings, [], required, bindings, {})
      requires InBounds(DirectReads(condition))
      modifies this`bindings, solver`queries
      ensures solver.Answers() ==> answered
      ensures answered ==> Patching(base, old(bindings), pins, required', bindings, places)
      ensures answered ==> places == BoundReads(old(bindings), condition)
    {
      hide Patching, IsPin, SetByte, IsBindings, Feasible, DirectReads, WellFormed, Width, Eval, Bound;
      answered, required', pins, places := true, required, [], {};
      var todo := FindDirectReads(condition);
      BoundEnds(old(bindings), todo);
      while todo != {}
        invariant todo <= DirectReads(condition)
        invariant Patching(base, old(bindings), pins, required', bindings, places)
        invariant places == Bound(old(bindings), DirectReads(condition) - todo)
        decreases |todo|
      {
        var x :| x in todo;
        BoundMore(old(bindings), DirectReads(condition), todo, x);
        todo := todo - {x};
        PatchingParts(base, old(bindings), pins, required', bindings, places);
        if x.0 in bindings {
          ghost var b := bindings;
          var p;
          answered, p := PinByte(solver, required', x.0, x.1);
          if !answered { return; }
          PinMore(base, old(bindings), pins, required', b, places, p);
          required', pins, places := required' + {p.expr}, pins + [p], places + {x};
        }
      }
    }

    /** Every byte of one array is fixed. */
    method PatchArray(solver: Solver, a: Array, required: set<Expr>, ghost base: set<Expr>, ghost before: Bindings,
                      ghost pins: seq<Pin>, ghost places: set<(Array, nat)>)
      returns (answered: bool, required': set<Expr>, ghost pins': seq<Pin>, ghost places': set<(Array, nat)>)
      requires solver.Sound() && Patching(base, before, pins, required, bindings, places) && a in bindings
      modifies this`bindings, solver`queries
      ensures solver.Answers() ==> answered
      ensures answered ==> Patching(base, before, pins', required', bindings, places')
      ensures answered ==> bindings.Keys == old(bindings.Keys) && pins <= pins'
      ensures places <= places' && (answered ==> forall i :: 0 <= i < a.size ==> (a, i) in places')
    {
      hide Patching, IsPin, SetByte;
      answered, required', pins', places' := true, required, pins, places;
      for i := 0 to a.size
        invariant Patching(base, before, pins', required', bindings, places') && bindings.Keys == old(bindings.Keys)
        invariant pins <= pins'
        invariant places <= places' && forall j :: 0 <= j < i ==> (a, j) in places'
      {
        PatchingParts(base, before, pins', required', bindings, places');
        ghost var b := bindings;
        var p;
        answered, p := PinByte(solver, required', a, i);
        if !answered { return; }
        PinMore(base, before, pins', required', b, places', p);
        SetByteOk(b, p);
        required', pins', places' := required' + {p.expr}, pins' + [p], places' + {(a, i)};
      }
    }

    /** Every byte of every array is fixed. */
    method PatchAll(solver: Solver, required: set<Expr>, ghost base: set<Expr>, ghost before: Bindings,
                    ghost pins: seq<Pin>, ghost places: set<(Array, nat)>)
      returns (answered: bool, required': set<Expr>, ghost pins': seq<Pin>, ghost places': set<(Array, nat)>)
      requires solver.Sound() && Patching(base, before, pins, required, bindings, places)
      modifies this`bindings, solver`queries
      ensures solver.Answers() ==> answered
      ensures answered ==> Patching(base, before, pins', required', bindings, places') && pins <= pins'
      ensures answered ==> forall a, i: nat :: a in bindings && i < a.size ==> (a, i) in places'
    {
      hide *;
      answered, required', pins', places' := true, required, pins, places;
      var todo := bindings.Keys;
      while todo != {}
        invariant todo <= bindings.Keys
        invariant Patching(base, before, pins', required', bindings, places') && pins <= pins'
        invariant forall a, i: nat :: a in bindings && a !in todo && i < a.size ==> (a, i) in places'
        decreases |todo|
      {
        var a :| a in todo;
        answered, required', pins', places' := PatchArray(solver, a, required', base, before, pins', places');
        if !answered { return; }
        todo := todo - {a};
      }
    }

    /** The seed is made to fit a condition that the path can still take: first the places
        the condition reads directly are fixed, and if the condition evaluated under the
        seed may then be true, that is all; otherwise every byte is fixed. The pins say
        which bytes were fixed, in order, and why. */
    method PatchSeed(solver: Solver, constraints: set<Expr>, condition: Expr)
      returns (answered: bool, accepted: bool, tested: Expr, ghost direct: nat, ghost pins: seq<Pin>)
      requires solver.Sound() && IsBindings(bindings) && WellFormed(condition) && Width(condition) == 1
      requires Feasible(constraints + {condition}) && InBounds(DirectReads(condition))
      modifies this`bindings, solver`queries
      ensures solver.Answers() ==> answered
      ensures answered ==> IsPatch(constraints, condition, old(bindings), direct, pins, accepted, bindings)
      ensures answered ==> IsTest(constraints, condition, Apply(old(bindings), pins[..direct]), tested, accepted)
      ensures answered && Resolved(bindings, condition) ==> Possible(constraints, condition, bindings)
      ensures answered && Resolvable(old(bindings), condition) ==> Possible(constraints, condition, bindings)
      ensures answered && !accepted ==> Holds(constraints, condition, bindings)
      ensures answered && IsFlat(condition) ==> accepted
      ensures answered ==> KeepsPath(constraints, condition, old(bindings), bindings)
    {
      hide *;
      ghost var base := constraints + {condition};
      PatchingStart(base, bindings);
      var required := constraints + {condition};
      ghost var places;
      accepted, tested, direct := true, condition, 0;
      answered, required, pins, places := PatchDirect(solver, condition, required, base);
      if !answered { return; }
      PatchingDone(base, old(bindings), pins, required, bindings, places);
      direct := |pins|;
      assert pins[..direct] == pins;
      tested := Evaluate(bindings, condition);
      var may := solver.MayBeTrue(constraints, tested);
      if may.None? { answered := false; return; }
      accepted := may.value;
      TestIs(constraints, condition, bindings, tested, accepted);
      if IsFlat(condition) {
        DirectEnough(constraints, condition, old(bindings), pins, required, bindings, places, tested);
      }
      if accepted {
        KeptEarly(constraints, condition, old(bindings), pins, required, bindings, places);
        EarlyDone(constraints, condition, old(bindings), pins, required, bindings, places, tested);
      } else {
        ghost var early := pins;
        answered, required, pins, places := PatchAll(solver, required, base, old(bindings), pins, places);
        if !answered { return; }
        assert pins[..direct] == early;
        PatchingDone(base, old(bindings), pins, required, bindings, places);
        AllFixed(constraints, condition, old(bindings), direct, pins, required, bindings, places);
        KeptAll(constraints, condition, old(bindings), pins, bindings);
      }
    }
  }

  /** The condition may be true once the seed is put in place of the bytes it binds. */
  ghost predicate Possible(constraints: set<Expr>, condition: Expr, b: Bindings) {
    exists sigma: Assignment :: Sat(constraints, sigma) && Eval(condition, Override(b, sigma)) == 1
  }

  /** The path can take the condition with exactly the bytes of the seed. */
  ghost predicate Holds(constraints: set<Expr>, condition: Expr, b: Bindings) {
    exists sigma: Assignment :: Sat(constraints + {condition}, sigma) && Agrees(b, sigma)
  }

  /** The path allows exactly the bytes of the seed. */
  ghost predicate FitsPath(constraints: set<Expr>, b: Bindings) {
    exists sigma: Assignment :: Sat(constraints, sigma) && Agrees(b, sigma)
  }

  /** As one assignment where the condition reads, and as another at the other bytes of the
      seed. */
  ghost predicate Joins(condition: Expr, b: Bindings, sigma: Assignment, tau: Assignment, rho: Assignment) {
    && (forall x :: x in DirectReads(condition) ==> rho(x.0, x.1) == sigma(x.0, x.1))
    && (forall a, i: nat :: a in b && i < |b[a]| && (a, i) !in DirectReads(condition) ==> rho(a, i) == tau(a, i))
  }

  /** The path does not tie the bytes the condition reads to the other bytes of the seed. */
  ghost predicate Separable(constraints: set<Expr>, condition: Expr, b: Bindings) {
    forall sigma: Assignment, tau: Assignment :: Sat(constraints + {condition}, sigma) && Sat(constraints, tau) ==>
      exists rho: Assignment :: Sat(constraints, rho) && Joins(condition, b, sigma, tau, rho)
  }

  /** A seed with which the path can take the condition is not changed, and one that fits
      the path fits it still if the condition only reads bytes that the path does not tie to
      the rest. */
  ghost predicate KeepsPath(constraints: set<Expr>, condition: Expr, before: Bindings, b: Bindings) {
    && (Holds(constraints, condition, before) ==> b == before)
    && (IsFlat(condition) && Separable(constraints, condition, before) && FitsPath(constraints, before) ==>
          Holds(constraints, condition, b))
  }

  /** The pins explain the new seed. The first ones are at the places the condition reads
      directly, and unless that was enough they cover every byte. */
  ghost predicate IsPatch(constraints: set<Expr>, condition: Expr, before: Bindings, direct: nat, pins: seq<Pin>,
                          accepted: bool, b: Bindings)
  {
    && IsBindings(b) && b == Apply(before, pins) && SameShape(before, b)
    && ArePins(constraints + {condition}, before, pins)
    && direct <= |pins| && PlacesOf(pins[..direct]) == BoundReads(before, condition)
    && (accepted ==> direct == |pins|)
    && (!accepted ==> forall a, i: nat :: a in b && i < a.size ==> (a, i) in PlacesOf(pins))
  }

  /** The early test: the condition evaluated under the seed may be true. */
  ghost predicate IsTest(constraints: set<Expr>, condition: Expr, b: Bindings, tested: Expr, accepted: bool) {
    Evaluates(b, condition, tested) && (accepted <==> May(constraints, tested))
  }

  lemma PatchingStart(base: set<Expr>, b: Bindings)
    requires IsBindings(b) && Feasible(base)
    ensures Patching(base, b, [], base, b, {})
  {
  }

  lemma PatchingParts(base: set<Expr>, before: Bindings, pins: seq<Pin>, required: set<Expr>, b: Bindings,
                      places: set<(Array, nat)>)
    requires Patching(base, before, pins, required, b, places)
    ensures IsBindings(b) && Feasible(required) && b.Keys == before.Keys && forall a :: a in b ==> |b[a]| == a.size
  {
  }

  lemma PatchingDone(base: set<Expr>, before: Bindings, pins: seq<Pin>, required: set<Expr>, b: Bindings,
                     places: set<(Array, nat)>)
    requires Patching(base, before, pins, required, b, places)
    ensures IsBindings(b) && b == Apply(before, pins) && ArePins(base, before, pins) && required == Required(base, pins)
    ensures places == PlacesOf(pins)
  {
  }

  lemma {:induction false} RequiredMore(base: set<Expr>, pins: seq<Pin>)
    ensures base <= Required(base, pins)
  {
    if pins != [] { RequiredMore(base, pins[..|pins| - 1]); }
  }

  /** Where the seed determines every index, the early test is exact. */
  lemma TestExact(constraints: set<Expr>, condition: Expr, b: Bindings, tested: Expr)
    requires Evaluates(b, condition, tested) && Resolved(b, condition)
    ensures May(constraints, tested) <==> Possible(constraints, condition, b)
  {
    hide Evaluates, Resolved, Eval, Sat, Override;
    forall sigma: Assignment ensures Eval(tested, sigma) == Eval(condition, Override(b, sigma)) {
      Substitutes(b, condition, tested, sigma);
    }
  }

  /** Where every index is known or open, the early test accepts if and only if the path
      allows the condition with the kept reads free. */
  lemma TestAccepts(constraints: set<Expr>, condition: Expr, b: Bindings, tested: Expr)
    requires Evaluates(b, condition, tested) && Clear(b, condition)
    ensures May(constraints, tested) <==>
            exists sigma: Assignment :: Sat(constraints, sigma) && Partial(b, condition, sigma) == 1
  {
    hide Eval, Sat, Partial, Clear, Known, Follows, WellFormed, Width;
    if May(constraints, tested) {
      var sigma: Assignment :| Sat(constraints, sigma) && Eval(tested, sigma) == 1;
      assert Partial(b, condition, sigma) == 1;
    }
    if sigma: Assignment :| Sat(constraints, sigma) && Partial(b, condition, sigma) == 1 {
      assert Eval(tested, sigma) == 1;
    }
  }

  ghost predicate AreConstraints(constraints: set<Expr>) {
    forall c :: c in constraints ==> WellFormed(c) && Width(c) == 1
  }

  /** Where every index is known or open, the early test accepts no seed wrongly, on
      whatever path, if and only if keeping the undetermined reads makes the condition true
      under no assignment under which the seed's own bytes make it false. */
  lemma TestAlwaysRight(condition: Expr, b: Bindings, tested: Expr)
    requires IsBindings(b) && WellFormed(condition) && Width(condition) == 1
    requires Evaluates(b, condition, tested) && Clear(b, condition)
    ensures (forall constraints :: AreConstraints(constraints) && May(constraints, tested) ==>
               Possible(constraints, condition, b)) <==>
            (forall sigma: Assignment :: Partial(b, condition, sigma) == 1 ==> Eval(condition, Override(b, sigma)) == 1)
  {
    hide *;
    if forall sigma: Assignment :: Partial(b, condition, sigma) == 1 ==> Eval(condition, Override(b, sigma)) == 1 {
      forall constraints | AreConstraints(constraints) && May(constraints, tested)
        ensures Possible(constraints, condition, b)
      {
        TestAccepts(constraints, condition, b, tested);
        var sigma: Assignment :| Sat(constraints, sigma) && Partial(b, condition, sigma) == 1;
        PossibleAt(constraints, condition, b, sigma);
      }
    } else {
      var sigma: Assignment :| Partial(b, condition, sigma) == 1 && Eval(condition, Override(b, sigma)) != 1;
      WrongOn(condition, b, tested, sigma);
    }
  }

  lemma PossibleAt(constraints: set<Expr>, condition: Expr, b: Bindings, sigma: Assignment)
    requires Sat(constraints, sigma) && Eval(condition, Override(b, sigma)) == 1
    ensures Possible(constraints, condition, b)
  {
  }

  /** A path on which the seed's bytes make the condition false, that allows this
      assignment. */
  lemma WrongOn(condition: Expr, b: Bindings, tested: Expr, sigma: Assignment)
    requires IsBindings(b) && WellFormed(condition) && Width(condition) == 1
    requires Evaluates(b, condition, tested) && Clear(b, condition)
    requires Partial(b, condition, sigma) == 1 && Eval(condition, Override(b, sigma)) != 1
    ensures var path := {IsZero(Substitute(b, condition))};
            AreConstraints(path) && May(path, tested) && !Possible(path, condition, b)
  {
    var path := {IsZero(Substitute(b, condition))};
    hide Partial, Clear, Override, Eval, Substitute, WellFormed, Width, Evaluates, IsZero, Known;
    forall tau: Assignment
      ensures Sat(path, tau) <==> Eval(condition, Override(b, tau)) != 1
    {
      FalseUnder(condition, b, tau);
      assert Sat(path, tau) <==> Eval(IsZero(Substitute(b, condition)), tau) == 1;
    }
    FalseUnder(condition, b, sigma);
    TestAccepts(path, condition, b, tested);
  }

  lemma FalseUnder(condition: Expr, b: Bindings, tau: Assignment)
    requires IsBindings(b) && WellFormed(condition) && Width(condition) == 1
    ensures WellFormed(IsZero(Substitute(b, condition))) && Width(IsZero(Substitute(b, condition))) == 1
    ensures Eval(IsZero(Substitute(b, condition)), tau) == 1 <==> Eval(condition, Override(b, tau)) != 1
  {
    SubstituteShape(b, condition);
    SubstituteMeaning(b, condition, tau);
    EvalRange(condition, Override(b, tau));
    hide Substitute, Override;
    assert Pow2(1) == 2;
  }

  lemma TestIs(constraints: set<Expr>, condition: Expr, b: Bindings, tested: Expr, accepted: bool)
    requires Evaluates(b, condition, tested) && (accepted <==> May(constraints, tested))
    ensures IsTest(constraints, condition, b, tested, accepted)
  {
  }

  lemma PatchShape(before: Bindings, b: Bindings)
    requires IsBindings(before) && IsBindings(b) && b.Keys == before.Keys
    ensures SameShape(before, b)
  {
  }

  /** The path's constraints and the condition hold with the seed's bytes at the places
      read directly, which decides a flat condition. */
  lemma DirectEnough(constraints: set<Expr>, condition: Expr, before: Bindings, pins: seq<Pin>, required: set<Expr>,
                     b: Bindings, places: set<(Array, nat)>, tested: Expr)
    requires Patching(constraints + {condition}, before, pins, required, b, places)
    requires IsFlat(condition) && Evaluates(b, condition, tested) && places == BoundReads(before, condition)
    ensures May(constraints, tested)
  {
    hide Eval, Required, Evaluates, Resolved, IsFlat, DirectReads, Apply, ArePins, IsBindings;
    RequiredMore(constraints + {condition}, pins);
    var sigma: Assignment :| Sat(required, sigma);
    var tau := Override(b, sigma);
    forall x | x in DirectReads(condition)
      ensures sigma(x.0, x.1) == tau(x.0, x.1)
    {
      if x.0 in b && x.1 < |b[x.0]| { assert x in places; }
    }
    DirectReadsDecide(condition, sigma, tau);
    assert condition in required && Sat(constraints, sigma);
    assert Possible(constraints, condition, b);
    FlatConst(condition);
    ConstIndicesResolved(b, condition);
    TestExact(constraints, condition, b, tested);
  }

  lemma {:induction false} FlatUpdates(u: UpdateNode)
    requires ConstUpdates(u)
    ensures HasConstUpdates(u)
  {
    if u.Node? { FlatUpdates(u.next); }
  }

  lemma {:induction false} FlatConst(e: Expr)
    requires IsFlat(e)
    ensures HasConstIndices(e)
  {
    match e
    case Const(_, _) =>
    case Read(root, u, i) => FlatUpdates(u);
    case Select(c, t, f) => FlatConst(c); FlatConst(t); FlatConst(f);
    case Concat(h, l) => FlatConst(h); FlatConst(l);
    case Extract(s, _, _) => FlatConst(s);
    case ZExt(s, _) => FlatConst(s);
    case SExt(s, _) => FlatConst(s);
    case Binary(_, l, r) => FlatConst(l); FlatConst(r);
    case NotOptimized(s) => FlatConst(s);
  }

  lemma EarlyDone(constraints: set<Expr>, condition: Expr, before: Bindings, pins: seq<Pin>, required: set<Expr>,
                  b: Bindings, places: set<(Array, nat)>, tested: Expr)
    requires IsBindings(before) && Patching(constraints + {condition}, before, pins, required, b, places)
    requires Evaluates(b, condition, tested) && May(constraints, tested) && places == BoundReads(before, condition)
    ensures IsPatch(constraints, condition, before, |pins|, pins, true, b)
    ensures Resolved(b, condition) ==> Possible(constraints, condition, b)
    ensures Resolvable(before, condition) ==> Possible(constraints, condition, b)
  {
    hide Evaluates, Resolved, May, Possible, Eval, Fixed, ArePins, Required, Apply;
    PatchShape(before, b);
    assert pins[..|pins|] == pins;
    if Resolved(b, condition) { TestExact(constraints, condition, b, tested); }
  }

  /** Once every byte is fixed, an assignment of the requirements has the seed's bytes. */
  lemma AllFixed(constraints: set<Expr>, condition: Expr, before: Bindings, direct: nat, pins: seq<Pin>,
                 required: set<Expr>, b: Bindings, places: set<(Array, nat)>)
    requires IsBindings(before) && Patching(constraints + {condition}, before, pins, required, b, places)
    requires forall a, i: nat :: a in b && i < a.size ==> (a, i) in places
    requires direct <= |pins| && PlacesOf(pins[..direct]) == BoundReads(before, condition)
    ensures IsPatch(constraints, condition, before, direct, pins, false, b)
    ensures Holds(constraints, condition, b) && Possible(constraints, condition, b)
  {
    hide Eval, Required, Apply, ArePins;
    PatchShape(before, b);
    RequiredMore(constraints + {condition}, pins);
    var sigma: Assignment :| Sat(required, sigma);
    forall a, i: nat | a in b && i < |b[a]|
      ensures sigma(a, i) == b[a][i]
    {
      assert (a, i) in places;
    }
    assert Agrees(b, sigma) && Sat(constraints + {condition}, sigma);
    HoldsPossible(constraints, condition, b);
  }

  /** A path that can take the condition with the seed's bytes leaves it possible. */
  lemma HoldsPossible(constraints: set<Expr>, condition: Expr, b: Bindings)
    requires Holds(constraints, condition, b)
    ensures Possible(constraints, condition, b)
  {
    hide Eval;
    var sigma: Assignment :| Sat(constraints + {condition}, sigma) && Agrees(b, sigma);
    var tau := Override(b, sigma);
    forall a, i: nat ensures sigma(a, i) == tau(a, i) {}
    SameBytes(condition, sigma, tau);
    assert condition in constraints + {condition} && Sat(constraints, sigma);
  }

  lemma {:induction false} ApplyOutside(before: Bindings, pins: seq<Pin>, a: Array, i: nat)
    requires a in before && i < |before[a]| && (a, i) !in PlacesOf(pins)
    ensures var b := Apply(before, pins); a in b && |b[a]| == |before[a]| && b[a][i] == before[a][i]
    decreases |pins|
  {
    if pins != [] {
      var n := |pins| - 1;
      forall x | x in PlacesOf(pins[..n])
        ensures x in PlacesOf(pins)
      {
        var k :| 0 <= k < n && x == (pins[..n][k].source, pins[..n][k].index);
        assert x == (pins[k].source, pins[k].index);
      }
      assert (pins[n].source, pins[n].index) in PlacesOf(pins);
      ApplyOutside(before, pins[..n], a, i);
    }
  }

  /** A condition that reads only bytes that the path does not tie to the rest of the seed
      leaves a seed that fitted the path fitting it. */
  lemma PathKept(constraints: set<Expr>, condition: Expr, before: Bindings, pins: seq<Pin>, required: set<Expr>,
                 b: Bindings, places: set<(Array, nat)>)
    requires IsBindings(before) && Patching(constraints + {condition}, before, pins, required, b, places)
    requires IsFlat(condition) && places == BoundReads(before, condition)
    requires Separable(constraints, condition, before) && FitsPath(constraints, before)
    ensures Holds(constraints, condition, b)
  {
    hide *;
    PatchingDone(constraints + {condition}, before, pins, required, b, places);
    PatchingFixed(constraints + {condition}, before, pins, required, b, places);
    var sigma := SomeSat(required);
    SatFewer(constraints + {condition}, required, sigma);
    var tau := SomeFit(constraints, before);
    var rho := SomeJoin(constraints, condition, before, sigma, tau);
    JoinedTrue(constraints, condition, before, sigma, tau, rho);
    PatchShape(before, b);
    JoinedAgrees(condition, before, pins, required, b, places, sigma, tau, rho);
    HoldsAt(constraints, condition, b, rho);
  }

  lemma PatchingFixed(base: set<Expr>, before: Bindings, pins: seq<Pin>, required: set<Expr>, b: Bindings,
                      places: set<(Array, nat)>)
    requires Patching(base, before, pins, required, b, places)
    ensures Fixed(required, b, places) && Feasible(required) && base <= required && b.Keys == before.Keys
  {
    hide Fixed, Feasible, Required, Apply, ArePins;
    RequiredMore(base, pins);
  }

  lemma SomeSat(constraints: set<Expr>) returns (sigma: Assignment)
    requires Feasible(constraints)
    ensures Sat(constraints, sigma)
  {
    hide Sat;
    sigma :| Sat(constraints, sigma);
  }

  lemma SomeFit(constraints: set<Expr>, b: Bindings) returns (tau: Assignment)
    requires FitsPath(constraints, b)
    ensures Sat(constraints, tau) && Agrees(b, tau)
  {
    hide Sat, Agrees;
    tau :| Sat(constraints, tau) && Agrees(b, tau);
  }

  lemma SomeJoin(constraints: set<Expr>, condition: Expr, b: Bindings, sigma: Assignment, tau: Assignment)
    returns (rho: Assignment)
    requires Separable(constraints, condition, b) && Sat(constraints + {condition}, sigma) && Sat(constraints, tau)
    ensures Sat(constraints, rho) && Joins(condition, b, sigma, tau, rho)
  {
    hide Sat, Joins;
    rho :| Sat(constraints, rho) && Joins(condition, b, sigma, tau, rho);
  }

  lemma HoldsAt(constraints: set<Expr>, condition: Expr, b: Bindings, rho: Assignment)
    requires Sat(constraints + {condition}, rho) && Agrees(b, rho)
    ensures Holds(constraints, condition, b)
  {
    hide Sat, Agrees;
  }

  lemma SatFewer(few: set<Expr>, many: set<Expr>, sigma: Assignment)
    requires few <= many && Sat(many, sigma)
    ensures Sat(few, sigma)
  {
  }

  lemma JoinedTrue(constraints: set<Expr>, condition: Expr, b: Bindings, sigma: Assignment, tau: Assignment,
                   rho: Assignment)
    requires IsFlat(condition) && Sat(constraints + {condition}, sigma) && Sat(constraints, rho)
    requires Joins(condition, b, sigma, tau, rho)
    ensures Sat(constraints + {condition}, rho)
  {
    hide Eval, IsFlat, DirectReads;
    DirectReadsDecide(condition, rho, sigma);
    assert condition in constraints + {condition};
  }

  lemma JoinedAgrees(condition: Expr, before: Bindings, pins: seq<Pin>, required: set<Expr>, b: Bindings,
                     places: set<(Array, nat)>, sigma: Assignment, tau: Assignment, rho: Assignment)
    requires b == Apply(before, pins) && Fixed(required, b, places) && places == PlacesOf(pins)
    requires places == BoundReads(before, condition) && Sat(required, sigma) && Agrees(before, tau)
    requires Joins(condition, before, sigma, tau, rho) && SameShape(before, b)
    ensures Agrees(b, rho)
  {
    hide Apply, Fixed, Sat, Joins, PlacesOf, BoundReads;
    forall a, i: nat | a in b && i < |b[a]|
      ensures rho(a, i) == b[a][i]
    {
      JoinedByte(condition, before, pins, required, b, places, sigma, tau, rho, a, i);
    }
  }

  lemma KeptEarly(constraints: set<Expr>, condition: Expr, before: Bindings, pins: seq<Pin>, required: set<Expr>,
                  b: Bindings, places: set<(Array, nat)>)
    requires IsBindings(before) && Patching(constraints + {condition}, before, pins, required, b, places)
    requires places == BoundReads(before, condition)
    ensures KeepsPath(constraints, condition, before, b)
  {
    PatchingDone(constraints + {condition}, before, pins, required, b, places);
    hide Patching, Holds, Separable, FitsPath, IsFlat, ArePins, Apply, BoundReads, IsBindings;
    if Holds(constraints, condition, before) { SeedKept(constraints, condition, before, pins); }
    if IsFlat(condition) && Separable(constraints, condition, before) && FitsPath(constraints, before) {
      PathKept(constraints, condition, before, pins, required, b, places);
    }
  }

  lemma KeptAll(constraints: set<Expr>, condition: Expr, before: Bindings, pins: seq<Pin>, b: Bindings)
    requires IsBindings(before) && ArePins(constraints + {condition}, before, pins) && b == Apply(before, pins)
    requires Holds(constraints, condition, b)
    ensures KeepsPath(constraints, condition, before, b)
  {
    hide Holds, Separable, FitsPath, IsFlat, ArePins, Apply, IsBindings;
    if Holds(constraints, condition, before) { SeedKept(constraints, condition, before, pins); }
  }

  lemma JoinedByte(condition: Expr, before: Bindings, pins: seq<Pin>, required: set<Expr>, b: Bindings,
                   places: set<(Array, nat)>, sigma: Assignment, tau: Assignment, rho: Assignment, a: Array, i: nat)
    requires b == Apply(before, pins) && Fixed(required, b, places) && places == PlacesOf(pins)
    requires places == BoundReads(before, condition) && Sat(required, sigma) && Agrees(before, tau)
    requires Joins(condition, before, sigma, tau, rho)
    requires a in before && a in b && i < |b[a]| == |before[a]|
    ensures rho(a, i) == b[a][i]
  {
    hide Sat, DirectReads, Apply;
    if (a, i) in DirectReads(condition) {
      assert (a, i) in places;
    } else {
      ApplyOutside(before, pins, a, i);
    }
  }

  lemma PinsBefore(base: set<Expr>, before: Bindings, pins: seq<Pin>)
    requires pins != [] && ArePins(base, before, pins)
    ensures var init := pins[..|pins| - 1];
            ArePins(base, before, init) && IsPin(Required(base, init), Apply(before, init), pins[|pins| - 1])
  {
    hide IsPin, Required, Apply;
    var init := pins[..|pins| - 1];
    forall k | 0 <= k < |init|
      ensures IsPin(Required(base, init[..k]), Apply(before, init[..k]), init[k])
    {
      assert init[..k] == pins[..k];
    }
  }

  /** Bytes with which the path can take the condition are not changed. */
  lemma {:induction false} PinsKeep(base: set<Expr>, before: Bindings, pins: seq<Pin>, sigma: Assignment)
    requires IsBindings(before) && ArePins(base, before, pins) && Sat(base, sigma) && Agrees(before, sigma)
    ensures Apply(before, pins) == before && Sat(Required(base, pins), sigma)
    decreases |pins|
  {
    if pins != [] {
      var n := |pins| - 1;
      var p, init := pins[n], pins[..n];
      hide IsPin, Sat, SetByte, Agrees, ArePins, IsBindings;
      PinsBefore(base, before, pins);
      PinsKeep(base, before, init, sigma);
      PinKeeps(Required(base, init), before, p, sigma);
    }
  }

  lemma PinKeeps(required: set<Expr>, b: Bindings, p: Pin, sigma: Assignment)
    requires IsBindings(b) && IsPin(required, b, p) && Sat(required, sigma) && Agrees(b, sigma)
    ensures SetByte(b, p) == b && Sat(required + {p.expr}, sigma)
  {
    hide Eval, Preserves, IsByte, ReadOf, Sat, SetByte;
    ByteMeaning(p.source, p.index, p.was, sigma);
    SetSame(b, p);
    ByteSat(required, p.source, p.index, p.now, p.expr, sigma);
  }

  lemma SeedKept(constraints: set<Expr>, condition: Expr, before: Bindings, pins: seq<Pin>)
    requires IsBindings(before) && ArePins(constraints + {condition}, before, pins)
    requires Holds(constraints, condition, before)
    ensures Apply(before, pins) == before
  {
    hide Sat, Agrees, ArePins, Apply;
    var sigma: Assignment :| Sat(constraints + {condition}, sigma) && Agrees(before, sigma);
    PinsKeep(constraints + {condition}, before, pins, sigma);
  }

  lemma PlaceOk(b: Bindings, a: Array, i: nat)
    requires IsBindings(b) && a in b && i < |b[a]|
    ensures a.constants == [] && i < UINT32 && WellFormed(IsByte(a, i, b[a][i]))
  {
    ByteMeaning(a, i, b[a][i], (_, _) => 0);
  }

  lemma PlaceRead(a: Array, i: nat, v: byte)
    requires a.constants == [] && i < UINT32
    ensures WellFormed(IsByte(a, i, v))
  {
    ByteMeaning(a, i, v, (_, _) => 0);
  }

  lemma SeedMeans(required: set<Expr>, a: Array, i: nat, v: byte, isSeed: Expr)
    requires a.constants == [] && i < UINT32 && Preserves(IsByte(a, i, v), isSeed)
    ensures MustNot(required, isSeed) ==> MustNot(required, IsByte(a, i, v))
    ensures !MustNot(required, isSeed) ==> CanBe(required, ReadOf(a, i), v)
  {
    hide Eval, Sat, IsByte, ReadOf;
    if !MustNot(required, isSeed) {
      var sigma: Assignment :| Sat(required, sigma) && Eval(isSeed, sigma) == 1;
      ByteMeaning(a, i, v, sigma);
    }
  }

  lemma ByteValue(required: set<Expr>, a: Array, i: nat, v: nat)
    requires a.constants == [] && i < UINT32 && CanBe(required, ReadOf(a, i), v)
    ensures v < 256
  {
    hide Eval, Sat, IsByte, ReadOf;
    var sigma: Assignment :| Sat(required, sigma) && Eval(ReadOf(a, i), sigma) == v;
    ByteMeaning(a, i, 0, sigma);
  }

  lemma SetSame(b: Bindings, p: Pin)
    requires p.source in b && p.index < |b[p.source]| && b[p.source][p.index] == p.now
    ensures SetByte(b, p) == b
  {
    var bytes: seq<byte> := b[p.source][p.index := p.now];
    assert bytes == b[p.source];
    assert b[p.source := bytes] == b;
  }

  // --------------------------------------------- a seed accepted unpatched

  // The seed binds two bytes of one array; the index of the condition's read is a byte
  // the seed does not bind, and the path keeps it below two.

  const BOUND := Array(0, 2, [])
  const FREE := Array(1, 1, [])
  const SEED: Bindings := map[BOUND := [0, 0]]

  function Index(): Expr { ZExt(ReadOf(FREE, 0), 32) }

  function Limit(): Expr { Binary(Ult, ReadOf(FREE, 0), Const(8, 2)) }

  function Condition(): Expr { Binary(Eq, Read(BOUND, Nil, Index()), Const(8, 7)) }

  lemma IndexIsFree(sigma: Assignment)
    ensures WellFormed(Index()) && Width(Index()) == 32 && Eval(Index(), sigma) == sigma(FREE, 0)
  {
    hide ReadOf;
    ByteMeaning(FREE, 0, 0, sigma);
  }

  lemma LimitMeaning(sigma: Assignment)
    ensures WellFormed(Limit()) && (Eval(Limit(), sigma) == 1 <==> sigma(FREE, 0) < 2)
  {
    hide ReadOf;
    Pow2Values();
    ByteMeaning(FREE, 0, 0, sigma);
    hide Pow2;
  }

  lemma ExampleMeaning(sigma: Assignment)
    ensures WellFormed(Limit()) && WellFormed(Condition()) && Width(Condition()) == 1
    ensures Eval(Limit(), sigma) == 1 <==> sigma(FREE, 0) < 2
    ensures Eval(Condition(), sigma) == 1 <==> sigma(BOUND, sigma(FREE, 0)) == 7
  {
    IndexIsFree(sigma);
    LimitMeaning(sigma);
    Pow2Values();
    hide Index, Limit, Pow2;
    assert Lookup(Some(BOUND), Nil, sigma(FREE, 0), sigma) == sigma(BOUND, sigma(FREE, 0));
  }

  lemma ExamplePartial(sigma: Assignment)
    ensures !Known(SEED, Index()) && Partial(SEED, Index(), sigma) == sigma(FREE, 0)
    ensures Partial(SEED, Condition(), sigma) == 1 <==> sigma(BOUND, sigma(FREE, 0)) == 7
  {
    var e := ReadOf(FREE, 0);
    assert Known(SEED, e.index) && Value(SEED, e.index) == 0;
    assert PartialByte(SEED, FREE, Nil, 0, sigma) == sigma(FREE, 0);
    assert !KnownByte(SEED, FREE, Nil, 0);
    assert Partial(SEED, e, sigma) == sigma(FREE, 0);
    assert Lookup(Some(BOUND), Nil, sigma(FREE, 0), sigma) == sigma(BOUND, sigma(FREE, 0));
  }

  lemma ExampleClear()
    ensures Clear(SEED, Condition())
  {
    ExamplePartial(Zero());
    ExamplePartial((a, i) => 1);
    assert Open(SEED, Index());
    var e := ReadOf(FREE, 0);
    assert Known(SEED, e.index) && ClearByte(SEED, FREE, Nil, Value(SEED, e.index));
    assert Clear(SEED, Index());
  }

  ghost function Witness(): Assignment { (a: Array, i: nat) => if a == FREE then 0 else 7 }

  lemma ExampleImpossible()
    ensures !Possible({Limit()}, Condition(), SEED)
  {
    hide Eval, Limit, Condition, WellFormed, Width;
    forall tau: Assignment | Sat({Limit()}, tau)
      ensures Eval(Condition(), Override(SEED, tau)) != 1
    {
      assert Limit() in {Limit()};
      ExampleMeaning(tau);
      ExampleMeaning(Override(SEED, tau));
    }
  }

  /** The early test accepts this seed as it is, although no assignment of the path gives
      the condition under it. */
  lemma SeedMissed(tested: Expr)
    requires Evaluates(SEED, Condition(), tested)
    ensures May({Limit()}, tested) && Feasible({Limit()} + {Condition()})
    ensures !Possible({Limit()}, Condition(), SEED)
    ensures !Resolved(SEED, Condition())
  {
    var sigma := Witness();
    ExampleMeaning(sigma);
    ExamplePartial(sigma);
    ExampleClear();
    assert Eval(Limit(), sigma) == 1 && Eval(Condition(), sigma) == 1 && Partial(SEED, Condition(), sigma) == 1;
    hide Eval, Partial, Limit, Condition, Clear, Known, Resolved, WellFormed, Width, Override, Possible, Witness;
    assert Eval(tested, sigma) == 1;
    assert Sat({Limit()}, sigma) && Sat({Limit()} + {Condition()}, sigma);
    ExampleImpossible();
    if Resolved(SEED, Condition()) { TestExact({Limit()}, Condition(), SEED, tested); }
  }

  /** So a run of the patch leaves the seed unchanged and reports no failure. */
  method PatchMissed(solver: Solver) returns (seed: SeedInfo)
    requires solver.Sound() && solver.Answers()
    modifies solver`queries
    ensures fresh(seed) && seed.bindings == SEED && !Possible({Limit()}, Condition(), seed.bindings)
  {
    ExampleMeaning(Zero());
    ExampleOk();
    hide *;
    var answered, accepted, tested;
    ghost var direct, pins;
    seed := new SeedInfo(SEED);
    answered, accepted, tested, direct, pins := seed.PatchSeed(solver, {Limit()}, Condition());
    MissedDone(seed.bindings, tested, accepted, direct, pins);
  }

  lemma ExampleOk()
    ensures IsBindings(SEED) && InBounds(DirectReads(Condition())) && BoundReads(SEED, Condition()) == {}
    ensures Feasible({Limit()} + {Condition()})
  {
    ExampleMeaning(Witness());
    assert Sat({Limit()} + {Condition()}, Witness());
    hide Eval, WellFormed, Width;
    assert DirectReads(ReadOf(FREE, 0)) == {(FREE, 0)};
    assert DirectReads(Index()) == {(FREE, 0)};
    assert DirectReads(Condition()) == {(FREE, 0)};
  }

  lemma PlacesNone(pins: seq<Pin>)
    ensures pins != [] ==> PlacesOf(pins) != {}
  {
    if pins != [] { assert (pins[0].source, pins[0].index) in PlacesOf(pins); }
  }

  lemma MissedDone(b: Bindings, tested: Expr, accepted: bool, direct: nat, pins: seq<Pin>)
    requires IsPatch({Limit()}, Condition(), SEED, direct, pins, accepted, b)
    requires IsTest({Limit()}, Condition(), Apply(SEED, pins[..direct]), tested, accepted)
    ensures b == SEED && !Possible({Limit()}, Condition(), b)
  {
    ExampleOk();
    hide Evaluates, Possible, May, Limit, Condition, DirectReads, BoundReads, ArePins, Resolved, Feasible;
    PlacesNone(pins[..direct]);
    SeedMissed(tested);
    assert pins[..direct] == pins == [];
  }

  // ------------------------------------------ a seed that leaves its path

  /** The path keeps two bytes of the seed equal, and the condition asks for one of them. */
  function Equal(): Expr { Binary(Eq, ReadOf(BOUND, 0), ReadOf(BOUND, 1)) }

  function First(): Expr { IsByte(BOUND, 0, 1) }

  lemma EqualMeaning(sigma: Assignment)
    ensures WellFormed(First()) && Width(First()) == 1 && (Eval(First(), sigma) == 1 <==> sigma(BOUND, 0) == 1)
    ensures Eval(Equal(), sigma) == 1 <==> sigma(BOUND, 0) == sigma(BOUND, 1)
  {
    hide ReadOf;
    ByteMeaning(BOUND, 0, 1, sigma);
    ByteMeaning(BOUND, 1, 1, sigma);
  }

  lemma FitsEqual(b: Bindings)
    requires BOUND in b && |b[BOUND]| == 2 && b.Keys == {BOUND}
    ensures FitsPath({Equal()}, b) <==> b[BOUND][0] == b[BOUND][1]
  {
    hide Eval, Equal;
    var own: Assignment := Override(b, Zero());
    EqualMeaning(own);
    assert Sat({Equal()}, own) <==> own(BOUND, 0) == own(BOUND, 1);
    forall sigma: Assignment | Sat({Equal()}, sigma) && Agrees(b, sigma)
      ensures b[BOUND][0] == b[BOUND][1]
    {
      EqualMeaning(sigma);
      assert Equal() in {Equal()};
    }
  }

  lemma BrokenOk()
    ensures IsBindings(SEED) && IsFlat(First()) && DirectReads(First()) == {(BOUND, 0)}
    ensures InBounds(DirectReads(First())) && BoundReads(SEED, First()) == {(BOUND, 0)}
    ensures Feasible({Equal()} + {First()})
  {
    var sigma: Assignment := (a: Array, i: nat) => 1;
    EqualMeaning(sigma);
    assert Sat({Equal()} + {First()}, sigma);
    hide Eval, WellFormed, Width;
  }

  lemma BrokenDone(b: Bindings, accepted: bool, direct: nat, pins: seq<Pin>)
    requires IsPatch({Equal()}, First(), SEED, direct, pins, accepted, b) && accepted
    requires Possible({Equal()}, First(), b)
    ensures b == map[BOUND := [1, 0]]
  {
    hide Eval, Equal, First, ArePins, IsBindings, WellFormed, Width, Apply;
    BrokenOk();
    assert pins[..direct] == pins;
    assert (BOUND, 1) !in PlacesOf(pins);
    ApplyOutside(SEED, pins, BOUND, 1);
    var sigma: Assignment :| Sat({Equal()}, sigma) && Eval(First(), Override(b, sigma)) == 1;
    EqualMeaning(Override(b, sigma));
    assert b[BOUND] == [1, 0];
  }

  /** So a patched seed may contradict the path, although it fitted it before. */
  method PatchBroken(solver: Solver) returns (seed: SeedInfo)
    requires solver.Sound() && solver.Answers()
    modifies solver`queries
    ensures FitsPath({Equal()}, SEED)
    ensures fresh(seed) && seed.bindings == map[BOUND := [1, 0]] && !FitsPath({Equal()}, seed.bindings)
  {
    hide *;
    BrokenOk();
    EqualMeaning(Zero());
    FlatConst(First());
    ghost var final: Bindings := map[BOUND := [1, 0]];
    BrokenFits();
    var answered, accepted, tested;
    ghost var direct, pins;
    seed := new SeedInfo(SEED);
    answered, accepted, tested, direct, pins := seed.PatchSeed(solver, {Equal()}, First());
    ConstIndicesResolved(seed.bindings, First());
    BrokenDone(seed.bindings, accepted, direct, pins);
  }

  lemma BrokenFits()
    ensures FitsPath({Equal()}, SEED) && !FitsPath({Equal()}, map[BOUND := [1, 0]])
  {
    hide FitsPath, Equal;
    FitsEqual(SEED);
    FitsEqual(map[BOUND := [1, 0]]);
  }
}
