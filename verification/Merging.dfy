/**
 Merging two states that stopped at the same instruction into the first one.
 Registers and changed memory become selections on the part of the path that is
 the first state's own.
 */
module Merging {
  import opened Arithmetic
  import opened Exprs
  import opened ByteOrder
  import opened ObjectStates
  import opened AddressSpaces
  import opened Solvers
  import R = MemoryRuns

  // ------------------------------------------------------ path conditions

  ghost predicate AreConditions(cs: set<Expr>) {
    forall c :: c in cs ==> WellFormed(c) && Width(c) == 1
  }

  ghost predicate Means(e: Expr, cs: set<Expr>) {
    WellFormed(e) && Width(e) == 1 && forall sigma: Assignment :: Eval(e, sigma) == 1 <==> Sat(cs, sigma)
  }

  lemma AndMeaning(a: Expr, b: Expr, sigma: Assignment)
    requires WellFormed(a) && WellFormed(b) && Width(a) == 1 && Width(b) == 1
    ensures WellFormed(Binary(And, a, b)) && Width(Binary(And, a, b)) == 1
    ensures WellFormed(Binary(Or, a, b)) && Width(Binary(Or, a, b)) == 1
    ensures Eval(Binary(And, a, b), sigma) == 1 <==> Eval(a, sigma) == 1 && Eval(b, sigma) == 1
    ensures Eval(Binary(Or, a, b), sigma) == 1 <==> Eval(a, sigma) == 1 || Eval(b, sigma) == 1
  {
    EvalRange(a, sigma);
    EvalRange(b, sigma);
    OneBit(Eval(a, sigma), Eval(b, sigma));
    assert Pow2(1) == 2;
    hide BitAnd, BitOr, BitXor, Pow2;
  }

  lemma OneBit(a: nat, b: nat)
    requires a < 2 && b < 2
    ensures BitAnd(1, a, b) == 1 <==> a == 1 && b == 1
    ensures BitOr(1, a, b) == 1 <==> a == 1 || b == 1
  {
    assert BitAnd(0, a / 2, b / 2) == 0 && BitOr(0, a / 2, b / 2) == 0;
  }

  lemma ConjoinOne(e: Expr, cs: set<Expr>, c: Expr, r: Expr)
    requires Means(e, cs) && WellFormed(c) && Width(c) == 1 && Preserves(Binary(And, e, c), r)
    ensures Means(r, cs + {c})
  {
    hide Eval, WellFormed, Width;
    AndMeaning(e, c, (_, _) => 0);
    forall sigma: Assignment
      ensures Eval(r, sigma) == 1 <==> Sat(cs + {c}, sigma)
    {
      AndMeaning(e, c, sigma);
    }
  }

  /** The conjunction of a set of conditions. */
  method Conjunction(cs: set<Expr>) returns (e: Expr)
    requires AreConditions(cs)
    ensures Means(e, cs)
  {
    e := Const(1, 1);
    assert Pow2(1) == 2;
    var rest := cs;
    ghost var done: set<Expr> := {};
    assert Means(e, done);
    hide Means, WellFormed, Width, Preserves;
    while rest != {}
      invariant done + rest == cs && done !! rest && Means(e, done)
      decreases rest
    {
      var c :| c in rest;
      AndOk(e, done, c);
      var r := Create(Binary(And, e, c));
      ConjoinOne(e, done, c, r);
      e, rest, done := r, rest - {c}, done + {c};
    }
    assert done == cs;
  }

  lemma AndOk(e: Expr, cs: set<Expr>, c: Expr)
    requires Means(e, cs) && WellFormed(c) && Width(c) == 1
    ensures WellFormed(Binary(And, e, c))
  {
  }

  /** What the merged constraints mean. */
  lemma MergedPath(a: set<Expr>, b: set<Expr>, inA: Expr, inB: Expr, either: Expr)
    requires Means(inA, a - a * b) && Means(inB, b - a * b) && Preserves(Binary(Or, inA, inB), either)
    ensures forall sigma: Assignment :: Sat(a * b + {either}, sigma) <==> Sat(a, sigma) || Sat(b, sigma)
    ensures forall sigma: Assignment :: Sat(a, sigma) ==> Eval(inA, sigma) == 1
    ensures forall sigma: Assignment :: Sat(b, sigma) && !Sat(a, sigma) ==> Eval(inA, sigma) != 1
  {
    hide Eval, WellFormed, Width;
    forall sigma: Assignment
      ensures Sat(a * b + {either}, sigma) <==> Sat(a, sigma) || Sat(b, sigma)
      ensures Sat(a, sigma) ==> Eval(inA, sigma) == 1
      ensures Sat(b, sigma) && !Sat(a, sigma) ==> Eval(inA, sigma) != 1
    {
      AndMeaning(inA, inB, sigma);
      SatSplit(a, a * b, sigma);
      SatSplit(b, a * b, sigma);
      assert Sat(a * b + {either}, sigma) <==> Sat(a * b, sigma) && Eval(either, sigma) == 1;
    }
  }

  lemma SatSplit(a: set<Expr>, common: set<Expr>, sigma: Assignment)
    requires common <= a
    ensures Sat(a, sigma) <==> Sat(common, sigma) && Sat(a - common, sigma)
  {
    hide Eval;
  }

  // --------------------------------------------------------------- choices

  /** The expression r is a on the first state's own path and b elsewhere. */
  ghost predicate Chooses(inA: Expr, a: Expr, b: Expr, r: Expr) {
    WellFormed(r) && Width(r) == Width(a) &&
    forall sigma: Assignment :: Eval(r, sigma) == if Eval(inA, sigma) == 1 then Eval(a, sigma) else Eval(b, sigma)
  }

  method Choose(inA: Expr, a: Expr, b: Expr) returns (r: Expr)
    requires WellFormed(inA) && Width(inA) == 1 && WellFormed(a) && WellFormed(b) && Width(a) == Width(b)
    ensures Chooses(inA, a, b, r)
  {
    r := Create(Select(inA, a, b));
  }

  datatype Frame = Frame(caller: nat, function_: nat, locals: seq<Option<Expr>>)

  /** A register set on both sides chooses; any other is left alone. */
  ghost predicate MergedLocals(inA: Expr, a: seq<Option<Expr>>, b: seq<Option<Expr>>, r: seq<Option<Expr>>) {
    |r| == |a| == |b| &&
    forall i :: 0 <= i < |r| ==>
      if a[i].Some? && b[i].Some? then r[i].Some? && Chooses(inA, a[i].value, b[i].value, r[i].value)
      else r[i] == a[i]
  }

  /** Registers of the same number hold values of the same width. */
  ghost predicate Alike(a: seq<Option<Expr>>, b: seq<Option<Expr>>) {
    |a| == |b| &&
    forall i :: 0 <= i < |a| && a[i].Some? && b[i].Some? ==>
      WellFormed(a[i].value) && WellFormed(b[i].value) && Width(a[i].value) == Width(b[i].value)
  }

  method MergeLocals(inA: Expr, a: seq<Option<Expr>>, b: seq<Option<Expr>>) returns (r: seq<Option<Expr>>)
    requires WellFormed(inA) && Width(inA) == 1 && Alike(a, b)
    ensures MergedLocals(inA, a, b, r)
  {
    hide Chooses, WellFormed, Width;
    r := a;
    for i := 0 to |a|
      invariant |r| == |a|
      invariant forall j :: i <= j < |a| ==> r[j] == a[j]
      invariant forall j :: 0 <= j < i ==>
                  if a[j].Some? && b[j].Some? then r[j].Some? && Chooses(inA, a[j].value, b[j].value, r[j].value)
                  else r[j] == a[j]
    {
      if a[i].Some? && b[i].Some? {
        var v := Choose(inA, a[i].value, b[i].value);
        r := r[i := Some(v)];
      }
    }
  }

  /** The bytes below k have been merged. */
  ghost predicate MergedBytes(inA: Expr, a: seq<Expr>, b: seq<Expr>, k: nat, r: seq<Expr>) {
    |r| == |a| == |b| &&
    forall j, sigma: Assignment :: 0 <= j < |r| ==>
      Eval(r[j], sigma) == if j < k && Eval(inA, sigma) != 1 then Eval(b[j], sigma) else Eval(a[j], sigma)
  }

  function At(k: nat): Expr { Const(32, k) }

  lemma AtMeaning(k: nat, size: nat)
    requires k < size < UINT32
    ensures WellFormed(At(k)) && Width(At(k)) == 32 && Resize(At(k), 32) == At(k)
    ensures forall sigma: Assignment :: Eval(At(k), sigma) == k
    ensures exists sigma: Assignment :: Eval(At(k), sigma) + NumBytes(8) <= size
  {
    Const32(k);
    assert Eval(At(k), (_, _) => 0) + NumBytes(8) <= size;
  }

  lemma LoadByte(bytes: seq<Expr>, k: nat, littleEndian: bool)
    requires k < |bytes|
    ensures NumBytes(8) == 1 && IsAccessWidth(8) && Load(bytes, k, 8, littleEndian) == bytes[k]
  {
    assert ByteIndex(littleEndian, 1, 0) == 0;
  }

  lemma ByteParts(v: Expr)
    requires WellFormed(v) && Width(v) == 8
    ensures IsBytes(Parts(v)) && |Parts(v)| == 1
  {
    hide Eval, WellFormed, IsBytes;
    assert IsAccessWidth(Width(v));
    PartsAreBytes(v);
  }

  lemma StoredElsewhere(r: seq<Expr>, k: nat, parts: seq<Expr>, littleEndian: bool, j: nat)
    requires k < |r| && |parts| == 1 && j < |r| && j != k
    ensures Store(r, k, parts, littleEndian)[j] == r[j]
  {
  }

  lemma StoreOneByte(r: seq<Expr>, k: nat, v: Expr, littleEndian: bool, j: nat, sigma: Assignment)
    requires k < |r| < UINT32 && IsBytes(r) && WellFormed(v) && Width(v) == 8 && j < |r|
    ensures Eval(StoreAt(r, Resize(At(k), 32), Parts(v), littleEndian)[j], sigma)
            == if j == k then Eval(v, sigma) else Eval(r[j], sigma)
  {
    hide Eval, WellFormed, Width, At, Resize, Parts, StoreAt, IsBytes, Store, IsAccessWidth;
    AtMeaning(k, |r|);
    ByteParts(v);
    WholeByte(v, sigma);
    StoreAtMeaning(r, At(k), Parts(v), littleEndian, sigma);
    if j == k {
      StoredPart(r, k, Parts(v), 0, littleEndian);
    } else {
      StoredElsewhere(r, k, Parts(v), littleEndian, j);
    }
  }

  /** One byte is replaced by its merged value. */
  lemma MergeByte(inA: Expr, a: seq<Expr>, b: seq<Expr>, k: nat, r: seq<Expr>, av: Expr, bv: Expr, v: Expr,
                  littleEndian: bool)
    requires MergedBytes(inA, a, b, k, r) && k < |r| < UINT32 && IsBytes(r)
    requires SameMeaning(av, r[k]) && SameMeaning(bv, b[k]) && Width(av) == 8 && Chooses(inA, av, bv, v)
    ensures MergedBytes(inA, a, b, k + 1, StoreAt(r, Resize(At(k), 32), Parts(v), littleEndian))
  {
    hide Eval, WellFormed, Width, At, Resize, Parts, StoreAt, IsBytes;
    var r' := StoreAt(r, Resize(At(k), 32), Parts(v), littleEndian);
    forall j, sigma: Assignment | 0 <= j < |r|
      ensures Eval(r'[j], sigma) == if j < k + 1 && Eval(inA, sigma) != 1 then Eval(b[j], sigma) else Eval(a[j], sigma)
    {
      StoreOneByte(r, k, v, littleEndian, j, sigma);
      assert Eval(av, sigma) == Eval(r[k], sigma) && Eval(bv, sigma) == Eval(b[k], sigma);
      assert Eval(v, sigma) == if Eval(inA, sigma) == 1 then Eval(av, sigma) else Eval(bv, sigma);
    }
  }

  lemma WholeByte(v: Expr, sigma: Assignment)
    requires WellFormed(v) && Width(v) == 8
    ensures |Parts(v)| == 1 && Eval(Parts(v)[0], sigma) == Eval(v, sigma)
  {
    EvalRange(v, sigma);
    PartMeaning(v, 0, sigma);
    Pow2Values();
    assert Pow2(0) == 1;
    hide Eval, Parts, WellFormed, Width, Pow2;
  }

  // ---------------------------------------------------------------- memory

  lemma ByteRead(ms: seq<Memory>, k: nat, mo: MemoryObject, i: nat, littleEndian: bool, r: Expr)
    requires k < |ms| && mo in ms[k] && i < |ms[k][mo].bytes| < UINT32 && IsAccessWidth(8)
    requires R.ReadGives(ms, R.Read(k, mo, At(i), 8), littleEndian, r)
    ensures WellFormed(r) && Width(r) == 8 && SameMeaning(r, ms[k][mo].bytes[i])
  {
    var bytes := ms[k][mo].bytes;
    AtMeaning(i, |bytes|);
    LoadByte(bytes, i, littleEndian);
    hide Eval, WellFormed, Width, At, Load;
  }

  /** Merges one object of space ia with the same object of space ib. */
  method MergeObject(spaces: seq<AddressSpace>, ia: nat, ib: nat, mo: MemoryObject, inA: Expr, littleEndian: bool,
                     ghost g: R.Shadow)
    returns (ghost g': R.Shadow)
    requires R.InStep(spaces, g) && ia < |g.ms| && ib < |g.ms| && ia != ib
    requires mo in g.ms[ia] && mo in g.ms[ib] && !g.ms[ia][mo].readOnly
    requires WellFormed(inA) && Width(inA) == 1
    modifies g.repr
    ensures R.InStep(spaces, g') && fresh(g'.repr - g.repr) && g'.epochs == g.epochs
    ensures Touched(g.ms, ia, mo, g'.ms)
    ensures MergedBytes(inA, g.ms[ia][mo].bytes, g.ms[ib][mo].bytes, mo.size, g'.ms[ia][mo].bytes)
  {
    hide *;
    g' := g;
    R.Sizes(spaces, g, ia, mo);
    R.Sizes(spaces, g, ib, mo);
    TouchedNot(g.ms, ia, mo);
    MergedNone(inA, g.ms[ia][mo].bytes, g.ms[ib][mo].bytes);
    for i := 0 to mo.size
      invariant R.InStep(spaces, g') && fresh(g'.repr - g.repr) && g'.epochs == g.epochs
      invariant Touched(g.ms, ia, mo, g'.ms)
      invariant |g'.ms| == |g.ms| && mo in g'.ms[ia]
      invariant MergedBytes(inA, g.ms[ia][mo].bytes, g.ms[ib][mo].bytes, i, g'.ms[ia][mo].bytes)
    {
      TouchedParts(g.ms, ia, mo, g'.ms);
      R.Sizes(spaces, g', ia, mo);
      AtMeaning(i, mo.size);
      LegalBytes(g'.ms, ia, ib, mo, i);
      var av := R.DoRead(spaces, R.Read(ia, mo, At(i), 8), littleEndian, g');
      var bv := R.DoRead(spaces, R.Read(ib, mo, At(i), 8), littleEndian, g');
      ByteRead(g'.ms, ia, mo, i, littleEndian, av);
      ByteRead(g'.ms, ib, mo, i, littleEndian, bv);
      var v := Choose(inA, av, bv);
      ChosenByte(inA, av, bv, v);
      LegalWrite(g'.ms, ia, mo, i, v);
      MergeByte(inA, g.ms[ia][mo].bytes, g.ms[ib][mo].bytes, i, g'.ms[ia][mo].bytes, av, bv, v, littleEndian);
      WriteShape(g.ms, g'.ms, ia, mo, i, v, littleEndian);
      g' := R.DoWrite(spaces, R.Write(ia, mo, At(i), v), littleEndian, g');
    }
  }

  /** Only the contents of one object of one memory differ, and it is still writable. */
  ghost predicate Touched(ms: seq<Memory>, ia: nat, mo: MemoryObject, ms': seq<Memory>)
    ensures Touched(ms, ia, mo, ms') ==> ia < |ms| == |ms'| && mo in ms[ia] && mo in ms'[ia]
  {
    && ia < |ms| == |ms'| && mo in ms[ia] && mo in ms'[ia] && !ms'[ia][mo].readOnly
    && ms' == ms[ia := ms[ia][mo := ms'[ia][mo]]]
  }

  lemma TouchedNot(ms: seq<Memory>, ia: nat, mo: MemoryObject)
    requires ia < |ms| && mo in ms[ia] && !ms[ia][mo].readOnly
    ensures Touched(ms, ia, mo, ms)
  {
    assert ms[ia][mo := ms[ia][mo]] == ms[ia];
  }

  lemma TouchedParts(ms: seq<Memory>, ia: nat, mo: MemoryObject, ms': seq<Memory>)
    requires Touched(ms, ia, mo, ms')
    ensures |ms'| == |ms| && mo in ms'[ia] && !ms'[ia][mo].readOnly
    ensures forall i :: 0 <= i < |ms| && i != ia ==> ms'[i] == ms[i]
  {
  }

  lemma MergedNone(inA: Expr, a: seq<Expr>, b: seq<Expr>)
    requires |a| == |b|
    ensures MergedBytes(inA, a, b, 0, a)
  {
    hide Eval;
  }

  lemma LegalBytes(ms: seq<Memory>, ia: nat, ib: nat, mo: MemoryObject, i: nat)
    requires ia < |ms| && ib < |ms| && mo in ms[ia] && mo in ms[ib] && i < mo.size < UINT32
    ensures R.Legal(ms, R.Read(ia, mo, At(i), 8)) && R.Legal(ms, R.Read(ib, mo, At(i), 8)) && IsAccessWidth(8)
  {
    AtMeaning(i, mo.size);
    hide Eval, WellFormed, Width, At;
  }

  lemma ChosenByte(inA: Expr, av: Expr, bv: Expr, v: Expr)
    requires Chooses(inA, av, bv, v) && Width(av) == 8
    ensures WellFormed(v) && Width(v) == 8
  {
  }

  lemma LegalWrite(ms: seq<Memory>, ia: nat, mo: MemoryObject, i: nat, v: Expr)
    requires ia < |ms| && mo in ms[ia] && !ms[ia][mo].readOnly && i < mo.size < UINT32
    requires WellFormed(v) && Width(v) == 8
    ensures R.Legal(ms, R.Write(ia, mo, At(i), v))
  {
    AtMeaning(i, mo.size);
    hide Eval, WellFormed, Width, At;
  }

  lemma WriteShape(ms0: seq<Memory>, ms: seq<Memory>, ia: nat, mo: MemoryObject, i: nat, v: Expr, littleEndian: bool)
    requires Touched(ms0, ia, mo, ms)
    ensures var ms' := R.DeepStep(ms, R.Write(ia, mo, At(i), v), littleEndian);
            Touched(ms0, ia, mo, ms') &&
            ms'[ia][mo].bytes == StoreAt(ms[ia][mo].bytes, Resize(At(i), 32), Parts(v), littleEndian)
  {
    hide At, Resize, StoreAt, Parts;
    var ms' := R.DeepStep(ms, R.Write(ia, mo, At(i), v), littleEndian);
    assert ms'[ia] == ms0[ia][mo := ms'[ia][mo]];
  }

  // ------------------------------------------------------------ whole states

  predicate MergeableStacks(a: seq<Frame>, b: seq<Frame>) {
    |a| == |b| && forall f :: 0 <= f < |a| ==> a[f].caller == b[f].caller && a[f].function_ == b[f].function_
  }

  ghost predicate MergedStack(inA: Expr, a: seq<Frame>, b: seq<Frame>, r: seq<Frame>) {
    |r| == |a| == |b| &&
    forall f :: 0 <= f < |r| ==>
      r[f].caller == a[f].caller && r[f].function_ == a[f].function_ &&
      MergedLocals(inA, a[f].locals, b[f].locals, r[f].locals)
  }

  /** Memory is merged object by object; objects outside the list are the first state's. */
  ghost predicate MergedMemory(inA: Expr, a: Memory, b: Memory, mutated: seq<MemoryObject>, r: Memory) {
    r.Keys == a.Keys == b.Keys &&
    forall mo :: mo in r ==>
      if mo in mutated then MergedBytes(inA, a[mo].bytes, b[mo].bytes, mo.size, r[mo].bytes)
      else r[mo] == a[mo]
  }

  // What a state sees under one assignment.

  /** Every register set in both states has the value it has in x. */
  ghost predicate StackReads(r: seq<Frame>, a: seq<Frame>, b: seq<Frame>, x: seq<Frame>, sigma: Assignment) {
    |r| == |a| == |b| == |x| &&
    forall f :: 0 <= f < |r| ==>
      |r[f].locals| == |a[f].locals| == |b[f].locals| == |x[f].locals| &&
      forall i :: 0 <= i < |r[f].locals| && a[f].locals[i].Some? && b[f].locals[i].Some? ==>
        r[f].locals[i].Some? && x[f].locals[i].Some? &&
        Eval(r[f].locals[i].value, sigma) == Eval(x[f].locals[i].value, sigma)
  }

  /** Every byte of memory has the value it has in x. */
  ghost predicate MemoryReads(r: Memory, x: Memory, sigma: Assignment) {
    r.Keys == x.Keys &&
    forall mo :: mo in r ==>
      |r[mo].bytes| == |x[mo].bytes| &&
      forall j :: 0 <= j < |r[mo].bytes| ==> Eval(r[mo].bytes[j], sigma) == Eval(x[mo].bytes[j], sigma)
  }

  /** The frames are the first state's, and so is every register that one state has not set. */
  ghost predicate KeepsFrames(a: seq<Frame>, b: seq<Frame>, r: seq<Frame>) {
    |r| == |a| == |b| &&
    forall f :: 0 <= f < |r| ==>
      r[f].caller == a[f].caller && r[f].function_ == a[f].function_ &&
      |r[f].locals| == |a[f].locals| == |b[f].locals| &&
      forall i :: 0 <= i < |r[f].locals| && (a[f].locals[i].None? || b[f].locals[i].None?) ==>
        r[f].locals[i] == a[f].locals[i]
  }

  lemma FramesKept(inA: Expr, a: seq<Frame>, b: seq<Frame>, r: seq<Frame>)
    requires MergedStack(inA, a, b, r)
    ensures KeepsFrames(a, b, r)
  {
    hide Eval, WellFormed, Width, Chooses;
  }

  lemma StackOnA(inA: Expr, a: seq<Frame>, b: seq<Frame>, r: seq<Frame>, sigma: Assignment)
    requires MergedStack(inA, a, b, r) && Eval(inA, sigma) == 1
    ensures StackReads(r, a, b, a, sigma)
  {
    hide Eval, WellFormed, Width;
  }

  lemma StackOnB(inA: Expr, a: seq<Frame>, b: seq<Frame>, r: seq<Frame>, sigma: Assignment)
    requires MergedStack(inA, a, b, r) && Eval(inA, sigma) != 1
    ensures StackReads(r, a, b, b, sigma)
  {
    hide Eval, WellFormed, Width;
  }

  lemma MemoryOnA(inA: Expr, a: Memory, b: Memory, mutated: seq<MemoryObject>, r: Memory, sigma: Assignment)
    requires MergedMemory(inA, a, b, mutated, r) && Eval(inA, sigma) == 1
    requires forall mo :: mo in a ==> |a[mo].bytes| == mo.size
    ensures MemoryReads(r, a, sigma)
  {
    hide Eval;
  }

  lemma MemoryOnB(inA: Expr, a: Memory, b: Memory, mutated: seq<MemoryObject>, r: Memory, sigma: Assignment)
    requires MergedMemory(inA, a, b, mutated, r) && Eval(inA, sigma) != 1
    requires forall mo :: mo in a ==> |a[mo].bytes| == mo.size
    requires forall mo :: mo in a && mo in b && mo !in mutated ==> a[mo].bytes == b[mo].bytes
    ensures MemoryReads(r, b, sigma)
  {
    hide Eval;
  }

  /** The merged state stands for both: its path is the union of theirs, and on each
      of the two paths it reads as that state did. */
  ghost predicate StandsForBoth(ca: set<Expr>, sa: seq<Frame>, ma: Memory, cb: set<Expr>, sb: seq<Frame>, mb: Memory,
                                c: set<Expr>, s: seq<Frame>, m: Memory)
  {
    && (forall sigma: Assignment :: Sat(c, sigma) <==> Sat(ca, sigma) || Sat(cb, sigma))
    && (forall sigma: Assignment :: Sat(ca, sigma) ==> StackReads(s, sa, sb, sa, sigma) && MemoryReads(m, ma, sigma))
    && (forall sigma: Assignment :: Sat(cb, sigma) && !Sat(ca, sigma) ==>
          StackReads(s, sa, sb, sb, sigma) && MemoryReads(m, mb, sigma))
  }

  lemma Stands(ca: set<Expr>, sa: seq<Frame>, ma: Memory, cb: set<Expr>, sb: seq<Frame>, mb: Memory, inA: Expr,
               inB: Expr, either: Expr, s: seq<Frame>, m: Memory, mutated: seq<MemoryObject>)
    requires Means(inA, ca - ca * cb) && Means(inB, cb - ca * cb) && Preserves(Binary(Or, inA, inB), either)
    requires MergedStack(inA, sa, sb, s) && MergedMemory(inA, ma, mb, mutated, m)
    requires forall mo :: mo in ma ==> |ma[mo].bytes| == mo.size
    requires forall mo :: mo in ma && mo in mb && mo !in mutated ==> ma[mo].bytes == mb[mo].bytes
    ensures StandsForBoth(ca, sa, ma, cb, sb, mb, ca * cb + {either}, s, m)
  {
    hide Eval, Sat, MergedStack, MergedMemory, StackReads, MemoryReads, Means, Preserves;
    MergedPath(ca, cb, inA, inB, either);
    forall sigma: Assignment | Sat(ca, sigma)
      ensures StackReads(s, sa, sb, sa, sigma) && MemoryReads(m, ma, sigma)
    {
      StackOnA(inA, sa, sb, s, sigma);
      MemoryOnA(inA, ma, mb, mutated, m, sigma);
    }
    forall sigma: Assignment | Sat(cb, sigma) && !Sat(ca, sigma)
      ensures StackReads(s, sa, sb, sb, sigma) && MemoryReads(m, mb, sigma)
    {
      StackOnB(inA, sa, sb, s, sigma);
      MemoryOnB(inA, ma, mb, mutated, m, sigma);
    }
  }

  class ExecutionState {
    var pc: nat
    var symbolics: seq<(MemoryObject, Array)>
    var stack: seq<Frame>
    var constraints: set<Expr>

    method MergeStack(b: ExecutionState, inA: Expr)
      requires WellFormed(inA) && Width(inA) == 1 && |stack| == |b.stack| && this != b
      requires forall f :: 0 <= f < |stack| ==> Alike(stack[f].locals, b.stack[f].locals)
      modifies this`stack
      ensures MergedStack(inA, old(stack), b.stack, stack)
    {
      hide MergedLocals, WellFormed, Width, Alike;
      for f := 0 to |stack|
        invariant |stack| == |old(stack)|
        invariant forall i :: f <= i < |stack| ==> stack[i] == old(stack)[i]
        invariant forall i :: 0 <= i < f ==>
                    stack[i].caller == old(stack)[i].caller && stack[i].function_ == old(stack)[i].function_ &&
                    MergedLocals(inA, old(stack)[i].locals, b.stack[i].locals, stack[i].locals)
      {
        var locals := MergeLocals(inA, stack[f].locals, b.stack[f].locals);
        stack := stack[f := stack[f].(locals := locals)];
      }
    }

    /** Merges b into this state. Space ia is this state's memory and space ib is b's;
        order lists the objects of space ia. */
    method Merge(b: ExecutionState, spaces: seq<AddressSpace>, ia: nat, ib: nat, order: seq<MemoryObject>,
                 littleEndian: bool, ghost g: R.Shadow)
      returns (ok: bool, ghost g': R.Shadow)
      requires this != b && R.InStep(spaces, g) && ia < |g.ms| && ib < |g.ms| && ia != ib
      requires this !in g.repr && b !in g.repr
      requires (forall mo :: mo in order <==> mo in g.ms[ia]) && NoDuplicates(order)
      requires AreConditions(constraints) && AreConditions(b.constraints)
      requires forall f :: 0 <= f < |stack| && f < |b.stack| && stack[f].function_ == b.stack[f].function_ ==>
                 Alike(stack[f].locals, b.stack[f].locals)
      requires MutatedWritable(spaces, ia, ib, g)
      modifies this`stack, this`constraints, g.repr
      ensures R.InStep(spaces, g') && fresh(g'.repr - g.repr) && g'.epochs == g.epochs && |g'.ms| == |g.ms|
      ensures ok <==> pc == b.pc && symbolics == b.symbolics && MergeableStacks(old(stack), b.stack) &&
                      g.ms[ia].Keys == g.ms[ib].Keys
      ensures !ok ==> stack == old(stack) && constraints == old(constraints) && g' == g
      ensures forall i :: 0 <= i < |g.ms| && i != ia ==> g'.ms[i] == g.ms[i]
      ensures ok ==>
                StandsForBoth(old(constraints), old(stack), g.ms[ia], b.constraints, b.stack, g.ms[ib],
                              constraints, stack, g'.ms[ia])
      ensures ok ==> KeepsFrames(old(stack), b.stack, stack)
    {
      hide *;
      g' := g;
      AllSizes(spaces, g, ia);
      if pc != b.pc || symbolics != b.symbolics { return false, g; }
      var same := SameFrames(stack, b.stack);
      if !same { return false, g; }
      AllAlike(stack, b.stack);
      var bound, mutated := FindMutated(spaces, ia, ib, order, g);
      if !bound { return false, g; }
      var ca, cb := constraints, b.constraints;
      Suffixes(ca, cb);
      var inA := Conjunction(ca - ca * cb);
      var inB := Conjunction(cb - ca * cb);
      MeansParts(inA, ca - ca * cb);
      MergeStack(b, inA);
      g' := MergeObjects(spaces, ia, ib, mutated, inA, littleEndian, g);
      OrOk(inA, inB, ca - ca * cb, cb - ca * cb);
      var either := Create(Binary(Or, inA, inB));
      constraints := ca * cb + {either};
      Stands(ca, old(stack), g.ms[ia], cb, b.stack, g.ms[ib], inA, inB, either, stack, g'.ms[ia], mutated);
      FramesKept(inA, old(stack), b.stack, stack);
      ok := true;
    }
  }

  predicate NoDuplicates(order: seq<MemoryObject>) {
    forall i, j :: 0 <= i < j < |order| ==> order[i] != order[j]
  }

  /** An object whose states differ is not read only. */
  ghost predicate MutatedWritable(spaces: seq<AddressSpace>, ia: nat, ib: nat, g: R.Shadow)
    reads spaces
  {
    && ia < |spaces| && ib < |spaces| && ia < |g.ms|
    && forall mo | mo in spaces[ia].objects && mo in spaces[ib].objects && mo in g.ms[ia] ::
         spaces[ia].objects[mo] != spaces[ib].objects[mo] ==> !g.ms[ia][mo].readOnly
  }

  method SameFrames(a: seq<Frame>, b: seq<Frame>) returns (same: bool)
    ensures same <==> MergeableStacks(a, b)
  {
    var f := 0;
    while f < |a| && f < |b|
      invariant f <= |a| && f <= |b|
      invariant forall i :: 0 <= i < f ==> a[i].caller == b[i].caller && a[i].function_ == b[i].function_
    {
      if a[f].caller != b[f].caller || a[f].function_ != b[f].function_ { return false; }
      f := f + 1;
    }
    same := f == |a| && f == |b|;
  }

  lemma AllAlike(a: seq<Frame>, b: seq<Frame>)
    requires MergeableStacks(a, b)
    requires forall f :: 0 <= f < |a| && f < |b| && a[f].function_ == b[f].function_ ==> Alike(a[f].locals, b[f].locals)
    ensures |a| == |b| && forall f :: 0 <= f < |a| ==> Alike(a[f].locals, b[f].locals)
  {
    hide Alike;
  }

  lemma Suffixes(a: set<Expr>, b: set<Expr>)
    requires AreConditions(a) && AreConditions(b)
    ensures AreConditions(a - a * b) && AreConditions(b - a * b)
  {
    hide WellFormed, Width;
  }

  lemma MeansParts(e: Expr, cs: set<Expr>)
    requires Means(e, cs)
    ensures WellFormed(e) && Width(e) == 1
  {
  }

  lemma OrOk(inA: Expr, inB: Expr, a: set<Expr>, b: set<Expr>)
    requires Means(inA, a) && Means(inB, b)
    ensures WellFormed(Binary(Or, inA, inB))
  {
  }

  lemma AllSizes(spaces: seq<AddressSpace>, g: R.Shadow, i: nat)
    requires R.InStep(spaces, g) && i < |g.ms|
    ensures forall mo :: mo in g.ms[i] ==> |g.ms[i][mo].bytes| == mo.size
  {
    hide *;
    forall mo | mo in g.ms[i]
      ensures |g.ms[i][mo].bytes| == mo.size
    {
      R.Sizes(spaces, g, i, mo);
    }
  }

  /** The two states hold different object states for an object. */
  ghost predicate Differs(spaces: seq<AddressSpace>, ia: nat, ib: nat, mo: MemoryObject)
    reads spaces
  {
    ia < |spaces| && ib < |spaces| && mo in spaces[ia].objects && mo in spaces[ib].objects &&
    spaces[ia].objects[mo] != spaces[ib].objects[mo]
  }

  /** The objects may be merged when both states bind the same ones; those whose
      object states differ have to be, and no others. */
  method FindMutated(spaces: seq<AddressSpace>, ia: nat, ib: nat, order: seq<MemoryObject>, ghost g: R.Shadow)
    returns (bound: bool, mutated: seq<MemoryObject>)
    requires R.InStep(spaces, g) && ia < |g.ms| && ib < |g.ms|
    requires (forall mo :: mo in order <==> mo in g.ms[ia]) && NoDuplicates(order)
    requires MutatedWritable(spaces, ia, ib, g)
    ensures bound <==> g.ms[ia].Keys == g.ms[ib].Keys
    ensures bound ==> NoDuplicates(mutated) && forall mo :: mo in mutated ==> mo in g.ms[ia] && !g.ms[ia][mo].readOnly
    ensures bound ==> forall mo :: mo in g.ms[ia] && mo !in mutated ==> g.ms[ia][mo] == g.ms[ib][mo]
    ensures bound ==> forall mo :: mo in g.ms[ia] ==> (mo in mutated <==> Differs(spaces, ia, ib, mo))
  {
    hide *;
    mutated := [];
    bound := SameKeys(spaces, ia, ib, g);
    if !bound { return; }
    NoneTwice();
    for i := 0 to |order|
      invariant NoDuplicates(mutated)
      invariant forall mo :: mo in mutated ==> mo in order[..i] && !g.ms[ia][mo].readOnly
      invariant forall mo :: mo in order[..i] && mo !in mutated ==> g.ms[ia][mo] == g.ms[ib][mo]
      invariant forall mo :: mo in order[..i] ==> (mo in mutated <==> Differs(spaces, ia, ib, mo))
    {
      var mo := order[i];
      NotBefore(order, i, mutated);
      var same := SameState(spaces, ia, ib, mo, g);
      assert order[..i + 1] == order[..i] + [mo];
      if !same { mutated := mutated + [mo]; }
    }
    assert order[..|order|] == order;
  }

  method SameKeys(spaces: seq<AddressSpace>, ia: nat, ib: nat, ghost g: R.Shadow) returns (same: bool)
    requires R.InStep(spaces, g) && ia < |g.ms| && ib < |g.ms|
    ensures same <==> g.ms[ia].Keys == g.ms[ib].Keys
  {
    assert R.Sees(spaces[ia], g.ms[ia]) && R.Sees(spaces[ib], g.ms[ib]);
    same := spaces[ia].objects.Keys == spaces[ib].objects.Keys;
  }

  method SameState(spaces: seq<AddressSpace>, ia: nat, ib: nat, mo: MemoryObject, ghost g: R.Shadow)
    returns (same: bool)
    requires R.InStep(spaces, g) && ia < |g.ms| && ib < |g.ms| && mo in g.ms[ia] && mo in g.ms[ib]
    requires MutatedWritable(spaces, ia, ib, g)
    ensures same ==> g.ms[ia][mo] == g.ms[ib][mo]
    ensures same <==> !Differs(spaces, ia, ib, mo)
    ensures !same ==> !g.ms[ia][mo].readOnly
  {
    assert R.Sees(spaces[ia], g.ms[ia]) && R.Sees(spaces[ib], g.ms[ib]);
    same := spaces[ia].objects[mo] == spaces[ib].objects[mo];
  }

  lemma NoneTwice()
    ensures NoDuplicates([])
  {
  }

  lemma NotBefore(order: seq<MemoryObject>, i: nat, mutated: seq<MemoryObject>)
    requires NoDuplicates(order) && i < |order|
    requires NoDuplicates(mutated) && forall mo :: mo in mutated ==> mo in order[..i]
    ensures order[i] !in order[..i] && NoDuplicates(mutated + [order[i]])
  {
    assert order[i] !in mutated;
  }

  /** The objects of the list have been merged, those after position k not yet. */
  method MergeObjects(spaces: seq<AddressSpace>, ia: nat, ib: nat, mutated: seq<MemoryObject>, inA: Expr,
                      littleEndian: bool, ghost g: R.Shadow)
    returns (ghost g': R.Shadow)
    requires R.InStep(spaces, g) && ia < |g.ms| && ib < |g.ms| && ia != ib && g.ms[ia].Keys == g.ms[ib].Keys
    requires NoDuplicates(mutated) && forall mo :: mo in mutated ==> mo in g.ms[ia] && !g.ms[ia][mo].readOnly
    requires WellFormed(inA) && Width(inA) == 1
    modifies g.repr
    ensures R.InStep(spaces, g') && fresh(g'.repr - g.repr) && g'.epochs == g.epochs && |g'.ms| == |g.ms|
    ensures forall i :: 0 <= i < |g.ms| && i != ia ==> g'.ms[i] == g.ms[i]
    ensures MergedMemory(inA, g.ms[ia], g.ms[ib], mutated, g'.ms[ia])
  {
    hide *;
    g' := g;
    NothingMerged(inA, g.ms[ia], g.ms[ib]);
    for k := 0 to |mutated|
      invariant R.InStep(spaces, g') && fresh(g'.repr - g.repr) && g'.epochs == g.epochs && |g'.ms| == |g.ms|
      invariant forall i :: 0 <= i < |g.ms| && i != ia ==> g'.ms[i] == g.ms[i]
      invariant MergedMemory(inA, g.ms[ia], g.ms[ib], mutated[..k], g'.ms[ia])
    {
      ghost var before := g'.ms;
      NotYetMerged(inA, g.ms[ia], g.ms[ib], mutated, k, before[ia]);
      g' := MergeObject(spaces, ia, ib, mutated[k], inA, littleEndian, g');
      TouchedParts(before, ia, mutated[k], g'.ms);
      MergedOneMore(inA, g.ms[ia], g.ms[ib], mutated, k, before, ia, g'.ms);
    }
    assert mutated[..|mutated|] == mutated;
  }

  lemma NothingMerged(inA: Expr, a: Memory, b: Memory)
    requires a.Keys == b.Keys
    ensures MergedMemory(inA, a, b, [], a)
  {
  }

  lemma NotYetMerged(inA: Expr, a: Memory, b: Memory, mutated: seq<MemoryObject>, k: nat, r: Memory)
    requires k < |mutated| && NoDuplicates(mutated) && mutated[k] in a
    requires MergedMemory(inA, a, b, mutated[..k], r)
    ensures mutated[k] in r && mutated[k] in b && r[mutated[k]] == a[mutated[k]]
  {
    hide MergedBytes;
  }

  lemma MergedOneMore(inA: Expr, a: Memory, b: Memory, mutated: seq<MemoryObject>, k: nat, ms: seq<Memory>, ia: nat,
                      ms': seq<Memory>)
    requires k < |mutated| && NoDuplicates(mutated) && ia < |ms| && mutated[k] in a && mutated[k] in b
    requires MergedMemory(inA, a, b, mutated[..k], ms[ia]) && Touched(ms, ia, mutated[k], ms')
    requires MergedBytes(inA, a[mutated[k]].bytes, b[mutated[k]].bytes, mutated[k].size, ms'[ia][mutated[k]].bytes)
    ensures MergedMemory(inA, a, b, mutated[..k + 1], ms'[ia])
  {
    hide MergedBytes;
    assert mutated[..k + 1] == mutated[..k] + [mutated[k]];
  }
}
