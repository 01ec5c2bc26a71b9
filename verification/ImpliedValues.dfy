/**
 The values of reads that follow from the value of an expression.
 */
module ImpliedValues {
  import opened Arithmetic
  import opened Exprs

  type Implied = seq<(Expr, nat)>

  /** The (read, value) pairs collected from an expression known to have a value. The
      two constants of a selection are compared by value; the source compares their
      addresses, which agrees because its factory folds a selection of equal branches. */
  function ImpliedBy(e: Expr, v: nat): Implied {
    match e
    case Read(_, _, _) => [(e, v)]
    case Select(c, Const(_, t), Const(_, f)) =>
      if t == f then [] else if v == t then ImpliedBy(c, 1) else ImpliedBy(c, 0)
    case Concat(h, l) =>
      ImpliedBy(h, ExtractBits(v, Width(l), Width(h))) + ImpliedBy(l, ExtractBits(v, 0, Width(l)))
    case ZExt(s, _) => ImpliedBy(s, ExtractBits(v, 0, Width(s)))
    case SExt(s, _) => ImpliedBy(s, ExtractBits(v, 0, Width(s)))
    case Binary(Add, Const(w, c), r) => ImpliedBy(r, (v - c) % Pow2(w))
    case Binary(Sub, Const(w, c), r) => ImpliedBy(r, (c - v) % Pow2(w))
    case Binary(And, l, r) => if Width(l) == 1 && v == 1 then ImpliedBy(l, v) + ImpliedBy(r, v) else []
    case Binary(Or, l, r) => if v == 0 then ImpliedBy(l, 0) + ImpliedBy(r, 0) else []
    case Binary(Xor, Const(w, c), r) => ImpliedBy(r, BitXor(w, v, c))
    case Binary(Eq, Const(w, c), r) =>
      if v == 1 then ImpliedBy(r, c) else if w == 1 then ImpliedBy(r, Not(c)) else []
    case Binary(Ne, Const(w, c), r) =>
      if v != 1 then ImpliedBy(r, c) else if w == 1 then ImpliedBy(r, Not(c)) else []
    case _ => []
  }

  function Not(bit: nat): nat { if bit == 0 then 1 else 0 }

  ghost predicate Sound(implied: Implied, sigma: Assignment) {
    forall k :: 0 <= k < |implied| ==> implied[k].0.Read? && Eval(implied[k].0, sigma) == implied[k].1
  }

  /** The assertions on the way: a constant has the value asked for, and a select between
      two constants has one of them. */
  predicate AssertsHold(e: Expr, v: nat) {
    match e
    case Const(_, c) => v == c
    case Select(c, Const(_, t), Const(_, f)) =>
      t == f || (v == t && AssertsHold(c, 1)) || (v != t && v == f && AssertsHold(c, 0))
    case Concat(h, l) =>
      AssertsHold(h, ExtractBits(v, Width(l), Width(h))) && AssertsHold(l, ExtractBits(v, 0, Width(l)))
    case ZExt(s, _) => AssertsHold(s, ExtractBits(v, 0, Width(s)))
    case SExt(s, _) => AssertsHold(s, ExtractBits(v, 0, Width(s)))
    case Binary(Add, Const(w, c), r) => AssertsHold(r, (v - c) % Pow2(w))
    case Binary(Sub, Const(w, c), r) => AssertsHold(r, (c - v) % Pow2(w))
    case Binary(And, l, r) => Width(l) == 1 && v == 1 ==> AssertsHold(l, v) && AssertsHold(r, v)
    case Binary(Or, l, r) => v == 0 ==> AssertsHold(l, 0) && AssertsHold(r, 0)
    case Binary(Xor, Const(w, c), r) => AssertsHold(r, BitXor(w, v, c))
    case Binary(Eq, Const(w, c), r) => if v == 1 then AssertsHold(r, c) else w == 1 ==> AssertsHold(r, Not(c))
    case Binary(Ne, Const(w, c), r) => if v != 1 then AssertsHold(r, c) else w == 1 ==> AssertsHold(r, Not(c))
    case _ => true
  }

  // ------------------------------------------------------------ the arithmetic

  lemma Undo(v: nat, c: nat, a: nat, p: nat)
    requires a < p && c < p
    ensures v == (c + a) % p ==> a == (v - c) % p
    ensures v == (c - a) % p ==> a == (c - v) % p
  {
    NearMod(c + a, p);
    NearMod(c - a, p);
    if v == (c + a) % p { NearMod(v - c, p); }
    if v == (c - a) % p { NearMod(c - v, p); }
  }

  lemma {:induction false} XorUndo(w: nat, c: nat, a: nat)
    requires a < Pow2(w)
    ensures a == BitXor(w, BitXor(w, c, a), c)
  {
    if w > 0 { XorUndo(w - 1, c / 2, a / 2); }
  }

  lemma {:induction false} OrZero(w: nat, a: nat, b: nat)
    requires a < Pow2(w) && b < Pow2(w) && BitOr(w, a, b) == 0
    ensures a == 0 && b == 0
  {
    if w > 0 { OrZero(w - 1, a / 2, b / 2); }
  }

  lemma AndOne(a: nat, b: nat)
    requires BitAnd(1, a, b) == 1 && a < 2 && b < 2
    ensures a == 1 && b == 1
  {
    assert BitAnd(0, a / 2, b / 2) == 0;
  }

  lemma ConcatUndo(h: nat, l: nat, wh: nat, wl: nat)
    requires h < Pow2(wh) && l < Pow2(wl)
    ensures ExtractBits(ConcatBits(h, l, wl), wl, wh) == h && ExtractBits(ConcatBits(h, l, wl), 0, wl) == l
  {
    ModUnique(ConcatBits(h, l, wl), Pow2(wl), h, l);
    ModUnique(h, Pow2(wh), 0, h);
    assert ConcatBits(h, l, wl) / 1 == ConcatBits(h, l, wl);
  }

  /** Cutting an extension back gives what was extended. */
  lemma ExtensionUndo(x: nat, w: nat, to: nat)
    requires x < Pow2(w) && w <= to
    ensures ExtractBits(x, 0, w) == x && ExtractBits(SignExtend(w, to, x), 0, w) == x
  {
    ExtractSmall(x, w);
    if w > 0 && x >= Pow2(w - 1) {
      var p, q := Pow2(w), Pow2(to - w);
      Pow2Add(to - w, w);
      Pow2Monotone(w, to);
      NearMod(x - p, Pow2(to));
      var y := SignExtend(w, to, x);
      SignDigits(y, q, p, x);
      hide Pow2;
      assert y / 1 == y;
    }
  }

  lemma SignDigits(y: nat, q: nat, p: nat, x: nat)
    requires y == q * p - p + x && x < p && q > 0
    ensures y % p == x
  {
    assert q * p - p == (q - 1) * p;
    ModUnique(y, p, q - 1, x);
  }

  // ------------------------------------------------------------- the theorem

  /** Every pair holds under every assignment that gives the expression the value, and no
      assertion fails for a value that the expression can have. */
  lemma {:induction false} ImpliedSound(e: Expr, v: nat, sigma: Assignment)
    requires WellFormed(e) && Eval(e, sigma) == v
    ensures Sound(ImpliedBy(e, v), sigma) && AssertsHold(e, v)
    decreases e
  {
    match e
    case Select(c, Const(_, t), Const(_, f)) =>
      EvalRange(c, sigma);
      if t != f { ImpliedSound(c, if v == t then 1 else 0, sigma); }
    case Concat(h, l) =>
      EvalRange(h, sigma); EvalRange(l, sigma);
      ConcatUndo(Eval(h, sigma), Eval(l, sigma), Width(h), Width(l));
      ImpliedSound(h, Eval(h, sigma), sigma); ImpliedSound(l, Eval(l, sigma), sigma);
    case ZExt(s, w) =>
      EvalRange(s, sigma); ExtensionUndo(v, Width(s), w);
      ImpliedSound(s, v, sigma);
    case SExt(s, w) =>
      EvalRange(s, sigma); ExtensionUndo(Eval(s, sigma), Width(s), w);
      ImpliedSound(s, Eval(s, sigma), sigma);
    case Binary(op, l, r) => ImpliedBinary(op, l, r, v, sigma);
    case _ =>
  }

  lemma {:induction false} ImpliedBinary(op: BinOp, l: Expr, r: Expr, v: nat, sigma: Assignment)
    requires WellFormed(Binary(op, l, r)) && Eval(Binary(op, l, r), sigma) == v
    ensures Sound(ImpliedBy(Binary(op, l, r), v), sigma) && AssertsHold(Binary(op, l, r), v)
    decreases Binary(op, l, r), 0
  {
    var a, b := Eval(l, sigma), Eval(r, sigma);
    EvalRange(l, sigma);
    EvalRange(r, sigma);
    ImpliedSound(l, a, sigma);
    ImpliedSound(r, b, sigma);
    assert Width(Binary(op, l, r)) > 0;
    hide Eval, Width, WellFormed, Pow2, BitAnd, BitOr, BitXor, Sound, ImpliedBy, AssertsHold, EvalBinary;
    if op.And? || op.Or? {
      ImpliedBoth(op, l, r, v, sigma);
    } else if l.Const? {
      ImpliedRight(op, l.width, l.value, r, v, sigma);
    } else {
      NothingImplied(op, l, r, v);
      NoneSound(sigma);
    }
  }

  /** The operand on the right, given a constant on the left. */
  lemma ImpliedRight(op: BinOp, w: nat, c: nat, r: Expr, v: nat, sigma: Assignment)
    requires !op.And? && !op.Or? && c < Pow2(w) && Eval(r, sigma) < Pow2(w) && v == EvalBinary(op, w, c, Eval(r, sigma))
    requires Sound(ImpliedBy(r, Eval(r, sigma)), sigma) && AssertsHold(r, Eval(r, sigma))
    ensures Sound(ImpliedBy(Binary(op, Const(w, c), r), v), sigma) && AssertsHold(Binary(op, Const(w, c), r), v)
  {
    var b := Eval(r, sigma);
    match op
    case Add => Undo(v, c, b, Pow2(w));
    case Sub => Undo(v, c, b, Pow2(w));
    case Xor => XorUndo(w, c, b);
    case _ =>
  }

  lemma ImpliedBoth(op: BinOp, l: Expr, r: Expr, v: nat, sigma: Assignment)
    requires (op.And? || op.Or?) && Eval(l, sigma) < Pow2(Width(l)) && Eval(r, sigma) < Pow2(Width(l))
    requires v == EvalBinary(op, Width(l), Eval(l, sigma), Eval(r, sigma))
    requires Sound(ImpliedBy(l, Eval(l, sigma)), sigma) && AssertsHold(l, Eval(l, sigma))
    requires Sound(ImpliedBy(r, Eval(r, sigma)), sigma) && AssertsHold(r, Eval(r, sigma))
    ensures Sound(ImpliedBy(Binary(op, l, r), v), sigma) && AssertsHold(Binary(op, l, r), v)
  {
    var a, b := Eval(l, sigma), Eval(r, sigma);
    if op.And? && Width(l) == 1 && v == 1 { AndOne(a, b); }
    if op.Or? && v == 0 { OrZero(Width(l), a, b); }
  }

  lemma NothingImplied(op: BinOp, l: Expr, r: Expr, v: nat)
    requires !op.And? && !op.Or? && !l.Const?
    ensures ImpliedBy(Binary(op, l, r), v) == [] && AssertsHold(Binary(op, l, r), v)
  {
  }

  lemma NoneSound(sigma: Assignment)
    ensures Sound([], sigma)
  {
  }

  // ------------------------------------------------------------ completeness

  /** Expressions that every rule on the way can undo. */
  predicate IsInvertible(e: Expr) {
    match e
    case Read(_, _, _) => true
    case Concat(h, l) => IsInvertible(h) && IsInvertible(l)
    case ZExt(s, _) => IsInvertible(s)
    case SExt(s, _) => IsInvertible(s)
    case Binary(op, l, r) => (op.Add? || op.Sub? || op.Xor?) && l.Const? && IsInvertible(r)
    case _ => false
  }

  /** The reads of an expression that are not part of another read. */
  function ReadsIn(e: Expr): set<Expr> {
    match e
    case Const(_, _) => {}
    case Read(_, _, _) => {e}
    case Select(c, t, f) => ReadsIn(c) + ReadsIn(t) + ReadsIn(f)
    case Concat(h, l) => ReadsIn(h) + ReadsIn(l)
    case Extract(s, _, _) => ReadsIn(s)
    case ZExt(s, _) => ReadsIn(s)
    case SExt(s, _) => ReadsIn(s)
    case Binary(_, l, r) => ReadsIn(l) + ReadsIn(r)
    case NotOptimized(s) => ReadsIn(s)
  }

  function Names(implied: Implied): set<Expr> { set k | 0 <= k < |implied| :: implied[k].0 }

  lemma NamesOfBoth(a: Implied, b: Implied)
    ensures Names(a + b) == Names(a) + Names(b)
  {
    forall x | x in Names(a) + Names(b)
      ensures x in Names(a + b)
    {
      if x in Names(a) {
        var k :| 0 <= k < |a| && a[k].0 == x;
        assert (a + b)[k].0 == x;
      } else {
        var k :| 0 <= k < |b| && b[k].0 == x;
        assert (a + b)[|a| + k].0 == x;
      }
    }
  }

  /** From such an expression the value of every read in it is implied, whatever the value
      of the expression. */
  lemma {:induction false} ImpliedAlways(e: Expr, v: nat)
    requires IsInvertible(e)
    ensures Names(ImpliedBy(e, v)) == ReadsIn(e)
    decreases e
  {
    match e
    case Read(_, _, _) => assert ImpliedBy(e, v)[0].0 == e;
    case Concat(h, l) =>
      var a, b := ExtractBits(v, Width(l), Width(h)), ExtractBits(v, 0, Width(l));
      ImpliedAlways(h, a);
      ImpliedAlways(l, b);
      NamesOfBoth(ImpliedBy(h, a), ImpliedBy(l, b));
    case ZExt(s, _) => ImpliedAlways(s, ExtractBits(v, 0, Width(s)));
    case SExt(s, _) => ImpliedAlways(s, ExtractBits(v, 0, Width(s)));
    case Binary(Add, Const(w, c), r) => ImpliedAlways(r, (v - c) % Pow2(w));
    case Binary(Sub, Const(w, c), r) => ImpliedAlways(r, (c - v) % Pow2(w));
    case Binary(Xor, Const(w, c), r) => ImpliedAlways(r, BitXor(w, v, c));
  }

  /** With this constant on the left, the value leaves one operand on the right at most. */
  ghost predicate OneRight(op: BinOp, w: nat, c: nat, v: nat) {
    forall a: nat, b: nat ::
      a < Pow2(w) && b < Pow2(w) && EvalBinary(op, w, c, a) == v && EvalBinary(op, w, c, b) == v ==> a == b
  }

  /** The value leaves one pair of operands at most. */
  ghost predicate OnePair(op: BinOp, w: nat, v: nat) {
    forall a: nat, b: nat, c: nat, d: nat ::
      (a < Pow2(w) && b < Pow2(w) && c < Pow2(w) && d < Pow2(w)
       && EvalBinary(op, w, a, b) == v && EvalBinary(op, w, c, d) == v) ==> a == c && b == d
  }

  /** Under an assignment, the value of every operation on the way to a read leaves its
      operands no choice. The operations are those the rules know: a bitwise and counts for
      single bits only, and the other binary operations need a constant on the left. */
  ghost predicate Determined(e: Expr, sigma: Assignment) {
    match e
    case Const(_, _) => true
    case Read(_, _, _) => true
    case Select(c, t, f) => t.Const? && f.Const? && t.value != f.value && Determined(c, sigma)
    case Concat(h, l) => Determined(h, sigma) && Determined(l, sigma)
    case ZExt(s, _) => Determined(s, sigma)
    case SExt(s, _) => Determined(s, sigma)
    case Binary(op, l, r) =>
      && Determined(l, sigma) && Determined(r, sigma)
      && (if op.And? || op.Or? then
            (op.And? ==> Width(l) == 1) && OnePair(op, Width(l), Eval(e, sigma))
          else
            l.Const? && !op.Ult? && !op.Ule? && OneRight(op, l.width, l.value, Eval(e, sigma)))
    case _ => false
  }

  lemma {:induction false} OrNothing(w: nat, a: nat)
    requires a < Pow2(w)
    ensures BitOr(w, a, 0) == a && BitOr(w, 0, a) == a
  {
    if w > 0 { OrNothing(w - 1, a / 2); }
  }

  /** Both operands of a disjunction are known exactly at zero, and both of a conjunction of
      bits exactly at one. */
  lemma PairKnown(op: BinOp, w: nat, v: nat)
    requires w > 0 && v < Pow2(w) && (op.Or? || (op.And? && w == 1))
    ensures OnePair(op, w, v) <==> v == if op.Or? then 0 else 1
  {
    Pow2Values();
    if op.Or? {
      OrNothing(w, v);
      assert OnePair(op, w, v) ==> v == 0 by {
        assert EvalBinary(op, w, v, 0) == v && EvalBinary(op, w, 0, v) == v;
      }
      if v == 0 {
        forall a: nat, b: nat | a < Pow2(w) && b < Pow2(w) && EvalBinary(op, w, a, b) == v ensures a == 0 && b == 0 {
          OrZero(w, a, b);
        }
      }
    } else {
      assert BitAnd(0, 0, 0) == 0;
      assert OnePair(op, w, v) ==> v != 0 by {
        assert EvalBinary(op, 1, 0, 0) == 0 && EvalBinary(op, 1, 0, 1) == 0;
      }
      if v == 1 {
        forall a: nat, b: nat | a < 2 && b < 2 && EvalBinary(op, w, a, b) == v ensures a == 1 && b == 1 {
          AndOne(a, b);
        }
      }
    }
  }

  lemma SmallPowers()
    ensures Pow2(1) == 2 && Pow2(2) == 4
  {
  }

  /** An operand of a comparison for equality is known exactly if it is the constant, or a
      bit other than the constant. */
  lemma EqualKnown(op: BinOp, w: nat, c: nat, v: nat)
    requires w > 0 && c < Pow2(w) && v < 2 && (op.Eq? || op.Ne?)
    ensures OneRight(op, w, c, v) <==> w == 1 || v == if op.Eq? then 1 else 0
  {
    hide BitAnd, BitOr, BitXor, Pow2;
    SmallPowers();
    if w > 1 {
      Pow2Monotone(2, w);
      var a, b := if c == 0 then 1 else 0, if c <= 1 then 2 else 1;
      assert EvalBinary(op, w, c, a) == EvalBinary(op, w, c, b);
    }
  }

  /** Wherever the operands are left no choice, the rules find them: every read is named. */
  lemma {:induction false} ImpliedComplete(e: Expr, sigma: Assignment)
    requires WellFormed(e) && Determined(e, sigma)
    ensures Names(ImpliedBy(e, Eval(e, sigma))) == ReadsIn(e)
    decreases e, 1
  {
    var v := Eval(e, sigma);
    match e
    case Const(_, _) =>
    case Read(_, _, _) => assert ImpliedBy(e, v)[0].0 == e;
    case Select(c, t, f) =>
      EvalRange(c, sigma);
      ImpliedComplete(c, sigma);
    case Concat(h, l) =>
      EvalRange(h, sigma); EvalRange(l, sigma);
      var a, b := Eval(h, sigma), Eval(l, sigma);
      ConcatUndo(a, b, Width(h), Width(l));
      ImpliedComplete(h, sigma); ImpliedComplete(l, sigma);
      NamesOfBoth(ImpliedBy(h, a), ImpliedBy(l, b));
    case ZExt(s, w) =>
      EvalRange(s, sigma); ExtensionUndo(v, Width(s), w);
      ImpliedComplete(s, sigma);
    case SExt(s, w) =>
      EvalRange(s, sigma); ExtensionUndo(Eval(s, sigma), Width(s), w);
      ImpliedComplete(s, sigma);
    case Binary(op, l, r) => DeterminedBinary(op, l, r, sigma);
  }

  lemma {:induction false} DeterminedBinary(op: BinOp, l: Expr, r: Expr, sigma: Assignment)
    requires WellFormed(Binary(op, l, r)) && Determined(Binary(op, l, r), sigma)
    ensures var e := Binary(op, l, r); Names(ImpliedBy(e, Eval(e, sigma))) == ReadsIn(e)
    decreases Binary(op, l, r), 0
  {
    var v := Eval(Binary(op, l, r), sigma);
    EvalRange(Binary(op, l, r), sigma);
    EvalRange(l, sigma);
    EvalRange(r, sigma);
    ImpliedComplete(l, sigma);
    ImpliedComplete(r, sigma);
    Pow2Values();
    hide WellFormed, Pow2, BitAnd, BitOr, BitXor, ImpliedBy, OneRight, OnePair, Names, EvalBinary;
    if op.And? || op.Or? {
      BothFound(op, l, r, sigma);
      NamesOfBoth(ImpliedBy(l, Eval(l, sigma)), ImpliedBy(r, Eval(r, sigma)));
    } else {
      RightFound(op, l.width, l.value, r, Eval(r, sigma));
    }
  }

  lemma RightFound(op: BinOp, w: nat, c: nat, r: Expr, b: nat)
    requires !op.And? && !op.Or? && !op.Ult? && !op.Ule? && w > 0 && c < Pow2(w) && b < Pow2(w)
    requires OneRight(op, w, c, EvalBinary(op, w, c, b))
    ensures ImpliedBy(Binary(op, Const(w, c), r), EvalBinary(op, w, c, b)) == ImpliedBy(r, b)
  {
    hide OneRight;
    var v := EvalBinary(op, w, c, b);
    match op
    case Add => Undo(v, c, b, Pow2(w));
    case Sub => Undo(v, c, b, Pow2(w));
    case Xor => XorUndo(w, c, b);
    case _ => EqualFound(op, w, c, r, b);
  }

  lemma EqualFound(op: BinOp, w: nat, c: nat, r: Expr, b: nat)
    requires (op.Eq? || op.Ne?) && w > 0 && c < Pow2(w) && b < Pow2(w)
    requires OneRight(op, w, c, EvalBinary(op, w, c, b))
    ensures ImpliedBy(Binary(op, Const(w, c), r), EvalBinary(op, w, c, b)) == ImpliedBy(r, b)
  {
    var v := EvalBinary(op, w, c, b);
    assert (v == if op.Eq? then 1 else 0) <==> b == c;
    assert v < 2;
    hide *;
    EqualKnown(op, w, c, v);
    EqualRule(op, w, c, r, v);
    if b != c { OtherBit(c, b); }
  }

  lemma EqualRule(op: BinOp, w: nat, c: nat, r: Expr, v: nat)
    requires (op.Eq? || op.Ne?) && v < 2
    ensures ImpliedBy(Binary(op, Const(w, c), r), v) ==
            if v == (if op.Eq? then 1 else 0) then ImpliedBy(r, c) else if w == 1 then ImpliedBy(r, Not(c)) else []
  {
  }

  lemma OtherBit(c: nat, b: nat)
    requires c < Pow2(1) && b < Pow2(1) && b != c
    ensures Not(c) == b
  {
    Pow2Values();
  }

  lemma BothFound(op: BinOp, l: Expr, r: Expr, sigma: Assignment)
    requires op.Or? || (op.And? && Width(l) == 1)
    requires Width(l) > 0 && Eval(l, sigma) < Pow2(Width(l)) && Eval(r, sigma) < Pow2(Width(l))
    requires var v := EvalBinary(op, Width(l), Eval(l, sigma), Eval(r, sigma));
             v < Pow2(Width(l)) && OnePair(op, Width(l), v)
    ensures var v := EvalBinary(op, Width(l), Eval(l, sigma), Eval(r, sigma));
            ImpliedBy(Binary(op, l, r), v) == ImpliedBy(l, Eval(l, sigma)) + ImpliedBy(r, Eval(r, sigma))
  {
    var a, b := Eval(l, sigma), Eval(r, sigma);
    var w, v := Width(l), EvalBinary(op, Width(l), a, b);
    PairOperands(op, w, a, b);
    hide *;
    BothRule(op, l, r, v);
  }

  lemma BothRule(op: BinOp, l: Expr, r: Expr, v: nat)
    requires op.Or? || (op.And? && Width(l) == 1)
    requires v == if op.Or? then 0 else 1
    ensures ImpliedBy(Binary(op, l, r), v) == ImpliedBy(l, v) + ImpliedBy(r, v)
  {
    hide Width;
  }

  lemma PairOperands(op: BinOp, w: nat, a: nat, b: nat)
    requires op.Or? || (op.And? && w == 1)
    requires w > 0 && a < Pow2(w) && b < Pow2(w)
    requires EvalBinary(op, w, a, b) < Pow2(w) && OnePair(op, w, EvalBinary(op, w, a, b))
    ensures var v := if op.Or? then 0 else 1; EvalBinary(op, w, a, b) == v && a == v && b == v
  {
    hide OnePair, BitAnd, BitOr, BitXor, Pow2;
    PairKnown(op, w, EvalBinary(op, w, a, b));
    SmallPowers();
    if op.Or? { OrZero(w, a, b); } else { AndOne(a, b); }
  }
}
