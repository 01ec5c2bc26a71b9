/**
 The symbolic expression language shared by every component: bit-vector
 expressions over arrays of bytes, and what an expression means under an
 assignment of bytes to the symbolic arrays.
 */
module Exprs {
  import opened Arithmetic

  datatype Option<+T> = None | Some(value: T)

  type byte = x: int | 0 <= x < 256

  // ---------------------------------------------------------------- syntax

  /** An array is symbolic when it has no constant values. */
  datatype Array = Array(id: nat, size: nat, constants: seq<byte>)

  datatype BinOp = Add | Sub | And | Or | Xor | Eq | Ne | Ult | Ule

  datatype Expr =
    | Const(width: nat, value: nat)
    | Read(root: Array, head: UpdateNode, index: Expr)
    | Select(cond: Expr, trueExpr: Expr, falseExpr: Expr)
    | Concat(high: Expr, low: Expr)
    | Extract(src: Expr, offset: nat, bits: nat)
    | ZExt(zsrc: Expr, zwidth: nat)
    | SExt(ssrc: Expr, swidth: nat)
    | Binary(op: BinOp, left: Expr, right: Expr)
    | NotOptimized(inner: Expr)

  /** The most recent update is the outermost node. */
  datatype UpdateNode = Nil | Node(next: UpdateNode, at: Expr, val: Expr)

  predicate IsCompare(op: BinOp) { op.Eq? || op.Ne? || op.Ult? || op.Ule? }

  function Width(e: Expr): nat {
    match e
    case Const(w, _) => w
    case Read(_, _, _) => 8
    case Select(_, t, _) => Width(t)
    case Concat(h, l) => Width(h) + Width(l)
    case Extract(_, _, w) => w
    case ZExt(_, w) => w
    case SExt(_, w) => w
    case Binary(op, l, _) => if IsCompare(op) then 1 else Width(l)
    case NotOptimized(s) => Width(s)
  }

  /** The width rules every expression constructor asserts. */
  predicate WellFormed(e: Expr) {
    match e
    case Const(w, v) => w > 0 && v < Pow2(w)
    case Read(_, u, i) => UpdatesWellFormed(u) && WellFormed(i) && Width(i) == 32
    case Select(c, t, f) =>
      WellFormed(c) && WellFormed(t) && WellFormed(f) && Width(c) == 1 && Width(t) == Width(f)
    case Concat(h, l) => WellFormed(h) && WellFormed(l)
    case Extract(s, off, w) => WellFormed(s) && 0 < w && off + w <= Width(s)
    case ZExt(s, w) => WellFormed(s) && Width(s) <= w
    case SExt(s, w) => WellFormed(s) && Width(s) <= w
    case Binary(_, l, r) => WellFormed(l) && WellFormed(r) && Width(l) == Width(r)
    case NotOptimized(s) => WellFormed(s)
  }

  predicate UpdatesWellFormed(u: UpdateNode) {
    match u
    case Nil => true
    case Node(next, at, val) =>
      UpdatesWellFormed(next) && WellFormed(at) && Width(at) == 32 && WellFormed(val) && Width(val) == 8
  }

  // --------------------------------------------------------------- meaning

  /** A value for every byte of every symbolic array. */
  type Assignment = (Array, nat) -> byte

  function BitAnd(w: nat, a: nat, b: nat): nat {
    if w == 0 then 0 else 2 * BitAnd(w - 1, a / 2, b / 2) + (if a % 2 == 1 && b % 2 == 1 then 1 else 0)
  }

  function BitOr(w: nat, a: nat, b: nat): nat {
    if w == 0 then 0 else 2 * BitOr(w - 1, a / 2, b / 2) + (if a % 2 == 1 || b % 2 == 1 then 1 else 0)
  }

  function BitXor(w: nat, a: nat, b: nat): nat {
    if w == 0 then 0 else 2 * BitXor(w - 1, a / 2, b / 2) + (if a % 2 != b % 2 then 1 else 0)
  }

  function Bit(b: bool): nat { if b then 1 else 0 }

  function EvalBinary(op: BinOp, w: nat, a: nat, b: nat): nat {
    match op
    case Add => (a + b) % Pow2(w)
    case Sub => (a - b) % Pow2(w)
    case And => BitAnd(w, a, b)
    case Or => BitOr(w, a, b)
    case Xor => BitXor(w, a, b)
    case Eq => Bit(a == b)
    case Ne => Bit(a != b)
    case Ult => Bit(a < b)
    case Ule => Bit(a <= b)
  }

  function ConcatBits(high: nat, low: nat, w: nat): nat { high * Pow2(w) + low }

  function ExtractBits(v: nat, offset: nat, w: nat): nat { v / Pow2(offset) % Pow2(w) }

  function SignExtend(from: nat, to: nat, v: nat): nat
    requires from <= to
  {
    if from > 0 && v >= Pow2(from - 1) then (v - Pow2(from)) % Pow2(to) else v
  }

  function Eval(e: Expr, sigma: Assignment): nat
    decreases e
  {
    match e
    case Const(_, v) => v
    case Read(root, u, i) => Lookup(Some(root), u, Eval(i, sigma), sigma)
    case Select(c, t, f) => if Eval(c, sigma) == 1 then Eval(t, sigma) else Eval(f, sigma)
    case Concat(h, l) => ConcatBits(Eval(h, sigma), Eval(l, sigma), Width(l))
    case Extract(s, off, w) => ExtractBits(Eval(s, sigma), off, w)
    case ZExt(s, _) => Eval(s, sigma)
    case SExt(s, w) => if Width(s) <= w then SignExtend(Width(s), w, Eval(s, sigma)) else 0
    case Binary(op, l, r) => EvalBinary(op, Width(l), Eval(l, sigma), Eval(r, sigma))
    case NotOptimized(s) => Eval(s, sigma)
  }

  /** The byte at an index: the most recent matching update, or else the root
      array's own byte. A missing root stands for an array of zeros. */
  function Lookup(root: Option<Array>, u: UpdateNode, i: nat, sigma: Assignment): nat
    decreases u
  {
    match u
    case Nil => RootByte(root, i, sigma)
    case Node(next, at, val) => if Eval(at, sigma) == i then Eval(val, sigma) else Lookup(root, next, i, sigma)
  }

  function RootByte(root: Option<Array>, i: nat, sigma: Assignment): nat {
    match root
    case None => 0
    case Some(a) => if i < |a.constants| then a.constants[i] else sigma(a, i)
  }

  /** The meaning depends on the bytes only. */
  lemma {:induction false} SameBytes(e: Expr, sigma: Assignment, tau: Assignment)
    requires forall a, i: nat :: sigma(a, i) == tau(a, i)
    ensures Eval(e, sigma) == Eval(e, tau)
    decreases e
  {
    match e
    case Const(_, _) =>
    case Read(root, u, i) => SameBytes(i, sigma, tau); SameLookup(Some(root), u, Eval(i, sigma), sigma, tau);
    case Select(c, t, f) => SameBytes(c, sigma, tau); SameBytes(t, sigma, tau); SameBytes(f, sigma, tau);
    case Concat(h, l) => SameBytes(h, sigma, tau); SameBytes(l, sigma, tau);
    case Extract(s, _, _) => SameBytes(s, sigma, tau);
    case ZExt(s, _) => SameBytes(s, sigma, tau);
    case SExt(s, _) => SameBytes(s, sigma, tau);
    case Binary(_, l, r) => SameBytes(l, sigma, tau); SameBytes(r, sigma, tau);
    case NotOptimized(s) => SameBytes(s, sigma, tau);
  }

  lemma {:induction false} SameLookup(root: Option<Array>, u: UpdateNode, i: nat, sigma: Assignment, tau: Assignment)
    requires forall a, i: nat :: sigma(a, i) == tau(a, i)
    ensures Lookup(root, u, i, sigma) == Lookup(root, u, i, tau)
    decreases u
  {
    match u
    case Nil =>
    case Node(next, at, val) =>
      SameBytes(at, sigma, tau);
      SameBytes(val, sigma, tau);
      SameLookup(root, next, i, sigma, tau);
  }

  ghost predicate SameMeaning(a: Expr, b: Expr) {
    forall sigma: Assignment :: Eval(a, sigma) == Eval(b, sigma)
  }

  /** A constraint set holds when each of its members evaluates to true. */
  ghost predicate Sat(constraints: set<Expr>, sigma: Assignment) {
    forall c :: c in constraints ==> Eval(c, sigma) == 1
  }

  // ------------------------------------------------------------ arithmetic

  lemma Const32(v: nat)
    requires v < UINT32
    ensures WellFormed(Const(32, v)) && Width(Const(32, v)) == 32
  {
    Pow2Values();
  }

  lemma {:induction false} BitwiseRange(w: nat, a: nat, b: nat)
    ensures BitAnd(w, a, b) < Pow2(w)
    ensures BitOr(w, a, b) < Pow2(w)
    ensures BitXor(w, a, b) < Pow2(w)
  {
    if w > 0 { BitwiseRange(w - 1, a / 2, b / 2); }
  }

  lemma ConcatRange(h: nat, l: nat, wh: nat, wl: nat)
    requires h < Pow2(wh) && l < Pow2(wl)
    ensures h * Pow2(wl) + l < Pow2(wh + wl)
  {
    Pow2Add(wh, wl);
    DigitRange(h, l, Pow2(wh), Pow2(wl));
  }

  lemma BinaryRange(op: BinOp, w: nat, a: nat, b: nat)
    requires a < Pow2(w) && b < Pow2(w)
    ensures EvalBinary(op, w, a, b) < (if IsCompare(op) then 2 else Pow2(w))
  {
    BitwiseRange(w, a, b);
  }

  /** A well-formed expression never evaluates outside its width. */
  lemma {:induction false} EvalRange(e: Expr, sigma: Assignment)
    requires WellFormed(e)
    ensures Width(e) > 0
    ensures Eval(e, sigma) < Pow2(Width(e))
    decreases e
  {
    match e
    case Const(_, _) =>
    case Read(root, u, i) => LookupRange(Some(root), u, Eval(i, sigma), sigma);
    case Select(c, t, f) => EvalRange(t, sigma); EvalRange(f, sigma);
    case Concat(h, l) =>
      EvalRange(h, sigma); EvalRange(l, sigma);
      ConcatRange(Eval(h, sigma), Eval(l, sigma), Width(h), Width(l));
    case Extract(s, off, w) =>
    case ZExt(s, w) => EvalRange(s, sigma); Pow2Monotone(Width(s), w);
    case SExt(s, w) => EvalRange(s, sigma); Pow2Monotone(Width(s), w);
    case Binary(op, l, r) =>
      EvalRange(l, sigma); EvalRange(r, sigma);
      BinaryRange(op, Width(l), Eval(l, sigma), Eval(r, sigma));
    case NotOptimized(s) => EvalRange(s, sigma);
  }

  lemma {:induction false} LookupRange(root: Option<Array>, u: UpdateNode, i: nat, sigma: Assignment)
    requires UpdatesWellFormed(u)
    ensures Lookup(root, u, i, sigma) < 256
    decreases u
  {
    match u
    case Nil =>
    case Node(next, at, val) => EvalRange(val, sigma); LookupRange(root, next, i, sigma);
  }

  // -------------------------------------------------------- construction

  /** What every expression factory of the source promises: the node it returns,
      simplified or not, means what the node it was asked for means. */
  ghost predicate Preserves(asked: Expr, got: Expr) {
    WellFormed(got) && Width(got) == Width(asked) && SameMeaning(got, asked)
  }

  /** Every factory folds a node whose operands are constants, and a selection on a
      constant; it may simplify more. */
  ghost predicate Folds(asked: Expr, got: Expr) {
    match asked
    case Select(c, t, f) => c.Const? ==> got == if c.value == 1 then t else f
    case Concat(h, l) => h.Const? && l.Const? ==> got.Const?
    case Extract(s, _, _) => s.Const? ==> got.Const?
    case ZExt(s, _) => s.Const? ==> got.Const?
    case SExt(s, _) => s.Const? ==> got.Const?
    case Binary(_, l, r) => l.Const? && r.Const? ==> got.Const?
    case _ => true
  }

  /** Any meaning-preserving factory. This one folds and does no more; callers rely on
      the contract alone. */
  method Create(e: Expr) returns (r: Expr)
    requires WellFormed(e)
    ensures Preserves(e, r) && Folds(e, r)
  {
    r := e;
    match e {
      case Select(Const(_, c), t, f) => r := if c == 1 then t else f;
      case Concat(Const(wh, h), Const(wl, l)) =>
        ConcatRange(h, l, wh, wl);
        r := Const(wh + wl, ConcatBits(h, l, wl));
      case Extract(Const(_, v), off, w) => r := Const(w, ExtractBits(v, off, w));
      case ZExt(Const(k, v), w) => Pow2Monotone(k, w); r := Const(w, v);
      case SExt(Const(k, v), w) => Pow2Monotone(k, w); r := Const(w, SignExtend(k, w, v));
      case Binary(op, Const(w, a), Const(_, b)) =>
        BinaryRange(op, w, a, b);
        r := Const(Width(e), EvalBinary(op, w, a, b));
      case _ =>
    }
  }

  /** Adding a constant to a symbolic offset gives a symbolic offset. */
  method CreateAdd(offset: Expr, k: Expr) returns (r: Expr)
    requires WellFormed(offset) && WellFormed(k) && Width(offset) == Width(k)
    ensures Preserves(Binary(Add, offset, k), r)
    ensures !offset.Const? ==> !r.Const?
  {
    r := Binary(Add, offset, k);
  }

  /** The zero extension or truncation of an expression to a width. */
  function Resize(e: Expr, w: nat): Expr {
    if w == Width(e) then e else if w < Width(e) then Extract(e, 0, w) else ZExt(e, w)
  }

  lemma ExtractSmall(v: nat, w: nat)
    requires v < Pow2(w)
    ensures ExtractBits(v, 0, w) == v
  {
    assert Pow2(0) == 1;
    ModUnique(v, Pow2(w), 0, v);
    assert ExtractBits(v, 0, w) == v / 1 % Pow2(w);
  }

  lemma ResizeMeaning(e: Expr, w: nat, sigma: Assignment)
    requires WellFormed(e) && w > 0
    ensures WellFormed(Resize(e, w)) && Width(Resize(e, w)) == w
    ensures Eval(e, sigma) < Pow2(w) ==> Eval(Resize(e, w), sigma) == Eval(e, sigma)
  {
    hide ExtractBits, Pow2;
    if Eval(e, sigma) < Pow2(w) { ExtractSmall(Eval(e, sigma), w); }
  }

  function IsZero(e: Expr): Expr { Binary(Eq, e, Const(Width(e), 0)) }
}
