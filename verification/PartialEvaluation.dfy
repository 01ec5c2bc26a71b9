/**
 Partial evaluation of an expression under a seed, as done by
 vital-src/lib/Expr/ExprEvaluator.cpp: the bytes a seed binds replace the reads
 whose place is known. Beside the evaluator stand an exact meaning for its result
 and the condition under which that meaning is plain substitution.
 */
module PartialEvaluation {
  import opened Arithmetic
  import opened Exprs

  type Bindings = map<Array, seq<byte>>

  /** The arrays of a seed are symbolic and the seed has a byte for each of theirs. */
  predicate IsBindings(b: Bindings) {
    forall a :: a in b ==> a.constants == [] && |b[a]| == a.size < UINT32
  }

  ghost predicate Agrees(b: Bindings, sigma: Assignment) {
    forall a, i: nat :: a in b && i < |b[a]| ==> sigma(a, i) == b[a][i]
  }

  /** The assignment with the bytes of the seed put over it. */
  ghost function Override(b: Bindings, sigma: Assignment): Assignment {
    (a: Array, i: nat) => if a in b && i < |b[a]| then b[a][i] else sigma(a, i)
  }

  // ---------------------------------------------------- what evaluation means

  ghost function Zero(): Assignment { (_: Array, _: nat) => 0 }

  /** The value of an expression the seed determines. */
  ghost function Value(b: Bindings, e: Expr): nat
    decreases e, 1
  {
    Partial(b, e, Zero())
  }

  /** The seed determines the expression: evaluation leaves a constant. */
  ghost predicate Known(b: Bindings, e: Expr)
    decreases e, 0
  {
    match e
    case Const(_, _) => true
    case Read(root, u, i) => Known(b, i) && KnownByte(b, root, u, Value(b, i))
    case Select(c, t, f) => Known(b, c) && if Value(b, c) == 1 then Known(b, t) else Known(b, f)
    case Concat(h, l) => Known(b, h) && Known(b, l)
    case Extract(s, _, _) => Known(b, s)
    case ZExt(s, _) => Known(b, s)
    case SExt(s, _) => Known(b, s)
    case Binary(_, l, r) => Known(b, l) && Known(b, r)
    case NotOptimized(s) => Known(b, s)
  }

  ghost predicate KnownByte(b: Bindings, root: Array, u: UpdateNode, i: nat)
    decreases u, 0
  {
    match u
    case Nil => i < |root.constants| || (root in b && i < |b[root]|)
    case Node(next, at, val) =>
      Known(b, at) && if Value(b, at) == i then Known(b, val) else KnownByte(b, root, next, i)
  }

  /** What the evaluated expression means. A read whose index is unknown, or that meets
      an update whose index is unknown, is kept, and then nothing below it is replaced. */
  ghost function Partial(b: Bindings, e: Expr, sigma: Assignment): nat
    decreases e, 0
  {
    match e
    case Const(_, v) => v
    case Read(root, u, i) =>
      if Known(b, i) then PartialByte(b, root, u, Value(b, i), sigma)
      else Lookup(Some(root), u, Partial(b, i, sigma), sigma)
    case Select(c, t, f) => if Partial(b, c, sigma) == 1 then Partial(b, t, sigma) else Partial(b, f, sigma)
    case Concat(h, l) => ConcatBits(Partial(b, h, sigma), Partial(b, l, sigma), Width(l))
    case Extract(s, off, w) => ExtractBits(Partial(b, s, sigma), off, w)
    case ZExt(s, _) => Partial(b, s, sigma)
    case SExt(s, w) => if Width(s) <= w then SignExtend(Width(s), w, Partial(b, s, sigma)) else 0
    case Binary(op, l, r) => EvalBinary(op, Width(l), Partial(b, l, sigma), Partial(b, r, sigma))
    case NotOptimized(s) => Partial(b, s, sigma)
  }

  ghost function PartialByte(b: Bindings, root: Array, u: UpdateNode, i: nat, sigma: Assignment): nat
    decreases u, 0
  {
    match u
    case Nil => RootByte(Some(root), i, Override(b, sigma))
    case Node(next, at, val) =>
      if !Known(b, at) then Lookup(Some(root), u, i, sigma)
      else if Value(b, at) == i then Partial(b, val, sigma)
      else PartialByte(b, root, next, i, sigma)
  }

  /** Evaluation cannot leave a constant, however much a factory simplifies. */
  ghost predicate Open(b: Bindings, e: Expr) {
    exists sigma: Assignment, tau: Assignment :: Partial(b, e, sigma) != Partial(b, e, tau)
  }

  /** Every index that is met is known or open, so that no simplification can decide
      whether a read is kept. */
  ghost predicate Clear(b: Bindings, e: Expr)
    decreases e
  {
    match e
    case Const(_, _) => true
    case Read(root, u, i) =>
      if Known(b, i) then ClearByte(b, root, u, Value(b, i)) else Clear(b, i) && Open(b, i)
    case Select(c, t, f) =>
      Clear(b, c) && if Known(b, c) then (if Value(b, c) == 1 then Clear(b, t) else Clear(b, f))
                     else Clear(b, t) && Clear(b, f)
    case Concat(h, l) => Clear(b, h) && Clear(b, l)
    case Extract(s, _, _) => Clear(b, s)
    case ZExt(s, _) => Clear(b, s)
    case SExt(s, _) => Clear(b, s)
    case Binary(_, l, r) => Clear(b, l) && Clear(b, r)
    case NotOptimized(s) => Clear(b, s)
  }

  ghost predicate ClearByte(b: Bindings, root: Array, u: UpdateNode, i: nat)
    decreases u
  {
    match u
    case Nil => true
    case Node(next, at, val) =>
      if !Known(b, at) then Clear(b, at) && Open(b, at)
      else if Value(b, at) == i then Clear(b, val)
      else ClearByte(b, root, next, i)
  }

  /** Every index that is met is known, so that no read is kept that the seed could
      answer. */
  ghost predicate Resolved(b: Bindings, e: Expr)
    decreases e
  {
    match e
    case Const(_, _) => true
    case Read(root, u, i) => Known(b, i) && ResolvedByte(b, root, u, Value(b, i))
    case Select(c, t, f) =>
      Resolved(b, c) && if Known(b, c) then (if Value(b, c) == 1 then Resolved(b, t) else Resolved(b, f))
                        else Resolved(b, t) && Resolved(b, f)
    case Concat(h, l) => Resolved(b, h) && Resolved(b, l)
    case Extract(s, _, _) => Resolved(b, s)
    case ZExt(s, _) => Resolved(b, s)
    case SExt(s, _) => Resolved(b, s)
    case Binary(_, l, r) => Resolved(b, l) && Resolved(b, r)
    case NotOptimized(s) => Resolved(b, s)
  }

  ghost predicate ResolvedByte(b: Bindings, root: Array, u: UpdateNode, i: nat)
    decreases u
  {
    match u
    case Nil => true
    case Node(next, at, val) =>
      Known(b, at) && if Value(b, at) == i then Resolved(b, val) else ResolvedByte(b, root, next, i)
  }

  /** What the seed determines it determines for every assignment. */
  lemma {:induction false} KnownMeaning(b: Bindings, e: Expr, sigma: Assignment)
    requires Known(b, e)
    ensures Partial(b, e, sigma) == Value(b, e)
    decreases e
  {
    hide ConcatBits, ExtractBits, SignExtend, EvalBinary, Override, RootByte;
    match e
    case Const(_, _) =>
    case Read(root, u, i) => KnownByteMeaning(b, root, u, Value(b, i), sigma);
    case Select(c, t, f) =>
      KnownMeaning(b, c, sigma);
      if Value(b, c) == 1 { KnownMeaning(b, t, sigma); } else { KnownMeaning(b, f, sigma); }
    case Concat(h, l) => KnownMeaning(b, h, sigma); KnownMeaning(b, l, sigma);
    case Extract(s, _, _) => KnownMeaning(b, s, sigma);
    case ZExt(s, _) => KnownMeaning(b, s, sigma);
    case SExt(s, _) => KnownMeaning(b, s, sigma);
    case Binary(_, l, r) => KnownMeaning(b, l, sigma); KnownMeaning(b, r, sigma);
    case NotOptimized(s) => KnownMeaning(b, s, sigma);
  }

  lemma {:induction false} KnownByteMeaning(b: Bindings, root: Array, u: UpdateNode, i: nat, sigma: Assignment)
    requires KnownByte(b, root, u, i)
    ensures PartialByte(b, root, u, i, sigma) == PartialByte(b, root, u, i, Zero())
    decreases u
  {
    match u
    case Nil =>
    case Node(next, at, val) =>
      if Value(b, at) == i { KnownMeaning(b, val, sigma); } else { KnownByteMeaning(b, root, next, i, sigma); }
  }

  lemma {:induction false} KnownResolved(b: Bindings, e: Expr)
    requires Known(b, e)
    ensures Resolved(b, e)
    decreases e
  {
    match e
    case Const(_, _) =>
    case Read(root, u, i) => KnownByteResolved(b, root, u, Value(b, i));
    case Select(c, t, f) =>
      KnownResolved(b, c);
      if Value(b, c) == 1 { KnownResolved(b, t); } else { KnownResolved(b, f); }
    case Concat(h, l) => KnownResolved(b, h); KnownResolved(b, l);
    case Extract(s, _, _) => KnownResolved(b, s);
    case ZExt(s, _) => KnownResolved(b, s);
    case SExt(s, _) => KnownResolved(b, s);
    case Binary(_, l, r) => KnownResolved(b, l); KnownResolved(b, r);
    case NotOptimized(s) => KnownResolved(b, s);
  }

  lemma {:induction false} KnownByteResolved(b: Bindings, root: Array, u: UpdateNode, i: nat)
    requires KnownByte(b, root, u, i)
    ensures ResolvedByte(b, root, u, i)
    decreases u
  {
    match u
    case Nil =>
    case Node(next, at, val) =>
      if Value(b, at) == i { KnownResolved(b, val); } else { KnownByteResolved(b, root, next, i); }
  }

  lemma {:induction false} ResolvedClear(b: Bindings, e: Expr)
    requires Resolved(b, e)
    ensures Clear(b, e)
    decreases e
  {
    match e
    case Const(_, _) =>
    case Read(root, u, i) => ResolvedByteClear(b, root, u, Value(b, i));
    case Select(c, t, f) =>
      ResolvedClear(b, c);
      if !Known(b, c) {
        ResolvedClear(b, t);
        ResolvedClear(b, f);
      } else if Value(b, c) == 1 {
        ResolvedClear(b, t);
      } else {
        ResolvedClear(b, f);
      }
    case Concat(h, l) => ResolvedClear(b, h); ResolvedClear(b, l);
    case Extract(s, _, _) => ResolvedClear(b, s);
    case ZExt(s, _) => ResolvedClear(b, s);
    case SExt(s, _) => ResolvedClear(b, s);
    case Binary(_, l, r) => ResolvedClear(b, l); ResolvedClear(b, r);
    case NotOptimized(s) => ResolvedClear(b, s);
  }

  lemma {:induction false} ResolvedByteClear(b: Bindings, root: Array, u: UpdateNode, i: nat)
    requires ResolvedByte(b, root, u, i)
    ensures ClearByte(b, root, u, i)
    decreases u
  {
    match u
    case Nil =>
    case Node(next, at, val) =>
      if Value(b, at) == i { ResolvedClear(b, val); } else { ResolvedByteClear(b, root, next, i); }
  }

  /** Where every index is known, evaluation is substitution of the seed. */
  lemma {:induction false} ResolvedMeaning(b: Bindings, e: Expr, sigma: Assignment)
    requires Resolved(b, e)
    ensures Partial(b, e, sigma) == Eval(e, Override(b, sigma))
    decreases e, 0
  {
    hide ConcatBits, ExtractBits, SignExtend, EvalBinary, Override, RootByte;
    match e
    case Const(_, _) =>
    case Read(root, u, i) =>
      IndexMeaning(b, i, sigma);
      ResolvedByteMeaning(b, root, u, Value(b, i), sigma);
    case Select(c, t, f) =>
      ResolvedMeaning(b, c, sigma);
      if Known(b, c) { KnownMeaning(b, c, sigma); }
      if !Known(b, c) || Value(b, c) == 1 { ResolvedMeaning(b, t, sigma); }
      if !Known(b, c) || Value(b, c) != 1 { ResolvedMeaning(b, f, sigma); }
    case Concat(h, l) => ResolvedMeaning(b, h, sigma); ResolvedMeaning(b, l, sigma);
    case Extract(s, _, _) => ResolvedMeaning(b, s, sigma);
    case ZExt(s, _) => ResolvedMeaning(b, s, sigma);
    case SExt(s, _) => ResolvedMeaning(b, s, sigma);
    case Binary(_, l, r) => ResolvedMeaning(b, l, sigma); ResolvedMeaning(b, r, sigma);
    case NotOptimized(s) => ResolvedMeaning(b, s, sigma);
  }

  lemma {:induction false} IndexMeaning(b: Bindings, i: Expr, sigma: Assignment)
    requires Known(b, i)
    ensures Eval(i, Override(b, sigma)) == Value(b, i)
    decreases i, 1
  {
    KnownResolved(b, i);
    KnownMeaning(b, i, sigma);
    hide *;
    ResolvedMeaning(b, i, sigma);
  }

  lemma {:induction false} ResolvedByteMeaning(b: Bindings, root: Array, u: UpdateNode, i: nat, sigma: Assignment)
    requires ResolvedByte(b, root, u, i)
    ensures PartialByte(b, root, u, i, sigma) == Lookup(Some(root), u, i, Override(b, sigma))
    decreases u, 0
  {
    hide Override, RootByte;
    match u
    case Nil =>
    case Node(next, at, val) =>
      IndexMeaning(b, at, sigma);
      if Value(b, at) == i { ResolvedMeaning(b, val, sigma); } else { ResolvedByteMeaning(b, root, next, i, sigma); }
  }

  ghost predicate SameShape(b: Bindings, b': Bindings) {
    b.Keys == b'.Keys && forall a :: a in b ==> |b[a]| == |b'[a]|
  }

  /** Whatever bytes the seed has, it determines every index of the expression. */
  ghost predicate Resolvable(b: Bindings, e: Expr) {
    forall b': Bindings :: SameShape(b, b') ==> Resolved(b', e)
  }

  /** Every index of a read or of an update is a constant. */
  predicate HasConstIndices(e: Expr)
    decreases e
  {
    match e
    case Const(_, _) => true
    case Read(_, u, i) => i.Const? && HasConstUpdates(u)
    case Select(c, t, f) => HasConstIndices(c) && HasConstIndices(t) && HasConstIndices(f)
    case Concat(h, l) => HasConstIndices(h) && HasConstIndices(l)
    case Extract(s, _, _) => HasConstIndices(s)
    case ZExt(s, _) => HasConstIndices(s)
    case SExt(s, _) => HasConstIndices(s)
    case Binary(_, l, r) => HasConstIndices(l) && HasConstIndices(r)
    case NotOptimized(s) => HasConstIndices(s)
  }

  predicate HasConstUpdates(u: UpdateNode)
    decreases u
  {
    match u
    case Nil => true
    case Node(next, at, val) => at.Const? && HasConstIndices(val) && HasConstUpdates(next)
  }

  lemma {:induction false} ConstIndicesResolved(b: Bindings, e: Expr)
    requires HasConstIndices(e)
    ensures Resolved(b, e)
    decreases e
  {
    match e
    case Const(_, _) =>
    case Read(root, u, i) => ConstUpdatesResolved(b, root, u, Value(b, i));
    case Select(c, t, f) =>
      ConstIndicesResolved(b, c);
      ConstIndicesResolved(b, t);
      ConstIndicesResolved(b, f);
    case Concat(h, l) => ConstIndicesResolved(b, h); ConstIndicesResolved(b, l);
    case Extract(s, _, _) => ConstIndicesResolved(b, s);
    case ZExt(s, _) => ConstIndicesResolved(b, s);
    case SExt(s, _) => ConstIndicesResolved(b, s);
    case Binary(_, l, r) => ConstIndicesResolved(b, l); ConstIndicesResolved(b, r);
    case NotOptimized(s) => ConstIndicesResolved(b, s);
  }

  lemma {:induction false} ConstUpdatesResolved(b: Bindings, root: Array, u: UpdateNode, i: nat)
    requires HasConstUpdates(u)
    ensures ResolvedByte(b, root, u, i)
    decreases u
  {
    match u
    case Nil =>
    case Node(next, at, val) => ConstIndicesResolved(b, val); ConstUpdatesResolved(b, root, next, i);
  }

  // ------------------------------------------------ substitution as an expression

  /** The bytes of a seed, written over an array. */
  function SeedUpdates(bytes: seq<byte>, n: nat): UpdateNode
    requires n <= |bytes|
  {
    if n == 0 then Nil else Node(SeedUpdates(bytes, n - 1), Const(32, n - 1), Const(8, bytes[n - 1]))
  }

  /** The expression with the seed substituted, whatever its indices are. */
  function Substitute(b: Bindings, e: Expr): Expr
    decreases e
  {
    match e
    case Const(_, _) => e
    case Read(root, u, i) => Read(root, SubstituteUpdates(b, root, u), Substitute(b, i))
    case Select(c, t, f) => Select(Substitute(b, c), Substitute(b, t), Substitute(b, f))
    case Concat(h, l) => Concat(Substitute(b, h), Substitute(b, l))
    case Extract(s, off, w) => Extract(Substitute(b, s), off, w)
    case ZExt(s, w) => ZExt(Substitute(b, s), w)
    case SExt(s, w) => SExt(Substitute(b, s), w)
    case Binary(op, l, r) => Binary(op, Substitute(b, l), Substitute(b, r))
    case NotOptimized(s) => NotOptimized(Substitute(b, s))
  }

  function SubstituteUpdates(b: Bindings, root: Array, u: UpdateNode): UpdateNode
    decreases u
  {
    match u
    case Nil => if root in b then SeedUpdates(b[root], |b[root]|) else Nil
    case Node(next, at, val) => Node(SubstituteUpdates(b, root, next), Substitute(b, at), Substitute(b, val))
  }

  lemma {:induction false} SeedUpdatesMean(root: Array, bytes: seq<byte>, n: nat, i: nat, sigma: Assignment)
    requires n <= |bytes| < UINT32
    ensures UpdatesWellFormed(SeedUpdates(bytes, n))
    ensures Lookup(Some(root), SeedUpdates(bytes, n), i, sigma) ==
            if i < n then bytes[i] else RootByte(Some(root), i, sigma)
  {
    if n > 0 {
      SeedUpdatesMean(root, bytes, n - 1, i, sigma);
      Pow2Values();
      hide Pow2;
      assert WellFormed(Const(32, n - 1)) && WellFormed(Const(8, bytes[n - 1]));
    }
  }

  lemma {:induction false} SubstituteShape(b: Bindings, e: Expr)
    requires IsBindings(b) && WellFormed(e)
    ensures WellFormed(Substitute(b, e)) && Width(Substitute(b, e)) == Width(e)
    decreases e
  {
    match e
    case Const(_, _) =>
    case Read(root, u, i) => SubstituteShape(b, i); SubstituteUpdatesShape(b, root, u);
    case Select(c, t, f) => SubstituteShape(b, c); SubstituteShape(b, t); SubstituteShape(b, f);
    case Concat(h, l) => SubstituteShape(b, h); SubstituteShape(b, l);
    case Extract(s, _, _) => SubstituteShape(b, s);
    case ZExt(s, _) => SubstituteShape(b, s);
    case SExt(s, _) => SubstituteShape(b, s);
    case Binary(_, l, r) => SubstituteShape(b, l); SubstituteShape(b, r);
    case NotOptimized(s) => SubstituteShape(b, s);
  }

  lemma {:induction false} SubstituteUpdatesShape(b: Bindings, root: Array, u: UpdateNode)
    requires IsBindings(b) && UpdatesWellFormed(u)
    ensures UpdatesWellFormed(SubstituteUpdates(b, root, u))
    decreases u
  {
    match u
    case Nil => if root in b { SeedUpdatesMean(root, b[root], |b[root]|, 0, Zero()); }
    case Node(next, at, val) =>
      SubstituteUpdatesShape(b, root, next);
      SubstituteShape(b, at);
      SubstituteShape(b, val);
  }

  lemma {:induction false} SubstituteMeaning(b: Bindings, e: Expr, sigma: Assignment)
    requires IsBindings(b) && WellFormed(e)
    ensures Eval(Substitute(b, e), sigma) == Eval(e, Override(b, sigma))
    decreases e
  {
    SubstituteWidths(b, e);
    hide ConcatBits, ExtractBits, SignExtend, EvalBinary, Override, RootByte, Width;
    match e
    case Const(_, _) =>
    case Read(root, u, i) =>
      SubstituteMeaning(b, i, sigma);
      SubstituteLookup(b, root, u, Eval(i, Override(b, sigma)), sigma);
    case Select(c, t, f) =>
      SubstituteMeaning(b, c, sigma);
      SubstituteMeaning(b, t, sigma);
      SubstituteMeaning(b, f, sigma);
    case Concat(h, l) => SubstituteMeaning(b, h, sigma); SubstituteMeaning(b, l, sigma);
    case Extract(s, _, _) => SubstituteMeaning(b, s, sigma);
    case ZExt(s, _) => SubstituteMeaning(b, s, sigma);
    case SExt(s, _) => SubstituteMeaning(b, s, sigma);
    case Binary(_, l, r) => SubstituteMeaning(b, l, sigma); SubstituteMeaning(b, r, sigma);
    case NotOptimized(s) => SubstituteMeaning(b, s, sigma);
  }

  /** The widths the meaning of a node depends on. */
  lemma SubstituteWidths(b: Bindings, e: Expr)
    requires IsBindings(b) && WellFormed(e)
    ensures e.Concat? ==> Width(Substitute(b, e.low)) == Width(e.low)
    ensures e.SExt? ==> Width(Substitute(b, e.ssrc)) == Width(e.ssrc)
    ensures e.Binary? ==> Width(Substitute(b, e.left)) == Width(e.left)
  {
    if e.Concat? { SubstituteShape(b, e.low); }
    if e.SExt? { SubstituteShape(b, e.ssrc); }
    if e.Binary? { SubstituteShape(b, e.left); }
  }

  lemma {:induction false} SubstituteLookup(b: Bindings, root: Array, u: UpdateNode, i: nat, sigma: Assignment)
    requires IsBindings(b) && UpdatesWellFormed(u)
    ensures Lookup(Some(root), SubstituteUpdates(b, root, u), i, sigma) == Lookup(Some(root), u, i, Override(b, sigma))
    decreases u
  {
    match u
    case Nil => if root in b { SeedUpdatesMean(root, b[root], |b[root]|, i, sigma); }
    case Node(next, at, val) =>
      hide Override, RootByte;
      SubstituteMeaning(b, at, sigma);
      SubstituteMeaning(b, val, sigma);
      SubstituteLookup(b, root, next, i, sigma);
  }

  // -------------------------------------------------------------- evaluating

  /** What evaluation promises: the same meaning wherever the seed holds, a constant if
      the seed determines the expression, and the exact meaning where no simplification
      can decide whether a read is kept. */
  ghost predicate Evaluates(b: Bindings, e: Expr, r: Expr) {
    && WellFormed(r) && Width(r) == Width(e)
    && Follows(b, e, r)
    && (Known(b, e) ==> r.Const?)
    && (Clear(b, e) ==> MeansPartial(b, e, r))
  }

  ghost predicate Follows(b: Bindings, e: Expr, r: Expr) {
    forall sigma: Assignment :: Agrees(b, sigma) ==> Eval(r, sigma) == Eval(e, sigma)
  }

  ghost predicate MeansPartial(b: Bindings, e: Expr, r: Expr) {
    forall sigma: Assignment :: Eval(r, sigma) == Partial(b, e, sigma)
  }

  ghost predicate EvaluatesByte(b: Bindings, root: Array, u: UpdateNode, i: nat, r: Expr) {
    && WellFormed(r) && Width(r) == 8
    && FollowsByte(b, root, u, i, r)
    && (KnownByte(b, root, u, i) ==> r.Const?)
    && (ClearByte(b, root, u, i) ==> MeansPartialByte(b, root, u, i, r))
  }

  ghost predicate FollowsByte(b: Bindings, root: Array, u: UpdateNode, i: nat, r: Expr) {
    forall sigma: Assignment :: Agrees(b, sigma) ==> Eval(r, sigma) == Lookup(Some(root), u, i, sigma)
  }

  ghost predicate MeansPartialByte(b: Bindings, root: Array, u: UpdateNode, i: nat, r: Expr) {
    forall sigma: Assignment :: Eval(r, sigma) == PartialByte(b, root, u, i, sigma)
  }

  /** Where every index is known, the evaluated expression is the expression with the
      seed substituted. */
  lemma Substitutes(b: Bindings, e: Expr, r: Expr, sigma: Assignment)
    requires Evaluates(b, e, r) && Resolved(b, e)
    ensures Eval(r, sigma) == Eval(e, Override(b, sigma))
  {
    ResolvedClear(b, e);
    hide Eval, Partial, Clear, Resolved, Known, WellFormed, Width;
    ResolvedMeaning(b, e, sigma);
  }

  method Evaluate(b: Bindings, e: Expr) returns (r: Expr)
    requires IsBindings(b) && WellFormed(e)
    ensures Evaluates(b, e, r)
    decreases e, 1
  {
    Parts(e);
    hide Eval, Lookup, WellFormed, Width, IsBindings, Evaluates, EvaluatesByte;
    match e {
      case Const(_, _) =>
        r := e;
        ConstEvaluates(b, e);
      case Read(root, u, index) =>
        var i := Evaluate(b, index);
        if i.Const? {
          IndexRange(b, root, u, index, i);
          r := EvaluateRead(b, root, u, i.value);
          ReadEvaluates(b, root, u, index, i, r);
        } else {
          r := Rebuild(b, e, Read(root, u, i));
        }
      case Select(c, t, f) =>
        var c' := Evaluate(b, c);
        var t' := Evaluate(b, t);
        var f' := Evaluate(b, f);
        r := Rebuild(b, e, Select(c', t', f'));
      case Concat(h, l) =>
        var h' := Evaluate(b, h);
        var l' := Evaluate(b, l);
        r := Rebuild(b, e, Concat(h', l'));
      case Extract(s, off, w) =>
        var s' := Evaluate(b, s);
        r := Rebuild(b, e, Extract(s', off, w));
      case ZExt(s, w) =>
        var s' := Evaluate(b, s);
        r := Rebuild(b, e, ZExt(s', w));
      case SExt(s, w) =>
        var s' := Evaluate(b, s);
        r := Rebuild(b, e, SExt(s', w));
      case Binary(op, x, y) =>
        var x' := Evaluate(b, x);
        var y' := Evaluate(b, y);
        r := Rebuild(b, e, Binary(op, x', y'));
      case NotOptimized(s) =>
        r := Evaluate(b, s);
        Unwrapped(b, e, r);
    }
  }

  predicate PartsOk(e: Expr) {
    match e
    case Const(_, _) => true
    case Read(_, u, i) => UpdatesWellFormed(u) && WellFormed(i)
    case Select(c, t, f) => WellFormed(c) && WellFormed(t) && WellFormed(f)
    case Concat(h, l) => WellFormed(h) && WellFormed(l)
    case Extract(s, _, _) => WellFormed(s)
    case ZExt(s, _) => WellFormed(s)
    case SExt(s, _) => WellFormed(s)
    case Binary(_, l, r) => WellFormed(l) && WellFormed(r)
    case NotOptimized(s) => WellFormed(s)
  }

  lemma Parts(e: Expr)
    requires WellFormed(e)
    ensures PartsOk(e)
  {
  }

  lemma ConstEvaluates(b: Bindings, e: Expr)
    requires e.Const? && WellFormed(e)
    ensures Evaluates(b, e, e)
  {
  }

  lemma Unwrapped(b: Bindings, e: Expr, r: Expr)
    requires e.NotOptimized? && Evaluates(b, e.inner, r)
    ensures Evaluates(b, e, r)
  {
    hide Agrees;
    assert Width(e) == Width(e.inner) && Clear(b, e) == Clear(b, e.inner) && Known(b, e) == Known(b, e.inner);
    forall sigma: Assignment
      ensures Eval(e, sigma) == Eval(e.inner, sigma) && Partial(b, e, sigma) == Partial(b, e.inner, sigma)
    {
    }
    hide Eval, Partial, Clear, Known, Width, WellFormed;
  }

  lemma IndexRange(b: Bindings, root: Array, u: UpdateNode, index: Expr, i: Expr)
    requires WellFormed(Read(root, u, index)) && Evaluates(b, index, i) && i.Const?
    ensures i.value < UINT32
  {
    Pow2Values();
  }

  lemma ConstNotOpen(b: Bindings, e: Expr, r: Expr)
    requires MeansPartial(b, e, r) && r.Const?
    ensures !Open(b, e) && Value(b, e) == r.value
  {
    hide Partial;
    forall sigma: Assignment ensures Partial(b, e, sigma) == r.value {
      assert Eval(r, sigma) == r.value;
    }
  }

  /** A constant index is the value the seed determines, unless the expression is not
      clear. */
  lemma ConstIndex(b: Bindings, index: Expr, i: Expr)
    requires Evaluates(b, index, i) && i.Const?
    ensures Known(b, index) || (Clear(b, index) && Open(b, index)) ==> Known(b, index) && Value(b, index) == i.value
  {
    hide Partial, Clear, Known, Follows, MeansPartial, Open;
    if Known(b, index) {
      KnownResolved(b, index);
      ResolvedClear(b, index);
    }
    if Clear(b, index) { ConstNotOpen(b, index, i); }
  }

  lemma ReadEvaluates(b: Bindings, root: Array, u: UpdateNode, index: Expr, i: Expr, r: Expr)
    requires Evaluates(b, index, i) && i.Const? && EvaluatesByte(b, root, u, i.value, r)
    ensures Evaluates(b, Read(root, u, index), r)
  {
    var e := Read(root, u, index);
    ConstIndex(b, index, i);
    assert Known(b, e) ==> KnownByte(b, root, u, i.value);
    assert Clear(b, e) ==> Known(b, index) && ClearByte(b, root, u, i.value);
    forall sigma: Assignment
      ensures Agrees(b, sigma) ==> Eval(e, sigma) == Lookup(Some(root), u, i.value, sigma)
      ensures Clear(b, e) ==> Partial(b, e, sigma) == PartialByte(b, root, u, i.value, sigma)
    {
      hide Agrees, Lookup, PartialByte, Clear, Known, ClearByte, KnownByte;
      assert Agrees(b, sigma) ==> Eval(index, sigma) == Eval(i, sigma) == i.value;
    }
    assert Width(e) == 8;
    hide Eval, Partial, PartialByte, Lookup, Clear, ClearByte, Known, KnownByte, Width, WellFormed, Agrees;
  }

  /** The same node over evaluated operands. */
  ghost predicate SameNode(b: Bindings, e: Expr, e': Expr) {
    match (e, e')
    case (Read(root, u, i), Read(root', u', i')) =>
      root == root' && u == u' && Evaluates(b, i, i') && !i'.Const?
    case (Select(c, t, f), Select(c', t', f')) => Evaluates(b, c, c') && Evaluates(b, t, t') && Evaluates(b, f, f')
    case (Concat(h, l), Concat(h', l')) => Evaluates(b, h, h') && Evaluates(b, l, l')
    case (Extract(s, off, w), Extract(s', off', w')) => off == off' && w == w' && Evaluates(b, s, s')
    case (ZExt(s, w), ZExt(s', w')) => w == w' && Evaluates(b, s, s')
    case (SExt(s, w), SExt(s', w')) => w == w' && Evaluates(b, s, s')
    case (Binary(op, l, r), Binary(op', l', r')) => op == op' && Evaluates(b, l, l') && Evaluates(b, r, r')
    case (_, _) => false
  }

  method Rebuild(b: Bindings, e: Expr, e': Expr) returns (r: Expr)
    requires WellFormed(e) && SameNode(b, e, e')
    ensures Evaluates(b, e, r)
  {
    NodeFollows(b, e, e');
    if Clear(b, e) { NodeClear(b, e, e'); }
    r := Create(e');
    NodeKnown(b, e, e', r);
    hide Eval, Partial, Clear, Known, WellFormed, Width, Agrees, SameNode, Folds;
    assert Preserves(e', r);
  }

  lemma NodeFollows(b: Bindings, e: Expr, e': Expr)
    requires WellFormed(e) && SameNode(b, e, e')
    ensures WellFormed(e') && Width(e') == Width(e) && Follows(b, e, e')
  {
    hide Known, Clear, MeansPartial;
    forall sigma: Assignment | Agrees(b, sigma)
      ensures Eval(e', sigma) == Eval(e, sigma)
    {
      hide Agrees, ExtractBits, ConcatBits, SignExtend, EvalBinary, Pow2, Lookup;
    }
  }

  lemma NodeClear(b: Bindings, e: Expr, e': Expr)
    requires WellFormed(e) && SameNode(b, e, e') && Clear(b, e)
    ensures MeansPartial(b, e, e')
  {
    if e.Select? && Known(b, e.cond) { forall sigma: Assignment { KnownMeaning(b, e.cond, sigma); } }
    forall sigma: Assignment
      ensures Eval(e', sigma) == Partial(b, e, sigma)
    {
      hide Follows, ExtractBits, ConcatBits, SignExtend, EvalBinary, Pow2, Lookup, PartialByte, Open;
    }
  }

  lemma NodeKnown(b: Bindings, e: Expr, e': Expr, r: Expr)
    requires SameNode(b, e, e') && Folds(e', r)
    ensures Known(b, e) ==> r.Const?
  {
    hide Follows, Eval, PartialByte;
    if e.Select? && Known(b, e) {
      KnownResolved(b, e.cond);
      ResolvedClear(b, e.cond);
      ConstNotOpen(b, e.cond, e'.cond);
    }
  }

  method EvaluateRead(b: Bindings, root: Array, u: UpdateNode, i: nat) returns (r: Expr)
    requires IsBindings(b) && UpdatesWellFormed(u) && i < UINT32
    ensures EvaluatesByte(b, root, u, i, r)
    decreases u, 0
  {
    hide Eval, Lookup, WellFormed, Width, IsBindings, Evaluates, EvaluatesByte;
    match u {
      case Nil => r := EvaluateRoot(b, root, i);
      case Node(next, at, val) =>
        NodeParts(u);
        var at' := Evaluate(b, at);
        if !at'.Const? {
          r := KeepRead(b, root, u, i);
          KeptByte(b, root, u, i, at', r);
        } else if at'.value == i {
          r := Evaluate(b, val);
          HitByte(b, root, u, i, at', r);
        } else {
          r := EvaluateRead(b, root, next, i);
          MissByte(b, root, u, i, at', r);
        }
    }
  }

  lemma NodeParts(u: UpdateNode)
    requires u.Node? && UpdatesWellFormed(u)
    ensures UpdatesWellFormed(u.next) && WellFormed(u.at) && WellFormed(u.val) && Width(u.val) == 8
  {
  }

  ghost predicate MeansLookup(root: Array, u: UpdateNode, i: nat, r: Expr) {
    forall sigma: Assignment :: Eval(r, sigma) == Lookup(Some(root), u, i, sigma)
  }

  method KeepRead(b: Bindings, root: Array, u: UpdateNode, i: nat) returns (r: Expr)
    requires UpdatesWellFormed(u) && i < UINT32
    ensures WellFormed(r) && Width(r) == 8 && MeansLookup(root, u, i, r)
  {
    Const32(i);
    var e := Read(root, u, Const(32, i));
    assert forall sigma: Assignment :: Eval(e, sigma) == Lookup(Some(root), u, i, sigma);
    assert WellFormed(e) && Width(e) == 8;
    hide Eval, Lookup, WellFormed, Width;
    r := Create(e);
  }

  lemma KeptByte(b: Bindings, root: Array, u: UpdateNode, i: nat, at: Expr, r: Expr)
    requires u.Node? && Evaluates(b, u.at, at) && !at.Const?
    requires WellFormed(r) && Width(r) == 8 && MeansLookup(root, u, i, r)
    ensures EvaluatesByte(b, root, u, i, r)
  {
    assert !Known(b, u.at);
    assert !KnownByte(b, root, u, i);
    forall sigma: Assignment
      ensures PartialByte(b, root, u, i, sigma) == Lookup(Some(root), u, i, sigma)
    {
    }
    hide Eval, Lookup, PartialByte, Known, Clear, ClearByte, KnownByte, WellFormed, Width, Agrees, Evaluates;
  }

  lemma HitByte(b: Bindings, root: Array, u: UpdateNode, i: nat, at: Expr, r: Expr)
    requires u.Node? && Evaluates(b, u.at, at) && at.Const? && at.value == i
    requires Width(u.val) == 8 && Evaluates(b, u.val, r)
    ensures EvaluatesByte(b, root, u, i, r)
  {
    ConstIndex(b, u.at, at);
    assert KnownByte(b, root, u, i) ==> Known(b, u.val);
    assert ClearByte(b, root, u, i) ==> Known(b, u.at) && Clear(b, u.val);
    forall sigma: Assignment
      ensures Agrees(b, sigma) ==> Lookup(Some(root), u, i, sigma) == Eval(u.val, sigma)
      ensures ClearByte(b, root, u, i) ==> PartialByte(b, root, u, i, sigma) == Partial(b, u.val, sigma)
    {
      hide Agrees, Partial, Clear, Known, ClearByte, KnownByte;
      assert Agrees(b, sigma) ==> Eval(u.at, sigma) == Eval(at, sigma) == i;
    }
    hide Eval, Partial, PartialByte, Lookup, Clear, ClearByte, Known, KnownByte, Width, WellFormed, Agrees;
  }

  lemma MissByte(b: Bindings, root: Array, u: UpdateNode, i: nat, at: Expr, r: Expr)
    requires u.Node? && Evaluates(b, u.at, at) && at.Const? && at.value != i
    requires EvaluatesByte(b, root, u.next, i, r)
    ensures EvaluatesByte(b, root, u, i, r)
  {
    ConstIndex(b, u.at, at);
    assert KnownByte(b, root, u, i) ==> KnownByte(b, root, u.next, i);
    assert ClearByte(b, root, u, i) ==> Known(b, u.at) && ClearByte(b, root, u.next, i);
    forall sigma: Assignment
      ensures Agrees(b, sigma) ==> Lookup(Some(root), u, i, sigma) == Lookup(Some(root), u.next, i, sigma)
      ensures ClearByte(b, root, u, i) ==>
                PartialByte(b, root, u, i, sigma) == PartialByte(b, root, u.next, i, sigma)
    {
      hide Agrees, Partial, Clear, Known, ClearByte, KnownByte;
      assert Agrees(b, sigma) ==> Eval(u.at, sigma) == Eval(at, sigma) == at.value;
    }
    hide Eval, Partial, PartialByte, Lookup, Clear, ClearByte, Known, KnownByte, Width, WellFormed, Agrees;
  }

  method EvaluateRoot(b: Bindings, root: Array, i: nat) returns (r: Expr)
    requires IsBindings(b) && i < UINT32
    ensures EvaluatesByte(b, root, Nil, i, r)
  {
    RootBytes(b, root, i);
    hide Eval, Lookup, WellFormed, Width, EvaluatesByte, IsBindings;
    if i < |root.constants| {
      r := Const(8, root.constants[i]);
    } else if root in b && i < |b[root]| {
      r := Const(8, b[root][i]);
    } else {
      r := KeepRead(b, root, Nil, i);
      FreeByte(b, root, i, r);
    }
  }

  lemma RootBytes(b: Bindings, root: Array, i: nat)
    requires IsBindings(b)
    ensures UpdatesWellFormed(Nil)
    ensures i < |root.constants| ==> EvaluatesByte(b, root, Nil, i, Const(8, root.constants[i]))
    ensures root in b && i < |b[root]| ==> EvaluatesByte(b, root, Nil, i, Const(8, b[root][i]))
  {
    Pow2Values();
    forall sigma: Assignment
      ensures Lookup(Some(root), Nil, i, sigma) == RootByte(Some(root), i, sigma)
      ensures PartialByte(b, root, Nil, i, sigma) == RootByte(Some(root), i, Override(b, sigma))
    {
    }
  }

  lemma FreeByte(b: Bindings, root: Array, i: nat, r: Expr)
    requires i >= |root.constants| && !(root in b && i < |b[root]|)
    requires WellFormed(r) && Width(r) == 8 && MeansLookup(root, Nil, i, r)
    ensures EvaluatesByte(b, root, Nil, i, r)
  {
    forall sigma: Assignment
      ensures PartialByte(b, root, Nil, i, sigma) == Lookup(Some(root), Nil, i, sigma)
    {
    }
    assert !KnownByte(b, root, Nil, i);
    hide Eval, Lookup, PartialByte, ClearByte, KnownByte, WellFormed, Width, Agrees;
  }
}
