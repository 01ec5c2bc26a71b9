/**
 The plain array of symbolic bytes that a memory object stands for, and the
 multi-byte stores and loads on it: the reference against which the cached
 representation of ObjectStates is proved.
 */
module ByteOrder {
  import opened Arithmetic
  import opened Exprs

  ghost predicate IsBytes(bytes: seq<Expr>) {
    forall i :: 0 <= i < |bytes| ==> WellFormed(bytes[i]) && Width(bytes[i]) == 8
  }

  /** A boolean takes one byte; every other width is a whole number of bytes. */
  predicate IsAccessWidth(width: nat) { width == 1 || (width > 0 && width % 8 == 0) }

  function NumBytes(width: nat): (n: nat) { if width == 1 then 1 else width / 8 }

  /** The bytes of a value, the low byte first; a boolean is widened to a byte. */
  function Parts(value: Expr): (parts: seq<Expr>)
    ensures |parts| == NumBytes(Width(value))
  {
    var v := if Width(value) == 1 then ZExt(value, 8) else value;
    seq(NumBytes(Width(value)), k requires 0 <= k => Extract(v, 8 * k, 8))
  }

  /** Where byte k of an n-byte value goes. */
  function ByteIndex(littleEndian: bool, n: nat, k: nat): (i: nat)
    requires k < n
    ensures i < n
    ensures littleEndian ==> i == k
    ensures !littleEndian ==> i + k + 1 == n
  {
    if littleEndian then k else n - k - 1
  }

  /** The array after a store at a known offset. */
  function Store(bytes: seq<Expr>, offset: nat, parts: seq<Expr>, littleEndian: bool): (r: seq<Expr>)
    requires offset + |parts| <= |bytes|
    ensures |r| == |bytes|
  {
    seq(|bytes|, j requires 0 <= j < |bytes| =>
      if offset <= j < offset + |parts| then parts[ByteIndex(littleEndian, |parts|, j - offset)] else bytes[j])
  }

  /** The array after the first k parts are stored at a known offset. */
  function StoreLow(bytes: seq<Expr>, offset: nat, parts: seq<Expr>, k: nat, littleEndian: bool): (r: seq<Expr>)
    requires k <= |parts| && offset + |parts| <= |bytes|
    ensures |r| == |bytes|
  {
    if k == 0 then bytes
    else StoreLow(bytes, offset, parts, k - 1, littleEndian)[
           offset + ByteIndex(littleEndian, |parts|, k - 1) := parts[k - 1]]
  }

  /** The k low bytes of an n-byte load, the first byte read innermost. */
  function LoadLow(bytes: seq<Expr>, offset: nat, n: nat, k: nat, littleEndian: bool): Expr
    requires 0 < k <= n && offset + n <= |bytes|
  {
    var b := bytes[offset + ByteIndex(littleEndian, n, k - 1)];
    if k == 1 then b else Concat(b, LoadLow(bytes, offset, n, k - 1, littleEndian))
  }

  /** A load at a known offset. */
  function Load(bytes: seq<Expr>, offset: nat, width: nat, littleEndian: bool): Expr
    requires IsAccessWidth(width)
    requires offset + NumBytes(width) <= |bytes|
  {
    if width == 1 then Extract(bytes[offset], 0, 1)
    else LoadLow(bytes, offset, NumBytes(width), NumBytes(width), littleEndian)
  }

  /** The array after one byte is stored at a symbolic offset. */
  function StoreByteAt(bytes: seq<Expr>, offset: Expr, value: Expr): (r: seq<Expr>)
    ensures |r| == |bytes|
  {
    seq(|bytes|, j requires 0 <= j < |bytes| => Select(Binary(Eq, offset, Const(32, j)), value, bytes[j]))
  }

  function Plus(offset: Expr, k: nat): Expr { Binary(Add, offset, Const(32, k)) }

  /** The array after the first k parts are stored at a symbolic offset. */
  function StoreLowAt(bytes: seq<Expr>, offset: Expr, parts: seq<Expr>, k: nat, littleEndian: bool): (r: seq<Expr>)
    requires k <= |parts|
    ensures |r| == |bytes|
  {
    if k == 0 then bytes
    else StoreByteAt(StoreLowAt(bytes, offset, parts, k - 1, littleEndian),
                     Plus(offset, ByteIndex(littleEndian, |parts|, k - 1)), parts[k - 1])
  }

  function StoreAt(bytes: seq<Expr>, offset: Expr, parts: seq<Expr>, littleEndian: bool): (r: seq<Expr>)
    ensures |r| == |bytes|
  {
    StoreLowAt(bytes, offset, parts, |parts|, littleEndian)
  }

  // -------------------------------------------------- a load after a store

  lemma PartMeaning(value: Expr, k: nat, sigma: Assignment)
    requires WellFormed(value) && IsAccessWidth(Width(value)) && k < NumBytes(Width(value))
    ensures WellFormed(Parts(value)[k]) && Width(Parts(value)[k]) == 8
    ensures Eval(Parts(value)[k], sigma) == Eval(value, sigma) / Pow2(8 * k) % 256
  {
    assert Pow2(8) == 256;
  }

  lemma PartsAreBytes(value: Expr)
    requires WellFormed(value) && IsAccessWidth(Width(value))
    ensures IsBytes(Parts(value))
  {
    hide Eval, WellFormed, Width;
    forall k | 0 <= k < |Parts(value)|
      ensures WellFormed(Parts(value)[k]) && Width(Parts(value)[k]) == 8
    {
      PartMeaning(value, k, (_, _) => 0);
    }
  }

  /** The k low parts put together again. */
  function JoinLow(parts: seq<Expr>, k: nat): Expr
    requires 0 < k <= |parts|
  {
    if k == 1 then parts[0] else Concat(parts[k - 1], JoinLow(parts, k - 1))
  }

  lemma StoredPart(bytes: seq<Expr>, offset: nat, parts: seq<Expr>, k: nat, littleEndian: bool)
    requires k < |parts| && offset + |parts| <= |bytes|
    ensures Store(bytes, offset, parts, littleEndian)[offset + ByteIndex(littleEndian, |parts|, k)] == parts[k]
  {
    var i := ByteIndex(littleEndian, |parts|, k);
    var j := offset + i;
    assert j - offset == i && ByteIndex(littleEndian, |parts|, i) == k;
    assert Store(bytes, offset, parts, littleEndian)[j] == parts[ByteIndex(littleEndian, |parts|, j - offset)];
  }

  lemma {:induction false} StoreLowAsStore(bytes: seq<Expr>, offset: nat, parts: seq<Expr>, k: nat, littleEndian: bool)
    requires k <= |parts| && offset + |parts| <= |bytes|
    ensures forall j :: 0 <= j < |bytes| ==>
              StoreLow(bytes, offset, parts, k, littleEndian)[j]
              == if offset <= j < offset + |parts| && ByteIndex(littleEndian, |parts|, j - offset) < k
                 then parts[ByteIndex(littleEndian, |parts|, j - offset)] else bytes[j]
  {
    if k > 0 { StoreLowAsStore(bytes, offset, parts, k - 1, littleEndian); }
  }

  lemma StoreByParts(bytes: seq<Expr>, offset: nat, parts: seq<Expr>, littleEndian: bool)
    requires offset + |parts| <= |bytes|
    ensures StoreLow(bytes, offset, parts, |parts|, littleEndian) == Store(bytes, offset, parts, littleEndian)
  {
    StoreLowAsStore(bytes, offset, parts, |parts|, littleEndian);
  }

  lemma {:induction false} LoadLowOfStore(bytes: seq<Expr>, offset: nat, parts: seq<Expr>, k: nat, littleEndian: bool)
    requires 0 < k <= |parts| && offset + |parts| <= |bytes|
    ensures LoadLow(Store(bytes, offset, parts, littleEndian), offset, |parts|, k, littleEndian) == JoinLow(parts, k)
  {
    StoredPart(bytes, offset, parts, k - 1, littleEndian);
    if k > 1 { LoadLowOfStore(bytes, offset, parts, k - 1, littleEndian); }
  }

  lemma ConcatByte(b: Expr, low: Expr, v: nat, k: nat, sigma: Assignment)
    requires Width(low) == 8 * k && Width(b) == 8
    requires Eval(low, sigma) == v % Pow2(8 * k) && Eval(b, sigma) == v / Pow2(8 * k) % 256
    ensures Width(Concat(b, low)) == 8 * (k + 1)
    ensures Eval(Concat(b, low), sigma) == v % Pow2(8 * (k + 1))
  {
    Pow2Add(8 * k, 8);
    assert Pow2(8) == 256;
    DivModSplit(v, Pow2(8 * k), 256);
  }

  lemma {:induction false} JoinLowMeaning(value: Expr, k: nat, sigma: Assignment)
    requires WellFormed(value) && Width(value) % 8 == 0 && 0 < k <= NumBytes(Width(value))
    ensures Width(JoinLow(Parts(value), k)) == 8 * k
    ensures Eval(JoinLow(Parts(value), k), sigma) == Eval(value, sigma) % Pow2(8 * k)
  {
    var v := Eval(value, sigma);
    PartMeaning(value, k - 1, sigma);
    hide Eval, Width, Parts, WellFormed;
    if k == 1 {
      assert Pow2(0) == 1 && Pow2(8) == 256 && v / 1 == v;
    } else {
      JoinLowMeaning(value, k - 1, sigma);
      ConcatByte(Parts(value)[k - 1], JoinLow(Parts(value), k - 1), v, k - 1, sigma);
    }
  }

  lemma BoolRoundTrip(value: Expr, sigma: Assignment)
    requires WellFormed(value) && Width(value) == 1
    ensures Eval(Extract(Parts(value)[0], 0, 1), sigma) == Eval(value, sigma)
  {
    EvalRange(value, sigma);
    PartMeaning(value, 0, sigma);
    assert Pow2(0) == 1 && Pow2(1) == 2;
    ByteBit(Eval(value, sigma));
  }

  lemma ByteBit(v: nat)
    requires v < 2
    ensures v / 1 % 256 / 1 % 2 == v
  {
  }

  lemma BytesRoundTrip(value: Expr, sigma: Assignment)
    requires WellFormed(value) && Width(value) % 8 == 0 && Width(value) > 0
    ensures Eval(JoinLow(Parts(value), NumBytes(Width(value))), sigma) == Eval(value, sigma)
  {
    var n := NumBytes(Width(value));
    EvalRange(value, sigma);
    JoinLowMeaning(value, n, sigma);
    assert 8 * n == Width(value);
    ModUnique(Eval(value, sigma), Pow2(8 * n), 0, Eval(value, sigma));
  }

  /** Loading what was just stored gives the value back, whatever the byte order. */
  lemma LoadOfStore(bytes: seq<Expr>, offset: nat, value: Expr, littleEndian: bool, sigma: Assignment)
    requires WellFormed(value) && IsAccessWidth(Width(value))
    requires offset + NumBytes(Width(value)) <= |bytes|
    ensures Eval(Load(Store(bytes, offset, Parts(value), littleEndian), offset, Width(value), littleEndian), sigma)
            == Eval(value, sigma)
  {
    var parts := Parts(value);
    if Width(value) == 1 {
      StoredPart(bytes, offset, parts, 0, littleEndian);
      BoolRoundTrip(value, sigma);
    } else {
      LoadLowOfStore(bytes, offset, parts, |parts|, littleEndian);
      BytesRoundTrip(value, sigma);
    }
  }

  lemma {:induction false} LoadLowFrame(a: seq<Expr>, b: seq<Expr>, offset: nat, n: nat, k: nat, littleEndian: bool,
                                        sigma: Assignment)
    requires |a| == |b| && 0 < k <= n && offset + n <= |a|
    requires IsBytes(a) && IsBytes(b)
    requires forall j :: offset <= j < offset + n ==> Eval(a[j], sigma) == Eval(b[j], sigma)
    ensures Width(LoadLow(a, offset, n, k, littleEndian)) == Width(LoadLow(b, offset, n, k, littleEndian)) == 8 * k
    ensures WellFormed(LoadLow(a, offset, n, k, littleEndian))
    ensures Eval(LoadLow(a, offset, n, k, littleEndian), sigma) == Eval(LoadLow(b, offset, n, k, littleEndian), sigma)
  {
    if k > 1 { LoadLowFrame(a, b, offset, n, k - 1, littleEndian, sigma); }
  }

  /** A load depends only on the bytes it covers: a store elsewhere is invisible to it. */
  lemma LoadFrame(a: seq<Expr>, b: seq<Expr>, offset: nat, width: nat, littleEndian: bool, sigma: Assignment)
    requires |a| == |b| && IsAccessWidth(width) && offset + NumBytes(width) <= |a|
    requires IsBytes(a) && IsBytes(b)
    requires forall j :: offset <= j < offset + NumBytes(width) ==> Eval(a[j], sigma) == Eval(b[j], sigma)
    ensures Width(Load(a, offset, width, littleEndian)) == width && WellFormed(Load(a, offset, width, littleEndian))
    ensures Eval(Load(a, offset, width, littleEndian), sigma) == Eval(Load(b, offset, width, littleEndian), sigma)
  {
    if width != 1 { LoadLowFrame(a, b, offset, NumBytes(width), NumBytes(width), littleEndian, sigma); }
  }

  // ------------------------------------------------------ symbolic offsets

  lemma PlusMeaning(offset: Expr, k: nat, sigma: Assignment)
    requires WellFormed(offset) && Width(offset) == 32 && k < UINT32
    ensures WellFormed(Plus(offset, k)) && Width(Plus(offset, k)) == 32
    ensures Eval(offset, sigma) + k < UINT32 ==> Eval(Plus(offset, k), sigma) == Eval(offset, sigma) + k
  {
    Const32(k);
    Pow2Values();
    hide Pow2;
  }

  lemma IsAt(offset: Expr, j: nat, sigma: Assignment)
    requires j < UINT32 && WellFormed(offset) && Width(offset) == 32
    ensures var e := Binary(Eq, offset, Const(32, j));
            WellFormed(e) && Width(e) == 1 && (Eval(e, sigma) == 1 <==> Eval(offset, sigma) == j)
  {
    Const32(j);
    hide Pow2;
  }

  lemma Choose(c: Expr, t: Expr, f: Expr, sigma: Assignment)
    requires WellFormed(c) && Width(c) == 1 && WellFormed(t) && WellFormed(f) && Width(t) == Width(f)
    ensures WellFormed(Select(c, t, f)) && Width(Select(c, t, f)) == Width(t)
    ensures Eval(Select(c, t, f), sigma) == if Eval(c, sigma) == 1 then Eval(t, sigma) else Eval(f, sigma)
  {
  }

  lemma SelectByte(offset: Expr, j: nat, value: Expr, b: Expr, sigma: Assignment)
    requires j < UINT32 && WellFormed(offset) && Width(offset) == 32
    requires WellFormed(value) && Width(value) == 8 && WellFormed(b) && Width(b) == 8
    ensures var e := Select(Binary(Eq, offset, Const(32, j)), value, b);
            WellFormed(e) && Width(e) == 8 &&
            Eval(e, sigma) == if Eval(offset, sigma) == j then Eval(value, sigma) else Eval(b, sigma)
  {
    IsAt(offset, j, sigma);
    Choose(Binary(Eq, offset, Const(32, j)), value, b, sigma);
    hide *;
  }

  lemma StoreByteAtMeaning(bytes: seq<Expr>, offset: Expr, value: Expr, sigma: Assignment)
    requires IsBytes(bytes) && |bytes| < UINT32
    requires WellFormed(offset) && Width(offset) == 32 && WellFormed(value) && Width(value) == 8
    ensures IsBytes(StoreByteAt(bytes, offset, value))
    ensures forall j :: 0 <= j < |bytes| ==>
              Eval(StoreByteAt(bytes, offset, value)[j], sigma)
              == if Eval(offset, sigma) == j then Eval(value, sigma) else Eval(bytes[j], sigma)
  {
    hide Eval, WellFormed, Width;
    var r := StoreByteAt(bytes, offset, value);
    forall j | 0 <= j < |bytes|
      ensures WellFormed(r[j]) && Width(r[j]) == 8
      ensures Eval(r[j], sigma) == if Eval(offset, sigma) == j then Eval(value, sigma) else Eval(bytes[j], sigma)
    {
      SelectByte(offset, j, value, bytes[j], sigma);
    }
  }

  /** What the first k parts of a symbolic store do under one assignment. */
  lemma {:induction false} StoreLowAtMeaning(bytes: seq<Expr>, offset: Expr, parts: seq<Expr>, k: nat,
                                             littleEndian: bool, sigma: Assignment)
    requires IsBytes(bytes) && |bytes| < UINT32 && IsBytes(parts) && |parts| <= |bytes|
    requires WellFormed(offset) && Width(offset) == 32 && k <= |parts|
    ensures IsBytes(StoreLowAt(bytes, offset, parts, k, littleEndian))
    ensures var o, n := Eval(offset, sigma), |parts|;
            o + n <= |bytes| ==>
              forall j :: 0 <= j < |bytes| ==>
                Eval(StoreLowAt(bytes, offset, parts, k, littleEndian)[j], sigma)
                == if o <= j < o + n && ByteIndex(littleEndian, n, j - o) < k
                   then Eval(parts[ByteIndex(littleEndian, n, j - o)], sigma)
                   else Eval(bytes[j], sigma)
  {
    hide Eval, WellFormed, Width, StoreByteAt, Plus;
    if k > 0 {
      var i := ByteIndex(littleEndian, |parts|, k - 1);
      StoreLowAtMeaning(bytes, offset, parts, k - 1, littleEndian, sigma);
      PlusMeaning(offset, i, sigma);
      StoreByteAtMeaning(StoreLowAt(bytes, offset, parts, k - 1, littleEndian), Plus(offset, i), parts[k - 1], sigma);
    }
  }

  /** A store at a symbolic offset is, under every assignment that keeps it in
      bounds, the store at the offset that assignment gives. */
  lemma StoreAtMeaning(bytes: seq<Expr>, offset: Expr, parts: seq<Expr>, littleEndian: bool, sigma: Assignment)
    requires IsBytes(bytes) && |bytes| < UINT32 && IsBytes(parts)
    requires WellFormed(offset) && Width(offset) == 32
    requires Eval(offset, sigma) + |parts| <= |bytes|
    ensures forall j :: 0 <= j < |bytes| ==>
              Eval(StoreAt(bytes, offset, parts, littleEndian)[j], sigma)
              == Eval(Store(bytes, Eval(offset, sigma), parts, littleEndian)[j], sigma)
  {
    hide Eval, WellFormed, Width, StoreLowAt;
    StoreLowAtMeaning(bytes, offset, parts, |parts|, littleEndian, sigma);
  }
}
