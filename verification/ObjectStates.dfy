/**
 The contents of one memory object. Bytes are cached in layers (a concrete
 store with its mask, known symbolic expressions, a mask of bytes not yet
 flushed) over an update list whose constant root array is built lazily.
 Every operation is proved against the plain array `bytes` of symbolic bytes.

 The buffers belong to the object alone and are sequence-valued fields.
 */
module ObjectStates {
  import opened Arithmetic
  import opened Exprs
  import opened ByteOrder
  import opened Solvers

  datatype MemoryObject = MemoryObject(id: nat, address: nat, size: nat)

  /** A missing mask has every bit set. */
  type Mask = Option<seq<bool>>

  predicate Get(mask: Mask, i: nat)
    requires mask.Some? ==> i < |mask.value|
  {
    mask.None? || mask.value[i]
  }

  function Set(mask: Mask, i: nat, size: nat): (r: Mask)
    requires i < size && (mask.Some? ==> |mask.value| == size)
    ensures r.Some? ==> |r.value| == size
    ensures forall j: nat :: j < size ==> Get(r, j) == (j == i || Get(mask, j))
  {
    if mask.None? then None else Some(mask.value[i := true])
  }

  function AllSet(size: nat): seq<bool> { seq(size, _ => true) }

  function Unset(mask: Mask, i: nat, size: nat): (r: Mask)
    requires i < size && (mask.Some? ==> |mask.value| == size)
    ensures r.Some? && |r.value| == size
    ensures forall j: nat :: j < size ==> Get(r, j) == (j != i && Get(mask, j))
  {
    Some((if mask.None? then AllSet(size) else mask.value)[i := false])
  }

  /** Flushing the first byte of a missing mask clears the whole mask. */
  function MarkFlushed(mask: Mask, i: nat, size: nat): (r: Mask)
    requires i < size && (mask.Some? ==> |mask.value| == size)
    ensures r.Some? && |r.value| == size
    ensures forall j: nat :: j < size ==> Get(r, j) == (mask.Some? && j != i && Get(mask, j))
  {
    if mask.None? then Some(seq(size, _ => false)) else Some(mask.value[i := false])
  }

  // ------------------------------------------------------ the update list

  /** Constant write positions lie inside the object. */
  predicate InBounds(u: UpdateNode, size: nat) {
    match u
    case Nil => true
    case Node(next, at, _) => InBounds(next, size) && (at.Const? ==> at.value < size)
  }

  /** The writes of an update list, oldest first. */
  function Writes(u: UpdateNode): seq<(Expr, Expr)> {
    match u
    case Nil => []
    case Node(next, at, val) => Writes(next) + [(at, val)]
  }

  function FromWrites(ws: seq<(Expr, Expr)>): UpdateNode {
    if ws == [] then Nil
    else Node(FromWrites(ws[..|ws| - 1]), ws[|ws| - 1].0, ws[|ws| - 1].1)
  }

  lemma {:induction false} FromWritesOfWrites(u: UpdateNode)
    ensures FromWrites(Writes(u)) == u
  {
    match u
    case Nil =>
    case Node(next, at, val) =>
      FromWritesOfWrites(next);
      assert Writes(u)[..|Writes(u)| - 1] == Writes(next);
  }

  predicate WriteOk(w: (Expr, Expr), size: nat) {
    WellFormed(w.0) && Width(w.0) == 32 && WellFormed(w.1) && Width(w.1) == 8 && (w.0.Const? ==> w.0.value < size)
  }

  lemma {:induction false} WritesOk(u: UpdateNode, size: nat)
    requires UpdatesWellFormed(u) && InBounds(u, size)
    ensures forall k :: 0 <= k < |Writes(u)| ==> WriteOk(Writes(u)[k], size)
  {
    match u
    case Nil =>
    case Node(next, at, val) => WritesOk(next, size);
  }

  /** An update list agrees with a byte when a lookup there always gives its value. */
  ghost predicate ListAgrees(b: Expr, root: Option<Array>, head: UpdateNode, i: nat) {
    forall sigma: Assignment :: Lookup(root, head, i, sigma) == Eval(b, sigma)
  }

  /** A rooted list and a rootless one that agree inside the object. */
  ghost predicate SameLookups(root: Array, head: UpdateNode, rootless: UpdateNode, size: nat) {
    forall i: nat, sigma: Assignment :: i < size ==>
      Lookup(Some(root), head, i, sigma) == Lookup(None, rootless, i, sigma)
  }

  /** Every lookup in a rootless list is a constant. */
  ghost predicate Folded(contents: seq<byte>, rootless: UpdateNode) {
    forall i: nat, sigma: Assignment :: i < |contents| ==> Lookup(None, rootless, i, sigma) == contents[i]
  }

  lemma FoldWrite(contents: seq<byte>, rootless: UpdateNode, at: Expr, val: Expr)
    requires Folded(contents, rootless) && at.Const? && val.Const? && at.value < |contents| && val.value < 256
    ensures Folded(contents[at.value := val.value], Node(rootless, at, val))
  {
  }

  lemma KeepWrite(root: Array, head: UpdateNode, rootless: UpdateNode, size: nat, at: Expr, val: Expr)
    requires SameLookups(root, head, rootless, size)
    ensures SameLookups(root, Node(head, at, val), Node(rootless, at, val), size)
  {
  }

  lemma FoldedRoot(contents: seq<byte>, rootless: UpdateNode, id: nat)
    requires Folded(contents, rootless)
    ensures SameLookups(Array(id, |contents|, contents), Nil, rootless, |contents|)
  {
  }

  /** Rebuilds a rootless update list over a constant array that takes in as many
      of its oldest writes as are constant. No lookup inside the object changes. */
  method Rebuild(writes: seq<(Expr, Expr)>, size: nat, id: nat) returns (root: Array, head: UpdateNode)
    requires forall k :: 0 <= k < |writes| ==> WriteOk(writes[k], size)
    ensures UpdatesWellFormed(head) && InBounds(head, size)
    ensures SameLookups(root, head, FromWrites(writes), size)
  {
    hide Eval, Lookup, WellFormed, Width, Pow2;
    var contents: seq<byte> := seq(size, _ => 0);
    var begin := 0;
    ZerosFold(contents);
    while begin < |writes| && writes[begin].0.Const? && writes[begin].1.Const?
      invariant begin <= |writes| && |contents| == size
      invariant Folded(contents, FromWrites(writes[..begin]))
    {
      var (at, val) := writes[begin];
      assert WriteOk(writes[begin], size);
      ByteRange(val);
      FoldWrite(contents, FromWrites(writes[..begin]), at, val);
      assert writes[..begin + 1][..begin] == writes[..begin];
      contents := contents[at.value := val.value];
      begin := begin + 1;
    }
    root := Array(id, size, contents);
    head := Nil;
    FoldedRoot(contents, FromWrites(writes[..begin]), id);
    while begin < |writes|
      invariant begin <= |writes|
      invariant UpdatesWellFormed(head) && InBounds(head, size)
      invariant SameLookups(root, head, FromWrites(writes[..begin]), size)
    {
      assert WriteOk(writes[begin], size);
      KeepWrite(root, head, FromWrites(writes[..begin]), size, writes[begin].0, writes[begin].1);
      assert writes[..begin + 1][..begin] == writes[..begin];
      head := Node(head, writes[begin].0, writes[begin].1);
      begin := begin + 1;
    }
    assert writes[..begin] == writes;
  }

  method CollectWrites(head: UpdateNode) returns (writes: seq<(Expr, Expr)>)
    ensures writes == Writes(head)
  {
    writes := [];
    var un := head;
    while un.Node?
      invariant Writes(head) == Writes(un) + writes
      decreases un
    {
      writes := [(un.at, un.val)] + writes;
      un := un.next;
    }
  }

  lemma ZerosFold(contents: seq<byte>)
    requires forall i :: 0 <= i < |contents| ==> contents[i] == 0
    ensures Folded(contents, Nil)
  {
  }

  // ------------------------------------------------------------ the cache

  /** The three cache invariants of one byte, and agreement of each layer with
      the byte's meaning. */
  ghost predicate CacheAgrees(b: Expr, concrete: bool, store: byte, known: Option<Expr>, unflushed: bool) {
    && (concrete ==> known.None? && forall sigma: Assignment :: Eval(b, sigma) == store)
    && (known.Some? ==> Preserves(b, known.value))
    && (unflushed ==> concrete || known.Some?)
  }

  /** Every byte has the same constant value. */
  function Filled(size: nat, v: byte): (r: seq<Expr>)
    ensures |r| == size
  {
    seq(size, _ => Const(8, v))
  }

  function ConstBytes(store: seq<byte>): (r: seq<Expr>)
    ensures |r| == |store|
  {
    seq(|store|, i requires 0 <= i < |store| => Const(8, store[i]))
  }

  /** Byte i is byte i of a symbolic array. */
  function SymbolicBytes(a: Array, size: nat): (r: seq<Expr>)
    ensures |r| == size
  {
    seq(size, i requires 0 <= i => Read(a, Nil, Const(32, i)))
  }

  lemma ConstByte(v: byte)
    ensures WellFormed(Const(8, v)) && Width(Const(8, v)) == 8
    ensures forall sigma: Assignment :: Eval(Const(8, v), sigma) == v
  {
    assert Pow2(8) == 256;
  }

  lemma ByteRange(e: Expr)
    requires WellFormed(e) && e.Const? && Width(e) == 8
    ensures e.value < 256 && e == Const(8, e.value)
  {
    assert Pow2(8) == 256;
  }

  lemma RebuiltAgrees(bytes: seq<Expr>, root: Array, head: UpdateNode, rootless: UpdateNode)
    requires SameLookups(root, head, rootless, |bytes|)
    ensures forall j: nat :: j < |bytes| && ListAgrees(bytes[j], None, rootless, j) ==>
              ListAgrees(bytes[j], Some(root), head, j)
  {
    hide Eval, Lookup;
  }

  lemma FlushedAt(b: Expr, root: Option<Array>, head: UpdateNode, i: nat, v: Expr)
    requires SameMeaning(b, v)
    ensures ListAgrees(b, root, Node(head, Const(32, i), v), i)
  {
  }

  lemma FlushedElsewhere(bytes: seq<Expr>, root: Option<Array>, head: UpdateNode, i: nat, v: Expr)
    ensures forall j: nat :: j < |bytes| && j != i && ListAgrees(bytes[j], root, head, j) ==>
              ListAgrees(bytes[j], root, Node(head, Const(32, i), v), j)
  {
    forall j: nat, sigma: Assignment | j < |bytes| && j != i
      ensures Lookup(root, Node(head, Const(32, i), v), j, sigma) == Lookup(root, head, j, sigma)
    {
    }
  }

  /** Extending the list at a symbolic position does to every listed byte what the
      plain array's store does. */
  lemma StoreByteAtAgrees(bytes: seq<Expr>, root: Option<Array>, head: UpdateNode, offset: Expr, value: Expr)
    requires IsBytes(bytes) && |bytes| < UINT32
    requires WellFormed(offset) && Width(offset) == 32 && WellFormed(value) && Width(value) == 8
    ensures IsBytes(StoreByteAt(bytes, offset, value))
    ensures forall j: nat :: j < |bytes| && ListAgrees(bytes[j], root, head, j) ==>
              ListAgrees(StoreByteAt(bytes, offset, value)[j], root, Node(head, offset, value), j)
  {
    StoreByteAtMeaning(bytes, offset, value, (_, _) => 0);
    hide Eval, WellFormed, Width, StoreByteAt;
    forall j: nat, sigma: Assignment | j < |bytes| && Lookup(root, head, j, sigma) == Eval(bytes[j], sigma)
      ensures Lookup(root, Node(head, offset, value), j, sigma)
              == Eval(StoreByteAt(bytes, offset, value)[j], sigma)
    {
      StoreByteAtMeaning(bytes, offset, value, sigma);
    }
  }

  lemma PartMeaningOfConst(value: Expr, k: nat)
    requires WellFormed(value) && value.Const? && IsAccessWidth(Width(value)) && k < NumBytes(Width(value))
    ensures SameMeaning(Const(8, value.value / Pow2(8 * k) % 256), Parts(value)[k])
  {
    forall sigma: Assignment
      ensures Eval(Parts(value)[k], sigma) == value.value / Pow2(8 * k) % 256
    {
      PartMeaning(value, k, sigma);
    }
  }

  lemma RestateOk(before: seq<Expr>, i: nat, got: Expr, asked: Expr)
    requires IsBytes(before) && i < |before| && WellFormed(asked) && Width(asked) == 8 && SameMeaning(got, asked)
    ensures IsBytes(before[i := asked])
    ensures var a, b := before[i := got], before[i := asked];
            forall j :: 0 <= j < |a| ==> SameMeaning(a[j], b[j])
  {
    hide Eval, WellFormed, Width;
  }

  /** Byte k of a value. */
  method CreatePart(value: Expr, k: nat) returns (r: Expr)
    requires WellFormed(value) && IsAccessWidth(Width(value)) && k < NumBytes(Width(value))
    ensures Preserves(Parts(value)[k], r)
  {
    var v := if Width(value) == 1 then ZExt(value, 8) else value;
    PartsAreBytes(value);
    assert Parts(value)[k] == Extract(v, 8 * k, 8);
    r := Create(Extract(v, 8 * k, 8));
  }

  /** The offset of byte idx. */
  method CreateIndex(offset: Expr, idx: nat, ghost asked: Expr) returns (r: Expr)
    requires WellFormed(asked) && Preserves(asked, offset) && Width(offset) == 32 && idx < UINT32
    ensures WellFormed(Plus(asked, idx)) && Preserves(Plus(asked, idx), r) && Width(r) == 32
    ensures !offset.Const? ==> !r.Const?
  {
    SameIndex(offset, idx, asked);
    hide Eval, WellFormed, Width, Pow2;
    r := CreateAdd(offset, Const(32, idx));
  }

  lemma SameIndex(offset: Expr, idx: nat, asked: Expr)
    requires WellFormed(asked) && Preserves(asked, offset) && Width(offset) == 32 && idx < UINT32
    ensures WellFormed(Const(32, idx)) && Width(Const(32, idx)) == 32
    ensures WellFormed(Plus(asked, idx)) && Width(Plus(asked, idx)) == 32
    ensures var sum := Binary(Add, offset, Const(32, idx));
            WellFormed(sum) && Width(sum) == 32 && SameMeaning(sum, Plus(asked, idx))
  {
    Const32(idx);
    var c := Const(32, idx);
    assert WellFormed(Binary(Add, offset, c)) && WellFormed(Plus(asked, idx));
    hide Eval, WellFormed;
    forall sigma: Assignment
      ensures Eval(Binary(Add, offset, c), sigma) == Eval(Binary(Add, asked, c), sigma)
    {
      SumSame(offset, asked, c, sigma);
    }
  }

  lemma SumSame(a: Expr, b: Expr, c: Expr, sigma: Assignment)
    requires Width(a) == Width(b) && Eval(a, sigma) == Eval(b, sigma)
    ensures Eval(Binary(Add, a, c), sigma) == Eval(Binary(Add, b, c), sigma)
  {
    hide EvalBinary, Width, Pow2;
  }

  /** A store only depends on the meaning of its offset and value. */
  lemma StoreByteAtSame(bytes: seq<Expr>, at: Expr, part: Expr, at': Expr, part': Expr)
    requires IsBytes(bytes) && |bytes| < UINT32
    requires WellFormed(at') && Preserves(at', at) && Width(at') == 32
    requires WellFormed(part') && Preserves(part', part) && Width(part') == 8
    ensures IsBytes(StoreByteAt(bytes, at', part'))
    ensures forall j :: 0 <= j < |bytes| ==>
              SameMeaning(StoreByteAt(bytes, at, part)[j], StoreByteAt(bytes, at', part')[j])
  {
    hide Eval, WellFormed, Width, StoreByteAt;
    StoreByteAtMeaning(bytes, at', part', (_, _) => 0);
    forall j, sigma: Assignment | 0 <= j < |bytes|
      ensures Eval(StoreByteAt(bytes, at, part)[j], sigma) == Eval(StoreByteAt(bytes, at', part')[j], sigma)
    {
      StoreByteAtMeaning(bytes, at, part, sigma);
      StoreByteAtMeaning(bytes, at', part', sigma);
    }
  }

  /** A store at an offset that is always c is the store at c. */
  lemma StoreAtConst(bytes: seq<Expr>, offset: Expr, c: nat, parts: seq<Expr>, littleEndian: bool)
    requires IsBytes(bytes) && |bytes| < UINT32 && IsBytes(parts) && c + |parts| <= |bytes|
    requires WellFormed(offset) && Width(offset) == 32
    requires forall sigma: Assignment :: Eval(offset, sigma) == c
    ensures IsBytes(StoreAt(bytes, offset, parts, littleEndian))
    ensures forall j :: 0 <= j < |bytes| ==>
              SameMeaning(Store(bytes, c, parts, littleEndian)[j], StoreAt(bytes, offset, parts, littleEndian)[j])
  {
    hide Eval, WellFormed, Width, Store, StoreLowAt;
    StoreLowAtMeaning(bytes, offset, parts, |parts|, littleEndian, (_, _) => 0);
    forall j, sigma: Assignment | 0 <= j < |bytes|
      ensures Eval(Store(bytes, c, parts, littleEndian)[j], sigma)
              == Eval(StoreAt(bytes, offset, parts, littleEndian)[j], sigma)
    {
      StoreAtMeaning(bytes, offset, parts, littleEndian, sigma);
    }
  }

  lemma ResizeOk(offset: Expr, size: nat)
    requires WellFormed(offset) && size < UINT32
    ensures WellFormed(Resize(offset, 32)) && Width(Resize(offset, 32)) == 32
    ensures forall sigma: Assignment :: Eval(offset, sigma) <= size ==>
              Eval(Resize(offset, 32), sigma) == Eval(offset, sigma)
  {
    Pow2Values();
    hide Eval, WellFormed, Width, Resize, Pow2;
    ResizeMeaning(offset, 32, (_, _) => 0);
    forall sigma: Assignment | Eval(offset, sigma) <= size
      ensures Eval(Resize(offset, 32), sigma) == Eval(offset, sigma)
    {
      ResizeMeaning(offset, 32, sigma);
    }
  }

  lemma ConstOffset(asked: Expr, c: nat, got: Expr)
    requires Preserves(asked, got) && got.Const? && got.value == c
    ensures forall sigma: Assignment :: Eval(asked, sigma) == c
  {
  }

  method CreateLowBit(b: Expr, ghost asked: Expr) returns (r: Expr)
    requires WellFormed(asked) && Width(asked) == 8 && Preserves(asked, b)
    ensures Preserves(Extract(asked, 0, 1), r)
  {
    r := Create(Extract(b, 0, 1));
  }

  method CreateLowBitAt(b: Expr, ghost bytes: seq<Expr>, ghost off: Expr) returns (r: Expr)
    requires WellFormed(b) && Width(b) == 8
    requires forall sigma: Assignment :: Eval(off, sigma) < |bytes| ==>
               Eval(b, sigma) == Eval(bytes[Eval(off, sigma)], sigma)
    ensures WellFormed(r) && Width(r) == 1
    ensures forall sigma: Assignment :: Eval(off, sigma) < |bytes| ==>
              Eval(r, sigma) == Eval(Extract(bytes[Eval(off, sigma)], 0, 1), sigma)
  {
    r := Create(Extract(b, 0, 1));
  }

  method CreateConcat(high: Expr, low: Expr, ghost high': Expr, ghost low': Expr) returns (r: Expr)
    requires Preserves(high', high) && Preserves(low', low)
    ensures Preserves(Concat(high', low'), r)
  {
    r := Create(Concat(high, low));
  }

  lemma LoadOk(bytes: seq<Expr>, offset: nat, width: nat, littleEndian: bool)
    requires IsBytes(bytes) && IsAccessWidth(width) && offset + NumBytes(width) <= |bytes|
    ensures WellFormed(Load(bytes, offset, width, littleEndian)) &&
            Width(Load(bytes, offset, width, littleEndian)) == width
  {
    LoadFrame(bytes, bytes, offset, width, littleEndian, (_, _) => 0);
  }

  lemma LoadBool(bytes: seq<Expr>, offset: nat, littleEndian: bool)
    requires offset < |bytes|
    ensures Load(bytes, offset, 1, littleEndian) == Extract(bytes[offset], 0, 1)
  {
  }

  lemma LoadMany(bytes: seq<Expr>, offset: nat, width: nat, littleEndian: bool)
    requires IsAccessWidth(width) && width != 1 && offset + NumBytes(width) <= |bytes|
    ensures Load(bytes, offset, width, littleEndian)
            == LoadLow(bytes, offset, NumBytes(width), NumBytes(width), littleEndian)
  {
  }

  /** The expression r is the load of the k low bytes wherever the offset is in bounds. */
  ghost predicate LoadedAt(bytes: seq<Expr>, off: Expr, n: nat, k: nat, littleEndian: bool, r: Expr)
    requires 0 < k <= n
  {
    WellFormed(r) && Width(r) == 8 * k &&
    forall sigma: Assignment :: Eval(off, sigma) + n <= |bytes| ==>
      Eval(r, sigma) == Eval(LoadLow(bytes, Eval(off, sigma), n, k, littleEndian), sigma)
  }

  /** The expression b is byte k of the load wherever the offset is in bounds. */
  ghost predicate ByteAt(bytes: seq<Expr>, off: Expr, n: nat, k: nat, littleEndian: bool, b: Expr)
    requires k < n
  {
    WellFormed(b) && Width(b) == 8 &&
    forall sigma: Assignment :: Eval(off, sigma) + n <= |bytes| ==>
      Eval(b, sigma) == Eval(bytes[Eval(off, sigma) + ByteIndex(littleEndian, n, k)], sigma)
  }

  lemma ByteLoadedAt(bytes: seq<Expr>, off: Expr, n: nat, k: nat, littleEndian: bool, at: Expr, b: Expr)
    requires |bytes| < UINT32 && WellFormed(off) && Width(off) == 32 && k < n <= |bytes|
    requires Preserves(Plus(off, ByteIndex(littleEndian, n, k)), at) && WellFormed(b) && Width(b) == 8
    requires forall sigma: Assignment :: Eval(at, sigma) < |bytes| ==>
               Eval(b, sigma) == Eval(bytes[Eval(at, sigma)], sigma)
    ensures ByteAt(bytes, off, n, k, littleEndian, b)
  {
    hide Eval, WellFormed, Width, Plus;
    forall sigma: Assignment | Eval(off, sigma) + n <= |bytes|
      ensures Eval(b, sigma) == Eval(bytes[Eval(off, sigma) + ByteIndex(littleEndian, n, k)], sigma)
    {
      PlusMeaning(off, ByteIndex(littleEndian, n, k), sigma);
    }
  }

  lemma LoadFirst(bytes: seq<Expr>, off: Expr, n: nat, littleEndian: bool, b: Expr)
    requires 0 < n && ByteAt(bytes, off, n, 0, littleEndian, b)
    ensures LoadedAt(bytes, off, n, 1, littleEndian, b)
  {
    hide Eval, WellFormed, Width;
  }

  lemma ConcatMeaning(h: Expr, l: Expr, h': Expr, l': Expr, sigma: Assignment)
    requires Width(l) == Width(l') && Eval(h, sigma) == Eval(h', sigma) && Eval(l, sigma) == Eval(l', sigma)
    ensures Eval(Concat(h, l), sigma) == Eval(Concat(h', l'), sigma)
  {
    EvalConcat(h, l, sigma);
    EvalConcat(h', l', sigma);
    hide Eval, Width, ConcatBits;
  }

  lemma EvalConcat(h: Expr, l: Expr, sigma: Assignment)
    ensures Eval(Concat(h, l), sigma) == ConcatBits(Eval(h, sigma), Eval(l, sigma), Width(l))
  {
    hide ConcatBits, Width;
  }

  lemma LoadNext(bytes: seq<Expr>, off: Expr, n: nat, k: nat, littleEndian: bool, b: Expr, low: Expr)
    requires 0 < k < n && IsBytes(bytes)
    requires LoadedAt(bytes, off, n, k, littleEndian, low) && ByteAt(bytes, off, n, k, littleEndian, b)
    ensures WellFormed(Concat(b, low)) && Width(Concat(b, low)) == 8 * (k + 1)
    ensures forall e :: Preserves(Concat(b, low), e) ==> LoadedAt(bytes, off, n, k + 1, littleEndian, e)
  {
    hide Eval, LoadLow;
    assert WellFormed(Concat(b, low)) && Width(Concat(b, low)) == 8 * (k + 1);
    hide WellFormed, Width;
    forall sigma: Assignment | Eval(off, sigma) + n <= |bytes|
      ensures Eval(Concat(b, low), sigma) == Eval(LoadLow(bytes, Eval(off, sigma), n, k + 1, littleEndian), sigma)
    {
      NextByte(bytes, Eval(off, sigma), n, k, littleEndian, b, low, sigma);
    }
  }

  lemma NextByte(bytes: seq<Expr>, o: nat, n: nat, k: nat, littleEndian: bool, b: Expr, low: Expr, sigma: Assignment)
    requires 0 < k < n && IsBytes(bytes) && o + n <= |bytes| && Width(low) == 8 * k
    requires Eval(b, sigma) == Eval(bytes[o + ByteIndex(littleEndian, n, k)], sigma)
    requires Eval(low, sigma) == Eval(LoadLow(bytes, o, n, k, littleEndian), sigma)
    ensures Eval(Concat(b, low), sigma) == Eval(LoadLow(bytes, o, n, k + 1, littleEndian), sigma)
  {
    hide Eval, Width, WellFormed;
    LoadLowFrame(bytes, bytes, o, n, k, littleEndian, sigma);
    ConcatMeaning(b, low, bytes[o + ByteIndex(littleEndian, n, k)], LoadLow(bytes, o, n, k, littleEndian), sigma);
  }

  lemma SymbolicBytesAgree(a: Array, size: nat)
    requires size < UINT32
    ensures IsBytes(SymbolicBytes(a, size))
    ensures forall i: nat :: i < size ==> ListAgrees(SymbolicBytes(a, size)[i], Some(a), Nil, i)
  {
    Pow2Values();
    forall i: nat | i < size
      ensures WellFormed(SymbolicBytes(a, size)[i]) && Width(SymbolicBytes(a, size)[i]) == 8
      ensures ListAgrees(SymbolicBytes(a, size)[i], Some(a), Nil, i)
    {
      var e := Const(32, i);
      assert WellFormed(e);
      assert SymbolicBytes(a, size)[i] == Read(a, Nil, e);
    }
  }

  class ObjectState {
    const memoryObject: MemoryObject
    const size: nat
    var copyOnWriteOwner: nat
    var concreteStore: seq<byte>
    var concreteMask: Mask
    var knownSymbolics: Option<seq<Option<Expr>>>
    var unflushedMask: Mask
    var root: Option<Array>
    var head: UpdateNode
    var readOnly: bool
    ghost var bytes: seq<Expr>
    ghost var ownerEpoch: nat  // the owner's key, had it not been cut to 32 bits; 0 before any binding

    ghost predicate Shape()
      reads this`concreteStore, this`concreteMask, this`knownSymbolics, this`unflushedMask, this`root, this`head,
            this`bytes
    {
      && size < UINT32
      && |concreteStore| == size && |bytes| == size
      && (concreteMask.Some? ==> |concreteMask.value| == size)
      && (knownSymbolics.Some? ==> |knownSymbolics.value| == size)
      && (unflushedMask.Some? ==> |unflushedMask.value| == size)
      && UpdatesWellFormed(head) && InBounds(head, size)
      && IsBytes(bytes)
    }

    predicate IsByteConcrete(i: nat)
      requires Shape() && i < size
      reads this`concreteStore, this`concreteMask, this`knownSymbolics, this`unflushedMask, this`root, this`head,
            this`bytes
    {
      Get(concreteMask, i)
    }

    predicate IsByteUnflushed(i: nat)
      requires Shape() && i < size
      reads this`concreteStore, this`concreteMask, this`knownSymbolics, this`unflushedMask, this`root, this`head,
            this`bytes
    {
      Get(unflushedMask, i)
    }

    function KnownSymbolic(i: nat): Option<Expr>
      requires Shape() && i < size
      reads this`concreteStore, this`concreteMask, this`knownSymbolics, this`unflushedMask, this`root, this`head,
            this`bytes
    {
      if knownSymbolics.None? then None else knownSymbolics.value[i]
    }

    ghost predicate ByteAgrees(i: nat)
      requires Shape() && i < size
      reads this`concreteStore, this`concreteMask, this`knownSymbolics, this`unflushedMask, this`root, this`head,
            this`bytes
    {
      && CacheAgrees(bytes[i], IsByteConcrete(i), concreteStore[i], KnownSymbolic(i), IsByteUnflushed(i))
      && (!IsByteUnflushed(i) ==> ListAgrees(bytes[i], root, head, i))
    }

    ghost predicate Valid()
      reads this`concreteStore, this`concreteMask, this`knownSymbolics, this`unflushedMask, this`root, this`head,
            this`bytes
    {
      Shape() && forall i :: 0 <= i < size ==> ByteAgrees(i)
    }

    lemma ValidSize()
      requires Valid()
      ensures |bytes| == size
    {
    }

    // -------------------------------------------------------- constructors

    /** Concrete contents, all zero. */
    constructor (mo: MemoryObject, useConstantArrays: bool, id: nat)
      requires mo.size < UINT32
      ensures Valid() && memoryObject == mo && size == mo.size && copyOnWriteOwner == ownerEpoch == 0 && !readOnly
      ensures bytes == Filled(size, 0) && forall i, sigma: Assignment :: 0 <= i < size ==> Eval(bytes[i], sigma) == 0
    {
      memoryObject := mo;
      size := mo.size;
      copyOnWriteOwner, ownerEpoch := 0, 0;
      concreteStore := seq(mo.size, _ => 0);
      concreteMask, knownSymbolics, unflushedMask := None, None, None;
      root := if useConstantArrays then None else Some(Array(id, mo.size, []));
      head := Nil;
      readOnly := false;
      bytes := Filled(mo.size, 0);
      new;
      ConstByte(0);
      hide Eval, Width, WellFormed, Lookup, Pow2;
    }

    /** Symbolic contents: byte i is the read of the given array at i. */
    constructor Symbolic(mo: MemoryObject, array_: Array)
      requires mo.size < UINT32
      ensures Valid() && memoryObject == mo && size == mo.size && copyOnWriteOwner == ownerEpoch == 0 && !readOnly
      ensures bytes == SymbolicBytes(array_, size)
    {
      memoryObject := mo;
      size := mo.size;
      copyOnWriteOwner, ownerEpoch := 0, 0;
      concreteStore := seq(mo.size, _ => 0);
      concreteMask, knownSymbolics, unflushedMask := None, None, None;
      root := Some(array_);
      head := Nil;
      readOnly := false;
      bytes := SymbolicBytes(array_, mo.size);
      new;
      SymbolicBytesAgree(array_, size);
      MakeSymbolic();
    }

    constructor Copy(os: ObjectState)
      requires os.Valid() && !os.readOnly
      ensures Valid() && memoryObject == os.memoryObject && size == os.size && copyOnWriteOwner == ownerEpoch == 0 &&
              !readOnly
      ensures bytes == os.bytes
    {
      memoryObject := os.memoryObject;
      size := os.size;
      copyOnWriteOwner, ownerEpoch := 0, 0;
      concreteStore := os.concreteStore;
      concreteMask := os.concreteMask;
      knownSymbolics := os.knownSymbolics;
      unflushedMask := os.unflushedMask;
      root := os.root;
      head := os.head;
      readOnly := false;
      bytes := os.bytes;
      new;
      assert forall i :: 0 <= i < size ==> os.ByteAgrees(i) ==> ByteAgrees(i);
    }

    /** Drops every cached byte, so that the object is what its update list says. */
    method MakeSymbolic()
      requires Shape() && head.Nil?
      modifies this`concreteMask, this`knownSymbolics, this`unflushedMask
      ensures Shape()
      ensures forall i :: 0 <= i < size ==> !IsByteConcrete(i) && KnownSymbolic(i).None? && !IsByteUnflushed(i)
    {
      for i := 0 to size
        invariant Shape()
        invariant forall j :: 0 <= j < i ==> !Get(concreteMask, j) && !Get(unflushedMask, j)
        invariant knownSymbolics.Some? ==> forall j :: 0 <= j < i ==> knownSymbolics.value[j].None?
      {
        concreteMask := Unset(concreteMask, i, size);
        if knownSymbolics.Some? { knownSymbolics := Some(knownSymbolics.value[i := None]); }
        unflushedMask := MarkFlushed(unflushedMask, i, size);
      }
    }

    // ------------------------------------------------------------ flushing

    /** Appends byte i's cached value to the update list. */
    method FlushByte(i: nat)
      requires Valid() && i < size && IsByteUnflushed(i)
      modifies this`head, this`unflushedMask
      ensures Valid() && unflushedMask.Some? && !IsByteUnflushed(i)
      ensures forall j :: 0 <= j < size ==>
                (j != i ==> IsByteUnflushed(j) == old(IsByteUnflushed(j))) &&
                IsByteConcrete(j) == old(IsByteConcrete(j)) && KnownSymbolic(j) == old(KnownSymbolic(j))
    {
      assert ByteAgrees(i);
      Const32(i);
      ConstByte(concreteStore[i]);
      hide Eval, Width, WellFormed, Lookup, Pow2;
      var v := if IsByteConcrete(i) then Const(8, concreteStore[i]) else KnownSymbolic(i).value;
      FlushedAt(bytes[i], root, head, i, v);
      FlushedElsewhere(bytes, root, head, i, v);
      head := Node(head, Const(32, i), v);
      unflushedMask := Unset(unflushedMask, i, size);
      assert forall j :: 0 <= j < size && old(ByteAgrees(j)) ==> ByteAgrees(j);
    }

    method FlushRangeForRead(rangeBase: nat, rangeSize: nat)
      requires Valid() && rangeBase + rangeSize <= size
      modifies this`head, this`unflushedMask
      ensures Valid()
      ensures forall i :: rangeBase <= i < rangeBase + rangeSize ==> !IsByteUnflushed(i)
    {
      if unflushedMask.None? {
        unflushedMask := Some(AllSet(size));
        assert forall j :: 0 <= j < size && old(ByteAgrees(j)) ==> ByteAgrees(j);
      }
      for offset := rangeBase to rangeBase + rangeSize
        invariant Valid()
        invariant forall i :: rangeBase <= i < offset ==> !IsByteUnflushed(i)
      {
        if IsByteUnflushed(offset) { FlushByte(offset); }
      }
    }

    /** Forgets byte i's cached value; the update list already has it. */
    method DropCached(i: nat)
      requires Valid() && i < size && !IsByteUnflushed(i)
      modifies this`concreteMask, this`knownSymbolics
      ensures Valid() && !IsByteConcrete(i) && KnownSymbolic(i).None?
      ensures forall j :: 0 <= j < size ==>
                IsByteUnflushed(j) == old(IsByteUnflushed(j)) &&
                (j != i ==> IsByteConcrete(j) == old(IsByteConcrete(j)) && KnownSymbolic(j) == old(KnownSymbolic(j)))
    {
      if IsByteConcrete(i) {
        assert ByteAgrees(i);
        concreteMask := Unset(concreteMask, i, size);
      } else if KnownSymbolic(i).Some? {
        knownSymbolics := Some(knownSymbolics.value[i := None]);
      }
      assert forall j :: 0 <= j < size && old(ByteAgrees(j)) ==> ByteAgrees(j);
    }

    method FlushRangeForWrite(rangeBase: nat, rangeSize: nat)
      requires Valid() && rangeBase + rangeSize <= size
      modifies this`head, this`unflushedMask, this`concreteMask, this`knownSymbolics
      ensures Valid()
      ensures forall i :: rangeBase <= i < rangeBase + rangeSize ==>
                !IsByteUnflushed(i) && !IsByteConcrete(i) && KnownSymbolic(i).None?
    {
      if unflushedMask.None? {
        unflushedMask := Some(AllSet(size));
        assert forall j :: 0 <= j < size && old(ByteAgrees(j)) ==> ByteAgrees(j);
      }
      for offset := rangeBase to rangeBase + rangeSize
        invariant Valid()
        invariant forall i :: rangeBase <= i < offset ==>
                    !IsByteUnflushed(i) && !IsByteConcrete(i) && KnownSymbolic(i).None?
      {
        if IsByteUnflushed(offset) { FlushByte(offset); }
        DropCached(offset);
      }
    }

    /** Builds the constant root array, the oldest constant writes folded into it,
        if the update list has no root yet. */
    method GetUpdates()
      requires Valid()
      modifies this`root, this`head
      ensures Valid() && root.Some?
      ensures forall j :: 0 <= j < size ==>
                IsByteUnflushed(j) == old(IsByteUnflushed(j)) && IsByteConcrete(j) == old(IsByteConcrete(j)) &&
                KnownSymbolic(j) == old(KnownSymbolic(j))
    {
      hide Eval, Lookup, WellFormed, Width;
      if root.None? {
        var writes := CollectWrites(head);
        FromWritesOfWrites(head);
        WritesOk(head, size);
        var id: nat := *;  // any array name
        var newRoot, newHead := Rebuild(writes, size, id);
        RebuiltAgrees(bytes, newRoot, newHead, head);
        root, head := Some(newRoot), newHead;
        forall j | 0 <= j < size
          ensures ByteAgrees(j)
        {
          assert old(ByteAgrees(j));
        }
      }
    }

    // --------------------------------------------------------------- bytes

    method Read8(offset: nat) returns (r: Expr)
      requires Valid() && offset < size
      modifies this`root, this`head
      ensures Valid() && Preserves(bytes[offset], r)
    {
      assert ByteAgrees(offset);
      Pow2Values();
      if IsByteConcrete(offset) {
        r := Const(8, concreteStore[offset]);
      } else if KnownSymbolic(offset).Some? {
        r := KnownSymbolic(offset).value;
      } else {
        r := ReadUpdates(offset);
      }
    }

    /** A byte that is neither concrete nor cached is read from the update list. */
    method ReadUpdates(offset: nat) returns (r: Expr)
      requires Valid() && offset < size && !IsByteConcrete(offset) && KnownSymbolic(offset).None?
      modifies this`root, this`head
      ensures Valid() && Preserves(bytes[offset], r)
    {
      GetUpdates();
      assert ByteAgrees(offset);
      Pow2Values();
      var e := Expr.Read(root.value, head, Const(32, offset));
      assert SameMeaning(e, bytes[offset]);
      r := Create(e);
    }

    method Read8At(offset: Expr) returns (r: Expr)
      requires Valid() && WellFormed(offset) && Width(offset) == 32
      modifies this`root, this`head, this`unflushedMask
      ensures Valid() && WellFormed(r) && Width(r) == 8
      ensures forall sigma: Assignment :: Eval(offset, sigma) < size ==>
                Eval(r, sigma) == Eval(bytes[Eval(offset, sigma)], sigma)
    {
      FlushRangeForRead(0, size);
      label flushed:
      GetUpdates();
      assert forall j :: 0 <= j < size ==> !IsByteUnflushed(j);
      r := Create(Expr.Read(root.value, head, offset));
      forall sigma: Assignment | Eval(offset, sigma) < size
        ensures Eval(r, sigma) == Eval(bytes[Eval(offset, sigma)], sigma)
      {
        assert ByteAgrees(Eval(offset, sigma));
      }
    }

    method Write8(offset: nat, value: byte)
      requires Valid() && offset < size
      modifies this`concreteStore, this`concreteMask, this`knownSymbolics, this`unflushedMask, this`bytes
      ensures Valid() && bytes == old(bytes)[offset := Const(8, value)]
    {
      hide Eval, Lookup, WellFormed, Width, UpdatesWellFormed, InBounds, Pow2;
      concreteStore := concreteStore[offset := value];
      if knownSymbolics.Some? { knownSymbolics := Some(knownSymbolics.value[offset := None]); }
      concreteMask := Set(concreteMask, offset, size);
      unflushedMask := Set(unflushedMask, offset, size);
      bytes := bytes[offset := Const(8, value)];
      ConstByte(value);
      forall j | 0 <= j < size
        ensures ByteAgrees(j)
      {
        if j != offset { assert old(ByteAgrees(j)); }
      }
    }

    method Write8Expr(offset: nat, value: Expr)
      requires Valid() && offset < size && WellFormed(value) && Width(value) == 8
      modifies this`concreteStore, this`concreteMask, this`knownSymbolics, this`unflushedMask, this`bytes
      ensures Valid() && bytes == old(bytes)[offset := value]
    {
      hide Eval, Lookup, WellFormed, Width, UpdatesWellFormed, InBounds, Pow2;
      if value.Const? {
        ByteRange(value);
        Write8(offset, value.value);
      } else {
        if knownSymbolics.None? { knownSymbolics := Some(seq(size, _ => None)); }
        knownSymbolics := Some(knownSymbolics.value[offset := Some(value)]);
        concreteMask := Unset(concreteMask, offset, size);
        unflushedMask := Set(unflushedMask, offset, size);
        bytes := bytes[offset := value];
        forall j | 0 <= j < size
          ensures ByteAgrees(j)
        {
          if j != offset { assert old(ByteAgrees(j)); }
        }
      }
    }

    method Write8At(offset: Expr, value: Expr)
      requires Valid() && WellFormed(offset) && Width(offset) == 32 && !offset.Const?
      requires WellFormed(value) && Width(value) == 8
      modifies this`head, this`unflushedMask, this`concreteMask, this`knownSymbolics, this`bytes
      ensures Valid() && bytes == StoreByteAt(old(bytes), offset, value)
    {
      hide Eval, Lookup, Width, Pow2, StoreByteAt, WellFormed;
      FlushRangeForWrite(0, size);
      label flushed:
      StoreByteAtAgrees(bytes, root, head, offset, value);
      bytes := StoreByteAt(bytes, offset, value);
      head := Node(head, offset, value);
      assert forall j :: 0 <= j < size && old@flushed(ByteAgrees(j)) ==> ByteAgrees(j);
    }

    /** The plain array may be written with any bytes of the same meaning. */
    ghost method Restate(asked: seq<Expr>)
      requires Valid() && |asked| == size && IsBytes(asked)
      requires forall i :: 0 <= i < size ==> SameMeaning(bytes[i], asked[i])
      modifies this`bytes
      ensures Valid() && bytes == asked
    {
      hide Eval, Lookup, WellFormed, Width;
      bytes := asked;
      forall j | 0 <= j < size
        ensures ByteAgrees(j)
      {
        assert old(ByteAgrees(j));
        assert SameMeaning(old(bytes)[j], asked[j]);
      }
    }

    // ---------------------------------------------------- multi-byte values

    method Write(offset: nat, value: Expr, littleEndian: bool)
      requires Valid() && WellFormed(value) && IsAccessWidth(Width(value))
      requires offset + NumBytes(Width(value)) <= size
      modifies this`concreteStore, this`concreteMask, this`knownSymbolics, this`unflushedMask, this`bytes
      ensures Valid() && bytes == Store(old(bytes), offset, Parts(value), littleEndian)
    {
      hide Eval, Width, WellFormed, Lookup, UpdatesWellFormed, InBounds, Parts;
      ghost var parts := Parts(value);
      PartsAreBytes(value);
      var n := NumBytes(Width(value));
      for i := 0 to n
        invariant Valid()
        invariant bytes == StoreLow(old(bytes), offset, parts, i, littleEndian)
      {
        var idx := ByteIndex(littleEndian, n, i);
        ghost var before := bytes;
        if value.Const? && value.width in {1, 8, 16, 32, 64} {
          var v := value.value / Pow2(8 * i) % 256;
          PartMeaningOfConst(value, i);
          Write8(offset + idx, v);
        } else {
          var part := CreatePart(value, i);
          Write8Expr(offset + idx, part);
        }
        RestateOk(before, offset + idx, bytes[offset + idx], parts[i]);
        Restate(before[offset + idx := parts[i]]);
      }
      StoreByParts(old(bytes), offset, parts, littleEndian);
    }

    /** A write at a symbolic offset, which is cut or widened to 32 bits first. */
    method WriteAt(offset: Expr, value: Expr, littleEndian: bool)
      requires Valid() && WellFormed(offset) && WellFormed(value) && IsAccessWidth(Width(value))
      requires exists sigma: Assignment :: Eval(offset, sigma) + NumBytes(Width(value)) <= size
      modifies this
      ensures Valid() && readOnly == old(readOnly) && copyOnWriteOwner == old(copyOnWriteOwner) &&
              ownerEpoch == old(ownerEpoch)
      ensures bytes == StoreAt(old(bytes), Resize(offset, 32), Parts(value), littleEndian)
    {
      hide Eval, WellFormed, Width, Lookup, Pow2, Resize, Parts, UpdatesWellFormed, InBounds;
      ghost var asked := Resize(offset, 32);
      ghost var parts := Parts(value);
      PartsAreBytes(value);
      ResizeOk(offset, size);
      var off := Create(Resize(offset, 32));
      if off.Const? {
        ConstOffset(asked, off.value, off);
        Write(off.value, value, littleEndian);
        StoreAtConst(old(bytes), asked, off.value, parts, littleEndian);
        Restate(StoreAt(old(bytes), asked, parts, littleEndian));
        return;
      }
      var n := NumBytes(Width(value));
      for i := 0 to n
        invariant Valid() && readOnly == old(readOnly) && copyOnWriteOwner == old(copyOnWriteOwner) &&
                  ownerEpoch == old(ownerEpoch)
        invariant bytes == StoreLowAt(old(bytes), asked, parts, i, littleEndian)
      {
        var idx := ByteIndex(littleEndian, n, i);
        var part := CreatePart(value, i);
        var at := CreateIndex(off, idx, asked);
        ghost var before := bytes;
        Write8At(at, part);
        StoreByteAtSame(before, at, part, Plus(asked, idx), parts[i]);
        Restate(StoreByteAt(before, Plus(asked, idx), parts[i]));
      }
    }

    method Read(offset: nat, width: nat, littleEndian: bool) returns (r: Expr)
      requires Valid() && IsAccessWidth(width) && offset + NumBytes(width) <= size
      modifies this`root, this`head
      ensures Valid() && Preserves(Load(bytes, offset, width, littleEndian), r)
    {
      hide Eval, WellFormed, Width, Lookup, Pow2, UpdatesWellFormed, InBounds;
      if width == 1 {
        r := Read8(offset);
        r := CreateLowBit(r, bytes[offset]);
        return;
      }
      var n := NumBytes(width);
      r := Const(8, 0);
      for i := 0 to n
        invariant Valid()
        invariant i > 0 ==> Preserves(LoadLow(bytes, offset, n, i, littleEndian), r)
      {
        var b := Read8(offset + ByteIndex(littleEndian, n, i));
        if i == 0 {
          r := b;
        } else {
          r := CreateConcat(b, r, bytes[offset + ByteIndex(littleEndian, n, i)],
                            LoadLow(bytes, offset, n, i, littleEndian));
        }
      }
    }

    /** A read at a symbolic offset gives, under every assignment that keeps it in
        bounds, the load at the offset that assignment gives. */
    method ReadAt(offset: Expr, width: nat, littleEndian: bool) returns (r: Expr)
      requires Valid() && WellFormed(offset) && IsAccessWidth(width)
      requires exists sigma: Assignment :: Eval(offset, sigma) + NumBytes(width) <= size
      modifies this`root, this`head, this`unflushedMask
      ensures Valid() && WellFormed(r) && Width(r) == width
      ensures forall sigma: Assignment :: Eval(offset, sigma) + NumBytes(width) <= size ==>
                Eval(r, sigma) == Eval(Load(bytes, Eval(offset, sigma), width, littleEndian), sigma)
    {
      hide Eval, WellFormed, Width, Lookup, Pow2, Resize, Load, LoadLow, UpdatesWellFormed, InBounds;
      ghost var asked := Resize(offset, 32);
      ResizeOk(offset, size);
      var off := Create(Resize(offset, 32));
      var n := NumBytes(width);
      if off.Const? {
        ConstOffset(asked, off.value, off);
        r := Read(off.value, width, littleEndian);
        LoadOk(bytes, off.value, width, littleEndian);
        return;
      }
      if width == 1 {
        r := Read8At(off);
        r := CreateLowBitAt(r, bytes, off);
        forall sigma: Assignment | Eval(offset, sigma) + 1 <= size
          ensures Eval(r, sigma) == Eval(Load(bytes, Eval(offset, sigma), 1, littleEndian), sigma)
        {
          LoadBool(bytes, Eval(offset, sigma), littleEndian);
        }
        return;
      }
      r := Const(8, 0);
      for i := 0 to n
        invariant Valid()
        invariant i > 0 ==> LoadedAt(bytes, off, n, i, littleEndian, r)
      {
        var idx := ByteIndex(littleEndian, n, i);
        var at := CreateIndex(off, idx, off);
        var b := Read8At(at);
        ByteLoadedAt(bytes, off, n, i, littleEndian, at, b);
        if i == 0 {
          LoadFirst(bytes, off, n, littleEndian, b);
          r := b;
        } else {
          LoadNext(bytes, off, n, i, littleEndian, b, r);
          r := Create(Concat(b, r));
        }
      }
      forall sigma: Assignment | Eval(offset, sigma) + n <= size
        ensures Eval(r, sigma) == Eval(Load(bytes, Eval(offset, sigma), width, littleEndian), sigma)
      {
        LoadMany(bytes, Eval(offset, sigma), width, littleEndian);
      }
    }

    // ------------------------------------------------------- whole objects

    method MakeConcrete()
      requires Valid()
      modifies this`concreteMask, this`unflushedMask, this`knownSymbolics, this`bytes
      ensures Valid() && bytes == ConstBytes(concreteStore)
      ensures concreteMask.None? && unflushedMask.None? && knownSymbolics.None?
    {
      hide Eval, Lookup, Width, WellFormed, UpdatesWellFormed, InBounds;
      concreteMask, unflushedMask, knownSymbolics := None, None, None;
      bytes := ConstBytes(concreteStore);
      forall i | 0 <= i < size
        ensures WellFormed(bytes[i]) && Width(bytes[i]) == 8
        ensures forall sigma: Assignment :: Eval(bytes[i], sigma) == concreteStore[i]
      {
        ConstByte(concreteStore[i]);
      }
    }

    method Initialize(v: byte)
      requires Valid()
      modifies this`concreteStore, this`concreteMask, this`unflushedMask, this`knownSymbolics, this`bytes
      ensures Valid() && bytes == Filled(size, v)
      ensures forall i, sigma: Assignment :: 0 <= i < size ==> Eval(bytes[i], sigma) == v
    {
      MakeConcrete();
      hide Eval, Lookup, Width, WellFormed, UpdatesWellFormed, InBounds;
      concreteStore := seq(size, _ => v);
      bytes := Filled(size, v);
      ConstByte(v);
    }

    /** Puts a solver's value for each known symbolic byte into the concrete store, for an
        external call to see; a byte without an answer keeps what is there. No byte's
        meaning changes. */
    method FlushToConcreteStore(solver: Solver, constraints: set<Expr>)
      requires Valid() && solver.Sound()
      modifies this`concreteStore, solver`queries
      ensures Valid()
      ensures var sure := solver.Answers() && Feasible(constraints);
              forall i :: 0 <= i < size ==>
                Flushed(constraints, sure, bytes[i], KnownSymbolic(i), old(concreteStore)[i], concreteStore[i])
    {
      hide Eval, Lookup, Width, WellFormed, UpdatesWellFormed, InBounds, Solver.Sound, Solver.Answers, Feasible,
           Flushed;
      ghost var sure := solver.Answers() && Feasible(constraints);
      for i := 0 to size
        invariant Valid()
        invariant forall j :: 0 <= j < i ==>
                    Flushed(constraints, sure, bytes[j], KnownSymbolic(j), old(concreteStore)[j], concreteStore[j])
        invariant forall j :: i <= j < size ==> concreteStore[j] == old(concreteStore)[j]
      {
        label before:
        assert ByteAgrees(i);
        NotFlushed(constraints, sure, bytes[i], KnownSymbolic(i), concreteStore[i]);
        if KnownSymbolic(i).Some? {
          var e := KnownSymbolic(i).value;
          var value := solver.GetValue(constraints, e);
          if value.Some? {
            FlushedValue(constraints, sure, bytes[i], e, value.value, concreteStore[i]);
            var v: byte := value.value;
            concreteStore := concreteStore[i := v];
          }
        }
        assert forall j :: 0 <= j < size && old@before(ByteAgrees(j)) ==> ByteAgrees(j);
      }
    }
  }

  /** What an external call sees of a byte: a value that a known symbolic byte can have, or
      what is there when the solver may fail, and otherwise the byte in the concrete store. */
  ghost predicate Flushed(constraints: set<Expr>, sure: bool, b: Expr, known: Option<Expr>, before: byte, after: byte) {
    if known.Some? then CanBe(constraints, b, after) || (!sure && after == before) else after == before
  }

  lemma NotFlushed(constraints: set<Expr>, sure: bool, b: Expr, known: Option<Expr>, before: byte)
    ensures known.None? || !sure ==> Flushed(constraints, sure, b, known, before, before)
  {
  }

  lemma FlushedValue(constraints: set<Expr>, sure: bool, b: Expr, e: Expr, v: nat, before: byte)
    requires WellFormed(e) && Width(e) == 8 && SameMeaning(e, b) && CanBe(constraints, e, v)
    ensures v < 256 && Flushed(constraints, sure, b, Some(e), before, v)
  {
    hide Eval, Sat, WellFormed, Width, Pow2;
    var sigma: Assignment :| Sat(constraints, sigma) && Eval(e, sigma) == v;
    EvalRange(e, sigma);
    Pow2Values();
  }
}
