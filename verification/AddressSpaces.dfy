/**
 Address spaces share their object states after a fork and copy them on the
 first write. Ownership is decided by comparing epoch keys; the isolation of a
 whole family of address spaces is the invariant every operation keeps.
 */
module AddressSpaces {
  import opened Arithmetic
  import opened Exprs
  import opened ByteOrder
  import opened ObjectStates

  datatype Region = Region(bytes: seq<Expr>, readOnly: bool)

  /** Memory as every address space should see it: plain arrays of its own. */
  type Memory = map<MemoryObject, Region>

  class AddressSpace {
    var cowKey: nat
    var objects: map<MemoryObject, ObjectState>
    ghost var epoch: nat  // the key, had it not been cut to 32 bits

    constructor ()
      ensures cowKey == epoch == 1 && objects == map[]
    {
      cowKey, epoch := 1, 1;
      objects := map[];
    }

    /** The copy constructor bumps the key of its source as well. Keys are 32 bits wide. */
    constructor Copy(b: AddressSpace)
      modifies b`cowKey, b`epoch
      ensures b.cowKey == cowKey == (old(b.cowKey) + 1) % UINT32 && objects == b.objects
      ensures b.epoch == epoch == old(b.epoch) + 1
    {
      objects := b.objects;
      cowKey, epoch := (b.cowKey + 1) % UINT32, b.epoch + 1;
      new;
      b.cowKey, b.epoch := (b.cowKey + 1) % UINT32, b.epoch + 1;
    }

    method BindObject(mo: MemoryObject, os: ObjectState)
      requires os.copyOnWriteOwner == 0
      modifies this`objects, os`copyOnWriteOwner, os`ownerEpoch
      ensures os.copyOnWriteOwner == cowKey && os.ownerEpoch == epoch
      ensures objects == old(objects)[mo := os]
    {
      os.copyOnWriteOwner, os.ownerEpoch := cowKey, epoch;
      objects := objects[mo := os];
    }

    method UnbindObject(mo: MemoryObject)
      modifies this`objects
      ensures objects == old(objects) - {mo}
    {
      objects := objects - {mo};
    }

    /** The bound object state if this space owns it, or else a copy it owns. */
    method GetWriteable(mo: MemoryObject) returns (os: ObjectState)
      requires mo in objects && objects[mo].Valid() && !objects[mo].readOnly
      modifies this`objects
      ensures objects == old(objects)[mo := os]
      ensures old(objects[mo].copyOnWriteOwner) == cowKey ==> os == old(objects[mo])
      ensures old(objects[mo].copyOnWriteOwner) != cowKey ==>
                fresh(os) && os.copyOnWriteOwner == cowKey && os.ownerEpoch == epoch
      ensures os.Valid() && !os.readOnly && os.memoryObject == old(objects[mo].memoryObject)
      ensures os.size == old(objects[mo].size) && os.bytes == old(objects[mo].bytes)
    {
      hide ObjectState.Valid;
      var bound := objects[mo];
      if cowKey == bound.copyOnWriteOwner {
        assert objects == objects[mo := bound];
        return bound;
      }
      os := new ObjectState.Copy(bound);
      os.copyOnWriteOwner, os.ownerEpoch := cowKey, epoch;
      objects := objects[mo := os];
    }
  }

  // ------------------------------------------------------------- isolation

  /** An object state is bound for its own memory object, at or below the epoch. */
  ghost predicate Owned(os: ObjectState, mo: MemoryObject, epoch: nat)
    reads os
  {
    && os.Valid() && os.memoryObject == mo && os.size == mo.size
    && 0 < os.ownerEpoch <= epoch && os.copyOnWriteOwner == os.ownerEpoch % UINT32
  }

  ghost function Held(family: set<AddressSpace>): set<ObjectState>
    reads family
  {
    set a, mo | a in family && mo in a.objects :: a.objects[mo]
  }

  ghost predicate AllOwned(family: set<AddressSpace>)
    reads family, Held(family)
  {
    forall a, mo :: a in family && mo in a.objects ==> Owned(a.objects[mo], mo, a.epoch)
  }

  /** An object state that two address spaces bind is strictly below both epochs. */
  ghost predicate AllSeparate(family: set<AddressSpace>)
    reads family, Held(family)
  {
    forall a, b, mo ::
      a in family && b in family && a != b && mo in a.objects && mo in b.objects && a.objects[mo] == b.objects[mo]
      ==> a.objects[mo].ownerEpoch < a.epoch
  }

  /** Keys have gone through at most one full turn. */
  ghost predicate KeysOk(family: set<AddressSpace>)
    reads family
  {
    forall a :: a in family ==> 0 < a.epoch <= UINT32 && a.cowKey == a.epoch % UINT32
  }

  ghost predicate Isolated(family: set<AddressSpace>)
    reads family, Held(family)
  {
    AllOwned(family) && AllSeparate(family) && KeysOk(family)
  }

  /** No other address space binds this object state. */
  ghost predicate Exclusive(a: AddressSpace, os: ObjectState, mo: MemoryObject, family: set<AddressSpace>)
    reads family
  {
    forall b :: b in family && b != a && mo in b.objects ==> b.objects[mo] != os
  }

  lemma KeyedByObject(family: set<AddressSpace>)
    requires Isolated(family)
    ensures forall a, mo :: a in family && mo in a.objects ==> a.objects[mo].memoryObject == mo
  {
    assert forall a, mo :: a in family && mo in a.objects ==> Owned(a.objects[mo], mo, a.epoch);
  }

  /** A copy of an address space may join its family once neither owns anything. */
  lemma CopyJoins(family: set<AddressSpace>, b: AddressSpace, c: AddressSpace)
    requires b in family && Isolated(family)
    requires c.objects == b.objects && c.cowKey == b.cowKey && c.epoch == b.epoch
    requires forall mo :: mo in b.objects ==> b.objects[mo].ownerEpoch < b.epoch
    ensures Isolated(family + {c})
  {
    hide ObjectState.Valid;
  }

  /** A fork keeps the whole family isolated until the keys have made a full turn. */
  method Fork(a: AddressSpace, ghost family: set<AddressSpace>) returns (c: AddressSpace)
    requires a in family && Isolated(family) && a.epoch < UINT32
    modifies a`cowKey, a`epoch
    ensures fresh(c) && a.epoch == c.epoch == old(a.epoch) + 1 && c.objects == a.objects
    ensures Isolated(family + {c})
  {
    hide ObjectState.Valid;
    assert forall b, mo :: b in family && mo in b.objects ==>
        Owned(b.objects[mo], mo, b.epoch) && b.objects[mo].ownerEpoch <= b.epoch;
    hide Owned;
    c := new AddressSpace.Copy(a);
    KeyStep(old(a.epoch));
    forall b, mo | b in family && mo in b.objects
      ensures Owned(b.objects[mo], mo, b.epoch)
    {
      OwnedLater(b.objects[mo], mo, old(b.epoch), b.epoch);
    }
    CopyJoins(family, a, c);
  }

  lemma OwnedLater(os: ObjectState, mo: MemoryObject, e: nat, e': nat)
    requires Owned(os, mo, e) && e <= e'
    ensures Owned(os, mo, e')
  {
    hide ObjectState.Valid;
  }

  lemma KeyStep(e: nat)
    ensures (e % UINT32 + 1) % UINT32 == (e + 1) % UINT32
  {
  }

  method Bind(a: AddressSpace, mo: MemoryObject, os: ObjectState, ghost family: set<AddressSpace>)
    requires a in family && Isolated(family)
    requires os.Valid() && os.memoryObject == mo && os.size == mo.size && os.copyOnWriteOwner == os.ownerEpoch == 0
    modifies a`objects, os`copyOnWriteOwner, os`ownerEpoch
    ensures Isolated(family)
    ensures a.objects == old(a.objects)[mo := os]
  {
    hide ObjectState.Valid;
    assert forall b, x :: b in family && x in b.objects ==> Owned(b.objects[x], x, b.epoch) && b.objects[x] != os;
    a.BindObject(mo, os);
  }

  method Unbind(a: AddressSpace, mo: MemoryObject, ghost family: set<AddressSpace>)
    requires a in family && Isolated(family)
    modifies a`objects
    ensures Isolated(family)
    ensures a.objects == old(a.objects) - {mo}
  {
    hide ObjectState.Valid;
    a.UnbindObject(mo);
  }

  /** What may be written in place is bound by nobody else. */
  method Writeable(a: AddressSpace, mo: MemoryObject, ghost family: set<AddressSpace>) returns (os: ObjectState)
    requires a in family && Isolated(family)
    requires mo in a.objects && !a.objects[mo].readOnly
    modifies a`objects
    ensures Isolated(family) && Exclusive(a, os, mo, family)
    ensures os == old(a.objects[mo]) || fresh(os)
    ensures !os.readOnly && os.bytes == old(a.objects[mo].bytes)
    ensures a.objects == old(a.objects)[mo := os]
  {
    hide ObjectState.Valid;
    var bound := a.objects[mo];
    assert Owned(bound, mo, a.epoch);
    if a.cowKey == bound.copyOnWriteOwner {
      SameKey(a.epoch, bound.ownerEpoch);
      hide Owned;
      os := a.GetWriteable(mo);
      assert a.objects == old(a.objects);
    } else {
      os := CopyForWrite(a, mo, family);
    }
  }

  /** Below a full turn, equal keys mean equal epochs. */
  lemma SameKey(e: nat, e': nat)
    requires 0 < e <= UINT32 && 0 < e' <= UINT32 && e % UINT32 == e' % UINT32
    ensures e == e'
  {
  }

  method CopyForWrite(a: AddressSpace, mo: MemoryObject, ghost family: set<AddressSpace>) returns (os: ObjectState)
    requires a in family && Isolated(family)
    requires mo in a.objects && !a.objects[mo].readOnly && a.objects[mo].copyOnWriteOwner != a.cowKey
    modifies a`objects
    ensures Isolated(family) && Exclusive(a, os, mo, family)
    ensures fresh(os) && !os.readOnly && os.bytes == old(a.objects[mo].bytes)
    ensures a.objects == old(a.objects)[mo := os]
  {
    hide ObjectState.Valid;
    assert Owned(a.objects[mo], mo, a.epoch);
    os := a.GetWriteable(mo);
    assert Owned(os, mo, a.epoch);
    hide Owned;
    assert AllOwned(family) by {
      forall b, x | b in family && x in b.objects
        ensures Owned(b.objects[x], x, b.epoch)
      {
        if (b, x) != (a, mo) { assert old(Owned(b.objects[x], x, b.epoch)); }
      }
    }
  }

  method WriteOwned(a: AddressSpace, mo: MemoryObject, offset: Expr, value: Expr, littleEndian: bool,
                    ghost family: set<AddressSpace>)
    requires a in family && Isolated(family)
    requires mo in a.objects && Exclusive(a, a.objects[mo], mo, family)
    requires WellFormed(offset) && WellFormed(value) && IsAccessWidth(Width(value))
    requires exists sigma: Assignment :: Eval(offset, sigma) + NumBytes(Width(value)) <= mo.size
    modifies a.objects[mo]
    ensures Isolated(family) && a.objects[mo].readOnly == old(a.objects[mo].readOnly)
    ensures a.objects[mo].bytes == StoreAt(old(a.objects[mo].bytes), Resize(offset, 32), Parts(value), littleEndian)
  {
    hide ObjectState.Valid, Eval, WellFormed, Width, Resize, Parts, StoreAt;
    assert forall b, x :: b in family && x in b.objects ==> Owned(b.objects[x], x, b.epoch);
    a.objects[mo].WriteAt(offset, value, littleEndian);
  }

  /** A write reaches the written object of its own space and nothing else. */
  method Write(a: AddressSpace, mo: MemoryObject, offset: Expr, value: Expr, littleEndian: bool,
               ghost family: set<AddressSpace>)
    requires a in family && Isolated(family)
    requires mo in a.objects && !a.objects[mo].readOnly
    requires WellFormed(offset) && WellFormed(value) && IsAccessWidth(Width(value))
    requires exists sigma: Assignment :: Eval(offset, sigma) + NumBytes(Width(value)) <= mo.size
    modifies a`objects, a.objects[mo]
    ensures Isolated(family)
    ensures mo in a.objects && a.objects == old(a.objects)[mo := a.objects[mo]] && !a.objects[mo].readOnly
    ensures a.objects[mo] == old(a.objects[mo]) || fresh(a.objects[mo])
    ensures a.objects[mo].bytes == StoreAt(old(a.objects[mo].bytes), Resize(offset, 32), Parts(value), littleEndian)
    ensures forall b :: b in family && b != a && mo in b.objects ==>
              b.objects[mo].bytes == old(b.objects[mo].bytes) && b.objects[mo].readOnly == old(b.objects[mo].readOnly)
  {
    hide Isolated, ObjectState.Valid, Eval, WellFormed, Width, Resize, Parts, StoreAt;
    var os := Writeable(a, mo, family);
    WriteOwned(a, mo, offset, value, littleEndian, family);
  }

  /** A read may flush the object for every space that shares it, and no space can tell. */
  method Read(a: AddressSpace, mo: MemoryObject, offset: Expr, width: nat, littleEndian: bool,
              ghost family: set<AddressSpace>)
    returns (r: Expr)
    requires a in family && Isolated(family)
    requires mo in a.objects && WellFormed(offset) && IsAccessWidth(width)
    requires exists sigma: Assignment :: Eval(offset, sigma) + NumBytes(width) <= mo.size
    modifies a.objects[mo]
    ensures a.objects[mo].bytes == old(a.objects[mo].bytes) && a.objects[mo].readOnly == old(a.objects[mo].readOnly)
    ensures Isolated(family) && WellFormed(r) && Width(r) == width
    ensures |a.objects[mo].bytes| == mo.size
    ensures forall sigma: Assignment :: Eval(offset, sigma) + NumBytes(width) <= mo.size ==>
              Eval(r, sigma) == Eval(Load(a.objects[mo].bytes, Eval(offset, sigma), width, littleEndian), sigma)
  {
    hide Eval, WellFormed, Width, Load, ObjectState.Valid, NumBytes, IsAccessWidth;
    assert Owned(a.objects[mo], mo, a.epoch);
    a.objects[mo].ValidSize();
    r := a.objects[mo].ReadAt(offset, width, littleEndian);
    forall b, x | b in family && x in b.objects
      ensures Owned(b.objects[x], x, b.epoch)
    {
      assert old(Owned(b.objects[x], x, b.epoch));
    }
  }
}
