/**
 Whole runs of forks, bindings, reads and writes over a family of address
 spaces, against the reference in which a fork copies every object at once.
 */
module MemoryRuns {
  import opened Arithmetic
  import opened Exprs
  import opened ByteOrder
  import opened ObjectStates
  import A = AddressSpaces
  import opened AddressSpaces

  datatype Command =
    | Fork(k: nat)
    | Bind(k: nat, mo: MemoryObject, init: Option<Array>, readOnly: bool)
    | Unbind(k: nat, mo: MemoryObject)
    | Write(k: nat, mo: MemoryObject, offset: Expr, value: Expr)
    | Read(k: nat, mo: MemoryObject, offset: Expr, width: nat)

  /** What the executor guarantees before it issues a command. */
  ghost predicate Legal(ms: seq<Memory>, c: Command) {
    c.k < |ms| &&
    match c
    case Fork(_) => true
    case Bind(_, mo, _, _) => mo.size < UINT32
    case Unbind(_, _) => true
    case Write(k, mo, offset, value) =>
      mo in ms[k] && !ms[k][mo].readOnly && WellFormed(offset) && WellFormed(value) && IsAccessWidth(Width(value)) &&
      exists sigma: Assignment :: Eval(offset, sigma) + NumBytes(Width(value)) <= mo.size
    case Read(k, mo, offset, width) =>
      mo in ms[k] && WellFormed(offset) && IsAccessWidth(width) &&
      exists sigma: Assignment :: Eval(offset, sigma) + NumBytes(width) <= mo.size
  }

  function Initial(mo: MemoryObject, init: Option<Array>): seq<Expr> {
    if init.None? then Filled(mo.size, 0) else SymbolicBytes(init.value, mo.size)
  }

  function Stored(r: Region, offset: Expr, value: Expr, littleEndian: bool): Region {
    r.(bytes := StoreAt(r.bytes, Resize(offset, 32), Parts(value), littleEndian))
  }

  /** The reference: a fork copies the whole memory of the forked space. */
  function DeepStep(ms: seq<Memory>, c: Command, littleEndian: bool): seq<Memory>
    requires c.k < |ms|
  {
    match c
    case Fork(k) => ms + [ms[k]]
    case Bind(k, mo, init, readOnly) => ms[k := ms[k][mo := Region(Initial(mo, init), readOnly)]]
    case Unbind(k, mo) => ms[k := ms[k] - {mo}]
    case Write(k, mo, offset, value) =>
      if mo in ms[k] then ms[k := ms[k][mo := Stored(ms[k][mo], offset, value, littleEndian)]] else ms
    case Read(_, _, _, _) => ms
  }

  /** The outcome of a read in the reference. */
  ghost predicate ReadGives(ms: seq<Memory>, c: Command, littleEndian: bool, r: Expr)
    requires c.Read? && c.k < |ms| && c.mo in ms[c.k] && IsAccessWidth(c.width)
  {
    var bytes := ms[c.k][c.mo].bytes;
    WellFormed(r) && Width(r) == c.width &&
    forall sigma: Assignment :: Eval(c.offset, sigma) + NumBytes(c.width) <= |bytes| ==>
      Eval(r, sigma) == Eval(Load(bytes, Eval(c.offset, sigma), c.width, littleEndian), sigma)
  }

  ghost predicate LegalRun(ms: seq<Memory>, cmds: seq<Command>, littleEndian: bool)
    decreases |cmds|
  {
    cmds == [] ||
    (Legal(ms, cmds[0]) && LegalRun(DeepStep(ms, cmds[0], littleEndian), cmds[1..], littleEndian))
  }

  ghost function DeepRun(ms: seq<Memory>, cmds: seq<Command>, littleEndian: bool): seq<Memory>
    requires LegalRun(ms, cmds, littleEndian)
    decreases |cmds|
  {
    if cmds == [] then ms else DeepRun(DeepStep(ms, cmds[0], littleEndian), cmds[1..], littleEndian)
  }

  /** The log holds, in order, what each read gives in the reference. */
  ghost predicate LogMatches(ms: seq<Memory>, cmds: seq<Command>, littleEndian: bool, log: seq<Expr>)
    requires LegalRun(ms, cmds, littleEndian)
    decreases |cmds|
  {
    if cmds == [] then log == []
    else if cmds[0].Read? then
      |log| > 0 && ReadGives(ms, cmds[0], littleEndian, log[0]) && LogMatches(ms, cmds[1..], littleEndian, log[1..])
    else LogMatches(DeepStep(ms, cmds[0], littleEndian), cmds[1..], littleEndian, log)
  }

  function Forks(cmds: seq<Command>): nat {
    if cmds == [] then 0 else (if cmds[0].Fork? then 1 else 0) + Forks(cmds[1..])
  }

  /** A fork takes the forked space and the new one to the next epoch. */
  function Forked(epochs: seq<nat>, k: nat): seq<nat>
    requires k < |epochs|
  {
    epochs[k := epochs[k] + 1] + [epochs[k] + 1]
  }

  predicate KeyLasts(epochs: seq<nat>, c: Command) { c.Fork? ==> c.k < |epochs| && epochs[c.k] < UINT32 }

  function NextEpochs(epochs: seq<nat>, c: Command): seq<nat>
    requires KeyLasts(epochs, c)
  {
    if c.Fork? then Forked(epochs, c.k) else epochs
  }

  /** No fork of the run takes a space past the last epoch that has a key of its own. */
  predicate KeysLast(epochs: seq<nat>, cmds: seq<Command>)
    decreases |cmds|
  {
    cmds == [] || (KeyLasts(epochs, cmds[0]) && KeysLast(NextEpochs(epochs, cmds[0]), cmds[1..]))
  }

  // ------------------------------------------------------------- families

  ghost function Members(spaces: seq<AddressSpace>): set<AddressSpace> {
    set a | a in spaces
  }

  /** The reference memory and the epoch of every space, and everything reached. */
  datatype Shadow = Shadow(ms: seq<Memory>, epochs: seq<nat>, repr: set<object>)

  ghost function Epoch(g: Shadow, i: nat): nat { if i < |g.epochs| then g.epochs[i] else 0 }

  ghost predicate Reaches(spaces: seq<AddressSpace>, repr: set<object>)
    reads spaces
  {
    && (forall a :: a in spaces ==> a in repr)
    && (forall a, mo :: a in spaces && mo in a.objects ==> a.objects[mo] in repr)
  }

  /** The space binds the reference's objects, each with the reference's bytes. */
  ghost predicate Sees(a: AddressSpace, m: Memory)
    reads a`objects, a.objects.Values
  {
    a.objects.Keys == m.Keys &&
    forall mo :: mo in m ==> Region(a.objects[mo].bytes, a.objects[mo].readOnly) == m[mo]
  }

  /** The family is isolated, and each space sees exactly its own reference memory. */
  ghost predicate InStep(spaces: seq<AddressSpace>, g: Shadow)
    reads spaces, g.repr
  {
    && Reaches(spaces, g.repr) && Isolated(Members(spaces))
    && (forall i, j :: 0 <= i < j < |spaces| ==> spaces[i] != spaces[j])
    && |spaces| == |g.ms| && (forall i :: 0 <= i < |spaces| ==> Sees(spaces[i], g.ms[i]))
    && |spaces| == |g.epochs| && (forall i :: 0 <= i < |spaces| ==> spaces[i].epoch == g.epochs[i])
  }

  lemma SameCount(spaces: seq<AddressSpace>, g: Shadow)
    requires InStep(spaces, g)
    ensures |spaces| == |g.ms|
  {
  }

  lemma SameEpochs(spaces: seq<AddressSpace>, g: Shadow)
    requires InStep(spaces, g)
    ensures |g.epochs| == |g.ms|
  {
  }

  lemma KeptEpochs(g: Shadow, g': Shadow)
    requires g'.epochs == g.epochs
    ensures forall i: nat :: Epoch(g', i) == Epoch(g, i)
  {
  }

  /** A fork takes no space more than one epoch on. */
  lemma ForkEpochs(g: Shadow, k: nat, g': Shadow, n: nat)
    requires k < |g.epochs| && g'.epochs == Forked(g.epochs, k) && g.epochs[k] <= n
    ensures forall j: nat :: Epoch(g, j) <= n ==> Epoch(g', j) <= n + 1
  {
  }

  lemma Sizes(spaces: seq<AddressSpace>, g: Shadow, i: nat, mo: MemoryObject)
    requires InStep(spaces, g) && i < |g.ms| && mo in g.ms[i]
    ensures |g.ms[i][mo].bytes| == mo.size < UINT32 && IsBytes(g.ms[i][mo].bytes)
  {
    assert Sees(spaces[i], g.ms[i]);
    assert spaces[i] in Members(spaces);
    assert Owned(spaces[i].objects[mo], mo, spaces[i].epoch);
  }

  method DoFork(spaces: seq<AddressSpace>, k: nat, ghost g: Shadow)
    returns (spaces': seq<AddressSpace>, ghost g': Shadow)
    requires InStep(spaces, g) && k < |g.ms| && Epoch(g, k) < UINT32
    modifies g.repr
    ensures InStep(spaces', g') && fresh(g'.repr - g.repr)
    ensures g'.ms == g.ms + [g.ms[k]] && g'.epochs == Forked(g.epochs, k)
  {
    hide ObjectState.Valid, Isolated;
    var c := A.Fork(spaces[k], Members(spaces));
    spaces' := spaces + [c];
    g' := Shadow(g.ms + [g.ms[k]], Forked(g.epochs, k), g.repr + {c});
    assert Members(spaces') == Members(spaces) + {c};
  }

  method NewState(mo: MemoryObject, init: Option<Array>, readOnly: bool) returns (os: ObjectState)
    requires mo.size < UINT32
    ensures fresh(os) && os.Valid() && os.memoryObject == mo && os.size == mo.size
    ensures os.copyOnWriteOwner == os.ownerEpoch == 0 && os.readOnly == readOnly && os.bytes == Initial(mo, init)
  {
    hide ObjectState.Valid;
    if init.None? {
      os := new ObjectState(mo, true, 0);
    } else {
      os := new ObjectState.Symbolic(mo, init.value);
    }
    os.readOnly := readOnly;
  }

  method DoBind(spaces: seq<AddressSpace>, k: nat, mo: MemoryObject, init: Option<Array>, readOnly: bool,
                ghost g: Shadow)
    returns (ghost g': Shadow)
    requires InStep(spaces, g) && k < |g.ms| && mo.size < UINT32
    modifies g.repr
    ensures InStep(spaces, g') && fresh(g'.repr - g.repr)
    ensures g'.ms == g.ms[k := g.ms[k][mo := Region(Initial(mo, init), readOnly)]] && g'.epochs == g.epochs
  {
    hide ObjectState.Valid, Owned, Initial, InStep, Image, Sees;
    StepParts(spaces, g);
    forall a | a in spaces { ImageParts(a); }
    var os := NewState(mo, init, readOnly);
    assert Isolated(Members(spaces));
    hide Isolated;
    A.Bind(spaces[k], mo, os, Members(spaces));
    g' := Shadow(g.ms[k := g.ms[k][mo := Region(Initial(mo, init), readOnly)]], g.epochs, g.repr + {os});
    forall i | 0 <= i < |spaces|
      ensures Image(spaces[i]) == g'.ms[i]
    {
      if i != k { assert spaces[i] != spaces[k]; }
      ImageIs(spaces[i], g'.ms[i]);
    }
    StepOf(spaces, g');
  }

  method DoUnbind(spaces: seq<AddressSpace>, k: nat, mo: MemoryObject, ghost g: Shadow)
    returns (ghost g': Shadow)
    requires InStep(spaces, g) && k < |g.ms|
    modifies g.repr
    ensures InStep(spaces, g') && g' == g.(ms := g.ms[k := g.ms[k] - {mo}])
  {
    hide ObjectState.Valid, Isolated;
    A.Unbind(spaces[k], mo, Members(spaces));
    g' := g.(ms := g.ms[k := g.ms[k] - {mo}]);
  }

  method DoWrite(spaces: seq<AddressSpace>, c: Command, littleEndian: bool, ghost g: Shadow)
    returns (ghost g': Shadow)
    requires InStep(spaces, g) && c.Write? && Legal(g.ms, c)
    modifies g.repr
    ensures InStep(spaces, g') && fresh(g'.repr - g.repr)
    ensures g'.ms == DeepStep(g.ms, c, littleEndian) && g'.epochs == g.epochs
  {
    hide InStep, Image, Sees, Isolated, Legal, DeepStep, Stored, Members, Eval, WellFormed, Width, NumBytes,
         IsAccessWidth;
    StepParts(spaces, g);
    WriteLegal(g.ms, c, littleEndian);
    var a, mo := spaces[c.k], c.mo;
    ImageAt(a, mo);
    WriteOne(a, mo, c.offset, c.value, littleEndian, Members(spaces));
    g' := Shadow(DeepStep(g.ms, c, littleEndian), g.epochs, g.repr + {a.objects[mo]});
    forall i | 0 <= i < |spaces|
      ensures Image(spaces[i]) == g'.ms[i]
    {
      if i != c.k { assert spaces[i] != a; }
    }
    StepOf(spaces, g');
  }

  /** What a legal write asks for, and what it does in the reference. */
  lemma WriteLegal(ms: seq<Memory>, c: Command, littleEndian: bool)
    requires c.Write? && Legal(ms, c)
    ensures c.k < |ms| && c.mo in ms[c.k] && !ms[c.k][c.mo].readOnly
    ensures WellFormed(c.offset) && WellFormed(c.value) && IsAccessWidth(Width(c.value))
    ensures exists sigma: Assignment :: Eval(c.offset, sigma) + NumBytes(Width(c.value)) <= c.mo.size
    ensures DeepStep(ms, c, littleEndian) ==
            ms[c.k := ms[c.k][c.mo := Stored(ms[c.k][c.mo], c.offset, c.value, littleEndian)]]
  {
    hide Stored, Eval, WellFormed, Width, NumBytes, IsAccessWidth;
  }

  lemma ImageAt(a: AddressSpace, mo: MemoryObject)
    ensures mo in Image(a) <==> mo in a.objects
    ensures mo in a.objects ==> Image(a)[mo] == Region(a.objects[mo].bytes, a.objects[mo].readOnly)
  {
  }

  /** A write in one space changes what the space holds as a store does, and nothing that
      another space holds. */
  method WriteOne(a: AddressSpace, mo: MemoryObject, offset: Expr, value: Expr, littleEndian: bool,
                  ghost family: set<AddressSpace>)
    requires a in family && Isolated(family)
    requires mo in a.objects && !a.objects[mo].readOnly
    requires WellFormed(offset) && WellFormed(value) && IsAccessWidth(Width(value))
    requires exists sigma: Assignment :: Eval(offset, sigma) + NumBytes(Width(value)) <= mo.size
    modifies a`objects, a.objects[mo]
    ensures Isolated(family)
    ensures mo in a.objects && a.objects == old(a.objects)[mo := a.objects[mo]]
    ensures a.objects[mo] == old(a.objects[mo]) || fresh(a.objects[mo])
    ensures mo in old(Image(a)) &&
            Image(a) == old(Image(a))[mo := Stored(old(Image(a))[mo], offset, value, littleEndian)]
    ensures forall b :: b in family && b != a ==> Image(b) == old(Image(b))
  {
    hide ObjectState.Valid, Isolated, Eval, WellFormed, Width, StoreAt, Resize, Parts, NumBytes, IsAccessWidth, Image;
    ghost var was := Image(a);
    ImageParts(a);
    WriteOthers(a, mo, offset, value, littleEndian, family);
    ImageIs(a, was[mo := Stored(was[mo], offset, value, littleEndian)]);
  }

  lemma ImageParts(a: AddressSpace)
    ensures Image(a).Keys == a.objects.Keys
    ensures forall x :: x in a.objects ==> Image(a)[x] == Region(a.objects[x].bytes, a.objects[x].readOnly)
  {
  }

  lemma ImageIs(a: AddressSpace, m: Memory)
    requires m.Keys == a.objects.Keys
    requires forall x :: x in a.objects ==> m[x] == Region(a.objects[x].bytes, a.objects[x].readOnly)
    ensures Image(a) == m
  {
  }

  method WriteOthers(a: AddressSpace, mo: MemoryObject, offset: Expr, value: Expr, littleEndian: bool,
                     ghost family: set<AddressSpace>)
    requires a in family && Isolated(family)
    requires mo in a.objects && !a.objects[mo].readOnly
    requires WellFormed(offset) && WellFormed(value) && IsAccessWidth(Width(value))
    requires exists sigma: Assignment :: Eval(offset, sigma) + NumBytes(Width(value)) <= mo.size
    modifies a`objects, a.objects[mo]
    ensures Isolated(family)
    ensures mo in a.objects && a.objects == old(a.objects)[mo := a.objects[mo]] && !a.objects[mo].readOnly
    ensures a.objects[mo] == old(a.objects[mo]) || fresh(a.objects[mo])
    ensures a.objects[mo].bytes == StoreAt(old(a.objects[mo].bytes), Resize(offset, 32), Parts(value), littleEndian)
    ensures forall x :: x in a.objects && x != mo ==>
              a.objects[x].bytes == old(a.objects[x].bytes) && a.objects[x].readOnly == old(a.objects[x].readOnly)
    ensures forall b :: b in family && b != a ==> Image(b) == old(Image(b))
  {
    hide ObjectState.Valid, Isolated, Eval, WellFormed, Width, StoreAt, Resize, Parts, NumBytes, IsAccessWidth, Image;
    ghost var images := map b | b in family :: Image(b);
    forall b | b in family { ImageParts(b); }
    WriteObject(a, mo, offset, value, littleEndian, family);
    forall b | b in family && b != a
      ensures Image(b) == images[b]
    {
      ImageIs(b, images[b]);
    }
  }

  method WriteObject(a: AddressSpace, mo: MemoryObject, offset: Expr, value: Expr, littleEndian: bool,
                     ghost family: set<AddressSpace>)
    requires a in family && Isolated(family)
    requires mo in a.objects && !a.objects[mo].readOnly
    requires WellFormed(offset) && WellFormed(value) && IsAccessWidth(Width(value))
    requires exists sigma: Assignment :: Eval(offset, sigma) + NumBytes(Width(value)) <= mo.size
    modifies a`objects, a.objects[mo]
    ensures Isolated(family)
    ensures mo in a.objects && a.objects == old(a.objects)[mo := a.objects[mo]] && !a.objects[mo].readOnly
    ensures a.objects[mo] == old(a.objects[mo]) || fresh(a.objects[mo])
    ensures a.objects[mo].bytes == StoreAt(old(a.objects[mo].bytes), Resize(offset, 32), Parts(value), littleEndian)
    ensures forall b, x :: b in family && x in b.objects && !(b == a && x == mo) ==>
              b.objects[x].bytes == old(b.objects[x].bytes) && b.objects[x].readOnly == old(b.objects[x].readOnly)
  {
    hide ObjectState.Valid, Isolated, Eval, WellFormed, Width, StoreAt, Resize, Parts, NumBytes, IsAccessWidth;
    KeyedByObject(family);
    A.Write(a, mo, offset, value, littleEndian, family);
  }

  lemma StepParts(spaces: seq<AddressSpace>, g: Shadow)
    requires InStep(spaces, g)
    ensures Reaches(spaces, g.repr) && Isolated(Members(spaces)) && |spaces| == |g.ms| == |g.epochs|
    ensures forall i :: 0 <= i < |spaces| ==> Image(spaces[i]) == g.ms[i] && spaces[i] in Members(spaces)
    ensures forall i :: 0 <= i < |spaces| ==> spaces[i].epoch == g.epochs[i]
    ensures forall i, j :: 0 <= i < j < |spaces| ==> spaces[i] != spaces[j]
  {
    hide Reaches, Isolated, Sees, Image;
    forall i | 0 <= i < |spaces|
      ensures Image(spaces[i]) == g.ms[i]
    {
      SeesImage(spaces[i], g.ms[i]);
    }
  }

  lemma StepOf(spaces: seq<AddressSpace>, g: Shadow)
    requires Reaches(spaces, g.repr) && Isolated(Members(spaces)) && |spaces| == |g.ms| == |g.epochs|
    requires forall i :: 0 <= i < |spaces| ==> Image(spaces[i]) == g.ms[i]
    requires forall i :: 0 <= i < |spaces| ==> spaces[i].epoch == g.epochs[i]
    requires forall i, j :: 0 <= i < j < |spaces| ==> spaces[i] != spaces[j]
    ensures InStep(spaces, g)
  {
    hide Reaches, Isolated, Sees, Image;
    forall i | 0 <= i < |spaces|
      ensures Sees(spaces[i], g.ms[i])
    {
      SeesImage(spaces[i], g.ms[i]);
    }
  }

  /** What a space holds. */
  ghost function Image(a: AddressSpace): Memory
    reads a`objects, a.objects.Values
  {
    map mo | mo in a.objects :: Region(a.objects[mo].bytes, a.objects[mo].readOnly)
  }

  lemma SeesImage(a: AddressSpace, m: Memory)
    ensures Sees(a, m) <==> Image(a) == m
  {
  }

  method DoRead(spaces: seq<AddressSpace>, c: Command, littleEndian: bool, ghost g: Shadow)
    returns (r: Expr)
    requires InStep(spaces, g) && c.Read? && Legal(g.ms, c)
    modifies g.repr
    ensures InStep(spaces, g) && ReadGives(g.ms, c, littleEndian, r)
  {
    hide ObjectState.Valid, Isolated, Eval, WellFormed, Width, Load;
    var a, mo := spaces[c.k], c.mo;
    assert Sees(a, g.ms[c.k]);
    r := A.Read(a, mo, c.offset, c.width, littleEndian, Members(spaces));
  }

  /** One command on the family, kept in step with the reference. */
  method Step(spaces: seq<AddressSpace>, c: Command, littleEndian: bool, ghost g: Shadow)
    returns (spaces': seq<AddressSpace>, out: seq<Expr>, ghost g': Shadow)
    requires InStep(spaces, g) && Legal(g.ms, c) && KeyLasts(g.epochs, c)
    modifies g.repr
    ensures InStep(spaces', g') && fresh(g'.repr - g.repr)
    ensures g'.ms == DeepStep(g.ms, c, littleEndian) && g'.epochs == NextEpochs(g.epochs, c)
    ensures if c.Read? then |out| == 1 && ReadGives(g.ms, c, littleEndian, out[0]) else out == []
  {
    hide InStep, ReadGives;
    spaces', out, g' := spaces, [], g;
    match c
    case Fork(k) => spaces', g' := DoFork(spaces, k, g);
    case Bind(k, mo, init, readOnly) => g' := DoBind(spaces, k, mo, init, readOnly, g);
    case Unbind(k, mo) => g' := DoUnbind(spaces, k, mo, g);
    case Write(_, _, _, _) => g' := DoWrite(spaces, c, littleEndian, g);
    case Read(_, _, _, _) =>
      var r := DoRead(spaces, c, littleEndian, g);
      out := [r];
  }

  /** The rest of a run, from a family in step with the reference. */
  method RunFrom(spaces: seq<AddressSpace>, cmds: seq<Command>, littleEndian: bool, ghost g: Shadow)
    returns (spaces': seq<AddressSpace>, log: seq<Expr>, ghost g': Shadow)
    requires InStep(spaces, g) && LegalRun(g.ms, cmds, littleEndian) && KeysLast(g.epochs, cmds)
    modifies g.repr
    ensures InStep(spaces', g') && g'.ms == DeepRun(g.ms, cmds, littleEndian)
    ensures LogMatches(g.ms, cmds, littleEndian, log)
    decreases |cmds|
  {
    hide InStep, ReadGives, DeepStep;
    spaces', log, g' := spaces, [], g;
    if cmds != [] {
      assert Legal(g.ms, cmds[0]);
      hide Legal;
      var out, rest;
      spaces', out, g' := Step(spaces, cmds[0], littleEndian, g);
      spaces', rest, g' := RunFrom(spaces', cmds[1..], littleEndian, g');
      LogStep(g.ms, cmds, littleEndian, out, rest);
      log := out + rest;
    }
  }

  /** Sharing with copy on write cannot be told apart from copying at every fork:
      after any run each space holds the reference's memory, and every read on the
      way gave the reference's value. A space may take part in fewer than 2^32 forks,
      its ancestors' counted, so that no key comes back. */
  method Run(cmds: seq<Command>, littleEndian: bool) returns (spaces: seq<AddressSpace>, log: seq<Expr>)
    requires LegalRun([map[]], cmds, littleEndian) && KeysLast([1], cmds)
    ensures |spaces| == |DeepRun([map[]], cmds, littleEndian)|
    ensures forall i :: 0 <= i < |spaces| ==> Sees(spaces[i], DeepRun([map[]], cmds, littleEndian)[i])
    ensures LogMatches([map[]], cmds, littleEndian, log)
  {
    var a := new AddressSpace();
    ghost var g;
    spaces, log, g := RunFrom([a], cmds, littleEndian, Shadow([map[]], [1], {a}));
  }

  /** Fewer than 2^32 forks in all never exhaust the keys. */
  lemma {:induction false} FewForks(ms: seq<Memory>, epochs: seq<nat>, cmds: seq<Command>, littleEndian: bool, n: nat)
    requires LegalRun(ms, cmds, littleEndian) && |epochs| == |ms| && n + Forks(cmds) <= UINT32
    requires forall i :: 0 <= i < |epochs| ==> epochs[i] <= n
    ensures KeysLast(epochs, cmds)
    decreases |cmds|
  {
    if cmds != [] {
      var c := cmds[0];
      assert Legal(ms, c);
      var m := if c.Fork? then n + 1 else n;
      FewForks(DeepStep(ms, c, littleEndian), NextEpochs(epochs, c), cmds[1..], littleEndian, m);
    }
  }

  lemma LogStep(ms: seq<Memory>, cmds: seq<Command>, littleEndian: bool, out: seq<Expr>, rest: seq<Expr>)
    requires cmds != [] && LegalRun(ms, cmds, littleEndian)
    requires if cmds[0].Read? then |out| == 1 && ReadGives(ms, cmds[0], littleEndian, out[0]) else out == []
    requires LogMatches(DeepStep(ms, cmds[0], littleEndian), cmds[1..], littleEndian, rest)
    ensures LogMatches(ms, cmds, littleEndian, out + rest)
  {
    hide ReadGives, Legal;
    if cmds[0].Read? {
      assert (out + rest)[1..] == rest;
    } else {
      assert out + rest == rest;
    }
  }

  // ------------------------------------------------- a full turn of the keys

  const Cell := MemoryObject(0, 0, 1)

  const SET := Command.Write(0, Cell, Const(32, 0), Const(8, 7))

  /** Fork the first space m times, bind one byte there, fork n times more, then write the
      byte. */
  function Turn(m: nat, n: nat): seq<Command> { ForkFirst(m) + ([Bind(0, Cell, None, false)] + (ForkFirst(n) + [SET])) }

  function ForkFirst(n: nat): seq<Command> { seq(n, _ => Command.Fork(0)) }

  /** After the forks and the write every other space has the memory it had. */
  lemma {:induction false} TurnTail(ms: seq<Memory>, n: nat, cmds: seq<Command>)
    requires |ms| >= 1 && Cell in ms[0] && !ms[0][Cell].readOnly && cmds == ForkFirst(n) + [SET]
    ensures LegalRun(ms, cmds, true) && Forks(cmds) == n && |DeepRun(ms, cmds, true)| == |ms| + n
    ensures forall j :: 1 <= j < |ms| ==> DeepRun(ms, cmds, true)[j] == ms[j]
    ensures n >= 1 ==> DeepRun(ms, cmds, true)[|ms|] == ms[0]
    decreases n
  {
    Const32(0);
    ConstByte(7);
    if n == 0 {
      assert Eval(Const(32, 0), (_, _) => 0) + NumBytes(8) <= Cell.size;
      assert Legal(ms, cmds[0]);
      assert cmds[1..] == [];
    } else {
      assert cmds[1..] == ForkFirst(n - 1) + [SET];
      TurnTail(ms + [ms[0]], n - 1, cmds[1..]);
    }
  }

  lemma {:induction false} TurnHead(ms: seq<Memory>, m: nat, n: nat, cmds: seq<Command>)
    requires |ms| >= 1 && ms[0] == map[] && n >= 1 && cmds == Turn(m, n)
    ensures LegalRun(ms, cmds, true) && Forks(cmds) == m + n && |DeepRun(ms, cmds, true)| == |ms| + m + n
    ensures DeepRun(ms, cmds, true)[|ms| + m] == map[Cell := Region(Filled(1, 0), false)]
    decreases m
  {
    if m == 0 {
      var tail := ForkFirst(n) + [SET];
      assert cmds[1..] == tail && Legal(ms, cmds[0]);
      TurnTail(ms[0 := map[Cell := Region(Filled(1, 0), false)]], n, tail);
    } else {
      assert cmds[1..] == Turn(m - 1, n);
      TurnHead(ms + [ms[0]], m - 1, n, cmds[1..]);
    }
  }

  method ForkTimes(a: AddressSpace, n: nat)
    requires a.cowKey < UINT32
    modifies a`cowKey, a`epoch
    ensures a.cowKey == (old(a.cowKey) + n) % UINT32
  {
    for i := 0 to n
      invariant a.cowKey == (old(a.cowKey) + i) % UINT32
    {
      var _ := new AddressSpace.Copy(a);
    }
  }

  /** A byte shared with the first child since, under a key one full turn after its
      owner's. */
  method TurnedKey(m: nat) returns (a: AddressSpace, child: AddressSpace, os: ObjectState)
    ensures fresh(a) && fresh(os) && a.objects == child.objects == map[Cell := os]
    ensures os.Valid() && os.size == 1 && !os.readOnly && os.bytes == Filled(1, 0)
    ensures a.cowKey == os.copyOnWriteOwner
  {
    hide ObjectState.Valid;
    a := new AddressSpace();
    ForkTimes(a, m);
    os := new ObjectState(Cell, true, 0);
    a.BindObject(Cell, os);
    child := new AddressSpace.Copy(a);
    ForkTimes(a, UINT32 - 1);
  }

  /** The bound is exact: for every number of forks from 2^32 on there is a run that brings
      the key of a space back to the owner of a shared byte, and its write reaches the
      child that shares it. */
  method FullTurn(m: nat) returns (a: AddressSpace, child: AddressSpace)
    ensures Forks(Turn(m, UINT32)) == m + UINT32 && LegalRun([map[]], Turn(m, UINT32), true)
    ensures |DeepRun([map[]], Turn(m, UINT32), true)| == 1 + m + UINT32
    ensures DeepRun([map[]], Turn(m, UINT32), true)[1 + m] == map[Cell := Region(Filled(1, 0), false)]
    ensures Cell in child.objects && |child.objects[Cell].bytes| == 1
    ensures forall sigma: Assignment :: Eval(child.objects[Cell].bytes[0], sigma) == 7
  {
    hide LegalRun, DeepRun, Forks, ObjectState.Valid, Eval, WellFormed, Width, Turn, StoreAt, Parts, Resize;
    var os;
    a, child, os := TurnedKey(m);
    var w := a.GetWriteable(Cell);
    TurnedByte();
    w.WriteAt(Const(32, 0), Const(8, 7), true);
    TurnHead([map[]], m, UINT32, Turn(m, UINT32));
  }

  lemma TurnedByte()
    ensures WellFormed(Const(32, 0)) && WellFormed(Const(8, 7)) && Width(Const(8, 7)) == 8
    ensures exists sigma: Assignment :: Eval(Const(32, 0), sigma) + NumBytes(8) <= 1
    ensures forall sigma: Assignment ::
              Eval(StoreAt(Filled(1, 0), Resize(Const(32, 0), 32), Parts(Const(8, 7)), true)[0], sigma) == 7
  {
    Const32(0);
    ConstByte(0);
    ConstByte(7);
    var bytes, parts, at := Filled(1, 0), Parts(Const(8, 7)), Const(32, 0);
    PartsAreBytes(Const(8, 7));
    assert Eval(at, (_, _) => 0) + NumBytes(8) <= 1;
    assert Resize(at, 32) == at && forall sigma: Assignment :: Eval(at, sigma) == 0;
    hide Eval, WellFormed, Width, StoreAt, Store, Parts, Resize;
    forall sigma: Assignment
      ensures Eval(StoreAt(bytes, at, parts, true)[0], sigma) == 7
    {
      SevenOf(sigma);
      StoreAtMeaning(bytes, at, parts, true, sigma);
      StoredPart(bytes, 0, parts, 0, true);
    }
  }

  lemma SevenOf(sigma: Assignment)
    ensures |Parts(Const(8, 7))| == 1 && Eval(Parts(Const(8, 7))[0], sigma) == 7
  {
    ConstByte(7);
    PartMeaning(Const(8, 7), 0, sigma);
    assert Pow2(0) == 1;
  }
}
