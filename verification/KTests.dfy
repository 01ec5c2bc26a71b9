/**
 Test files: the arguments of a run and the bytes of its symbolic objects, written
 to and read from a file.
 */
module KTests {
  import opened Arithmetic
  import opened Exprs

  type Bytes = seq<byte>

  datatype TestObject = TestObject(name: Bytes, bytes: Bytes)

  datatype KTest = KTest(version: nat, args: seq<Bytes>, symArgvs: nat, symArgvLen: nat, objects: seq<TestObject>)

  const MAGIC: Bytes := [75, 84, 69, 83, 84]
  const OLD_MAGIC: Bytes := [66, 79, 85, 84, 10]
  const VERSION: nat := 3

  /** The counts and lengths of a record are 32-bit numbers. */
  predicate IsRecord(t: KTest) {
    && |t.args| < UINT32 && t.symArgvs < UINT32 && t.symArgvLen < UINT32 && |t.objects| < UINT32
    && (forall i :: 0 <= i < |t.args| ==> |t.args[i]| < UINT32)
    && (forall i :: 0 <= i < |t.objects| ==> |t.objects[i].name| < UINT32 && |t.objects[i].bytes| < UINT32)
  }

  // -------------------------------------------------------------- the format

  /** A number from its digits to base 256, the most significant first. */
  function BigEndian(d: Bytes): nat {
    if d == [] then 0 else 256 * BigEndian(d[..|d| - 1]) + d[|d| - 1]
  }

  function Word(v: nat): (r: Bytes)
    requires v < UINT32
    ensures |r| == 4
  {
    [v / 0x100_0000 % 256, v / 0x1_0000 % 256, v / 0x100 % 256, v % 256]
  }

  function Value(d: Bytes): nat
    requires |d| == 4
  {
    var a: int, b: int, c: int := d[0], d[1], d[2];
    ((a * 256 + b) * 256 + c) * 256 + d[3]
  }

  /** The first byte of a word is the most significant one. */
  lemma ValueOrder(d: Bytes)
    requires |d| == 4
    ensures Value(d) == BigEndian(d)
  {
    assert d[..3][..2] == d[..2] && d[..2][..1] == d[..1] && d[..1][..0] == [];
    assert BigEndian(d[..1]) == d[0];
    assert BigEndian(d[..2]) == 256 * BigEndian(d[..1]) + d[1];
    assert BigEndian(d[..3]) == 256 * BigEndian(d[..2]) + d[2];
  }

  lemma WordValue(v: nat)
    requires v < UINT32
    ensures Value(Word(v)) == v && BigEndian(Word(v)) == v
  {
    ValueOrder(Word(v));
    var c := v / 256;
    var b := c / 256;
    var a := b / 256;
    ModUnique(v, 0x1_0000, b, c % 256 * 256 + v % 256);
    ModUnique(v, 0x100_0000, a, (b % 256 * 256 + c % 256) * 256 + v % 256);
  }

  function Text(s: Bytes): Bytes
    requires |s| < UINT32
  {
    Word(|s|) + s
  }

  function Texts(ss: seq<Bytes>): Bytes
    requires forall i :: 0 <= i < |ss| ==> |ss[i]| < UINT32
  {
    if ss == [] then [] else Texts(ss[..|ss| - 1]) + Text(ss[|ss| - 1])
  }

  function Object(o: TestObject): Bytes
    requires |o.name| < UINT32 && |o.bytes| < UINT32
  {
    Text(o.name) + Text(o.bytes)
  }

  function Objects(os: seq<TestObject>): Bytes
    requires forall i :: 0 <= i < |os| ==> |os[i].name| < UINT32 && |os[i].bytes| < UINT32
  {
    if os == [] then [] else Objects(os[..|os| - 1]) + Object(os[|os| - 1])
  }

  function Encode(t: KTest): Bytes
    requires IsRecord(t)
  {
    MAGIC + Word(VERSION) + Word(|t.args|) + Texts(t.args) + Word(t.symArgvs) + Word(t.symArgvLen)
    + Word(|t.objects|) + Objects(t.objects)
  }

  /** Writing a block of no bytes counts as a failure. */
  predicate Writable(t: KTest) {
    && (forall i :: 0 <= i < |t.args| ==> t.args[i] != [])
    && (forall i :: 0 <= i < |t.objects| ==> t.objects[i].name != [] && t.objects[i].bytes != [])
  }

  // -------------------------------------------------------------- the writer

  method WriteBlock(file: Bytes, block: Bytes) returns (ok: bool, file': Bytes)
    ensures ok <==> block != []
    ensures file' == file + block
  {
    ok, file' := |block| > 0, file + block;
  }

  method WriteString(file: Bytes, s: Bytes) returns (ok: bool, file': Bytes)
    requires |s| < UINT32
    ensures ok <==> s != []
    ensures ok ==> file' == file + Text(s)
  {
    ok, file' := WriteBlock(file + Word(|s|), s);
  }

  method WriteStrings(start: Bytes, ss: seq<Bytes>) returns (ok: bool, file: Bytes)
    requires forall i :: 0 <= i < |ss| ==> |ss[i]| < UINT32
    ensures ok <==> forall i :: 0 <= i < |ss| ==> ss[i] != []
    ensures ok ==> file == start + Texts(ss)
  {
    ok, file := true, start;
    for i := 0 to |ss|
      invariant file == start + Texts(ss[..i]) && forall k :: 0 <= k < i ==> ss[k] != []
    {
      ok, file := WriteString(file, ss[i]);
      if !ok { return; }
      assert ss[..i + 1][..i] == ss[..i];
    }
    assert ss[..|ss|] == ss;
  }

  method WriteObjects(start: Bytes, os: seq<TestObject>) returns (ok: bool, file: Bytes)
    requires forall i :: 0 <= i < |os| ==> |os[i].name| < UINT32 && |os[i].bytes| < UINT32
    ensures ok <==> forall i :: 0 <= i < |os| ==> os[i].name != [] && os[i].bytes != []
    ensures ok ==> file == start + Objects(os)
  {
    hide Text, Objects;
    NoObjects(os);
    ok, file := true, start;
    for i := 0 to |os|
      invariant file == start + Objects(os[..i]) && forall k :: 0 <= k < i ==> os[k].name != [] && os[k].bytes != []
    {
      ok, file := WriteString(file, os[i].name);
      if !ok { return; }
      ok, file := WriteString(file, os[i].bytes);
      if !ok { return; }
      ObjectsSnoc(os, i + 1);
    }
    assert os[..|os|] == os;
  }

  /** The writer fails exactly on empty strings and objects. */
  method ToFile(t: KTest) returns (ok: bool, file: Bytes)
    requires IsRecord(t)
    ensures ok <==> Writable(t)
    ensures ok ==> file == Encode(t)
  {
    file := MAGIC + Word(VERSION) + Word(|t.args|);
    ok, file := WriteStrings(file, t.args);
    if !ok { return; }
    file := file + Word(t.symArgvs) + Word(t.symArgvLen) + Word(|t.objects|);
    ok, file := WriteObjects(file, t.objects);
  }

  // -------------------------------------------------------------- the reader

  datatype Parsed<T> = Fail | Got(value: T, rest: nat)

  function WordAt(file: Bytes, pos: nat): Parsed<nat> {
    if pos + 4 <= |file| then Got(Value(file[pos..pos + 4]), pos + 4) else Fail
  }

  function TextAt(file: Bytes, pos: nat): Parsed<Bytes> {
    match WordAt(file, pos)
    case Fail => Fail
    case Got(n, p) => if 0 < n && p + n <= |file| then Got(file[p..p + n], p + n) else Fail
  }

  function ObjectAt(file: Bytes, pos: nat): Parsed<TestObject> {
    match TextAt(file, pos)
    case Fail => Fail
    case Got(name, p) =>
      match TextAt(file, p)
      case Fail => Fail
      case Got(bytes, q) => Got(TestObject(name, bytes), q)
  }

  function TextsAt(file: Bytes, pos: nat, n: nat, done: seq<Bytes>): Parsed<seq<Bytes>>
    decreases n
  {
    if n == 0 then Got(done, pos)
    else match TextAt(file, pos)
      case Fail => Fail
      case Got(s, p) => TextsAt(file, p, n - 1, done + [s])
  }

  function ObjectsAt(file: Bytes, pos: nat, n: nat, done: seq<TestObject>): Parsed<seq<TestObject>>
    decreases n
  {
    if n == 0 then Got(done, pos)
    else match ObjectAt(file, pos)
      case Fail => Fail
      case Got(o, p) => ObjectsAt(file, p, n - 1, done + [o])
  }

  predicate HasHeader(file: Bytes) { |file| >= 5 && (file[..5] == MAGIC || file[..5] == OLD_MAGIC) }

  /** The two fields that came with version 2, zero in older files. */
  function ArgvAt(file: Bytes, pos: nat, version: nat): Parsed<(nat, nat)> {
    if version < 2 then Got((0, 0), pos)
    else match WordAt(file, pos)
      case Fail => Fail
      case Got(n, p) =>
        match WordAt(file, p)
        case Fail => Fail
        case Got(l, q) => Got((n, l), q)
  }

  /** The record at the start of a file, and where it ends. */
  function Parse(file: Bytes): Parsed<KTest> {
    if !HasHeader(file) then Fail
    else match WordAt(file, 5)
      case Fail => Fail
      case Got(version, p0) =>
        if version > VERSION then Fail
        else match WordAt(file, p0)
          case Fail => Fail
          case Got(numArgs, p1) =>
            match TextsAt(file, p1, numArgs, [])
            case Fail => Fail
            case Got(args, p2) => ParseTail(file, p2, version, args)
  }

  function ParseTail(file: Bytes, pos: nat, version: nat, args: seq<Bytes>): Parsed<KTest> {
    match ArgvAt(file, pos, version)
    case Fail => Fail
    case Got(argv, p) =>
      match WordAt(file, p)
      case Fail => Fail
      case Got(numObjects, q) =>
        match ObjectsAt(file, q, numObjects, [])
        case Fail => Fail
        case Got(objects, r) => Got(KTest(version, args, argv.0, argv.1, objects), r)
  }

  /** The outcome of a read, and where it leaves the reader. */
  predicate Gives<T(==)>(parsed: Parsed<T>, r: Option<T>, pos: nat) {
    if parsed.Got? then r == Some(parsed.value) && pos == parsed.rest else r == None
  }

  class Reader {
    const file: Bytes
    var pos: nat

    constructor (file: Bytes)
      ensures this.file == file && pos == 0
    {
      this.file, pos := file, 0;
    }

    /** A block read counts only when it is complete and not empty. */
    method ReadBlock(n: nat) returns (r: Option<Bytes>)
      modifies this`pos
      ensures r == if 0 < n && old(pos) + n <= |file| then Some(file[old(pos)..old(pos) + n]) else None
      ensures r.Some? ==> pos == old(pos) + n
    {
      if n == 0 || pos + n > |file| { return None; }
      r := Some(file[pos..pos + n]);
      pos := pos + n;
    }

    method ReadWord() returns (r: Option<nat>)
      modifies this`pos
      ensures Gives(WordAt(file, old(pos)), r, pos)
    {
      var d := ReadBlock(4);
      r := if d.None? then None else Some(Value(d.value));
    }

    method ReadString() returns (r: Option<Bytes>)
      modifies this`pos
      ensures Gives(TextAt(file, old(pos)), r, pos)
    {
      var n := ReadWord();
      if n.None? { return None; }
      r := ReadBlock(n.value);
    }

    method ReadStrings(n: nat) returns (r: Option<seq<Bytes>>)
      modifies this`pos
      ensures Gives(TextsAt(file, old(pos), n, []), r, pos)
    {
      var done := [];
      for i := 0 to n
        invariant TextsAt(file, old(pos), n, []) == TextsAt(file, pos, n - i, done)
      {
        var s := ReadString();
        if s.None? { return None; }
        done := done + [s.value];
      }
      r := Some(done);
    }

    method ReadObjects(n: nat) returns (r: Option<seq<TestObject>>)
      modifies this`pos
      ensures Gives(ObjectsAt(file, old(pos), n, []), r, pos)
    {
      var done := [];
      for i := 0 to n
        invariant ObjectsAt(file, old(pos), n, []) == ObjectsAt(file, pos, n - i, done)
      {
        var name := ReadString();
        if name.None? { return None; }
        var bytes := ReadString();
        if bytes.None? { return None; }
        done := done + [TestObject(name.value, bytes.value)];
      }
      r := Some(done);
    }

    method FromFile() returns (r: Option<KTest>)
      requires pos == 0
      modifies this`pos
      ensures Gives(Parse(file), r, pos)
    {
      var header := ReadBlock(5);
      if header.None? || (header.value != MAGIC && header.value != OLD_MAGIC) { return None; }
      var version := ReadWord();
      if version.None? || version.value > VERSION { return None; }
      var numArgs := ReadWord();
      if numArgs.None? { return None; }
      var args := ReadStrings(numArgs.value);
      if args.None? { return None; }
      r := FromTail(version.value, args.value);
    }

    method FromTail(version: nat, args: seq<Bytes>) returns (r: Option<KTest>)
      modifies this`pos
      ensures Gives(ParseTail(file, old(pos), version, args), r, pos)
    {
      var symArgvs, symArgvLen := Some(0), Some(0);
      if version >= 2 {
        symArgvs := ReadWord();
        if symArgvs.None? { return None; }
        symArgvLen := ReadWord();
        if symArgvLen.None? { return None; }
      }
      var numObjects := ReadWord();
      if numObjects.None? { return None; }
      var objects := ReadObjects(numObjects.value);
      if objects.None? { return None; }
      r := Some(KTest(version, args, symArgvs.value, symArgvLen.value, objects.value));
    }
  }

  // ------------------------------------------------------------ the theorems

  /** A file that has these bytes at this place. */
  predicate At(file: Bytes, pos: nat, block: Bytes) { pos + |block| <= |file| && file[pos..pos + |block|] == block }

  lemma AtSplit(file: Bytes, pos: nat, a: Bytes, b: Bytes)
    requires At(file, pos, a + b)
    ensures At(file, pos, a) && At(file, pos + |a|, b)
  {
    var both := file[pos..pos + |a + b|];
    assert both[..|a|] == a && both[|a|..] == b;
  }

  lemma ReadsWord(file: Bytes, pos: nat, v: nat)
    requires v < UINT32 && At(file, pos, Word(v))
    ensures WordAt(file, pos) == Got(v, pos + 4)
  {
    WordValue(v);
  }

  lemma ReadsText(file: Bytes, pos: nat, s: Bytes)
    requires 0 < |s| < UINT32 && At(file, pos, Text(s))
    ensures TextAt(file, pos) == Got(s, pos + |Text(s)|)
  {
    AtSplit(file, pos, Word(|s|), s);
    ReadsWord(file, pos, |s|);
  }

  lemma ReadsObject(file: Bytes, pos: nat, o: TestObject)
    requires 0 < |o.name| < UINT32 && 0 < |o.bytes| < UINT32 && At(file, pos, Object(o))
    ensures ObjectAt(file, pos) == Got(o, pos + |Object(o)|)
  {
    AtSplit(file, pos, Text(o.name), Text(o.bytes));
    ReadsText(file, pos, o.name);
    ReadsText(file, pos + |Text(o.name)|, o.bytes);
  }

  /** Reading goes on after the strings that are already read. */
  lemma {:induction false} ReadsTexts(file: Bytes, pos: nat, ss: seq<Bytes>, n: nat, k: nat)
    requires k <= n == |ss| && (forall i :: 0 <= i < n ==> 0 < |ss[i]| < UINT32) && At(file, pos, Texts(ss))
    ensures TextsAt(file, pos, n, []) == TextsAt(file, pos + |Texts(ss[..k])|, n - k, ss[..k])
    decreases k
  {
    hide At, Text, TextAt, Texts, TextsAt;
    if k > 0 {
      var done, last := ss[..k - 1], ss[k - 1];
      ReadsTexts(file, pos, ss, n, k - 1);
      TextsPrefix(file, pos, ss, k);
      TextsSnoc(ss, k);
      assert ss[..k] == done + [last];
      AtSplit(file, pos, Texts(done), Text(last));
      ReadsText(file, pos + |Texts(done)|, last);
      TextsAtStep(file, pos + |Texts(done)|, n - k + 1, done);
    } else {
      NoTexts(ss);
    }
  }

  lemma NoTexts(ss: seq<Bytes>)
    ensures ss[..0] == [] && Texts(ss[..0]) == []
  {
  }

  lemma TextsAtStep(file: Bytes, pos: nat, n: nat, done: seq<Bytes>)
    requires n > 0 && TextAt(file, pos).Got?
    ensures var next := TextAt(file, pos);
            TextsAt(file, pos, n, done) == TextsAt(file, next.rest, n - 1, done + [next.value])
  {
  }

  lemma TextsSnoc(ss: seq<Bytes>, k: nat)
    requires 0 < k <= |ss| && forall i :: 0 <= i < |ss| ==> |ss[i]| < UINT32
    ensures Texts(ss[..k]) == Texts(ss[..k - 1]) + Text(ss[k - 1])
  {
    assert ss[..k][..k - 1] == ss[..k - 1];
  }

  lemma {:induction false} TextsPrefix(file: Bytes, pos: nat, ss: seq<Bytes>, k: nat)
    requires k <= |ss| && (forall i :: 0 <= i < |ss| ==> |ss[i]| < UINT32) && At(file, pos, Texts(ss))
    ensures At(file, pos, Texts(ss[..k]))
    decreases |ss|
  {
    if k < |ss| {
      var all := ss[..|ss| - 1];
      AtSplit(file, pos, Texts(all), Text(ss[|ss| - 1]));
      TextsPrefix(file, pos, all, k);
      assert all[..k] == ss[..k];
    } else {
      assert ss[..k] == ss;
    }
  }

  lemma {:induction false} ReadsObjects(file: Bytes, pos: nat, os: seq<TestObject>, n: nat, k: nat)
    requires k <= n == |os| && forall i :: 0 <= i < n ==> 0 < |os[i].name| < UINT32 && 0 < |os[i].bytes| < UINT32
    requires At(file, pos, Objects(os))
    ensures ObjectsAt(file, pos, n, []) == ObjectsAt(file, pos + |Objects(os[..k])|, n - k, os[..k])
    decreases k
  {
    hide At, Object, ObjectAt, Objects, ObjectsAt;
    if k > 0 {
      var done, last := os[..k - 1], os[k - 1];
      ReadsObjects(file, pos, os, n, k - 1);
      ObjectsPrefix(file, pos, os, k);
      ObjectsSnoc(os, k);
      assert os[..k] == done + [last];
      AtSplit(file, pos, Objects(done), Object(last));
      ReadsObject(file, pos + |Objects(done)|, last);
      ObjectsAtStep(file, pos + |Objects(done)|, n - k + 1, done);
    } else {
      NoObjects(os);
    }
  }

  lemma NoObjects(os: seq<TestObject>)
    ensures os[..0] == [] && Objects(os[..0]) == []
  {
  }

  lemma ObjectsAtStep(file: Bytes, pos: nat, n: nat, done: seq<TestObject>)
    requires n > 0 && ObjectAt(file, pos).Got?
    ensures var next := ObjectAt(file, pos);
            ObjectsAt(file, pos, n, done) == ObjectsAt(file, next.rest, n - 1, done + [next.value])
  {
  }

  lemma ObjectsSnoc(os: seq<TestObject>, k: nat)
    requires 0 < k <= |os| && forall i :: 0 <= i < |os| ==> |os[i].name| < UINT32 && |os[i].bytes| < UINT32
    ensures Objects(os[..k]) == Objects(os[..k - 1]) + Object(os[k - 1])
  {
    assert os[..k][..k - 1] == os[..k - 1];
  }

  lemma {:induction false} ObjectsPrefix(file: Bytes, pos: nat, os: seq<TestObject>, k: nat)
    requires k <= |os| && forall i :: 0 <= i < |os| ==> |os[i].name| < UINT32 && |os[i].bytes| < UINT32
    requires At(file, pos, Objects(os))
    ensures At(file, pos, Objects(os[..k]))
    decreases |os|
  {
    if k < |os| {
      var all := os[..|os| - 1];
      AtSplit(file, pos, Objects(all), Object(os[|os| - 1]));
      ObjectsPrefix(file, pos, all, k);
      assert all[..k] == os[..k];
    } else {
      assert os[..k] == os;
    }
  }

  function Tail(version: nat, t: KTest): Bytes
    requires IsRecord(t)
  {
    var objects := Word(|t.objects|) + Objects(t.objects);
    if version < 2 then objects else Word(t.symArgvs) + (Word(t.symArgvLen) + objects)
  }

  /** A record in the format of a version, under a header. */
  function EncodeAs(header: Bytes, version: nat, t: KTest): Bytes
    requires IsRecord(t) && version <= VERSION
  {
    header + (Word(version) + (Word(|t.args|) + (Texts(t.args) + Tail(version, t))))
  }

  /** What is kept of a record in the format of a version. */
  function Kept(version: nat, t: KTest): KTest {
    if version < 2 then KTest(version, t.args, 0, 0, t.objects) else t.(version := version)
  }

  lemma EncodeShape(t: KTest)
    requires IsRecord(t)
    ensures Encode(t) == EncodeAs(MAGIC, VERSION, t)
  {
    hide Word, Texts, Objects;
  }

  lemma FileParts(header: Bytes, version: nat, t: KTest)
    requires IsRecord(t) && (header == MAGIC || header == OLD_MAGIC) && version <= VERSION
    ensures var file := EncodeAs(header, version, t);
            && file == header + (Word(version) + (Word(|t.args|) + (Texts(t.args) + Tail(version, t))))
            && At(file, 0, file) && (At(file, 0, header) ==> HasHeader(file))
            && |header| == 5 && |file| == 13 + |Texts(t.args)| + |Tail(version, t)|
  {
    hide Word, Texts, Tail;
  }

  /** A file with either header, in the format of any version up to the writer's, is read to
      the last byte as the record it holds; before version 2 the two fields it lacks are zero. */
  lemma EveryVersion(header: Bytes, version: nat, t: KTest)
    requires IsRecord(t) && Writable(t) && (header == MAGIC || header == OLD_MAGIC) && version <= VERSION
    ensures Parse(EncodeAs(header, version, t)) == Got(Kept(version, t), |EncodeAs(header, version, t)|)
  {
    hide At, Texts, TextsAt, WordAt, ParseTail, HasHeader, Tail, Word, EncodeAs, Kept;
    var file := EncodeAs(header, version, t);
    FileParts(header, version, t);
    AtSplit(file, 0, header, Word(version) + (Word(|t.args|) + (Texts(t.args) + Tail(version, t))));
    AtSplit(file, 5, Word(version), Word(|t.args|) + (Texts(t.args) + Tail(version, t)));
    AtSplit(file, 9, Word(|t.args|), Texts(t.args) + Tail(version, t));
    AtSplit(file, 13, Texts(t.args), Tail(version, t));
    ReadsWord(file, 5, version);
    ReadsWord(file, 9, |t.args|);
    ReadsAllTexts(file, 13, t.args);
    TailRoundTrip(file, 13 + |Texts(t.args)|, version, t);
  }

  /** What the writer writes the reader reads back, to the last byte. */
  lemma RoundTrip(t: KTest)
    requires IsRecord(t) && Writable(t)
    ensures Parse(Encode(t)) == Got(t.(version := VERSION), |Encode(t)|)
  {
    hide Encode, EncodeAs, Parse, IsRecord, Writable;
    EncodeShape(t);
    EveryVersion(MAGIC, VERSION, t);
  }

  lemma ReadsAllTexts(file: Bytes, pos: nat, ss: seq<Bytes>)
    requires (forall i :: 0 <= i < |ss| ==> 0 < |ss[i]| < UINT32) && At(file, pos, Texts(ss))
    ensures TextsAt(file, pos, |ss|, []) == Got(ss, pos + |Texts(ss)|)
  {
    hide At, Texts;
    ReadsTexts(file, pos, ss, |ss|, |ss|);
    assert ss[..|ss|] == ss;
  }

  lemma ReadsAllObjects(file: Bytes, pos: nat, os: seq<TestObject>)
    requires forall i :: 0 <= i < |os| ==> 0 < |os[i].name| < UINT32 && 0 < |os[i].bytes| < UINT32
    requires At(file, pos, Objects(os))
    ensures ObjectsAt(file, pos, |os|, []) == Got(os, pos + |Objects(os)|)
  {
    hide At, Objects;
    ReadsObjects(file, pos, os, |os|, |os|);
    assert os[..|os|] == os;
  }

  lemma TailRoundTrip(file: Bytes, pos: nat, version: nat, t: KTest)
    requires IsRecord(t) && Writable(t) && At(file, pos, Tail(version, t))
    ensures ParseTail(file, pos, version, t.args) == Got(Kept(version, t), pos + |Tail(version, t)|)
  {
    hide At, Objects, ObjectsAt, WordAt, Word;
    var objects := Word(|t.objects|) + Objects(t.objects);
    var p := if version < 2 then pos else pos + 8;
    if version >= 2 {
      AtSplit(file, pos, Word(t.symArgvs), Word(t.symArgvLen) + objects);
      AtSplit(file, pos + 4, Word(t.symArgvLen), objects);
      ReadsWord(file, pos, t.symArgvs);
      ReadsWord(file, pos + 4, t.symArgvLen);
    }
    AtSplit(file, p, Word(|t.objects|), Objects(t.objects));
    ReadsWord(file, p, |t.objects|);
    ReadsAllObjects(file, p + 4, t.objects);
  }

  lemma WordStable(file: Bytes, more: Bytes, pos: nat)
    requires WordAt(file, pos).Got?
    ensures WordAt(file + more, pos) == WordAt(file, pos) && WordAt(file, pos).rest <= |file|
  {
    assert (file + more)[pos..pos + 4] == file[pos..pos + 4];
  }

  lemma TextStable(file: Bytes, more: Bytes, pos: nat)
    requires TextAt(file, pos).Got?
    ensures TextAt(file + more, pos) == TextAt(file, pos) && TextAt(file, pos).rest <= |file|
  {
    WordStable(file, more, pos);
    var p, q := pos + 4, TextAt(file, pos).rest;
    assert (file + more)[p..q] == file[p..q];
  }

  lemma {:induction false} TextsStable(file: Bytes, more: Bytes, pos: nat, n: nat, done: seq<Bytes>)
    requires TextsAt(file, pos, n, done).Got? && pos <= |file|
    ensures TextsAt(file + more, pos, n, done) == TextsAt(file, pos, n, done) &&
            TextsAt(file, pos, n, done).rest <= |file|
    decreases n
  {
    if n > 0 {
      TextStable(file, more, pos);
      var s := TextAt(file, pos);
      TextsStable(file, more, s.rest, n - 1, done + [s.value]);
    }
  }

  lemma {:induction false} ObjectsStable(file: Bytes, more: Bytes, pos: nat, n: nat, done: seq<TestObject>)
    requires ObjectsAt(file, pos, n, done).Got? && pos <= |file|
    ensures ObjectsAt(file + more, pos, n, done) == ObjectsAt(file, pos, n, done) &&
            ObjectsAt(file, pos, n, done).rest <= |file|
    decreases n
  {
    if n > 0 {
      TextStable(file, more, pos);
      TextStable(file, more, TextAt(file, pos).rest);
      var o := ObjectAt(file, pos);
      ObjectsStable(file, more, o.rest, n - 1, done + [o.value]);
    }
  }

  lemma TailStable(file: Bytes, more: Bytes, pos: nat, version: nat, args: seq<Bytes>)
    requires ParseTail(file, pos, version, args).Got? && pos <= |file|
    ensures ParseTail(file + more, pos, version, args) == ParseTail(file, pos, version, args)
    ensures ParseTail(file, pos, version, args).rest <= |file|
  {
    if version >= 2 {
      WordStable(file, more, pos);
      WordStable(file, more, pos + 4);
    }
    var p := ArgvAt(file, pos, version).rest;
    WordStable(file, more, p);
    ObjectsStable(file, more, p + 4, WordAt(file, p).value, []);
  }

  /** Whatever a file reads as, it reads as the same when more bytes follow. */
  lemma ParseStable(file: Bytes, more: Bytes)
    requires Parse(file).Got?
    ensures Parse(file + more) == Parse(file) && Parse(file).rest <= |file|
  {
    assert (file + more)[..5] == file[..5];
    WordStable(file, more, 5);
    WordStable(file, more, 9);
    var args := TextsAt(file, 13, WordAt(file, 9).value, []);
    TextsStable(file, more, 13, WordAt(file, 9).value, []);
    TailStable(file, more, args.rest, WordAt(file, 5).value, args.value);
  }

  /** A file that has lost its end is rejected. */
  lemma PrefixRejected(t: KTest, n: nat)
    requires IsRecord(t) && Writable(t) && n < |Encode(t)|
    ensures Parse(Encode(t)[..n]) == Fail
  {
    hide Encode, Parse, IsRecord, Writable;
    var file := Encode(t);
    RoundTrip(t);
    assert file[..n] + file[n..] == file;
    if Parse(file[..n]).Got? { ParseStable(file[..n], file[n..]); }
  }
}
