/**
 The area that holds the variadic arguments of a call: where each argument goes and
 how large the area is, for 32-bit and 64-bit words.
 */
module Varargs {
  import opened Arithmetic

  /** The width of an argument in bits and the alignment the call asks for, zero when it
      asks for none. */
  datatype Argument = Argument(width: nat, alignment: nat)

  function AlignTo(v: nat, a: nat): (r: nat)
    requires a > 0
    ensures r % a == 0 && v <= r < v + a
  {
    AlignFacts(v, a);
    (v + a - 1) / a * a
  }

  lemma AlignFacts(v: nat, a: nat)
    requires a > 0
    ensures (v + a - 1) / a * a % a == 0 && v <= (v + a - 1) / a * a < v + a
  {
    var q := (v + a - 1) / a;
    DivMod(v + a - 1, a);
    ModUnique(q * a, a, q, 0);
  }

  ghost predicate IsPowerOfTwo(a: nat) { exists k: nat :: a == Pow2(k) }

  /** The alignment an argument gets: what was asked for, or the word size, or 16 bytes
      for a wide argument among 64-bit words. */
  function Alignment(wide: bool, arg: Argument): nat {
    if arg.alignment != 0 then arg.alignment
    else if !wide then 4
    else if arg.width > 64 then 16
    else 8
  }

  function Bytes(width: nat): nat { (width + 7) / 8 }

  /** The room an argument takes; a whole number of words among 64-bit words. */
  function Room(wide: bool, width: nat): (r: nat)
    ensures Bytes(width) <= r < Bytes(width) + if wide then 8 else 1
    ensures wide ==> r % 8 == 0
  {
    if wide then
      WordRoom(width);
      AlignTo(width, 64) / 8
    else Bytes(width)
  }

  lemma WordRoom(width: nat)
    ensures Bytes(width) <= AlignTo(width, 64) / 8 < Bytes(width) + 8 && AlignTo(width, 64) / 8 % 8 == 0
  {
    hide AlignTo;
    WholeBlocks(AlignTo(width, 64), width);
  }

  lemma WholeBlocks(r: nat, width: nat)
    requires r % 64 == 0 && width <= r < width + 64
    ensures (width + 7) / 8 <= r / 8 < (width + 7) / 8 + 8 && r / 8 % 8 == 0
  {
    var q := r / 64;
    assert r == 64 * q;
    assert r / 8 == 8 * q;
  }

  function EndOf(wide: bool, args: seq<Argument>, offsets: seq<nat>, k: nat): nat
    requires k <= |args| == |offsets|
  {
    if k == 0 then 0 else offsets[k - 1] + Room(wide, args[k - 1].width)
  }

  /** An argument is at the first aligned place after the one before it. */
  predicate IsPlaced(wide: bool, args: seq<Argument>, offsets: seq<nat>, k: nat)
    requires k < |args| == |offsets|
  {
    var end, a := EndOf(wide, args, offsets, k), Alignment(wide, args[k]);
    a > 0 && offsets[k] % a == 0 && end <= offsets[k] < end + a
  }

  /** The arguments follow each other, and the area ends after the last one. */
  predicate IsLayout(wide: bool, args: seq<Argument>, offsets: seq<nat>, size: nat) {
    && |offsets| == |args| && (forall k :: 0 <= k < |args| ==> IsPlaced(wide, args, offsets, k))
    && size == EndOf(wide, args, offsets, |args|)
  }

  lemma OneMore(wide: bool, args: seq<Argument>, offsets: seq<nat>, size: nat, arg: Argument, offset: nat)
    requires IsLayout(wide, args, offsets, size) && Alignment(wide, arg) > 0
    requires offset == AlignTo(size, Alignment(wide, arg))
    ensures IsLayout(wide, args + [arg], offsets + [offset], offset + Room(wide, arg.width))
  {
    hide AlignTo, Room, Alignment;
    forall k | 0 <= k < |args|
      ensures IsPlaced(wide, args + [arg], offsets + [offset], k)
    {
      assert IsPlaced(wide, args, offsets, k);
      assert EndOf(wide, args + [arg], offsets + [offset], k) == EndOf(wide, args, offsets, k);
    }
    assert EndOf(wide, args + [arg], offsets + [offset], |args|) == size;
  }

  method Layout(wide: bool, args: seq<Argument>) returns (offsets: seq<nat>, size: nat, align16: bool)
    ensures IsLayout(wide, args, offsets, size)
    ensures align16 <==> wide && exists k :: 0 <= k < |args| && args[k].alignment == 0 && args[k].width > 64
  {
    hide IsLayout, Room, AlignTo;
    NoArguments(wide);
    offsets, size, align16 := [], 0, false;
    for k := 0 to |args|
      invariant IsLayout(wide, args[..k], offsets, size)
      invariant align16 <==> wide && exists l :: 0 <= l < k && args[l].alignment == 0 && args[l].width > 64
    {
      var alignment := args[k].alignment;
      if !wide && alignment == 0 {
        alignment := 4;
      } else {
        if wide && alignment == 0 && args[k].width > 64 {
          alignment := 16;
          align16 := true;
        }
        if alignment == 0 { alignment := 8; }
      }
      OneMore(wide, args[..k], offsets, size, args[k], AlignTo(size, alignment));
      size := AlignTo(size, alignment);
      offsets := offsets + [size];
      size := size + Room(wide, args[k].width);
      assert args[..k + 1] == args[..k] + [args[k]];
    }
    assert args[..|args|] == args;
  }

  lemma NoArguments(wide: bool)
    ensures IsLayout(wide, [], [], 0)
  {
  }

  lemma {:induction false} LaterOffset(wide: bool, args: seq<Argument>, offsets: seq<nat>, size: nat, k: nat, l: nat)
    requires IsLayout(wide, args, offsets, size) && k < l < |args|
    ensures offsets[k] + Room(wide, args[k].width) <= offsets[l]
    decreases l
  {
    assert IsPlaced(wide, args, offsets, l);
    if k < l - 1 { LaterOffset(wide, args, offsets, size, k, l - 1); }
  }

  /** Every offset is aligned, no two arguments overlap, and all lie inside the area. */
  lemma LayoutSafe(wide: bool, args: seq<Argument>, offsets: seq<nat>, size: nat)
    requires IsLayout(wide, args, offsets, size)
    ensures forall k :: 0 <= k < |args| ==>
              Alignment(wide, args[k]) > 0 && offsets[k] % Alignment(wide, args[k]) == 0 &&
              offsets[k] + Bytes(args[k].width) <= size
    ensures forall k, l :: 0 <= k < l < |args| ==> offsets[k] + Bytes(args[k].width) <= offsets[l]
  {
    forall k, l | 0 <= k < l < |args|
      ensures offsets[k] + Room(wide, args[k].width) <= offsets[l]
    {
      LaterOffset(wide, args, offsets, size, k, l);
    }
    forall k | 0 <= k < |args|
      ensures Alignment(wide, args[k]) > 0 && offsets[k] % Alignment(wide, args[k]) == 0
      ensures offsets[k] + Bytes(args[k].width) <= size
    {
      assert IsPlaced(wide, args, offsets, k);
      if k < |args| - 1 { LaterOffset(wide, args, offsets, size, k, |args| - 1); }
    }
  }

  lemma PowerSplit(a: nat)
    requires IsPowerOfTwo(a)
    ensures a > 0 && (8 % a == 0 || a % 8 == 0)
  {
    var k: nat :| a == Pow2(k);
    if k >= 3 {
      Pow2Add(k - 3, 3);
      assert Pow2(3) == 8;
      ModUnique(Pow2(k - 3) * 8, 8, Pow2(k - 3), 0);
    }
  }

  lemma StaysWhole(end: nat, a: nat, offset: nat)
    requires end % 8 == 0 && a > 0 && (8 % a == 0 || a % 8 == 0) && offset % a == 0 && end <= offset < end + a
    ensures offset % 8 == 0
  {
    if a % 8 == 0 {
      MultipleAligned(offset, a, 8);
    } else {
      MultipleAligned(end, 8, a);
      ShiftAligned(offset - end, end, a);
      ModUnique(offset - end, a, 0, offset - end);
    }
  }

  /** Among 64-bit words every argument starts at a whole word, whatever powers of two the
      call asks for. */
  lemma {:induction false} WholeWords(args: seq<Argument>, offsets: seq<nat>, size: nat, k: nat)
    requires IsLayout(true, args, offsets, size) && k < |args|
    requires forall l :: 0 <= l < |args| ==> args[l].alignment == 0 || IsPowerOfTwo(args[l].alignment)
    ensures offsets[k] % 8 == 0
    decreases k
  {
    hide Room, IsPowerOfTwo, Alignment;
    assert IsPlaced(true, args, offsets, k);
    WholeAlignment(args[k]);
    if k > 0 {
      WholeWords(args, offsets, size, k - 1);
      WholeSum(offsets[k - 1], Room(true, args[k - 1].width));
    }
    StaysWhole(EndOf(true, args, offsets, k), Alignment(true, args[k]), offsets[k]);
  }

  lemma WholeAlignment(arg: Argument)
    requires arg.alignment == 0 || IsPowerOfTwo(arg.alignment)
    ensures var a := Alignment(true, arg); a > 0 && (8 % a == 0 || a % 8 == 0)
  {
    if arg.alignment != 0 { PowerSplit(arg.alignment); }
  }

  lemma WholeSum(a: nat, b: nat)
    requires a % 8 == 0 && b % 8 == 0
    ensures (a + b) % 8 == 0
  {
  }

  // --------------------------------------------------- addresses of arguments

  /** The alignment the area itself is allocated with. */
  function AreaAlignment(align16: bool): nat { if align16 then 16 else 8 }

  lemma ShiftAligned(base: nat, offset: nat, a: nat)
    requires a > 0 && offset % a == 0
    ensures (base + offset) % a == base % a
  {
    var q, p := base / a, offset / a;
    DivMod(base, a);
    DivMod(offset, a);
    assert (q + p) * a == q * a + p * a;
    ModUnique(base + offset, a, q + p, base % a);
  }

  lemma MultipleAligned(base: nat, b: nat, a: nat)
    requires a > 0 && b > 0 && base % b == 0 && b % a == 0
    ensures base % a == 0
  {
    var q, p := base / b, b / a;
    DivMod(base, b);
    DivMod(b, a);
    assert q * (p * a) == q * p * a;
    NotNegative(q, p);
    ModUnique(base, a, q * p, 0);
  }

  /** An argument is where the call asks for exactly if the area is; and an area that is
      only known to be at a multiple of its own alignment ensures that exactly if that is
      a multiple of what the call asks for. */
  lemma AddressAligned(wide: bool, args: seq<Argument>, offsets: seq<nat>, size: nat, k: nat, align16: bool)
    requires IsLayout(wide, args, offsets, size) && k < |args|
    ensures var a := Alignment(wide, args[k]);
            && a > 0
            && (forall base: nat :: (base + offsets[k]) % a == 0 <==> base % a == 0)
            && ((forall base: nat :: base % AreaAlignment(align16) == 0 ==> (base + offsets[k]) % a == 0) <==>
                AreaAlignment(align16) % a == 0)
  {
    assert IsPlaced(wide, args, offsets, k);
    var a, b := Alignment(wide, args[k]), AreaAlignment(align16);
    forall base: nat
      ensures (base + offsets[k]) % a == base % a
    {
      ShiftAligned(base, offsets[k], a);
    }
    if b % a == 0 {
      forall base: nat | base % b == 0
        ensures base % a == 0
      {
        MultipleAligned(base, b, a);
      }
    }
    assert b % b == 0;
    assert (b + offsets[k]) % a == b % a;
  }
}
