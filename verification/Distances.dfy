/**
 The interprocedural distances of the statistics tracker: for each instruction,
 the number of instructions to the end of its function. Zero stands for "cannot be
 reached".
 */
module Distances {
  import opened Arithmetic
  import opened Exprs

  /** An instruction returns, calls one of some functions, or does neither. */
  datatype Kind = Return | Call(targets: seq<nat>) | Other

  datatype Instruction = Instruction(kind: Kind, succs: seq<nat>, parent: nat)

  datatype Function = Declaration(noReturn: bool) | Definition(entry: nat)

  datatype Program = Program(instructions: seq<Instruction>, functions: seq<Function>)

  predicate IsProgram(p: Program) {
    && (forall i :: 0 <= i < |p.instructions| ==> IsInstruction(p, p.instructions[i]))
    && (forall f :: 0 <= f < |p.functions| && p.functions[f].Definition? ==>
          p.functions[f].entry < |p.instructions| && p.instructions[p.functions[f].entry].parent == f)
  }

  predicate IsInstruction(p: Program, i: Instruction) {
    && i.parent < |p.functions|
    && (forall k :: 0 <= k < |i.succs| ==>
          i.succs[k] < |p.instructions| && p.instructions[i.succs[k]].parent == i.parent)
    && (i.kind.Call? ==> forall k :: 0 <= k < |i.kind.targets| ==> i.kind.targets[k] < |p.functions|)
  }

  predicate IsEntry(p: Program, i: nat)
    requires IsProgram(p) && i < |p.instructions|
  {
    p.functions[p.instructions[i].parent] == Definition(i)
  }

  // ------------------------------------------------------ what a distance is

  /** A way from an instruction to the end of its function. A call is crossed by way of
      one of its targets: a declared function that returns, or a way through a defined one. */
  datatype Path = End | Next(succ: nat, rest: Path) | Over(target: nat, callee: Option<Path>, succ: nat, rest: Path)

  predicate IsPath(p: Program, i: nat, path: Path)
    requires IsProgram(p)
    decreases path
  {
    i < |p.instructions| &&
    var inst := p.instructions[i];
    match path
    case End => inst.kind.Return?
    case Next(j, rest) => !inst.kind.Call? && j in inst.succs && IsPath(p, j, rest)
    case Over(t, callee, j, rest) =>
      && inst.kind.Call? && t in inst.kind.targets && j in inst.succs && IsPath(p, j, rest)
      && t < |p.functions|
      && match p.functions[t]
         case Declaration(noReturn) => !noReturn && callee == None
         case Definition(entry) => callee.Some? && IsPath(p, entry, callee.value)
  }

  /** The length of a path: every instruction counts, a declared callee counts one. */
  function Cost(path: Path): nat {
    match path
    case End => 1
    case Next(_, rest) => 1 + Cost(rest)
    case Over(_, callee, _, rest) =>
      1 + (match callee case None => 1 case Some(inside) => Cost(inside)) + Cost(rest)
  }

  ghost predicate Attained(p: Program, i: nat, d: nat)
    requires IsProgram(p)
  {
    exists path :: IsPath(p, i, path) && Cost(path) == d
  }

  /** The shortest distance to a return, zero when there is none. */
  ghost predicate IsDistance(p: Program, i: nat, d: nat)
    requires IsProgram(p)
  {
    (d > 0 ==> Attained(p, i, d)) && forall path :: IsPath(p, i, path) ==> 0 < d <= Cost(path)
  }

  /** The shortest way through a function. */
  ghost predicate IsShortest(p: Program, f: nat, d: nat)
    requires IsProgram(p) && f < |p.functions|
  {
    match p.functions[f]
    case Declaration(noReturn) => d == if noReturn then 0 else 1
    case Definition(entry) => IsDistance(p, entry, d)
  }

  // ----------------------------------------------------------- one relaxation

  /** A value, or what a field of some width keeps of it. */
  function Cut(wide: bool, v: nat, modulus: nat): nat
    requires modulus > 0
  {
    if wide then v else v % modulus
  }

  lemma CutSmall(v: nat, modulus: nat)
    requires v < modulus
    ensures Cut(false, v, modulus) == Cut(true, v, modulus) == v
  {
    ModUnique(v, modulus, 0, v);
  }

  /** One crossing of an instruction: the instruction itself, and a callee. */
  predicate Crosses(p: Program, fsp: seq<nat>, i: nat, w: nat)
    requires IsProgram(p) && |fsp| == |p.functions| && i < |p.instructions|
  {
    match p.instructions[i].kind
    case Call(targets) => exists k :: 0 <= k < |targets| && fsp[targets[k]] > 0 && w == 1 + fsp[targets[k]]
    case _ => w == 1
  }

  ghost predicate IsThrough(p: Program, fsp: seq<nat>, i: nat, b: nat)
    requires IsProgram(p) && |fsp| == |p.functions| && i < |p.instructions|
  {
    (b > 0 ==> Crosses(p, fsp, i, b)) && forall w :: Crosses(p, fsp, i, w) ==> 0 < b <= w
  }

  predicate InRange(s: seq<nat>, n: nat) { forall k :: 0 <= k < |s| ==> s[k] < n }

  /** The cheapest crossing of a call, kept in a field of 32 bits unless wide. */
  function Cheapest(wide: bool, fsp: seq<nat>, targets: seq<nat>): nat
    requires InRange(targets, |fsp|)
  {
    if targets == [] then 0
    else
      var b, d := Cheapest(wide, fsp, targets[..|targets| - 1]), fsp[targets[|targets| - 1]];
      if d > 0 && (b == 0 || 1 + d < b) then Cut(wide, 1 + d, UINT32) else b
  }

  /** Nothing is cut off. */
  predicate CheapestFits(fsp: seq<nat>, targets: seq<nat>)
    requires InRange(targets, |fsp|)
  {
    targets == [] ||
    var before, d := targets[..|targets| - 1], fsp[targets[|targets| - 1]];
    var b := Cheapest(true, fsp, before);
    CheapestFits(fsp, before) && (d > 0 && (b == 0 || 1 + d < b) ==> 1 + d < UINT32)
  }

  lemma {:induction false} CheapestSame(fsp: seq<nat>, targets: seq<nat>)
    requires InRange(targets, |fsp|) && CheapestFits(fsp, targets)
    ensures Cheapest(false, fsp, targets) == Cheapest(true, fsp, targets)
  {
    if targets != [] { CheapestSame(fsp, targets[..|targets| - 1]); }
  }

  lemma {:induction false} CheapestLeast(fsp: seq<nat>, targets: seq<nat>)
    requires InRange(targets, |fsp|)
    ensures var b := Cheapest(true, fsp, targets);
            && (forall k :: 0 <= k < |targets| && fsp[targets[k]] > 0 ==> 0 < b <= 1 + fsp[targets[k]])
            && (b > 0 ==> exists k :: 0 <= k < |targets| && fsp[targets[k]] > 0 && b == 1 + fsp[targets[k]])
  {
    if targets != [] {
      var before := targets[..|targets| - 1];
      CheapestLeast(fsp, before);
      var b := Cheapest(true, fsp, before);
      if b > 0 {
        var k :| 0 <= k < |before| && fsp[before[k]] > 0 && b == 1 + fsp[before[k]];
        assert targets[k] == before[k];
      }
      assert forall k :: 0 <= k < |before| ==> targets[k] == before[k];
    }
  }

  function Through(p: Program, wide: bool, fsp: seq<nat>, i: nat): nat
    requires IsProgram(p) && |fsp| == |p.functions| && i < |p.instructions|
  {
    match p.instructions[i].kind
    case Call(targets) => Cheapest(wide, fsp, targets)
    case _ => 1
  }

  predicate ThroughFits(p: Program, fsp: seq<nat>, i: nat)
    requires IsProgram(p) && |fsp| == |p.functions| && i < |p.instructions|
  {
    match p.instructions[i].kind
    case Call(targets) => CheapestFits(fsp, targets)
    case _ => true
  }

  lemma ThroughLeast(p: Program, fsp: seq<nat>, i: nat)
    requires IsProgram(p) && |fsp| == |p.functions| && i < |p.instructions|
    ensures IsThrough(p, fsp, i, Through(p, true, fsp, i))
    ensures ThroughFits(p, fsp, i) ==> Through(p, false, fsp, i) == Through(p, true, fsp, i)
  {
    if p.instructions[i].kind.Call? {
      var targets := p.instructions[i].kind.targets;
      CheapestLeast(fsp, targets);
      if CheapestFits(fsp, targets) { CheapestSame(fsp, targets); }
    }
  }

  /** The cheapest crossing, kept in 32 bits; fits says whether nothing was cut off. */
  method BestThrough(p: Program, fsp: seq<nat>, i: nat) returns (b: nat, fits: bool)
    requires IsProgram(p) && |fsp| == |p.functions| && i < |p.instructions|
    ensures b == Through(p, false, fsp, i)
    ensures fits <==> ThroughFits(p, fsp, i)
    ensures fits ==> IsThrough(p, fsp, i, b)
  {
    ThroughLeast(p, fsp, i);
    hide IsThrough;
    b, fits := 0, true;
    match p.instructions[i].kind {
      case Call(targets) =>
        for k := 0 to |targets|
          invariant b == Cheapest(false, fsp, targets[..k])
          invariant fits <==> CheapestFits(fsp, targets[..k])
        {
          if fits { CheapestSame(fsp, targets[..k]); }
          assert targets[..k + 1][..k] == targets[..k];
          var dist := fsp[targets[k]];
          if dist > 0 {
            dist := 1 + dist;
            if b == 0 || dist < b {
              fits := fits && dist < UINT32;
              b := dist % UINT32;
            }
          }
        }
        assert targets[..|targets|] == targets;
      case _ => b := 1;
    }
  }

  /** The values offered by the successors. */
  predicate Offers(p: Program, dist: seq<nat>, i: nat, b: nat, d: nat)
    requires IsProgram(p) && |dist| >= |p.instructions| && i < |p.instructions|
  {
    var succs := p.instructions[i].succs;
    exists k :: 0 <= k < |succs| && dist[succs[k]] > 0 && d == b + dist[succs[k]]
  }

  ghost predicate IsBest(p: Program, dist: seq<nat>, i: nat, b: nat, cur: nat, best: nat)
    requires IsProgram(p) && |dist| >= |p.instructions| && i < |p.instructions|
  {
    && (best > 0 ==> best == cur || Offers(p, dist, i, b, best))
    && (cur > 0 ==> 0 < best <= cur)
    && (forall d :: Offers(p, dist, i, b, d) ==> 0 < best <= d)
  }

  /** The best of a current value and the values offered, kept in 64 bits unless wide. */
  function BestOf(wide: bool, dist: seq<nat>, succs: seq<nat>, b: nat, cur: nat): nat
    requires InRange(succs, |dist|)
  {
    if succs == [] then cur
    else
      var best, d := BestOf(wide, dist, succs[..|succs| - 1], b, cur), dist[succs[|succs| - 1]];
      var val := Cut(wide, b + d, UINT64);
      if d > 0 && (best == 0 || val < best) then val else best
  }

  predicate BestFits(dist: seq<nat>, succs: seq<nat>, b: nat)
    requires InRange(succs, |dist|)
  {
    forall k :: 0 <= k < |succs| && dist[succs[k]] > 0 ==> b + dist[succs[k]] < UINT64
  }

  lemma {:induction false} BestSame(dist: seq<nat>, succs: seq<nat>, b: nat, cur: nat)
    requires InRange(succs, |dist|) && BestFits(dist, succs, b)
    ensures BestOf(false, dist, succs, b, cur) == BestOf(true, dist, succs, b, cur)
  {
    if succs != [] {
      var before, d := succs[..|succs| - 1], dist[succs[|succs| - 1]];
      assert forall k :: 0 <= k < |before| ==> succs[k] == before[k];
      hide Cut;
      BestSame(dist, before, b, cur);
      if d > 0 { CutSmall(b + d, UINT64); }
    }
  }

  lemma {:induction false} BestLeast(dist: seq<nat>, succs: seq<nat>, b: nat, cur: nat)
    requires InRange(succs, |dist|)
    ensures var best := BestOf(true, dist, succs, b, cur);
            && (best > 0 && best != cur ==>
                  exists k :: 0 <= k < |succs| && dist[succs[k]] > 0 && best == b + dist[succs[k]])
            && (cur > 0 ==> 0 < best <= cur)
            && (forall k :: 0 <= k < |succs| && dist[succs[k]] > 0 ==> 0 < best <= b + dist[succs[k]])
  {
    if succs != [] {
      var before := succs[..|succs| - 1];
      BestLeast(dist, before, b, cur);
      var best := BestOf(true, dist, before, b, cur);
      if best > 0 && best != cur {
        var k :| 0 <= k < |before| && dist[before[k]] > 0 && best == b + dist[before[k]];
        assert succs[k] == before[k];
      }
      assert forall k :: 0 <= k < |before| ==> succs[k] == before[k];
    }
  }

  function BestAt(p: Program, wide: bool, dist: seq<nat>, i: nat, b: nat, cur: nat): nat
    requires IsProgram(p) && |dist| >= |p.instructions| && i < |p.instructions|
  {
    BestOf(wide, dist, p.instructions[i].succs, b, cur)
  }

  predicate OffersFit(p: Program, dist: seq<nat>, i: nat, b: nat)
    requires IsProgram(p) && |dist| >= |p.instructions| && i < |p.instructions|
  {
    BestFits(dist, p.instructions[i].succs, b)
  }

  lemma BestAtLeast(p: Program, dist: seq<nat>, i: nat, b: nat, cur: nat)
    requires IsProgram(p) && |dist| >= |p.instructions| && i < |p.instructions|
    ensures IsBest(p, dist, i, b, cur, BestAt(p, true, dist, i, b, cur))
    ensures OffersFit(p, dist, i, b) ==> BestAt(p, false, dist, i, b, cur) == BestAt(p, true, dist, i, b, cur)
  {
    var succs := p.instructions[i].succs;
    BestLeast(dist, succs, b, cur);
    if BestFits(dist, succs, b) { BestSame(dist, succs, b, cur); }
  }

  /** The best value, kept in 64 bits. */
  method BestNext(p: Program, dist: seq<nat>, i: nat, b: nat, cur: nat) returns (best: nat, fits: bool)
    requires IsProgram(p) && |dist| >= |p.instructions| && i < |p.instructions|
    ensures best == BestAt(p, false, dist, i, b, cur)
    ensures fits <==> OffersFit(p, dist, i, b)
    ensures fits ==> IsBest(p, dist, i, b, cur, best)
  {
    BestAtLeast(p, dist, i, b, cur);
    hide IsBest, BestOf, BestFits;
    best, fits := BestAmong(dist, p.instructions[i].succs, b, cur);
  }

  method BestAmong(dist: seq<nat>, succs: seq<nat>, b: nat, cur: nat) returns (best: nat, fits: bool)
    requires InRange(succs, |dist|)
    ensures best == BestOf(false, dist, succs, b, cur)
    ensures fits <==> BestFits(dist, succs, b)
  {
    best, fits := cur, true;
    for k := 0 to |succs|
      invariant best == BestOf(false, dist, succs[..k], b, cur)
      invariant fits <==> forall l :: 0 <= l < k && dist[succs[l]] > 0 ==> b + dist[succs[l]] < UINT64
    {
      assert succs[..k + 1][..k] == succs[..k];
      if dist[succs[k]] > 0 {
        var val := b + dist[succs[k]];
        fits := fits && val < UINT64;
        val := val % UINT64;
        if best == 0 || val < best { best := val; }
      }
    }
    assert succs[..|succs|] == succs;
  }

  // -------------------------------------------------- distances to a return

  datatype Table = Table(dist: seq<nat>, fsp: seq<nat>)

  predicate HasShape(p: Program, t: Table) { |t.dist| == |p.instructions| && |t.fsp| == |p.functions| }

  /** What every table of a run satisfies: each distance is the length of a path, and
      the entry of a function knows what is known about the function. */
  ghost predicate Sound(p: Program, t: Table)
    requires IsProgram(p)
  {
    && HasShape(p, t)
    && (forall i :: 0 <= i < |t.dist| && t.dist[i] > 0 ==> Attained(p, i, t.dist[i]))
    && (forall i :: 0 <= i < |t.dist| && p.instructions[i].kind.Return? ==> t.dist[i] == 1)
    && (forall f :: 0 <= f < |t.fsp| ==> KnowsFunction(p, t, f))
  }

  predicate KnowsFunction(p: Program, t: Table, f: nat)
    requires IsProgram(p) && HasShape(p, t) && f < |t.fsp|
  {
    match p.functions[f]
    case Declaration(noReturn) => t.fsp[f] == if noReturn then 0 else 1
    case Definition(e) => t.fsp[f] == t.dist[e] || (t.fsp[f] == 0 && p.instructions[e].kind.Return?)
  }

  /** A visit of this instruction would change nothing. */
  ghost predicate Settled(p: Program, t: Table, i: nat)
    requires IsProgram(p) && HasShape(p, t) && i < |t.dist|
  {
    forall w :: Crosses(p, t.fsp, i, w) ==>
      && (forall d :: Offers(p, t.dist, i, w, d) ==> 0 < t.dist[i] <= d)
      && (IsEntry(p, i) ==> t.fsp[p.instructions[i].parent] == t.dist[i])
  }

  function Zeros(s: seq<nat>): nat { if s == [] then 0 else (if s[0] == 0 then 1 else 0) + Zeros(s[1..]) }

  function Sum(s: seq<nat>): nat { if s == [] then 0 else s[0] + Sum(s[1..]) }

  lemma {:induction false} UpdateMeasure(s: seq<nat>, i: nat, v: nat)
    requires i < |s|
    ensures Zeros(s[i := v]) == Zeros(s) - (if s[i] == 0 then 1 else 0) + (if v == 0 then 1 else 0)
    ensures Sum(s[i := v]) == Sum(s) - s[i] + v
  {
    if i > 0 {
      assert s[i := v][1..] == s[1..][i - 1 := v];
      UpdateMeasure(s[1..], i - 1, v);
    }
  }

  function ZerosIn(t: Table): nat { Zeros(t.dist) + Zeros(t.fsp) }

  function SumIn(t: Table): nat { Sum(t.dist) + Sum(t.fsp) }

  predicate Smaller(t: Table, u: Table) {
    ZerosIn(t) < ZerosIn(u) || (ZerosIn(t) == ZerosIn(u) && SumIn(t) < SumIn(u))
  }

  /** The best value at an instruction that can be crossed. */
  function BestHere(p: Program, wide: bool, t: Table, i: nat): nat
    requires IsProgram(p) && HasShape(p, t) && i < |t.dist|
  {
    BestAt(p, wide, t.dist, i, Through(p, wide, t.fsp, i), t.dist[i])
  }

  /** A visit of this instruction changes the table. */
  predicate Changes(p: Program, wide: bool, t: Table, i: nat)
    requires IsProgram(p) && HasShape(p, t) && i < |t.dist|
  {
    Through(p, wide, t.fsp, i) > 0 &&
    var best := BestHere(p, wide, t, i);
    best != t.dist[i] || (IsEntry(p, i) && t.fsp[p.instructions[i].parent] != best)
  }

  /** What a visit makes of the table, with the widths of the fields or without. */
  function Step(p: Program, wide: bool, t: Table, i: nat): (t': Table)
    requires IsProgram(p) && HasShape(p, t) && i < |t.dist|
    ensures HasShape(p, t')
  {
    if !Changes(p, wide, t, i) then t else Improve(p, wide, t, i, BestHere(p, wide, t, i))
  }

  function Improve(p: Program, wide: bool, t: Table, i: nat, best: nat): (t': Table)
    requires IsProgram(p) && HasShape(p, t) && i < |t.dist|
    ensures HasShape(p, t')
  {
    Table(t.dist[i := best],
          if IsEntry(p, i) then t.fsp[p.instructions[i].parent := Cut(wide, best, UINT32)] else t.fsp)
  }

  /** A visit writes no value that its field cannot hold. */
  predicate StepFits(p: Program, t: Table, i: nat)
    requires IsProgram(p) && HasShape(p, t) && i < |t.dist|
  {
    && ThroughFits(p, t.fsp, i)
    && (Through(p, true, t.fsp, i) > 0 ==> OffersFit(p, t.dist, i, Through(p, true, t.fsp, i)))
    && (IsEntry(p, i) && Changes(p, true, t, i) ==> BestHere(p, true, t, i) < UINT32)
  }

  lemma StepSame(p: Program, t: Table, i: nat)
    requires IsProgram(p) && HasShape(p, t) && i < |t.dist| && StepFits(p, t, i)
    ensures Step(p, false, t, i) == Step(p, true, t, i) && (Changes(p, false, t, i) <==> Changes(p, true, t, i))
  {
    ThroughLeast(p, t.fsp, i);
    var b := Through(p, true, t.fsp, i);
    BestAtLeast(p, t.dist, i, b, t.dist[i]);
    hide IsThrough, IsBest, Through, ThroughFits, BestAt, OffersFit, IsEntry;
  }

  /** A visit keeps the table sound and makes it smaller, or there was nothing to gain. */
  lemma StepSound(p: Program, t: Table, i: nat)
    requires IsProgram(p) && Sound(p, t) && i < |t.dist|
    ensures Sound(p, Step(p, true, t, i))
    ensures if Changes(p, true, t, i) then Smaller(Step(p, true, t, i), t) else Settled(p, t, i)
  {
    ThroughLeast(p, t.fsp, i);
    var b := Through(p, true, t.fsp, i);
    BestAtLeast(p, t.dist, i, b, t.dist[i]);
    hide Sound, Smaller, Settled, IsThrough, IsBest, Through, BestAt, Improve;
    SoundShape(p, t);
    if Changes(p, true, t, i) {
      Improved(p, t, i, b, BestHere(p, true, t, i));
    } else if b == 0 {
      NoThrough(p, t, i);
    } else {
      Unimproved(p, t, i, b);
    }
  }

  lemma SoundShape(p: Program, t: Table)
    requires IsProgram(p) && Sound(p, t)
    ensures HasShape(p, t)
  {
  }

  /** A visit of one instruction: the table changes as said, with every field cut to its
      width, and fits says whether anything was cut off. */
  method Relax(p: Program, t: Table, i: nat) returns (t': Table, changed: bool, fits: bool)
    requires IsProgram(p) && HasShape(p, t) && i < |t.dist|
    ensures t' == Step(p, false, t, i) && (changed <==> Changes(p, false, t, i)) && (fits <==> StepFits(p, t, i))
    ensures Sound(p, t) && fits ==> Sound(p, t') && if changed then Smaller(t', t) else Settled(p, t, i)
  {
    if StepFits(p, t, i) {
      StepSame(p, t, i);
      if Sound(p, t) { StepSound(p, t, i); }
    }
    ThroughLeast(p, t.fsp, i);
    ghost var wide := Through(p, true, t.fsp, i);
    BestAtLeast(p, t.dist, i, wide, t.dist[i]);
    hide Sound, Smaller, Settled, IsThrough, IsBest, Through, ThroughFits, BestAt, OffersFit;
    t', changed := t, false;
    var b;
    b, fits := BestThrough(p, t.fsp, i);
    if b == 0 { return; }
    var cur := t.dist[i];
    var best, bestFits := BestNext(p, t.dist, i, b, cur);
    fits := fits && bestFits;
    var f := p.instructions[i].parent;
    if best != cur || (IsEntry(p, i) && t.fsp[f] != best) {
      changed := true;
      t' := t'.(dist := t.dist[i := best]);
      if IsEntry(p, i) {
        fits := fits && best < UINT32;
        t' := t'.(fsp := t.fsp[f := best % UINT32]);
      }
    }
  }

  lemma NoThrough(p: Program, t: Table, i: nat)
    requires IsProgram(p) && HasShape(p, t) && i < |t.dist| && IsThrough(p, t.fsp, i, 0)
    ensures Settled(p, t, i) && p.instructions[i].kind.Call?
  {
    assert p.instructions[i].kind.Call? || Crosses(p, t.fsp, i, 1);
  }

  lemma Improved(p: Program, t: Table, i: nat, b: nat, best: nat)
    requires IsProgram(p) && Sound(p, t) && i < |t.dist|
    requires IsThrough(p, t.fsp, i, b) && b > 0 && IsBest(p, t.dist, i, b, t.dist[i], best)
    requires best != t.dist[i] || (IsEntry(p, i) && t.fsp[p.instructions[i].parent] != best)
    ensures Sound(p, Improve(p, true, t, i, best)) && Smaller(Improve(p, true, t, i, best), t)
  {
    ImprovedSound(p, t, i, b, best);
    ImprovedSmaller(p, t, i, b, best);
  }

  lemma ImprovedSmaller(p: Program, t: Table, i: nat, b: nat, best: nat)
    requires IsProgram(p) && Sound(p, t) && i < |t.dist|
    requires IsThrough(p, t.fsp, i, b) && b > 0 && IsBest(p, t.dist, i, b, t.dist[i], best)
    requires best != t.dist[i] || (IsEntry(p, i) && t.fsp[p.instructions[i].parent] != best)
    ensures Smaller(Improve(p, true, t, i, best), t)
  {
    var f := p.instructions[i].parent;
    assert KnowsFunction(p, t, f);
    UpdateMeasure(t.dist, i, best);
    UpdateMeasure(t.fsp, f, best);
  }

  lemma ImprovedSound(p: Program, t: Table, i: nat, b: nat, best: nat)
    requires IsProgram(p) && Sound(p, t) && i < |t.dist|
    requires IsThrough(p, t.fsp, i, b) && b > 0 && IsBest(p, t.dist, i, b, t.dist[i], best)
    ensures Sound(p, Improve(p, true, t, i, best))
  {
    var t' := Improve(p, true, t, i, best);
    if best > 0 && best != t.dist[i] { OfferAttained(p, t, i, b, best); }
    forall f | 0 <= f < |t.fsp|
      ensures KnowsFunction(p, t', f)
    {
      assert KnowsFunction(p, t, f);
    }
  }

  /** An offered value is the length of a path: cross the instruction, then go on. */
  lemma OfferAttained(p: Program, t: Table, i: nat, b: nat, d: nat)
    requires IsProgram(p) && Sound(p, t) && i < |t.dist|
    requires Crosses(p, t.fsp, i, b) && Offers(p, t.dist, i, b, d)
    ensures Attained(p, i, d)
  {
    var inst := p.instructions[i];
    var k :| 0 <= k < |inst.succs| && t.dist[inst.succs[k]] > 0 && d == b + t.dist[inst.succs[k]];
    var j := inst.succs[k];
    var rest :| IsPath(p, j, rest) && Cost(rest) == t.dist[j];
    var path := Next(j, rest);
    if inst.kind.Call? {
      var l :| 0 <= l < |inst.kind.targets| && t.fsp[inst.kind.targets[l]] > 0 && b == 1 + t.fsp[inst.kind.targets[l]];
      var callee := ThroughFunction(p, t, inst.kind.targets[l]);
      path := Over(inst.kind.targets[l], callee, j, rest);
    }
    assert IsPath(p, i, path) && Cost(path) == d;
  }

  lemma ThroughFunction(p: Program, t: Table, f: nat) returns (callee: Option<Path>)
    requires IsProgram(p) && Sound(p, t) && f < |t.fsp| && t.fsp[f] > 0
    ensures p.functions[f].Declaration? ==> !p.functions[f].noReturn && callee == None && t.fsp[f] == 1
    ensures p.functions[f].Definition? ==>
              callee.Some? && IsPath(p, p.functions[f].entry, callee.value) && Cost(callee.value) == t.fsp[f]
  {
    assert KnowsFunction(p, t, f);
    callee := None;
    if p.functions[f].Definition? {
      var e := p.functions[f].entry;
      assert Attained(p, e, t.dist[e]);
      var path :| IsPath(p, e, path) && Cost(path) == t.fsp[f];
      callee := Some(path);
    }
  }

  lemma Unimproved(p: Program, t: Table, i: nat, b: nat)
    requires IsProgram(p) && HasShape(p, t) && i < |t.dist|
    requires IsThrough(p, t.fsp, i, b) && b > 0 && IsBest(p, t.dist, i, b, t.dist[i], t.dist[i])
    requires IsEntry(p, i) ==> t.fsp[p.instructions[i].parent] == t.dist[i]
    ensures Settled(p, t, i)
  {
    var succs := p.instructions[i].succs;
    forall w, d | Crosses(p, t.fsp, i, w) && Offers(p, t.dist, i, w, d)
      ensures 0 < t.dist[i] <= d
    {
      var k :| 0 <= k < |succs| && t.dist[succs[k]] > 0 && d == w + t.dist[succs[k]];
      assert Offers(p, t.dist, i, b, b + t.dist[succs[k]]);
    }
  }

  // ----------------------------------------------------------- the fixpoint

  /** The instruction a visit is for: rounds go over all instructions, last one first. */
  function VisitAt(p: Program, k: nat): (i: nat)
    requires |p.instructions| > 0
    ensures i < |p.instructions|
  {
    |p.instructions| - 1 - k % |p.instructions|
  }

  /** The table after so many visits. */
  ghost function After(p: Program, wide: bool, k: nat): (t: Table)
    requires IsProgram(p)
    ensures HasShape(p, t)
  {
    if k == 0 || |p.instructions| == 0 then Initial(p) else Step(p, wide, After(p, wide, k - 1), VisitAt(p, k - 1))
  }

  /** A visit of the unbounded relaxation stays within the fields. */
  ghost predicate VisitFits(p: Program, k: nat)
    requires IsProgram(p)
  {
    |p.instructions| > 0 ==> StepFits(p, After(p, true, k), VisitAt(p, k))
  }

  /** No visit of the unbounded relaxation writes a value that its field cannot hold. */
  ghost predicate RunFits(p: Program)
    requires IsProgram(p)
  {
    forall k: nat :: VisitFits(p, k)
  }

  /** The first visit of a round. */
  predicate IsStart(p: Program, start: nat) { |p.instructions| > 0 ==> start % |p.instructions| == 0 }

  lemma VisitInRound(p: Program, start: nat, k: nat)
    requires IsStart(p, start) && k < |p.instructions|
    ensures VisitAt(p, start + k) == |p.instructions| - 1 - k
  {
    var n := |p.instructions|;
    DivMod(start, n);
    ModUnique(start + k, n, start / n, k);
  }

  lemma NextStart(p: Program, start: nat)
    requires IsStart(p, start)
    ensures IsStart(p, start + |p.instructions|)
  {
    var n := |p.instructions|;
    if n > 0 {
      DivMod(start, n);
      assert (start / n + 1) * n == start / n * n + n;
      ModUnique(start + n, n, start / n + 1, 0);
    }
  }

  /** A visit of this instruction changes nothing and cuts nothing off. */
  ghost predicate Quiet(p: Program, t: Table, i: nat)
    requires IsProgram(p) && HasShape(p, t) && i < |t.dist|
  {
    Settled(p, t, i) && StepFits(p, t, i) && !Changes(p, true, t, i)
  }

  ghost predicate AllQuiet(p: Program, t: Table)
    requires IsProgram(p) && HasShape(p, t)
  {
    forall i: nat :: i < |t.dist| ==> Quiet(p, t, i)
  }

  lemma VisitStep(p: Program, start: nat, k: nat, t: Table)
    requires IsProgram(p) && IsStart(p, start) && k < |p.instructions| && t == After(p, true, start + k)
    ensures var i := |p.instructions| - 1 - k;
            && After(p, true, start + k + 1) == Step(p, true, t, i)
            && (VisitFits(p, start + k) <==> StepFits(p, t, i))
  {
    VisitInRound(p, start, k);
    hide Step, StepFits, VisitAt;
    assert After(p, true, start + k + 1) == Step(p, true, After(p, true, start + k), VisitAt(p, start + k));
  }

  lemma SmallerTransitive(t: Table, u: Table, v: Table)
    requires Smaller(t, u) && Smaller(u, v)
    ensures Smaller(t, v)
  {
    hide Zeros, Sum;
  }

  /** One round over all instructions, last instruction first. It goes as the unbounded
      relaxation does, until a value is cut off. */
  method Round(p: Program, t: Table, ghost start: nat) returns (t': Table, changed: bool, fits: bool)
    requires IsProgram(p) && Sound(p, t) && IsStart(p, start) && t == After(p, true, start)
    ensures HasShape(p, t')
    ensures !fits ==> !RunFits(p)
    ensures fits ==> Sound(p, t') && t' == After(p, true, start + |p.instructions|)
    ensures fits && FitsBelow(p, start) ==> FitsBelow(p, start + |p.instructions|)
    ensures fits && changed ==> Smaller(t', t)
    ensures fits && !changed ==> t' == t && AllQuiet(p, t)
  {
    hide *;
    RoundStart(p, start, t);
    t', changed, fits := t, false, true;
    for k := 0 to |p.instructions|
      invariant fits && InRound(p, start, t, k, t', changed)
    {
      InRoundParts(p, start, t, k, t', changed);
      ghost var was := t';
      var c;
      t', c, fits := Visit(p, t', start, k);
      if !fits {
        NotFits(p, start + k);
        return;
      }
      RoundNext(p, start, t, k, was, changed, t', c);
      changed := changed || c;
    }
    RoundEnd(p, start, t, t', changed);
  }

  ghost predicate FitsBelow(p: Program, k: nat)
    requires IsProgram(p)
  {
    forall j: nat :: j < k ==> VisitFits(p, j)
  }

  /** After some visits of a round. */
  ghost predicate InRound(p: Program, start: nat, t: Table, k: nat, t': Table, changed: bool)
    requires IsProgram(p) && HasShape(p, t)
  {
    && HasShape(p, t') && Sound(p, t') && k <= |p.instructions| && t' == After(p, true, start + k)
    && (forall j: nat :: start <= j < start + k ==> VisitFits(p, j))
    && (if changed then Smaller(t', t)
        else t' == t && forall i: nat :: |p.instructions| - k <= i < |p.instructions| ==> Quiet(p, t, i))
  }

  lemma RoundStart(p: Program, start: nat, t: Table)
    requires IsProgram(p) && Sound(p, t) && t == After(p, true, start)
    ensures HasShape(p, t) && InRound(p, start, t, 0, t, false)
  {
    hide After, Quiet, VisitFits;
  }

  lemma InRoundParts(p: Program, start: nat, t: Table, k: nat, t': Table, changed: bool)
    requires IsProgram(p) && HasShape(p, t) && InRound(p, start, t, k, t', changed)
    ensures HasShape(p, t') && Sound(p, t') && t' == After(p, true, start + k)
  {
    hide Sound, After, Quiet, VisitFits, Smaller;
  }

  lemma NotFits(p: Program, k: nat)
    requires IsProgram(p) && !VisitFits(p, k)
    ensures !RunFits(p)
  {
    hide VisitFits;
  }

  lemma RoundNext(p: Program, start: nat, t: Table, k: nat, was: Table, changed: bool, t': Table, c: bool)
    requires IsProgram(p) && HasShape(p, t) && k < |p.instructions| && InRound(p, start, t, k, was, changed)
    requires VisitFits(p, start + k) && HasShape(p, t') && Sound(p, t') && t' == After(p, true, start + k + 1)
    requires c ==> Smaller(t', was)
    requires !c ==> HasShape(p, was) && t' == was && Quiet(p, was, |p.instructions| - 1 - k)
    ensures InRound(p, start, t, k + 1, t', changed || c)
  {
    hide Sound, After, Quiet, VisitFits, Smaller;
    if changed && c { SmallerTransitive(t', was, t); }
  }

  lemma RoundEnd(p: Program, start: nat, t: Table, t': Table, changed: bool)
    requires IsProgram(p) && HasShape(p, t) && InRound(p, start, t, |p.instructions|, t', changed)
    ensures HasShape(p, t') && Sound(p, t') && t' == After(p, true, start + |p.instructions|)
    ensures FitsBelow(p, start) ==> FitsBelow(p, start + |p.instructions|)
    ensures if changed then Smaller(t', t) else t' == t && AllQuiet(p, t)
  {
    hide Sound, After, Quiet, VisitFits, Smaller;
  }

  lemma SameSize(p: Program, t: Table)
    requires HasShape(p, t)
    ensures |t.dist| == |p.instructions|
  {
  }

  /** One visit of a round. */
  method Visit(p: Program, t: Table, ghost start: nat, k: nat) returns (t': Table, changed: bool, fits: bool)
    requires IsProgram(p) && Sound(p, t) && HasShape(p, t) && IsStart(p, start) && k < |p.instructions|
    requires t == After(p, true, start + k)
    ensures HasShape(p, t')
    ensures fits <==> VisitFits(p, start + k)
    ensures fits ==> Sound(p, t') && t' == After(p, true, start + k + 1)
    ensures fits && changed ==> Smaller(t', t)
    ensures fits && !changed ==> t' == t && Quiet(p, t, |p.instructions| - 1 - k)
  {
    hide *;
    var i := |p.instructions| - 1 - k;
    SameSize(p, t);
    VisitStep(p, start, k, t);
    if StepFits(p, t, i) { StepSame(p, t, i); }
    t', changed, fits := Relax(p, t, i);
    if fits && !changed { StepKept(p, t, i); }
  }

  lemma StepKept(p: Program, t: Table, i: nat)
    requires IsProgram(p) && HasShape(p, t) && i < |t.dist|
    requires !Changes(p, true, t, i) && Settled(p, t, i) && StepFits(p, t, i)
    ensures Step(p, true, t, i) == t && Quiet(p, t, i)
  {
  }

  function Initial(p: Program): (t: Table)
    ensures HasShape(p, t)
  {
    Table(seq(|p.instructions|, i requires 0 <= i < |p.instructions| =>
                if p.instructions[i].kind.Return? then 1 else 0),
          seq(|p.functions|, f requires 0 <= f < |p.functions| =>
                if p.functions[f] == Declaration(false) then 1 else 0))
  }

  lemma InitialSound(p: Program)
    requires IsProgram(p)
    ensures Sound(p, Initial(p))
  {
    forall i | 0 <= i < |p.instructions| && p.instructions[i].kind.Return?
      ensures Attained(p, i, 1)
    {
      assert IsPath(p, i, End) && Cost(End) == 1;
    }
  }

  /** In a settled table no path is shorter than the table says. */
  lemma {:induction false} LowerBound(p: Program, t: Table, i: nat, path: Path)
    requires IsProgram(p) && Sound(p, t) && (forall j :: 0 <= j < |t.dist| ==> Settled(p, t, j))
    requires IsPath(p, i, path)
    ensures 0 < t.dist[i] <= Cost(path)
    decreases path
  {
    var inst := p.instructions[i];
    match path
    case End =>
    case Next(j, rest) =>
      LowerBound(p, t, j, rest);
      GoesOn(p, t, i, 1, j);
    case Over(f, callee, j, rest) =>
      LowerBound(p, t, j, rest);
      assert KnowsFunction(p, t, f);
      if callee.Some? {
        LowerBound(p, t, p.functions[f].entry, callee.value);
        EntrySettled(p, t, f);
      }
      GoesOn(p, t, i, 1 + t.fsp[f], j);
  }

  lemma GoesOn(p: Program, t: Table, i: nat, w: nat, j: nat)
    requires IsProgram(p) && HasShape(p, t) && i < |t.dist| && Settled(p, t, i)
    requires Crosses(p, t.fsp, i, w) && j in p.instructions[i].succs && t.dist[j] > 0
    ensures 0 < t.dist[i] <= w + t.dist[j]
  {
    assert Offers(p, t.dist, i, w, w + t.dist[j]);
  }

  lemma EntrySettled(p: Program, t: Table, f: nat)
    requires IsProgram(p) && Sound(p, t) && f < |t.fsp| && p.functions[f].Definition?
    requires Settled(p, t, p.functions[f].entry)
    ensures t.fsp[f] == t.dist[p.functions[f].entry]
  {
    var e := p.functions[f].entry;
    assert KnowsFunction(p, t, f);
    if p.instructions[e].kind.Return? { assert Crosses(p, t.fsp, e, 1); }
  }

  /** The distances to a return are exact, for every program whose distances fit. */
  ghost predicate ExactReturns(p: Program, t: Table)
    requires IsProgram(p)
  {
    && HasShape(p, t)
    && (forall i :: 0 <= i < |t.dist| ==> IsDistance(p, i, t.dist[i]))
    && (forall f :: 0 <= f < |t.fsp| ==> IsShortest(p, f, t.fsp[f]))
  }

  lemma SettledExact(p: Program, t: Table)
    requires IsProgram(p) && Sound(p, t) && forall i :: 0 <= i < |t.dist| ==> Settled(p, t, i)
    ensures ExactReturns(p, t)
  {
    forall i | 0 <= i < |t.dist|
      ensures IsDistance(p, i, t.dist[i])
    {
      forall path | IsPath(p, i, path)
        ensures 0 < t.dist[i] <= Cost(path)
      {
        LowerBound(p, t, i, path);
      }
    }
    forall f | 0 <= f < |t.fsp|
      ensures IsShortest(p, f, t.fsp[f])
    {
      assert KnowsFunction(p, t, f);
      if p.functions[f].Definition? { EntrySettled(p, t, f); }
    }
  }

  /** From a quiet table on nothing happens. */
  lemma {:induction false} QuietForever(p: Program, start: nat, k: nat)
    requires IsProgram(p) && start <= k
    requires AllQuiet(p, After(p, true, start))
    ensures After(p, true, k) == After(p, true, start) && VisitFits(p, k)
    decreases k
  {
    hide StepFits, Settled, Changes, VisitAt, Initial;
    var t := After(p, true, start);
    if |p.instructions| > 0 {
      if start < k {
        QuietForever(p, start, k - 1);
        assert Quiet(p, t, VisitAt(p, k - 1));
      }
      assert Quiet(p, t, VisitAt(p, k));
    }
  }

  /** The distances to a return. The loop ends with nothing cut off exactly if the
      unbounded relaxation stays within the fields, and the distances are exact then. */
  method ComputeReturns(p: Program) returns (t: Table, fits: bool)
    requires IsProgram(p)
    ensures fits <==> RunFits(p)
    ensures fits ==> ExactReturns(p, t)
  {
    hide *;
    RunStart(p);
    t, fits := Initial(p), true;
    var changed := true;
    ghost var start: nat := 0;
    while changed
      invariant fits && Sound(p, t) && HasShape(p, t) && IsStart(p, start) && t == After(p, true, start)
      invariant FitsBelow(p, start)
      invariant !changed ==> AllQuiet(p, t)
      decreases ZerosIn(t), SumIn(t), changed
    {
      ghost var was := t;
      t, changed, fits := Round(p, t, start);
      if !fits { return; }
      if changed { SmallerDecreases(t, was); }
      NextStart(p, start);
      start := start + |p.instructions|;
    }
    QuietExact(p, t);
    QuietFits(p, start);
  }

  lemma RunStart(p: Program)
    requires IsProgram(p)
    ensures Sound(p, Initial(p)) && Initial(p) == After(p, true, 0) && IsStart(p, 0) && FitsBelow(p, 0)
  {
    InitialSound(p);
  }

  lemma SmallerDecreases(t: Table, u: Table)
    requires Smaller(t, u)
    ensures ZerosIn(t) < ZerosIn(u) || (ZerosIn(t) == ZerosIn(u) && SumIn(t) < SumIn(u))
  {
  }

  lemma QuietExact(p: Program, t: Table)
    requires IsProgram(p) && Sound(p, t) && HasShape(p, t) && AllQuiet(p, t)
    ensures ExactReturns(p, t)
  {
    hide Sound, Settled, StepFits, Changes, ExactReturns;
    forall i: nat | i < |t.dist|
      ensures Settled(p, t, i)
    {
      assert Quiet(p, t, i);
    }
    SettledExact(p, t);
  }

  lemma QuietFits(p: Program, start: nat)
    requires IsProgram(p) && AllQuiet(p, After(p, true, start))
    requires FitsBelow(p, start)
    ensures RunFits(p)
  {
    hide VisitFits, AllQuiet, After;
    forall k: nat
      ensures VisitFits(p, k)
    {
      if k >= start { QuietForever(p, start, k); }
    }
  }
}
