/**
 The distances to the nearest uncovered instruction, over a program whose distances
 to a return are known, and the distances of a call stack. Zero stands for "cannot be
 reached".
 */
module UncoveredDistances {
  import opened Arithmetic
  import opened Exprs
  import opened Distances

  // ------------------------------------------------------ what a distance is

  /** A crossing of an instruction, said with paths. */
  ghost predicate Crossing(p: Program, i: nat, w: nat)
    requires IsProgram(p) && i < |p.instructions|
  {
    match p.instructions[i].kind
    case Call(targets) => exists f :: f in targets && f < |p.functions| && CrossesBy(p, f, w)
    case _ => w == 1
  }

  ghost predicate CrossesBy(p: Program, f: nat, w: nat)
    requires IsProgram(p) && f < |p.functions|
  {
    match p.functions[f]
    case Declaration(noReturn) => !noReturn && w == 2
    case Definition(e) => exists path :: IsPath(p, e, path) && w == 1 + Cost(path)
  }

  /** A way from an instruction to an uncovered one: it is uncovered itself, or the way
      crosses it, or, in a deep search, goes into one of its callees. */
  datatype Search = Here | Cross(w: nat, succ: nat, rest: Search) | Enter(target: nat, rest: Search)

  ghost predicate IsSearch(p: Program, uncovered: seq<bool>, deep: bool, i: nat, s: Search)
    requires IsProgram(p) && |uncovered| == |p.instructions|
    decreases s
  {
    i < |p.instructions| &&
    var inst := p.instructions[i];
    match s
    case Here => uncovered[i]
    case Cross(w, j, rest) => Crossing(p, i, w) && j in inst.succs && IsSearch(p, uncovered, deep, j, rest)
    case Enter(f, rest) =>
      && deep && inst.kind.Call? && f in inst.kind.targets
      && f < |p.functions| && p.functions[f].Definition? && IsSearch(p, uncovered, deep, p.functions[f].entry, rest)
  }

  function Length(s: Search): nat {
    match s
    case Here => 1
    case Cross(w, _, rest) => w + Length(rest)
    case Enter(_, rest) => 1 + Length(rest)
  }

  ghost predicate IsNearest(p: Program, uncovered: seq<bool>, deep: bool, i: nat, d: nat)
    requires IsProgram(p) && |uncovered| == |p.instructions|
  {
    && (d > 0 ==> exists s :: IsSearch(p, uncovered, deep, i, s) && Length(s) == d)
    && (forall s :: IsSearch(p, uncovered, deep, i, s) ==> 0 < d <= Length(s))
  }

  /** Where the tracker looks for the distance inside a function: with shared slots at
      its first instruction. The identifiers it uses are not shared: those of the
      functions come after those of the instructions. */
  function FunctionSlot(p: Program, shared: bool, f: nat): nat
    requires IsProgram(p) && f < |p.functions| && p.functions[f].Definition?
  {
    if shared then p.functions[f].entry else |p.instructions| + f
  }

  ghost predicate SoundSearch(p: Program, uncovered: seq<bool>, shared: bool, dist: seq<nat>)
    requires IsProgram(p) && |uncovered| == |p.instructions|
  {
    && HasSlots(p, dist)
    && (forall k :: |p.instructions| <= k < |dist| ==> dist[k] == 0)
    && (forall i :: 0 <= i < |p.instructions| && uncovered[i] ==> dist[i] == 1)
    && (forall i :: 0 <= i < |p.instructions| && dist[i] > 0 ==>
          exists s :: IsSearch(p, uncovered, shared, i, s) && Length(s) == dist[i])
  }

  /** The values offered by the callees, read from the slots of the functions. */
  predicate Inside(p: Program, shared: bool, dist: seq<nat>, i: nat, d: nat)
    requires IsProgram(p) && HasSlots(p, dist) && i < |p.instructions|
  {
    match p.instructions[i].kind
    case Call(targets) =>
      exists k :: 0 <= k < |targets| && SlotOf(p, shared, dist, targets[k]) > 0 &&
                  d == 1 + SlotOf(p, shared, dist, targets[k])
    case _ => false
  }

  ghost predicate SettledSearch(p: Program, fsp: seq<nat>, shared: bool, dist: seq<nat>, i: nat)
    requires IsProgram(p) && |fsp| == |p.functions| && i < |p.instructions|
    requires HasSlots(p, dist)
  {
    && (forall w, d :: Crosses(p, fsp, i, w) && Offers(p, dist, i, w, d) ==> 0 < dist[i] <= d)
    && (forall d :: Inside(p, shared, dist, i, d) ==> 0 < dist[i] <= d)
  }

  predicate HasSlots(p: Program, dist: seq<nat>) { |dist| == |p.instructions| + |p.functions| }

  /** What a callee offers, read from the slot of the function; zero for nothing. */
  function SlotOf(p: Program, shared: bool, dist: seq<nat>, f: nat): nat
    requires IsProgram(p) && HasSlots(p, dist) && f < |p.functions|
  {
    if p.functions[f].Definition? then dist[FunctionSlot(p, shared, f)] else 0
  }

  /** The best of a current value and the values offered by the callees, kept in 64 bits
      unless wide. */
  function Entered(p: Program, wide: bool, shared: bool, dist: seq<nat>, targets: seq<nat>, cur: nat): nat
    requires IsProgram(p) && HasSlots(p, dist) && InRange(targets, |p.functions|)
  {
    if targets == [] then cur
    else
      var best := Entered(p, wide, shared, dist, targets[..|targets| - 1], cur);
      var d := SlotOf(p, shared, dist, targets[|targets| - 1]);
      var val := Cut(wide, 1 + d, UINT64);
      if d > 0 && (best == 0 || val < best) then val else best
  }

  predicate EnteredFits(p: Program, shared: bool, dist: seq<nat>, targets: seq<nat>)
    requires IsProgram(p) && HasSlots(p, dist) && InRange(targets, |p.functions|)
  {
    forall k :: 0 <= k < |targets| && SlotOf(p, shared, dist, targets[k]) > 0 ==>
      1 + SlotOf(p, shared, dist, targets[k]) < UINT64
  }

  lemma {:induction false} EnteredSame(p: Program, shared: bool, dist: seq<nat>, targets: seq<nat>, cur: nat)
    requires IsProgram(p) && HasSlots(p, dist) && InRange(targets, |p.functions|)
    requires EnteredFits(p, shared, dist, targets)
    ensures Entered(p, false, shared, dist, targets, cur) == Entered(p, true, shared, dist, targets, cur)
  {
    hide IsProgram, SlotOf, Cut;
    if targets != [] {
      var before, d := targets[..|targets| - 1], SlotOf(p, shared, dist, targets[|targets| - 1]);
      assert forall k :: 0 <= k < |before| ==> targets[k] == before[k];
      EnteredSame(p, shared, dist, before, cur);
      if d > 0 { CutSmall(1 + d, UINT64); }
    }
  }

  /** The value is the current one or one offered, and none is less. */
  ghost predicate IsLeastOf(p: Program, shared: bool, dist: seq<nat>, targets: seq<nat>, cur: nat, best: nat)
    requires IsProgram(p) && HasSlots(p, dist) && InRange(targets, |p.functions|)
  {
    && (best > 0 && best != cur ==>
          exists k :: 0 <= k < |targets| && SlotOf(p, shared, dist, targets[k]) > 0 &&
                      best == 1 + SlotOf(p, shared, dist, targets[k]))
    && (cur > 0 ==> 0 < best <= cur)
    && (forall k :: 0 <= k < |targets| && SlotOf(p, shared, dist, targets[k]) > 0 ==>
          0 < best <= 1 + SlotOf(p, shared, dist, targets[k]))
  }

  lemma {:induction false} EnteredLeast(p: Program, shared: bool, dist: seq<nat>, targets: seq<nat>, cur: nat)
    requires IsProgram(p) && HasSlots(p, dist) && InRange(targets, |p.functions|)
    ensures IsLeastOf(p, shared, dist, targets, cur, Entered(p, true, shared, dist, targets, cur))
  {
    hide IsProgram, SlotOf;
    if targets != [] {
      var before := targets[..|targets| - 1];
      EnteredLeast(p, shared, dist, before, cur);
      var best := Entered(p, true, shared, dist, before, cur);
      if best > 0 && best != cur {
        var k :| 0 <= k < |before| && SlotOf(p, shared, dist, before[k]) > 0 &&
                 best == 1 + SlotOf(p, shared, dist, before[k]);
        assert targets[k] == before[k];
      }
      assert forall k :: 0 <= k < |before| ==> targets[k] == before[k];
    }
  }

  function EnteredAt(p: Program, wide: bool, shared: bool, dist: seq<nat>, i: nat): nat
    requires IsProgram(p) && HasSlots(p, dist) && i < |p.instructions|
  {
    match p.instructions[i].kind
    case Call(targets) => Entered(p, wide, shared, dist, targets, dist[i])
    case _ => dist[i]
  }

  predicate CalleesFit(p: Program, shared: bool, dist: seq<nat>, i: nat)
    requires IsProgram(p) && HasSlots(p, dist) && i < |p.instructions|
  {
    match p.instructions[i].kind
    case Call(targets) => EnteredFits(p, shared, dist, targets)
    case _ => true
  }

  /** The best of the current value and the values from the callees. */
  ghost predicate IsBestInside(p: Program, shared: bool, dist: seq<nat>, i: nat, best: nat)
    requires IsProgram(p) && HasSlots(p, dist) && i < |p.instructions|
  {
    && (best > 0 ==> best == dist[i] || Inside(p, shared, dist, i, best))
    && (dist[i] > 0 ==> 0 < best <= dist[i])
    && (forall d :: Inside(p, shared, dist, i, d) ==> 0 < best <= d)
  }

  lemma EnteredAtLeast(p: Program, shared: bool, dist: seq<nat>, i: nat)
    requires IsProgram(p) && HasSlots(p, dist) && i < |p.instructions|
    ensures IsBestInside(p, shared, dist, i, EnteredAt(p, true, shared, dist, i))
    ensures CalleesFit(p, shared, dist, i) ==>
              EnteredAt(p, false, shared, dist, i) == EnteredAt(p, true, shared, dist, i)
  {
    if p.instructions[i].kind.Call? {
      var targets := p.instructions[i].kind.targets;
      EnteredLeast(p, shared, dist, targets, dist[i]);
      if EnteredFits(p, shared, dist, targets) { EnteredSame(p, shared, dist, targets, dist[i]); }
      hide Entered, EnteredFits, IsProgram, SlotOf;
    }
  }

  /** The best value from the callees, kept in 64 bits. */
  method BestCallee(p: Program, shared: bool, dist: seq<nat>, i: nat) returns (best: nat, fits: bool)
    requires IsProgram(p) && HasSlots(p, dist) && i < |p.instructions|
    ensures best == EnteredAt(p, false, shared, dist, i)
    ensures fits <==> CalleesFit(p, shared, dist, i)
    ensures fits ==> IsBestInside(p, shared, dist, i, best)
  {
    EnteredAtLeast(p, shared, dist, i);
    hide IsBestInside, Entered, EnteredFits;
    best, fits := dist[i], true;
    match p.instructions[i].kind {
      case Call(targets) => best, fits := BestEntered(p, shared, dist, targets, dist[i]);
      case _ =>
    }
  }

  method BestEntered(p: Program, shared: bool, dist: seq<nat>, targets: seq<nat>, cur: nat)
    returns (best: nat, fits: bool)
    requires IsProgram(p) && HasSlots(p, dist) && InRange(targets, |p.functions|)
    ensures best == Entered(p, false, shared, dist, targets, cur)
    ensures fits <==> EnteredFits(p, shared, dist, targets)
  {
    hide IsProgram, SlotOf;
    best, fits := cur, true;
    for k := 0 to |targets|
      invariant best == Entered(p, false, shared, dist, targets[..k], cur)
      invariant fits <==> forall l :: 0 <= l < k && SlotOf(p, shared, dist, targets[l]) > 0 ==>
        1 + SlotOf(p, shared, dist, targets[l]) < UINT64
    {
      assert targets[..k + 1][..k] == targets[..k];
      var calleeDist := SlotOf(p, shared, dist, targets[k]);
      if calleeDist > 0 {
        calleeDist := 1 + calleeDist;
        fits := fits && calleeDist < UINT64;
        calleeDist := calleeDist % UINT64;
        if best == 0 || calleeDist < best { best := calleeDist; }
      }
    }
    assert targets[..|targets|] == targets;
  }

  predicate SmallerSearch(t: seq<nat>, u: seq<nat>) {
    Zeros(t) < Zeros(u) || (Zeros(t) == Zeros(u) && Sum(t) < Sum(u))
  }

  /** The best value of a visit: the current one, or one from a callee or a successor. */
  ghost predicate IsBestSearch(p: Program, fsp: seq<nat>, shared: bool, dist: seq<nat>, i: nat, best: nat)
    requires IsProgram(p) && |fsp| == |p.functions| && i < |p.instructions|
    requires HasSlots(p, dist)
  {
    && (best > 0 ==> best == dist[i] || Inside(p, shared, dist, i, best) ||
                     exists w :: Crosses(p, fsp, i, w) && Offers(p, dist, i, w, best))
    && (dist[i] > 0 ==> 0 < best <= dist[i])
    && (forall w, d :: Crosses(p, fsp, i, w) && Offers(p, dist, i, w, d) ==> 0 < best <= d)
    && (forall d :: Inside(p, shared, dist, i, d) ==> 0 < best <= d)
  }

  ghost predicate IsInput(p: Program, t: Table, uncovered: seq<bool>) {
    IsProgram(p) && ExactReturns(p, t) && |uncovered| == |p.instructions|
  }

  function BestSearch(p: Program, wide: bool, t: Table, shared: bool, dist: seq<nat>, i: nat): nat
    requires IsProgram(p) && HasShape(p, t) && HasSlots(p, dist) && i < |p.instructions|
  {
    var b, inner := Through(p, wide, t.fsp, i), EnteredAt(p, wide, shared, dist, i);
    if b > 0 then BestAt(p, wide, dist, i, b, inner) else inner
  }

  /** What a visit makes of the distances, with the widths of the fields or without. */
  function SearchStep(p: Program, wide: bool, t: Table, shared: bool, dist: seq<nat>, i: nat): (dist': seq<nat>)
    requires IsProgram(p) && HasShape(p, t) && HasSlots(p, dist) && i < |p.instructions|
    ensures HasSlots(p, dist')
  {
    dist[i := BestSearch(p, wide, t, shared, dist, i)]
  }

  predicate SearchStepFits(p: Program, t: Table, shared: bool, dist: seq<nat>, i: nat)
    requires IsProgram(p) && HasShape(p, t) && HasSlots(p, dist) && i < |p.instructions|
  {
    var b := Through(p, true, t.fsp, i);
    ThroughFits(p, t.fsp, i) && CalleesFit(p, shared, dist, i) && (b > 0 ==> OffersFit(p, dist, i, b))
  }

  lemma SearchStepSame(p: Program, t: Table, shared: bool, dist: seq<nat>, i: nat)
    requires IsProgram(p) && HasShape(p, t) && HasSlots(p, dist) && i < |p.instructions|
    ensures IsBestSearch(p, t.fsp, shared, dist, i, BestSearch(p, true, t, shared, dist, i))
    ensures SearchStepFits(p, t, shared, dist, i) ==>
              BestSearch(p, false, t, shared, dist, i) == BestSearch(p, true, t, shared, dist, i)
  {
    var b, inner := Through(p, true, t.fsp, i), EnteredAt(p, true, shared, dist, i);
    ThroughLeast(p, t.fsp, i);
    EnteredAtLeast(p, shared, dist, i);
    BestAtLeast(p, dist, i, b, inner);
    hide Through, EnteredAt, BestAt, IsThrough, IsBest, ThroughFits, CalleesFit, OffersFit, IsBestSearch, IsBestInside;
    CombineBest(p, t.fsp, shared, dist, i, b, inner, BestSearch(p, true, t, shared, dist, i));
  }

  /** A visit keeps the distances sound and makes them smaller, or there was nothing to
      gain. */
  lemma SearchStepSound(p: Program, t: Table, uncovered: seq<bool>, shared: bool, dist: seq<nat>, i: nat)
    requires IsInput(p, t, uncovered) && SoundSearch(p, uncovered, shared, dist) && i < |p.instructions|
    ensures HasShape(p, t) && HasSlots(p, dist)
    ensures var dist' := SearchStep(p, true, t, shared, dist, i);
            && SoundSearch(p, uncovered, shared, dist')
            && if dist' == dist then SettledSearch(p, t.fsp, shared, dist, i) else SmallerSearch(dist', dist)
  {
    hide SoundSearch, SmallerSearch, SettledSearch, IsBestSearch, BestSearch, ExactReturns;
    SearchShape(p, t, uncovered, shared, dist);
    SearchStepSame(p, t, shared, dist, i);
    var best := BestSearch(p, true, t, shared, dist, i);
    if best == dist[i] {
      assert dist[i := best] == dist;
      UnimprovedSearch(p, t.fsp, shared, dist, i);
    } else {
      ImprovedSearch(p, t, uncovered, shared, dist, i, best);
      assert dist[i := best][i] != dist[i];
    }
  }

  /** A visit of one instruction. */
  method RelaxSearch(p: Program, t: Table, shared: bool, dist: seq<nat>, i: nat)
    returns (dist': seq<nat>, changed: bool, fits: bool)
    requires IsProgram(p) && HasShape(p, t) && HasSlots(p, dist) && i < |p.instructions|
    ensures dist' == SearchStep(p, false, t, shared, dist, i)
    ensures (changed <==> dist' != dist) && (fits <==> SearchStepFits(p, t, shared, dist, i))
    ensures fits ==> dist' == SearchStep(p, true, t, shared, dist, i)
    ensures fits ==> IsBestSearch(p, t.fsp, shared, dist, i, dist'[i])
  {
    SearchStepSame(p, t, shared, dist, i);
    ThroughLeast(p, t.fsp, i);
    hide Through, ThroughFits, EnteredAt, CalleesFit, BestAt, OffersFit, IsThrough, IsBest, IsBestInside, IsBestSearch;
    hide IsProgram;
    dist', changed := dist, false;
    var b;
    b, fits := BestThrough(p, t.fsp, i);
    var best, calleeFits := BestCallee(p, shared, dist, i);
    fits := fits && calleeFits;
    if b > 0 {
      var bestFits;
      best, bestFits := BestNext(p, dist, i, b, best);
      fits := fits && bestFits;
    }
    assert best == BestSearch(p, false, t, shared, dist, i);
    if best != dist[i] {
      dist' := dist[i := best];
      changed := true;
      assert dist'[i] != dist[i];
    } else {
      assert dist[i := best] == dist;
    }
  }

  lemma SearchShape(p: Program, t: Table, uncovered: seq<bool>, shared: bool, dist: seq<nat>)
    requires IsInput(p, t, uncovered)
    requires SoundSearch(p, uncovered, shared, dist)
    ensures HasShape(p, t) && HasSlots(p, dist)
  {
  }

  lemma CombineBest(p: Program, fsp: seq<nat>, shared: bool, dist: seq<nat>, i: nat, b: nat, inner: nat, best: nat)
    requires IsProgram(p) && |fsp| == |p.functions| && i < |p.instructions|
    requires HasSlots(p, dist)
    requires IsThrough(p, fsp, i, b) && if b > 0 then IsBest(p, dist, i, b, inner, best) else best == inner
    requires IsBestInside(p, shared, dist, i, inner)
    ensures IsBestSearch(p, fsp, shared, dist, i, best)
  {
    hide Inside;
    var succs := p.instructions[i].succs;
    forall w, d | Crosses(p, fsp, i, w) && Offers(p, dist, i, w, d)
      ensures 0 < best <= d
    {
      var k :| 0 <= k < |succs| && dist[succs[k]] > 0 && d == w + dist[succs[k]];
      assert Offers(p, dist, i, b, b + dist[succs[k]]);
    }
  }

  lemma ImprovedSearch(p: Program, t: Table, uncovered: seq<bool>, shared: bool, dist: seq<nat>, i: nat, best: nat)
    requires IsInput(p, t, uncovered) && i < |p.instructions|
    requires SoundSearch(p, uncovered, shared, dist) && IsBestSearch(p, t.fsp, shared, dist, i, best) && best != dist[i]
    ensures SoundSearch(p, uncovered, shared, dist[i := best]) && SmallerSearch(dist[i := best], dist)
  {
    hide IsSearch, Length, Inside, Crosses, Offers, ExactReturns, Zeros, Sum, IsProgram;
    SearchShape(p, t, uncovered, shared, dist);
    UpdateMeasure(dist, i, best);
    if Inside(p, shared, dist, i, best) {
      InsideFound(p, uncovered, shared, dist, i, best);
    } else if best > 0 {
      var w :| Crosses(p, t.fsp, i, w) && Offers(p, dist, i, w, best);
      OfferFound(p, t, uncovered, shared, dist, i, w, best);
    }
  }

  ghost predicate Found(p: Program, uncovered: seq<bool>, shared: bool, i: nat, d: nat)
    requires IsProgram(p) && |uncovered| == |p.instructions|
  {
    exists s :: IsSearch(p, uncovered, shared, i, s) && Length(s) == d
  }

  lemma OfferFound(p: Program, t: Table, uncovered: seq<bool>, shared: bool, dist: seq<nat>, i: nat, w: nat, d: nat)
    requires IsInput(p, t, uncovered) && i < |p.instructions|
    requires SoundSearch(p, uncovered, shared, dist) && Crosses(p, t.fsp, i, w) && Offers(p, dist, i, w, d)
    ensures Found(p, uncovered, shared, i, d)
  {
    var succs := p.instructions[i].succs;
    var k :| 0 <= k < |succs| && dist[succs[k]] > 0 && d == w + dist[succs[k]];
    var rest :| IsSearch(p, uncovered, shared, succs[k], rest) && Length(rest) == dist[succs[k]];
    ExactCrossing(p, t, i, w);
    var s := Cross(w, succs[k], rest);
    assert IsSearch(p, uncovered, shared, i, s) && Length(s) == d;
  }

  lemma InsideFound(p: Program, uncovered: seq<bool>, shared: bool, dist: seq<nat>, i: nat, d: nat)
    requires IsProgram(p) && |uncovered| == |p.instructions| && i < |p.instructions|
    requires SoundSearch(p, uncovered, shared, dist) && Inside(p, shared, dist, i, d)
    ensures Found(p, uncovered, shared, i, d)
  {
    var targets := p.instructions[i].kind.targets;
    var k :| 0 <= k < |targets| && SlotOf(p, shared, dist, targets[k]) > 0 &&
             d == 1 + SlotOf(p, shared, dist, targets[k]);
    var e := p.functions[targets[k]].entry;
    var rest :| IsSearch(p, uncovered, shared, e, rest) && Length(rest) == dist[e];
    var s := Enter(targets[k], rest);
    assert IsSearch(p, uncovered, shared, i, s) && Length(s) == d;
  }

  lemma UnimprovedSearch(p: Program, fsp: seq<nat>, shared: bool, dist: seq<nat>, i: nat)
    requires IsProgram(p) && |fsp| == |p.functions| && i < |p.instructions|
    requires HasSlots(p, dist) && IsBestSearch(p, fsp, shared, dist, i, dist[i])
    ensures SettledSearch(p, fsp, shared, dist, i)
  {
  }

  lemma ExactCrossing(p: Program, t: Table, i: nat, w: nat)
    requires IsProgram(p) && ExactReturns(p, t) && i < |p.instructions| && Crosses(p, t.fsp, i, w)
    ensures Crossing(p, i, w)
  {
    var inst := p.instructions[i];
    if inst.kind.Call? {
      var k :| 0 <= k < |inst.kind.targets| && t.fsp[inst.kind.targets[k]] > 0 && w == 1 + t.fsp[inst.kind.targets[k]];
      var f := inst.kind.targets[k];
      assert IsShortest(p, f, t.fsp[f]);
      if p.functions[f].Definition? {
        var path :| IsPath(p, p.functions[f].entry, path) && Cost(path) == t.fsp[f];
        assert CrossesBy(p, f, w);
      }
      assert CrossesBy(p, f, w);
    }
  }

  lemma CheapestCrossing(p: Program, t: Table, i: nat, w: nat) returns (v: nat)
    requires IsProgram(p) && ExactReturns(p, t) && i < |p.instructions| && Crossing(p, i, w)
    ensures v <= w && Crosses(p, t.fsp, i, v)
  {
    v := 1;
    var inst := p.instructions[i];
    if inst.kind.Call? {
      var f :| f in inst.kind.targets && f < |p.functions| && CrossesBy(p, f, w);
      assert IsShortest(p, f, t.fsp[f]);
      v := 1 + t.fsp[f];
    }
  }

  lemma {:induction false} SearchBound(p: Program, t: Table, uncovered: seq<bool>, shared: bool, deep: bool,
                                       dist: seq<nat>, i: nat, s: Search)
    requires IsInput(p, t, uncovered)
    requires SoundSearch(p, uncovered, shared, dist)
    requires forall j :: 0 <= j < |p.instructions| ==> SettledSearch(p, t.fsp, shared, dist, j)
    requires deep ==> shared || Reached(p, dist)
    requires IsSearch(p, uncovered, deep, i, s)
    ensures 0 < dist[i] <= Length(s)
    decreases s
  {
    match s
    case Here =>
    case Cross(w, j, rest) =>
      SearchBound(p, t, uncovered, shared, deep, dist, j, rest);
      var v := CheapestCrossing(p, t, i, w);
      SearchGoesOn(p, t.fsp, shared, dist, i, v, j);
    case Enter(f, rest) =>
      SearchBound(p, t, uncovered, shared, deep, dist, p.functions[f].entry, rest);
      if shared {
        SearchEnters(p, t.fsp, dist, i, f);
      } else {
        assert ReachedHere(p, dist, i, f);
      }
  }

  lemma SearchGoesOn(p: Program, fsp: seq<nat>, shared: bool, dist: seq<nat>, i: nat, w: nat, j: nat)
    requires IsProgram(p) && |fsp| == |p.functions| && i < |p.instructions|
    requires HasSlots(p, dist) && SettledSearch(p, fsp, shared, dist, i)
    requires Crosses(p, fsp, i, w) && j in p.instructions[i].succs && dist[j] > 0
    ensures 0 < dist[i] <= w + dist[j]
  {
    assert Offers(p, dist, i, w, w + dist[j]);
  }

  lemma SearchEnters(p: Program, fsp: seq<nat>, dist: seq<nat>, i: nat, f: nat)
    requires IsProgram(p) && |fsp| == |p.functions| && i < |p.instructions|
    requires HasSlots(p, dist) && SettledSearch(p, fsp, true, dist, i)
    requires p.instructions[i].kind.Call? && f in p.instructions[i].kind.targets && p.functions[f].Definition?
    requires dist[p.functions[f].entry] > 0
    ensures 0 < dist[i] <= 1 + dist[p.functions[f].entry]
  {
    var k :| 0 <= k < |p.instructions[i].kind.targets| && p.instructions[i].kind.targets[k] == f;
    assert SlotOf(p, true, dist, p.instructions[i].kind.targets[k]) == dist[p.functions[f].entry];
    assert Inside(p, true, dist, i, 1 + dist[p.functions[f].entry]);
  }

  /** The distances already say that no call would gain by going into a callee. */
  predicate Reached(p: Program, dist: seq<nat>)
    requires IsProgram(p) && |dist| >= |p.instructions|
  {
    forall i, f :: 0 <= i < |p.instructions| && p.instructions[i].kind.Call? && f in p.instructions[i].kind.targets ==>
      ReachedHere(p, dist, i, f)
  }

  predicate ReachedHere(p: Program, dist: seq<nat>, i: nat, f: nat)
    requires IsProgram(p) && |dist| >= |p.instructions| && i < |p.instructions|
  {
    f < |p.functions| && p.functions[f].Definition? && dist[p.functions[f].entry] > 0 ==>
      0 < dist[i] <= 1 + dist[p.functions[f].entry]
  }

  ghost predicate ExactSearch(p: Program, uncovered: seq<bool>, deep: bool, dist: seq<nat>)
    requires IsProgram(p) && |uncovered| == |p.instructions| && |dist| >= |p.instructions|
  {
    forall i :: 0 <= i < |p.instructions| ==> IsNearest(p, uncovered, deep, i, dist[i])
  }

  // ----------------------------------------------------------- the fixpoint

  function StartOf(p: Program, uncovered: seq<bool>): (dist: seq<nat>)
    requires |uncovered| == |p.instructions|
    ensures HasSlots(p, dist)
  {
    seq(|p.instructions| + |p.functions|, i => if 0 <= i < |uncovered| && uncovered[i] then 1 else 0)
  }

  /** The distances after so many visits, every round last instruction first. */
  ghost function Searched(p: Program, t: Table, uncovered: seq<bool>, shared: bool, k: nat): (dist: seq<nat>)
    requires IsProgram(p) && HasShape(p, t) && |uncovered| == |p.instructions|
    ensures HasSlots(p, dist)
  {
    if k == 0 || |p.instructions| == 0 then StartOf(p, uncovered)
    else SearchStep(p, true, t, shared, Searched(p, t, uncovered, shared, k - 1), VisitAt(p, k - 1))
  }

  ghost predicate SearchVisitFits(p: Program, t: Table, uncovered: seq<bool>, shared: bool, k: nat)
    requires IsProgram(p) && HasShape(p, t) && |uncovered| == |p.instructions|
  {
    |p.instructions| > 0 ==>
      SearchStepFits(p, t, shared, Searched(p, t, uncovered, shared, k), VisitAt(p, k))
  }

  /** No visit of the unbounded search writes a value that its field cannot hold. */
  ghost predicate SearchFits(p: Program, t: Table, uncovered: seq<bool>, shared: bool)
    requires IsProgram(p) && HasShape(p, t) && |uncovered| == |p.instructions|
  {
    forall k: nat :: SearchVisitFits(p, t, uncovered, shared, k)
  }

  /** A visit of this instruction changes nothing and cuts nothing off. */
  ghost predicate QuietSearch(p: Program, t: Table, shared: bool, dist: seq<nat>, i: nat)
    requires IsProgram(p) && HasShape(p, t) && HasSlots(p, dist) && i < |p.instructions|
  {
    && SettledSearch(p, t.fsp, shared, dist, i)
    && SearchStepFits(p, t, shared, dist, i) && SearchStep(p, true, t, shared, dist, i) == dist
  }

  ghost predicate AllQuietSearch(p: Program, t: Table, shared: bool, dist: seq<nat>)
    requires IsProgram(p) && HasShape(p, t) && HasSlots(p, dist)
  {
    forall i: nat :: i < |p.instructions| ==> QuietSearch(p, t, shared, dist, i)
  }

  lemma SearchVisit(p: Program, t: Table, uncovered: seq<bool>, shared: bool, start: nat, k: nat)
    requires IsProgram(p) && HasShape(p, t) && |uncovered| == |p.instructions|
    requires IsStart(p, start) && k < |p.instructions|
    ensures var i, dist := |p.instructions| - 1 - k, Searched(p, t, uncovered, shared, start + k);
            && Searched(p, t, uncovered, shared, start + k + 1) == SearchStep(p, true, t, shared, dist, i)
            && (SearchVisitFits(p, t, uncovered, shared, start + k) <==> SearchStepFits(p, t, shared, dist, i))
  {
    VisitInRound(p, start, k);
    hide SearchStep, SearchStepFits, VisitAt;
  }

  /** One visit of a round. */
  method VisitSearch(p: Program, t: Table, uncovered: seq<bool>, shared: bool, dist: seq<nat>, ghost start: nat, k: nat)
    returns (dist': seq<nat>, changed: bool, fits: bool)
    requires IsInput(p, t, uncovered) && HasShape(p, t) && SoundSearch(p, uncovered, shared, dist)
    requires IsStart(p, start) && k < |p.instructions| && dist == Searched(p, t, uncovered, shared, start + k)
    ensures HasSlots(p, dist')
    ensures fits <==> SearchVisitFits(p, t, uncovered, shared, start + k)
    ensures fits ==> SoundSearch(p, uncovered, shared, dist')
    ensures fits ==> dist' == Searched(p, t, uncovered, shared, start + k + 1)
    ensures fits && changed ==> SmallerSearch(dist', dist)
    ensures fits && !changed ==> dist' == dist && QuietSearch(p, t, shared, dist, |p.instructions| - 1 - k)
  {
    hide SoundSearch, SmallerSearch, SettledSearch, SearchStep, SearchStepFits, Searched, SearchVisitFits, IsStart;
    hide ExactReturns, IsProgram, IsBestSearch;
    var i := |p.instructions| - 1 - k;
    SearchVisit(p, t, uncovered, shared, start, k);
    SearchStepSound(p, t, uncovered, shared, dist, i);
    dist', changed, fits := RelaxSearch(p, t, shared, dist, i);
  }

  /** After some visits of a round. */
  ghost predicate InSearch(p: Program, t: Table, uncovered: seq<bool>, shared: bool, start: nat, dist: seq<nat>, k: nat,
                           dist': seq<nat>, changed: bool)
    requires IsProgram(p) && HasShape(p, t) && |uncovered| == |p.instructions| && HasSlots(p, dist)
  {
    && SoundSearch(p, uncovered, shared, dist') && k <= |p.instructions|
    && dist' == Searched(p, t, uncovered, shared, start + k)
    && (forall j: nat :: start <= j < start + k ==> SearchVisitFits(p, t, uncovered, shared, j))
    && (if changed then SmallerSearch(dist', dist)
        else dist' == dist &&
             forall i: nat :: |p.instructions| - k <= i < |p.instructions| ==> QuietSearch(p, t, shared, dist, i))
  }

  lemma SearchNext(p: Program, t: Table, uncovered: seq<bool>, shared: bool, start: nat, dist: seq<nat>, k: nat,
                   was: seq<nat>, changed: bool, dist': seq<nat>, c: bool)
    requires IsProgram(p) && HasShape(p, t) && |uncovered| == |p.instructions| && HasSlots(p, dist)
    requires k < |p.instructions| && InSearch(p, t, uncovered, shared, start, dist, k, was, changed)
    requires SearchVisitFits(p, t, uncovered, shared, start + k) && SoundSearch(p, uncovered, shared, dist')
    requires dist' == Searched(p, t, uncovered, shared, start + k + 1)
    requires c ==> SmallerSearch(dist', was)
    requires !c ==> HasSlots(p, was) && dist' == was && QuietSearch(p, t, shared, was, |p.instructions| - 1 - k)
    ensures InSearch(p, t, uncovered, shared, start, dist, k + 1, dist', changed || c)
  {
    hide SoundSearch, Searched, QuietSearch, SearchVisitFits, Zeros, Sum, IsProgram;
  }

  /** One round over all instructions. */
  method RoundSearch(p: Program, t: Table, uncovered: seq<bool>, shared: bool, dist: seq<nat>, ghost start: nat)
    returns (dist': seq<nat>, changed: bool, fits: bool)
    requires IsInput(p, t, uncovered) && HasShape(p, t) && SoundSearch(p, uncovered, shared, dist)
    requires HasSlots(p, dist) && IsStart(p, start) && dist == Searched(p, t, uncovered, shared, start)
    ensures HasSlots(p, dist')
    ensures !fits ==> !SearchFits(p, t, uncovered, shared)
    ensures fits ==> InSearch(p, t, uncovered, shared, start, dist, |p.instructions|, dist', changed)
  {
    hide SoundSearch, SmallerSearch, Searched, QuietSearch, SearchVisitFits, IsStart, ExactReturns, IsProgram;
    dist', changed, fits := dist, false, true;
    assert InSearch(p, t, uncovered, shared, start, dist, 0, dist, false);
    for k := 0 to |p.instructions|
      invariant fits && HasSlots(p, dist') && InSearch(p, t, uncovered, shared, start, dist, k, dist', changed)
    {
      ghost var was := dist';
      var c;
      dist', c, fits := VisitSearch(p, t, uncovered, shared, dist', start, k);
      if !fits { return; }
      SearchNext(p, t, uncovered, shared, start, dist, k, was, changed, dist', c);
      changed := changed || c;
    }
  }

  lemma {:induction false} QuietSearchForever(p: Program, t: Table, uncovered: seq<bool>, shared: bool, start: nat,
                                              k: nat)
    requires IsProgram(p) && HasShape(p, t) && |uncovered| == |p.instructions| && start <= k
    requires AllQuietSearch(p, t, shared, Searched(p, t, uncovered, shared, start))
    ensures Searched(p, t, uncovered, shared, k) == Searched(p, t, uncovered, shared, start)
    ensures SearchVisitFits(p, t, uncovered, shared, k)
    decreases k
  {
    hide SearchStepFits, SettledSearch, SearchStep, VisitAt, StartOf, IsProgram;
    var dist := Searched(p, t, uncovered, shared, start);
    if |p.instructions| > 0 {
      if start < k {
        QuietSearchForever(p, t, uncovered, shared, start, k - 1);
        assert QuietSearch(p, t, shared, dist, VisitAt(p, k - 1));
      }
      assert QuietSearch(p, t, shared, dist, VisitAt(p, k));
    }
  }

  lemma QuietSearchFits(p: Program, t: Table, uncovered: seq<bool>, shared: bool, start: nat)
    requires IsProgram(p) && HasShape(p, t) && |uncovered| == |p.instructions|
    requires AllQuietSearch(p, t, shared, Searched(p, t, uncovered, shared, start))
    requires forall j: nat :: j < start ==> SearchVisitFits(p, t, uncovered, shared, j)
    ensures SearchFits(p, t, uncovered, shared)
  {
    hide SearchVisitFits, AllQuietSearch, Searched;
    forall k: nat
      ensures SearchVisitFits(p, t, uncovered, shared, k)
    {
      if k >= start { QuietSearchForever(p, t, uncovered, shared, start, k); }
    }
  }

  lemma StartSearch(p: Program, uncovered: seq<bool>, shared: bool)
    requires IsProgram(p) && |uncovered| == |p.instructions|
    ensures SoundSearch(p, uncovered, shared, StartOf(p, uncovered))
  {
    forall i | 0 <= i < |p.instructions| && uncovered[i]
      ensures Found(p, uncovered, shared, i, 1)
    {
      assert IsSearch(p, uncovered, shared, i, Here) && Length(Here) == 1;
    }
  }

  lemma {:induction false} ShallowIsDeep(p: Program, uncovered: seq<bool>, i: nat, s: Search)
    requires IsProgram(p) && |uncovered| == |p.instructions| && IsSearch(p, uncovered, false, i, s)
    ensures IsSearch(p, uncovered, true, i, s)
    decreases s
  {
    match s
    case Here =>
    case Cross(w, j, rest) => ShallowIsDeep(p, uncovered, j, rest);
  }

  lemma SettledSearchExact(p: Program, t: Table, uncovered: seq<bool>, shared: bool, dist: seq<nat>)
    requires IsInput(p, t, uncovered)
    requires SoundSearch(p, uncovered, shared, dist)
    requires forall i :: 0 <= i < |p.instructions| ==> SettledSearch(p, t.fsp, shared, dist, i)
    ensures ExactSearch(p, uncovered, shared, dist)
    ensures ExactSearch(p, uncovered, true, dist) <==> Reached(p, dist)
  {
    SearchExact(p, t, uncovered, shared, shared, dist);
    if Reached(p, dist) { SearchExact(p, t, uncovered, shared, true, dist); }
    if ExactSearch(p, uncovered, true, dist) { DeepReached(p, uncovered, dist); }
  }

  lemma SearchExact(p: Program, t: Table, uncovered: seq<bool>, shared: bool, deep: bool, dist: seq<nat>)
    requires IsInput(p, t, uncovered)
    requires SoundSearch(p, uncovered, shared, dist) && (shared ==> deep)
    requires forall i :: 0 <= i < |p.instructions| ==> SettledSearch(p, t.fsp, shared, dist, i)
    requires deep ==> shared || Reached(p, dist)
    ensures ExactSearch(p, uncovered, deep, dist)
  {
    hide SettledSearch;
    forall i | 0 <= i < |p.instructions|
      ensures IsNearest(p, uncovered, deep, i, dist[i])
    {
      if dist[i] > 0 {
        var s :| IsSearch(p, uncovered, shared, i, s) && Length(s) == dist[i];
        if !shared { ShallowIsDeep(p, uncovered, i, s); }
      }
      forall s | IsSearch(p, uncovered, deep, i, s)
        ensures 0 < dist[i] <= Length(s)
      {
        SearchBound(p, t, uncovered, shared, deep, dist, i, s);
      }
    }
  }

  lemma DeepReached(p: Program, uncovered: seq<bool>, dist: seq<nat>)
    requires IsProgram(p) && |uncovered| == |p.instructions| && |dist| >= |p.instructions|
    requires ExactSearch(p, uncovered, true, dist)
    ensures Reached(p, dist)
  {
    forall i, f | 0 <= i < |p.instructions| && p.instructions[i].kind.Call? && f in p.instructions[i].kind.targets
      ensures ReachedHere(p, dist, i, f)
    {
      if f < |p.functions| && p.functions[f].Definition? && dist[p.functions[f].entry] > 0 {
        var e := p.functions[f].entry;
        assert IsNearest(p, uncovered, true, e, dist[e]);
        var s :| IsSearch(p, uncovered, true, e, s) && Length(s) == dist[e];
        assert IsSearch(p, uncovered, true, i, Enter(f, s)) && Length(Enter(f, s)) == 1 + dist[e];
        assert IsNearest(p, uncovered, true, i, dist[i]);
      }
    }
  }

  /** A caller, before the search: no call would gain by going into a callee, because a
      way that stays out of the callees is no longer. */
  ghost predicate NoGain(p: Program, uncovered: seq<bool>)
    requires IsProgram(p) && |uncovered| == |p.instructions|
  {
    forall i, f, s ::
      0 <= i < |p.instructions| && p.instructions[i].kind.Call? && f in p.instructions[i].kind.targets &&
      f < |p.functions| && p.functions[f].Definition? && IsSearch(p, uncovered, false, p.functions[f].entry, s) ==>
        StaysOut(p, uncovered, i, 1 + Length(s))
  }

  /** Some way that stays out of the callees is at most this long. */
  ghost predicate StaysOut(p: Program, uncovered: seq<bool>, i: nat, d: nat)
    requires IsProgram(p) && |uncovered| == |p.instructions|
  {
    exists s :: IsSearch(p, uncovered, false, i, s) && Length(s) <= d
  }

  /** For distances that are exact for the ways out of the callees, the two conditions
      are the same. */
  lemma GainReached(p: Program, uncovered: seq<bool>, dist: seq<nat>)
    requires IsProgram(p) && |uncovered| == |p.instructions| && |dist| >= |p.instructions|
    requires ExactSearch(p, uncovered, false, dist)
    ensures NoGain(p, uncovered) <==> Reached(p, dist)
  {
    hide IsSearch, Length, IsProgram;
    if NoGain(p, uncovered) {
      forall i, f | 0 <= i < |p.instructions| && p.instructions[i].kind.Call? && f in p.instructions[i].kind.targets
        ensures ReachedHere(p, dist, i, f)
      {
        GainHere(p, uncovered, dist, i, f);
      }
    }
    if Reached(p, dist) {
      forall i, f, s |
        0 <= i < |p.instructions| && p.instructions[i].kind.Call? && f in p.instructions[i].kind.targets &&
        f < |p.functions| && p.functions[f].Definition? && IsSearch(p, uncovered, false, p.functions[f].entry, s)
        ensures StaysOut(p, uncovered, i, 1 + Length(s))
      {
        ReachedGain(p, uncovered, dist, i, f, s);
      }
    }
  }

  lemma GainHere(p: Program, uncovered: seq<bool>, dist: seq<nat>, i: nat, f: nat)
    requires IsProgram(p) && |uncovered| == |p.instructions| && |dist| >= |p.instructions|
    requires ExactSearch(p, uncovered, false, dist) && NoGain(p, uncovered)
    requires i < |p.instructions| && p.instructions[i].kind.Call? && f in p.instructions[i].kind.targets
    ensures ReachedHere(p, dist, i, f)
  {
    hide IsSearch, Length;
    if f < |p.functions| && p.functions[f].Definition? && dist[p.functions[f].entry] > 0 {
      var e := p.functions[f].entry;
      assert IsNearest(p, uncovered, false, e, dist[e]) && IsNearest(p, uncovered, false, i, dist[i]);
      var s :| IsSearch(p, uncovered, false, e, s) && Length(s) == dist[e];
      assert StaysOut(p, uncovered, i, 1 + Length(s));
    }
  }

  lemma ReachedGain(p: Program, uncovered: seq<bool>, dist: seq<nat>, i: nat, f: nat, s: Search)
    requires IsProgram(p) && |uncovered| == |p.instructions| && |dist| >= |p.instructions|
    requires ExactSearch(p, uncovered, false, dist) && Reached(p, dist)
    requires i < |p.instructions| && p.instructions[i].kind.Call? && f in p.instructions[i].kind.targets
    requires f < |p.functions| && p.functions[f].Definition? && IsSearch(p, uncovered, false, p.functions[f].entry, s)
    ensures StaysOut(p, uncovered, i, 1 + Length(s))
  {
    hide IsSearch, Length;
    var e := p.functions[f].entry;
    assert IsNearest(p, uncovered, false, e, dist[e]) && IsNearest(p, uncovered, false, i, dist[i]);
    assert ReachedHere(p, dist, i, f);
    var way :| IsSearch(p, uncovered, false, i, way) && Length(way) == dist[i];
  }

  /** The distances to uncovered instructions: the loop ends with nothing cut off exactly
      if the unbounded search stays within the fields. With shared slots the distances are
      exact then. With the slots the tracker really uses they are exact for the ways that
      stay out of the callees, and for all ways exactly if no call would gain by going
      into one. */
  method ComputeUncovered(p: Program, t: Table, uncovered: seq<bool>, shared: bool) returns (dist: seq<nat>, fits: bool)
    requires IsProgram(p) && ExactReturns(p, t) && |uncovered| == |p.instructions|
    ensures |dist| >= |p.instructions| && HasShape(p, t)
    ensures fits <==> SearchFits(p, t, uncovered, shared)
    ensures fits ==> ExactSearch(p, uncovered, shared, dist)
    ensures fits && !shared ==> (ExactSearch(p, uncovered, true, dist) <==> NoGain(p, uncovered))
  {
    StartSearch(p, uncovered, shared);
    assert HasShape(p, t) && StartOf(p, uncovered) == Searched(p, t, uncovered, shared, 0) && IsStart(p, 0);
    hide SoundSearch, Searched, SearchVisitFits, IsStart, ExactReturns, IsProgram, StartOf, QuietSearch, NoGain;
    hide ExactSearch;
    dist, fits := StartOf(p, uncovered), true;
    var changed := true;
    ghost var start: nat := 0;
    while changed
      invariant fits && HasSlots(p, dist) && SoundSearch(p, uncovered, shared, dist) && IsStart(p, start)
      invariant dist == Searched(p, t, uncovered, shared, start)
      invariant forall j: nat :: j < start ==> SearchVisitFits(p, t, uncovered, shared, j)
      invariant !changed ==> AllQuietSearch(p, t, shared, dist)
      decreases Zeros(dist), Sum(dist), changed
    {
      ghost var was := dist;
      dist, changed, fits := RoundSearch(p, t, uncovered, shared, dist, start);
      if !fits { return; }
      NextStart(p, start);
      start := start + |p.instructions|;
    }
    QuietSearchFits(p, t, uncovered, shared, start);
    QuietSearchExact(p, t, uncovered, shared, dist);
  }

  lemma QuietSearchExact(p: Program, t: Table, uncovered: seq<bool>, shared: bool, dist: seq<nat>)
    requires IsInput(p, t, uncovered) && HasShape(p, t) && HasSlots(p, dist)
    requires SoundSearch(p, uncovered, shared, dist) && AllQuietSearch(p, t, shared, dist)
    ensures ExactSearch(p, uncovered, shared, dist)
    ensures !shared ==> (ExactSearch(p, uncovered, true, dist) <==> NoGain(p, uncovered))
  {
    hide SoundSearch, SettledSearch, ExactReturns, ExactSearch, NoGain, SearchStepFits, SearchStep;
    forall i: nat | i < |p.instructions|
      ensures SettledSearch(p, t.fsp, shared, dist, i)
    {
      assert QuietSearch(p, t, shared, dist, i);
    }
    SettledSearchExact(p, t, uncovered, shared, dist);
    if !shared { GainReached(p, uncovered, dist); }
  }

  /** A caller, a call and a return, of a function whose only instruction is uncovered. */
  function Caller(): Program {
    Program([Instruction(Call([1]), [1], 0), Instruction(Return, [], 0), Instruction(Return, [], 1)],
            [Definition(0), Definition(2)])
  }

  /** The slot of a function is not the slot of its first instruction: the tracker calls
      the uncovered instruction in the callee unreachable from the call. */
  lemma CalleeMissed(dist: seq<nat>)
    requires |dist| >= 3 && ExactSearch(Caller(), [false, false, true], false, dist)
    ensures dist[0] == 0 && IsNearest(Caller(), [false, false, true], true, 0, 2)
  {
    hide IsSearch, Length;
    var p, u := Caller(), [false, false, true];
    assert IsNearest(p, u, false, 0, dist[0]);
    forall s
      ensures !IsSearch(p, u, false, 0, s)
      ensures IsSearch(p, u, true, 0, s) ==> Length(s) >= 2
    {
      Ways(s);
    }
    DeepWay();
  }

  lemma DeepWay()
    ensures IsSearch(Caller(), [false, false, true], true, 0, Enter(1, Here)) && Length(Enter(1, Here)) == 2
  {
    assert IsSearch(Caller(), [false, false, true], true, 2, Here);
  }

  lemma Ways(s: Search)
    ensures !IsSearch(Caller(), [false, false, true], false, 0, s)
    ensures IsSearch(Caller(), [false, false, true], true, 0, s) ==> Length(s) >= 2
  {
    match s
    case Here =>
    case Cross(w, j, rest) =>
      assert forall deep :: !IsSearch(Caller(), [false, false, true], deep, 1, rest);
    case Enter(f, rest) =>
      LengthPositive(rest);
  }

  lemma {:induction false} LengthPositive(s: Search)
    ensures Length(s) > 0
  {
    match s
    case Here =>
    case Cross(w, j, rest) => LengthPositive(rest);
    case Enter(f, rest) =>
  }

  // ------------------------------------------------------------- call stacks

  datatype Frame = Frame(caller: nat)

  /** How a state comes to an uncovered instruction: in its top frame, or by leaving that
      frame and going on in the one below. */
  datatype WayOut = Local | Leave(rest: WayOut)

  /** Leaving a frame takes the state to the instruction after the call that made it. */
  ghost predicate IsWayOut(ret: seq<nat>, unc: seq<nat>, stack: seq<Frame>, pc: nat, w: WayOut)
    decreases w
  {
    match w
    case Local => |stack| > 0 && pc < |unc| && unc[pc] > 0
    case Leave(rest) =>
      && |stack| > 1 && pc < |ret| && ret[pc] > 0
      && IsWayOut(ret, unc, stack[..|stack| - 1], stack[|stack| - 1].caller + 1, rest)
  }

  function WayLength(ret: seq<nat>, unc: seq<nat>, stack: seq<Frame>, pc: nat, w: WayOut): nat
    requires IsWayOut(ret, unc, stack, pc, w)
    decreases w
  {
    match w
    case Local => unc[pc]
    case Leave(rest) =>
      ret[pc] + WayLength(ret, unc, stack[..|stack| - 1], stack[|stack| - 1].caller + 1, rest)
  }

  /** The length of the least way out of a stack, zero when there is none. */
  ghost predicate IsLeast(ret: seq<nat>, unc: seq<nat>, stack: seq<Frame>, pc: nat, d: nat) {
    && (d > 0 ==> exists w :: IsWayOut(ret, unc, stack, pc, w) && WayLength(ret, unc, stack, pc, w) == d)
    && (forall w :: IsWayOut(ret, unc, stack, pc, w) ==> 0 < d <= WayLength(ret, unc, stack, pc, w))
  }

  /** The distance at an instruction, given the distance after returning. */
  function MinDistance(local: nat, toReturn: nat, atReturn: nat): nat {
    if atReturn == 0 then local
    else if toReturn == 0 then local
    else if local == 0 then (toReturn + atReturn) % UINT64
    else if local <= (toReturn + atReturn) % UINT64 then local else (toReturn + atReturn) % UINT64
  }

  lemma LeastNext(ret: seq<nat>, unc: seq<nat>, stack: seq<Frame>, top: Frame, pc: nat, d: nat)
    requires |stack| > 0 && pc < |ret| && pc < |unc|
    requires IsLeast(ret, unc, stack, top.caller + 1, d) && ret[pc] + d < UINT64
    ensures IsLeast(ret, unc, stack + [top], pc, MinDistance(unc[pc], ret[pc], d))
  {
    var all, least := stack + [top], MinDistance(unc[pc], ret[pc], d);
    assert all[..|all| - 1] == stack;
    if d > 0 && ret[pc] > 0 {
      var w :| IsWayOut(ret, unc, stack, top.caller + 1, w) && WayLength(ret, unc, stack, top.caller + 1, w) == d;
      assert IsWayOut(ret, unc, all, pc, Leave(w)) && WayLength(ret, unc, all, pc, Leave(w)) == ret[pc] + d;
    }
    assert unc[pc] > 0 ==> IsWayOut(ret, unc, all, pc, Local) && WayLength(ret, unc, all, pc, Local) == unc[pc];
    forall w | IsWayOut(ret, unc, all, pc, w)
      ensures 0 < least <= WayLength(ret, unc, all, pc, w)
    {
      if w.Leave? { assert IsWayOut(ret, unc, stack, top.caller + 1, w.rest); }
    }
  }

  lemma LeastFirst(ret: seq<nat>, unc: seq<nat>, bottom: Frame, pc: nat)
    requires pc < |unc|
    ensures IsLeast(ret, unc, [bottom], pc, unc[pc])
  {
    assert unc[pc] > 0 ==> IsWayOut(ret, unc, [bottom], pc, Local);
    assert unc[pc] > 0 ==> WayLength(ret, unc, [bottom], pc, Local) == unc[pc];
    forall w | IsWayOut(ret, unc, [bottom], pc, w)
      ensures 0 < unc[pc] <= WayLength(ret, unc, [bottom], pc, w)
    {
      assert w.Local?;
    }
  }

  /** Where a frame goes on: the top frame at the program counter, every other frame
      after the call that made the frame above it. */
  function Resume(stack: seq<Frame>, pc: nat, k: nat): nat
    requires k < |stack|
  {
    if k == |stack| - 1 then pc else stack[k + 1].caller + 1
  }

  /** No sum of a pass over a stack leaves 64 bits. */
  predicate StackFits(ret: seq<nat>, stack: seq<Frame>, pc: nat, onReturn: seq<nat>)
    requires |onReturn| == |stack| && forall k :: 0 <= k < |stack| ==> Resume(stack, pc, k) < |ret|
  {
    forall k :: 0 <= k < |stack| ==> ret[Resume(stack, pc, k)] + onReturn[k] < UINT64
  }

  /** The values of a table are at most this. */
  predicate AtMost(s: seq<nat>, m: nat) { forall i :: 0 <= i < |s| ==> s[i] <= m }

  /** The pass over a stack, bottom frame first. Each frame records the least way out of
      the stack once it has returned; the result is the least way out of the whole stack.
      Nothing is cut off exactly if no sum leaves 64 bits, which short stacks ensure. */
  method StackDistances(ret: seq<nat>, unc: seq<nat>, stack: seq<Frame>, pc: nat)
    returns (onReturn: seq<nat>, current: nat, fits: bool)
    requires forall k :: 0 <= k < |stack| ==> Resume(stack, pc, k) < |ret| && Resume(stack, pc, k) < |unc|
    ensures |onReturn| == |stack|
    ensures fits <==> StackFits(ret, stack, pc, onReturn)
    ensures forall m: nat :: AtMost(ret, m) && AtMost(unc, m) && |stack| * m < UINT64 ==> fits
    ensures fits ==> forall k :: 0 <= k < |stack| ==> IsLeast(ret, unc, stack[..k], stack[k].caller + 1, onReturn[k])
    ensures fits ==> IsLeast(ret, unc, stack, pc, current)
  {
    hide *;
    onReturn, current, fits := [], 0, true;
    StackStart(ret, unc, stack, pc);
    for k := 0 to |stack|
      invariant |onReturn| == k && StackPass(ret, unc, stack, pc, onReturn, current, fits)
    {
      var i := Resume(stack, pc, k);
      StackStep(ret, unc, stack, pc, onReturn, current, fits);
      fits := fits && ret[i] + current < UINT64;
      onReturn, current := onReturn + [current], MinDistance(unc[i], ret[i], current);
    }
    StackEnd(ret, unc, stack, pc, onReturn, current, fits);
  }

  /** The pass after some frames: what fits so far, and the least ways out of the frames done. */
  ghost predicate StackPass(ret: seq<nat>, unc: seq<nat>, stack: seq<Frame>, pc: nat, onReturn: seq<nat>, current: nat,
                            fits: bool)
    requires forall k :: 0 <= k < |stack| ==> Resume(stack, pc, k) < |ret| && Resume(stack, pc, k) < |unc|
  {
    var k := |onReturn|;
    && k <= |stack|
    && (fits <==> forall l :: 0 <= l < k ==> ret[Resume(stack, pc, l)] + onReturn[l] < UINT64)
    && (forall m: nat :: Short(ret, unc, stack, m) ==> fits && current <= k * m)
    && (fits ==> forall l :: 0 <= l < k ==> IsLeast(ret, unc, stack[..l], stack[l].caller + 1, onReturn[l]))
    && (fits ==> IsLeast(ret, unc, stack[..k], if k < |stack| then stack[k].caller + 1 else pc, current))
  }

  predicate Short(ret: seq<nat>, unc: seq<nat>, stack: seq<Frame>, m: nat) {
    AtMost(ret, m) && AtMost(unc, m) && |stack| * m < UINT64
  }

  lemma StackStart(ret: seq<nat>, unc: seq<nat>, stack: seq<Frame>, pc: nat)
    requires forall k :: 0 <= k < |stack| ==> Resume(stack, pc, k) < |ret| && Resume(stack, pc, k) < |unc|
    ensures StackPass(ret, unc, stack, pc, [], 0, true)
  {
    hide IsLeast, Short, Resume;
    EmptyStack(ret, unc);
    assert stack[..0] == [];
  }

  lemma StackStep(ret: seq<nat>, unc: seq<nat>, stack: seq<Frame>, pc: nat, onReturn: seq<nat>, d: nat, fits: bool)
    requires forall k :: 0 <= k < |stack| ==> Resume(stack, pc, k) < |ret| && Resume(stack, pc, k) < |unc|
    requires |onReturn| < |stack| && StackPass(ret, unc, stack, pc, onReturn, d, fits)
    ensures var i := Resume(stack, pc, |onReturn|);
            StackPass(ret, unc, stack, pc, onReturn + [d], MinDistance(unc[i], ret[i], d),
                      fits && ret[i] + d < UINT64)
  {
    hide IsLeast, Short, MinDistance;
    var k := |onReturn|;
    var i, top := Resume(stack, pc, k), stack[k];
    assert stack[..k + 1] == stack[..k] + [top];
    if fits && ret[i] + d < UINT64 { LeastFrame(ret, unc, stack[..k], top, i, d); }
    forall m: nat | Short(ret, unc, stack, m)
      ensures ret[i] + d < UINT64 && MinDistance(unc[i], ret[i], d) <= (k + 1) * m
    {
      FrameBound(ret, unc, stack, i, d, k, m);
    }
  }

  lemma StackEnd(ret: seq<nat>, unc: seq<nat>, stack: seq<Frame>, pc: nat, onReturn: seq<nat>, d: nat, fits: bool)
    requires forall k :: 0 <= k < |stack| ==> Resume(stack, pc, k) < |ret| && Resume(stack, pc, k) < |unc|
    requires |onReturn| == |stack| && StackPass(ret, unc, stack, pc, onReturn, d, fits)
    ensures fits <==> StackFits(ret, stack, pc, onReturn)
    ensures forall m: nat :: AtMost(ret, m) && AtMost(unc, m) && |stack| * m < UINT64 ==> fits
    ensures fits ==> forall k :: 0 <= k < |stack| ==> IsLeast(ret, unc, stack[..k], stack[k].caller + 1, onReturn[k])
    ensures fits ==> IsLeast(ret, unc, stack, pc, d)
  {
    hide IsLeast, Resume, AtMost;
    assert stack[..|stack|] == stack;
    forall m: nat | AtMost(ret, m) && AtMost(unc, m) && |stack| * m < UINT64 ensures fits {
      assert Short(ret, unc, stack, m);
    }
  }

  /** No way leads out of an empty stack. */
  lemma EmptyStack(ret: seq<nat>, unc: seq<nat>)
    ensures forall pc: nat :: IsLeast(ret, unc, [], pc, 0)
  {
  }

  lemma LeastFrame(ret: seq<nat>, unc: seq<nat>, stack: seq<Frame>, top: Frame, pc: nat, d: nat)
    requires pc < |ret| && pc < |unc|
    requires IsLeast(ret, unc, stack, top.caller + 1, d) && ret[pc] + d < UINT64
    ensures IsLeast(ret, unc, stack + [top], pc, MinDistance(unc[pc], ret[pc], d))
  {
    if stack == [] {
      assert stack + [top] == [top];
      NoWayOut(ret, unc, top.caller + 1);
      LeastFirst(ret, unc, top, pc);
    } else {
      LeastNext(ret, unc, stack, top, pc, d);
    }
  }

  lemma NoWayOut(ret: seq<nat>, unc: seq<nat>, pc: nat)
    ensures forall w :: !IsWayOut(ret, unc, [], pc, w)
  {
  }

  lemma FrameBound(ret: seq<nat>, unc: seq<nat>, stack: seq<Frame>, i: nat, below: nat, k: nat, m: nat)
    requires i < |ret| && i < |unc| && below <= k * m && k < |stack| && Short(ret, unc, stack, m)
    ensures ret[i] + below < UINT64 && MinDistance(unc[i], ret[i], below) <= (k + 1) * m
  {
    MoreFrames(k, |stack|, m);
    SmallSum(unc[i], ret[i], below, k * m, m);
  }

  lemma MoreFrames(k: nat, n: nat, m: nat)
    requires k < n
    ensures (k + 1) * m == k * m + m <= n * m
  {
    var rest := n - k - 1;
    assert n * m == (k + 1 + rest) * m == (k + 1) * m + rest * m;
    NotNegative(rest, m);
  }

  lemma SmallSum(local: nat, toReturn: nat, below: nat, d: nat, m: nat)
    requires local <= m && toReturn <= m && below <= d && d + m < UINT64
    ensures MinDistance(local, toReturn, below) <= d + m
  {
    assert (toReturn + below) % UINT64 == toReturn + below;
  }
}
