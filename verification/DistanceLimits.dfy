/**
 When the distances of the statistics tracker fit their fields: bounds on the functions
 of a program that imply it, and a family of programs on the edge. With one function
 more the loop over the instructions never ends.
 */
module DistanceLimits {
  import opened Arithmetic
  import opened Exprs
  import opened Distances
  import opened UncoveredDistances

  // ------------------------------------------------------ limits of a program

  /** Limits for a program: functions are put in groups, and a group has a limit for each
      number of its functions through which a way is known. An instruction has a weight for
      each such number of the group of its function. */
  datatype Limits = Limits(group: seq<nat>, level: (nat, nat) -> nat, weight: (nat, nat) -> nat)

  /** The functions of a group among the first n, and those that have a shortest path. */
  function Size(l: Limits, s: nat, n: nat): nat
    requires n <= |l.group|
  {
    if n == 0 then 0 else Size(l, s, n - 1) + if l.group[n - 1] == s then 1 else 0
  }

  function Known(l: Limits, fsp: seq<nat>, s: nat, n: nat): nat
    requires n <= |l.group| == |fsp|
  {
    if n == 0 then 0 else Known(l, fsp, s, n - 1) + if l.group[n - 1] == s && fsp[n - 1] > 0 then 1 else 0
  }

  function GroupSize(l: Limits, s: nat): nat { Size(l, s, |l.group|) }

  function KnownIn(l: Limits, fsp: seq<nat>, s: nat): nat
    requires |l.group| == |fsp|
  {
    Known(l, fsp, s, |fsp|)
  }

  lemma {:induction false} KnownSize(l: Limits, fsp: seq<nat>, s: nat, n: nat)
    requires n <= |l.group| == |fsp|
    ensures Known(l, fsp, s, n) <= Size(l, s, n)
  {
    if n > 0 { KnownSize(l, fsp, s, n - 1); }
  }

  lemma {:induction false} KnownUpdate(l: Limits, fsp: seq<nat>, f: nat, v: nat, s: nat, n: nat)
    requires n <= |l.group| == |fsp| && f < |fsp| && (fsp[f] > 0 ==> v > 0)
    ensures Known(l, fsp[f := v], s, n) == Known(l, fsp, s, n) +
              if f < n && l.group[f] == s && fsp[f] == 0 && v > 0 then 1 else 0
  {
    if n > 0 { KnownUpdate(l, fsp, f, v, s, n - 1); }
  }

  /** A function without a shortest path leaves room in its group. */
  lemma {:induction false} KnownRoom(l: Limits, fsp: seq<nat>, f: nat, n: nat)
    requires f < n <= |l.group| == |fsp| && fsp[f] == 0
    ensures Known(l, fsp, l.group[f], n) < Size(l, l.group[f], n)
  {
    if f < n - 1 { KnownRoom(l, fsp, f, n - 1); } else { KnownSize(l, fsp, l.group[f], n - 1); }
  }

  /** The size of the group of a function. */
  function SizeOf(p: Program, l: Limits, f: nat): nat
    requires |l.group| == |p.functions|
  {
    if f < |l.group| then GroupSize(l, l.group[f]) else 0
  }

  /** The limits and the weights grow with the level. A call weighs more than the limits of
      its targets, at the level of its own group or at the last one of another. A level of
      a group is limited by no less than the weight, at the level before, of each of its
      functions: what a function's own group does not know yet cannot be crossed. */
  ghost predicate IsLimits(p: Program, l: Limits)
    requires IsProgram(p)
  {
    && |l.group| == |p.functions|
    && (forall i: nat, c: nat :: i < |p.instructions| && c <= SizeOf(p, l, p.instructions[i].parent) ==>
          Weighs(p, l, i, c))
    && (forall f: nat, c: nat :: f < |p.functions| && c < SizeOf(p, l, f) ==> Limited(p, l, f, c))
  }

  predicate Weighs(p: Program, l: Limits, i: nat, c: nat)
    requires IsProgram(p) && |l.group| == |p.functions| && i < |p.instructions|
  {
    && 1 <= l.weight(i, c) && (c < SizeOf(p, l, p.instructions[i].parent) ==> l.weight(i, c) <= l.weight(i, c + 1))
    && match p.instructions[i].kind
       case Call(targets) =>
         forall k :: 0 <= k < |targets| ==> l.weight(i, c) >= 1 + TargetLevel(p, l, i, c, targets[k])
       case _ => true
  }

  function TargetLevel(p: Program, l: Limits, i: nat, c: nat, f: nat): nat
    requires IsProgram(p) && |l.group| == |p.functions| && i < |p.instructions| && f < |p.functions|
  {
    var s := l.group[f];
    l.level(s, if s == l.group[p.instructions[i].parent] then c else GroupSize(l, s))
  }

  predicate Limited(p: Program, l: Limits, f: nat, c: nat)
    requires IsProgram(p) && |l.group| == |p.functions| && f < |p.functions|
  {
    var s := l.group[f];
    && l.level(s, c) <= l.level(s, c + 1) && l.level(s, c + 1) >= Weight(p, l, f, c, |p.instructions|)
    && (p.functions[f].Declaration? ==> l.level(s, c + 1) >= 1)
  }

  /** The weight of a function at a level, up to an instruction. */
  function Weight(p: Program, l: Limits, f: nat, c: nat, n: nat): nat
    requires n <= |p.instructions|
  {
    if n == 0 then 0
    else Weight(p, l, f, c, n - 1) + if p.instructions[n - 1].parent == f then l.weight(n - 1, c) else 0
  }

  /** The weight of its instructions that have a distance. */
  function Load(p: Program, l: Limits, dist: seq<nat>, f: nat, c: nat, n: nat): nat
    requires n <= |p.instructions| == |dist|
  {
    if n == 0 then 0
    else Load(p, l, dist, f, c, n - 1) +
         if p.instructions[n - 1].parent == f && dist[n - 1] > 0 then l.weight(n - 1, c) else 0
  }

  lemma {:induction false} LoadWeight(p: Program, l: Limits, dist: seq<nat>, f: nat, c: nat, n: nat)
    requires n <= |p.instructions| == |dist|
    ensures Load(p, l, dist, f, c, n) <= Weight(p, l, f, c, n)
  {
    if n > 0 { LoadWeight(p, l, dist, f, c, n - 1); }
  }

  lemma {:induction false} LoadUpdate(p: Program, l: Limits, dist: seq<nat>, i: nat, v: nat, f: nat, c: nat, n: nat)
    requires n <= |p.instructions| == |dist| && i < |dist| && (dist[i] > 0 ==> v > 0)
    ensures Load(p, l, dist[i := v], f, c, n) == Load(p, l, dist, f, c, n) +
              if i < n && p.instructions[i].parent == f && dist[i] == 0 && v > 0 then l.weight(i, c) else 0
  {
    if n > 0 { LoadUpdate(p, l, dist, i, v, f, c, n - 1); }
  }

  lemma {:induction false} LoadHas(p: Program, l: Limits, dist: seq<nat>, i: nat, c: nat, n: nat)
    requires i < n <= |p.instructions| == |dist| && dist[i] > 0
    ensures Load(p, l, dist, p.instructions[i].parent, c, n) >= l.weight(i, c)
  {
    if i < n - 1 { LoadHas(p, l, dist, i, c, n - 1); }
  }

  /** Weights grow with the level. */
  lemma {:induction false} LoadLevel(p: Program, l: Limits, dist: seq<nat>, f: nat, c: nat, n: nat)
    requires IsProgram(p) && IsLimits(p, l) && n <= |p.instructions| == |dist| && c < SizeOf(p, l, f)
    ensures Load(p, l, dist, f, c, n) <= Load(p, l, dist, f, c + 1, n)
  {
    hide IsLimits, Weighs;
    if n > 0 {
      LoadLevel(p, l, dist, f, c, n - 1);
      if p.instructions[n - 1].parent == f { WeightGrows(p, l, n - 1, c); }
    }
  }

  lemma WeightGrows(p: Program, l: Limits, i: nat, c: nat)
    requires IsProgram(p) && IsLimits(p, l) && i < |p.instructions| && c <= SizeOf(p, l, p.instructions[i].parent)
    ensures 1 <= l.weight(i, c) && (c < SizeOf(p, l, p.instructions[i].parent) ==> l.weight(i, c) <= l.weight(i, c + 1))
  {
    hide Limited, SizeOf;
    assert Weighs(p, l, i, c);
  }

  lemma {:induction false} WeightLevels(p: Program, l: Limits, f: nat, c: nat, d: nat, n: nat)
    requires IsProgram(p) && IsLimits(p, l) && n <= |p.instructions| && c <= d <= SizeOf(p, l, f)
    ensures Weight(p, l, f, c, n) <= Weight(p, l, f, d, n)
    decreases d, n
  {
    hide IsLimits;
    if c < d {
      WeightLevels(p, l, f, c, d - 1, n);
      if n > 0 {
        WeightLevels(p, l, f, d - 1, d, n - 1);
        if p.instructions[n - 1].parent == f { WeightGrows(p, l, n - 1, d - 1); }
      }
    }
  }

  lemma {:induction false} LevelGrows(p: Program, l: Limits, f: nat, c: nat, d: nat)
    requires IsProgram(p) && IsLimits(p, l) && f < |p.functions| && c <= d <= SizeOf(p, l, f)
    ensures l.level(l.group[f], c) <= l.level(l.group[f], d)
    decreases d
  {
    hide Weight, Weighs, SizeOf;
    if c < d {
      LevelGrows(p, l, f, c, d - 1);
      assert Limited(p, l, f, d - 1);
    }
  }

  /** The level of the group of a function. */
  function LevelOf(l: Limits, t: Table, f: nat): nat
    requires |l.group| == |t.fsp| && f < |t.fsp|
  {
    KnownIn(l, t.fsp, l.group[f])
  }

  /** What every table of the unbounded run satisfies: a distance is at most the weight, at
      the level of the group, of the instructions of its function that have one, and a
      shortest path is at most the limit of that level. */
  ghost predicate Within(p: Program, l: Limits, t: Table)
    requires IsProgram(p) && |l.group| == |p.functions|
  {
    && HasShape(p, t)
    && (forall i: nat :: i < |t.dist| ==> DistWithin(p, l, t, i))
    && (forall f: nat :: f < |t.fsp| ==> FspWithin(p, l, t, f))
  }

  predicate DistWithin(p: Program, l: Limits, t: Table, i: nat)
    requires IsProgram(p) && |l.group| == |p.functions| && HasShape(p, t) && i < |t.dist|
  {
    var f := p.instructions[i].parent;
    t.dist[i] <= Load(p, l, t.dist, f, LevelOf(l, t, f), |t.dist|)
  }

  predicate FspWithin(p: Program, l: Limits, t: Table, f: nat)
    requires IsProgram(p) && |l.group| == |p.functions| && HasShape(p, t) && f < |t.fsp|
  {
    t.fsp[f] <= l.level(l.group[f], LevelOf(l, t, f))
  }

  lemma LevelSize(p: Program, l: Limits, t: Table, f: nat)
    requires |l.group| == |p.functions| == |t.fsp| && f < |t.fsp|
    ensures LevelOf(l, t, f) <= SizeOf(p, l, f) && (t.fsp[f] == 0 ==> LevelOf(l, t, f) < SizeOf(p, l, f))
  {
    KnownSize(l, t.fsp, l.group[f], |t.fsp|);
    if t.fsp[f] == 0 { KnownRoom(l, t.fsp, f, |t.fsp|); }
  }

  lemma {:induction false} KnownSome(l: Limits, fsp: seq<nat>, f: nat, n: nat)
    requires f < n <= |l.group| == |fsp| && fsp[f] > 0
    ensures Known(l, fsp, l.group[f], n) > 0
  {
    if f < n - 1 { KnownSome(l, fsp, f, n - 1); }
  }

  lemma InitialWithin(p: Program, l: Limits)
    requires IsProgram(p) && IsLimits(p, l)
    ensures Within(p, l, Initial(p))
  {
    var t := Initial(p);
    forall i: nat | i < |t.dist|
      ensures DistWithin(p, l, t, i)
    {
      var c := LevelOf(l, t, p.instructions[i].parent);
      assert IsInstruction(p, p.instructions[i]);
      LevelSize(p, l, t, p.instructions[i].parent);
      WeightGrows(p, l, i, c);
      if t.dist[i] > 0 { LoadHas(p, l, t.dist, i, c, |t.dist|); }
    }
    forall f: nat | f < |t.fsp|
      ensures FspWithin(p, l, t, f)
    {
      if t.fsp[f] > 0 {
        KnownSome(l, t.fsp, f, |t.fsp|);
        LevelSize(p, l, t, f);
        assert Limited(p, l, f, LevelOf(l, t, f) - 1);
      }
    }
  }

  /** What a target may cost, seen from an instruction at the level of its group. */
  lemma TargetWithin(p: Program, l: Limits, t: Table, i: nat, f: nat)
    requires IsProgram(p) && IsLimits(p, l) && Within(p, l, t) && i < |t.dist| && f < |t.fsp|
    requires p.instructions[i].parent < |t.fsp|
    ensures t.fsp[f] <= TargetLevel(p, l, i, LevelOf(l, t, p.instructions[i].parent), f)
  {
    assert |l.group| == |p.functions|;
    hide Load, IsLimits, Known, Size, DistWithin;
    assert FspWithin(p, l, t, f);
    var s := l.group[f];
    if s != l.group[p.instructions[i].parent] {
      LevelSize(p, l, t, f);
      LevelGrows(p, l, f, LevelOf(l, t, f), GroupSize(l, s));
    }
  }

  lemma CrossWithin(p: Program, l: Limits, t: Table, i: nat, b: nat)
    requires IsProgram(p) && IsLimits(p, l) && Within(p, l, t) && i < |t.dist| && Crosses(p, t.fsp, i, b)
    ensures p.instructions[i].parent < |t.fsp| && b <= l.weight(i, LevelOf(l, t, p.instructions[i].parent))
  {
    var inst := p.instructions[i];
    assert IsInstruction(p, inst);
    var c := LevelOf(l, t, inst.parent);
    LevelSize(p, l, t, inst.parent);
    assert Weighs(p, l, i, c);
    if inst.kind.Call? {
      var targets := inst.kind.targets;
      var k :| 0 <= k < |targets| && t.fsp[targets[k]] > 0 && b == 1 + t.fsp[targets[k]];
      TargetWithin(p, l, t, i, targets[k]);
    }
  }

  lemma OfferWithin(p: Program, l: Limits, t: Table, i: nat, b: nat, d: nat)
    requires IsProgram(p) && |l.group| == |p.functions| && Within(p, l, t) && i < |t.dist|
    requires p.instructions[i].parent < |t.fsp| && Offers(p, t.dist, i, b, d)
    ensures d <= b + Load(p, l, t.dist, p.instructions[i].parent, LevelOf(l, t, p.instructions[i].parent), |t.dist|)
  {
    hide Load, Known, FspWithin;
    var succs := p.instructions[i].succs;
    var k :| 0 <= k < |succs| && t.dist[succs[k]] > 0 && d == b + t.dist[succs[k]];
    assert IsInstruction(p, p.instructions[i]);
    assert DistWithin(p, l, t, succs[k]);
  }

  /** A better value at an instruction is at most the new load of its function, at the
      level before. */
  lemma BestLoad(p: Program, l: Limits, t: Table, i: nat, b: nat, best: nat)
    requires IsProgram(p) && IsLimits(p, l) && Within(p, l, t) && i < |t.dist| && p.instructions[i].parent < |t.fsp|
    requires Crosses(p, t.fsp, i, b) && IsBest(p, t.dist, i, b, t.dist[i], best)
    ensures t.dist[i] > 0 ==> best > 0
    ensures var f := p.instructions[i].parent;
            best <= Load(p, l, t.dist[i := best], f, LevelOf(l, t, f), |t.dist|)
  {
    var f := p.instructions[i].parent;
    var c := LevelOf(l, t, f);
    CrossWithin(p, l, t, i, b);
    if best > 0 && best != t.dist[i] { OfferWithin(p, l, t, i, b, best); }
    assert DistWithin(p, l, t, i);
    hide Load, Offers, Crosses, IsLimits, Within, Known;
    LoadUpdate(p, l, t.dist, i, best, f, c, |t.dist|);
  }

  /** With that value the distances stay within their limits, at the same level or at the
      next one. */
  lemma DistsKept(p: Program, l: Limits, t: Table, i: nat, best: nat, t': Table, j: nat)
    requires IsProgram(p) && IsLimits(p, l) && Within(p, l, t) && i < |t.dist| && p.instructions[i].parent < |t.fsp|
    requires t.dist[i] > 0 ==> best > 0
    requires var f := p.instructions[i].parent;
             best <= Load(p, l, t.dist[i := best], f, LevelOf(l, t, f), |t.dist|)
    requires HasShape(p, t') && t'.dist == t.dist[i := best] && j < |t.dist| && p.instructions[j].parent < |t.fsp|
    requires var g := p.instructions[j].parent;
             LevelOf(l, t', g) == LevelOf(l, t, g) || LevelOf(l, t', g) == LevelOf(l, t, g) + 1 <= SizeOf(p, l, g)
    ensures DistWithin(p, l, t', j)
  {
    var g, n := p.instructions[j].parent, |t.dist|;
    var c := LevelOf(l, t, g);
    assert DistWithin(p, l, t, j);
    hide Load, IsLimits, Within, Known;
    LoadUpdate(p, l, t.dist, i, best, g, c, n);
    if LevelOf(l, t', g) == c + 1 { LoadLevel(p, l, t'.dist, g, c, n); }
  }

  /** How the levels change with a new shortest path. */
  lemma LevelsAfter(p: Program, l: Limits, t: Table, f: nat, v: nat, t': Table, g: nat)
    requires IsProgram(p) && |l.group| == |p.functions| && HasShape(p, t) && HasShape(p, t')
    requires f < |t.fsp| && g < |t.fsp| && t'.fsp == t.fsp[f := v] && (t.fsp[f] > 0 ==> v > 0)
    ensures LevelOf(l, t', g) ==
            LevelOf(l, t, g) + if l.group[f] == l.group[g] && t.fsp[f] == 0 && v > 0 then 1 else 0
    ensures LevelOf(l, t', g) <= SizeOf(p, l, g)
  {
    KnownUpdate(l, t.fsp, f, v, l.group[g], |t.fsp|);
    LevelSize(p, l, t', g);
  }

  lemma FspsKept(p: Program, l: Limits, t: Table, f: nat, v: nat, t': Table, g: nat)
    requires IsProgram(p) && IsLimits(p, l) && Within(p, l, t) && HasShape(p, t')
    requires f < |t.fsp| && g < |t.fsp| && t'.fsp == t.fsp[f := v] && (t.fsp[f] > 0 ==> 0 < v <= t.fsp[f])
    requires v <= Weight(p, l, f, LevelOf(l, t, f), |p.instructions|)
    ensures FspWithin(p, l, t', g)
  {
    assert FspWithin(p, l, t, g);
    LevelsAfter(p, l, t, f, v, t', g);
    if t.fsp[f] == 0 {
      LevelSize(p, l, t, f);
      assert Limited(p, l, f, LevelOf(l, t, f));
    }
    hide Weight, Known, IsLimits, Within;
  }

  lemma StepWithin(p: Program, l: Limits, t: Table, i: nat)
    requires IsProgram(p) && IsLimits(p, l) && Sound(p, t) && Within(p, l, t) && i < |t.dist|
    ensures Within(p, l, Step(p, true, t, i))
  {
    assert HasShape(p, t) && IsInstruction(p, p.instructions[i]);
    hide Within, IsLimits, Sound, IsThrough, IsBest, Through, BestAt, Crosses, Improve;
    if Changes(p, true, t, i) {
      var b := Through(p, true, t.fsp, i);
      ThroughLeast(p, t.fsp, i);
      ThroughCrosses(p, t.fsp, i, b);
      BestAtLeast(p, t.dist, i, b, t.dist[i]);
      BestLoad(p, l, t, i, b, BestHere(p, true, t, i));
      if IsEntry(p, i) { EntryKnows(p, t, i, b, BestHere(p, true, t, i)); }
      ImproveWithin(p, l, t, i, BestHere(p, true, t, i));
    }
  }

  lemma EntryKnows(p: Program, t: Table, i: nat, b: nat, best: nat)
    requires IsProgram(p) && Sound(p, t) && i < |t.dist| && p.instructions[i].parent < |t.fsp|
    requires IsBest(p, t.dist, i, b, t.dist[i], best) && IsEntry(p, i)
    ensures var f := p.instructions[i].parent; t.fsp[f] > 0 ==> 0 < best <= t.fsp[f]
  {
    assert KnowsFunction(p, t, p.instructions[i].parent);
  }

  lemma ImproveWithin(p: Program, l: Limits, t: Table, i: nat, best: nat)
    requires IsProgram(p) && IsLimits(p, l) && Within(p, l, t) && i < |t.dist| && p.instructions[i].parent < |t.fsp|
    requires HasShape(p, t) && (t.dist[i] > 0 ==> best > 0)
    requires var f := p.instructions[i].parent;
             && best <= Load(p, l, t.dist[i := best], f, LevelOf(l, t, f), |t.dist|)
             && (IsEntry(p, i) && t.fsp[f] > 0 ==> 0 < best <= t.fsp[f])
    ensures Within(p, l, Improve(p, true, t, i, best))
  {
    var f, t' := p.instructions[i].parent, Improve(p, true, t, i, best);
    var v := if IsEntry(p, i) then best else t.fsp[f];
    assert t'.fsp == t.fsp[f := v] && t'.dist == t.dist[i := best];
    assert FspWithin(p, l, t, f);
    hide Load, Weight, Known, IsLimits, IsEntry, Improve;
    LoadWeight(p, l, t'.dist, f, LevelOf(l, t, f), |t.dist|);
    forall j: nat | j < |t'.dist|
      ensures DistWithin(p, l, t', j)
    {
      assert IsInstruction(p, p.instructions[j]);
      LevelsAfter(p, l, t, f, v, t', p.instructions[j].parent);
      DistsKept(p, l, t, i, best, t', j);
    }
    forall g: nat | g < |t'.fsp|
      ensures FspWithin(p, l, t', g)
    {
      if IsEntry(p, i) { FspsKept(p, l, t, f, v, t', g); } else { SameFsp(p, l, t, t', g); }
    }
  }

  lemma SameFsp(p: Program, l: Limits, t: Table, t': Table, g: nat)
    requires IsProgram(p) && |l.group| == |p.functions| && Within(p, l, t) && HasShape(p, t')
    requires t'.fsp == t.fsp && g < |t.fsp|
    ensures FspWithin(p, l, t', g)
  {
    hide Known, DistWithin;
    assert FspWithin(p, l, t, g);
  }

  lemma ThroughCrosses(p: Program, fsp: seq<nat>, i: nat, b: nat)
    requires IsProgram(p) && |fsp| == |p.functions| && i < |p.instructions| && IsThrough(p, fsp, i, b) && b > 0
    ensures Crosses(p, fsp, i, b)
  {
  }

  lemma {:induction false} AfterWithin(p: Program, l: Limits, k: nat)
    requires IsProgram(p) && IsLimits(p, l)
    ensures Within(p, l, After(p, true, k))
  {
    hide IsLimits, Within, Step, Initial, VisitAt, Sound;
    if k == 0 || |p.instructions| == 0 {
      InitialWithin(p, l);
    } else {
      AfterWithin(p, l, k - 1);
      AfterSound(p, k - 1);
      StepWithin(p, l, After(p, true, k - 1), VisitAt(p, k - 1));
    }
  }

  // ------------------------------------------------- limits keep the run exact

  lemma {:induction false} CheapestSmall(fsp: seq<nat>, targets: seq<nat>)
    requires InRange(targets, |fsp|) && forall k :: 0 <= k < |targets| ==> fsp[targets[k]] + 1 < UINT32
    ensures CheapestFits(fsp, targets)
  {
    if targets != [] {
      var before := targets[..|targets| - 1];
      assert forall k :: 0 <= k < |before| ==> before[k] == targets[k];
      CheapestSmall(fsp, before);
    }
  }

  /** The functions an instruction may call are below the limit of their field. */
  predicate CallsSmall(p: Program, fsp: seq<nat>, i: nat)
    requires IsProgram(p) && |fsp| == |p.functions| && i < |p.instructions|
  {
    match p.instructions[i].kind
    case Call(targets) => forall k :: 0 <= k < |targets| ==> fsp[targets[k]] + 1 < UINT32
    case _ => true
  }

  lemma ThroughSmall(p: Program, fsp: seq<nat>, i: nat)
    requires IsProgram(p) && |fsp| == |p.functions| && i < |p.instructions| && CallsSmall(p, fsp, i)
    ensures ThroughFits(p, fsp, i) && Through(p, true, fsp, i) < UINT32
    ensures Through(p, false, fsp, i) == Through(p, true, fsp, i)
  {
    if p.instructions[i].kind.Call? {
      var targets := p.instructions[i].kind.targets;
      CheapestSmall(fsp, targets);
      CheapestLeast(fsp, targets);
      CheapestSame(fsp, targets);
    }
  }

  lemma OffersSmall(p: Program, l: Limits, t: Table, i: nat, b: nat)
    requires IsProgram(p) && IsLimits(p, l) && Within(p, l, t) && i < |t.dist|
    requires b < UINT32 && SumFits(p, l, p.instructions[i].parent)
    ensures OffersFit(p, t.dist, i, b)
  {
    assert |l.group| == |p.functions|;
    hide Load, Weight, Known, Size, IsLimits;
    var f, succs := p.instructions[i].parent, p.instructions[i].succs;
    assert IsInstruction(p, p.instructions[i]);
    var c := LevelOf(l, t, f);
    LevelSize(p, l, t, f);
    LoadWeight(p, l, t.dist, f, c, |t.dist|);
    WeightLevels(p, l, f, c, SizeOf(p, l, f), |t.dist|);
    forall k | 0 <= k < |succs|
      ensures t.dist[succs[k]] <= Weight(p, l, f, SizeOf(p, l, f), |t.dist|)
    {
      assert DistWithin(p, l, t, succs[k]);
    }
  }

  /** A sum with the weight of a function fits 64 bits. */
  predicate SumFits(p: Program, l: Limits, f: nat)
    requires |l.group| == |p.functions|
  {
    Weight(p, l, f, SizeOf(p, l, f), |p.instructions|) + UINT32 < UINT64
  }

  /** The last limit of the group of a function fits 32 bits. */
  predicate LevelFits(p: Program, l: Limits, f: nat)
    requires |l.group| == |p.functions| && f < |p.functions|
  {
    l.level(l.group[f], SizeOf(p, l, f)) + 1 < UINT32
  }

  predicate IsSmall(p: Program, l: Limits)
    requires |l.group| == |p.functions|
  {
    forall f: nat :: f < |p.functions| ==> SumFits(p, l, f) && LevelFits(p, l, f)
  }

  /** A shortest path is at most the last limit of its group. */
  lemma FspSmall(p: Program, l: Limits, t: Table, f: nat)
    requires IsProgram(p) && IsLimits(p, l) && Within(p, l, t) && f < |t.fsp|
    ensures t.fsp[f] <= l.level(l.group[f], SizeOf(p, l, f))
  {
    assert |l.group| == |p.functions|;
    hide Load, Weight, Known, Size, IsLimits, DistWithin;
    assert FspWithin(p, l, t, f);
    LevelSize(p, l, t, f);
    LevelGrows(p, l, f, LevelOf(l, t, f), SizeOf(p, l, f));
  }

  lemma EntrySmall(p: Program, l: Limits, t: Table, i: nat)
    requires IsProgram(p) && IsLimits(p, l) && Sound(p, t) && Within(p, l, t) && i < |t.dist|
    requires Changes(p, true, t, i) && IsEntry(p, i)
    ensures var f := p.instructions[i].parent;
            f < |l.group| && BestHere(p, true, t, i) <= l.level(l.group[f], SizeOf(p, l, f))
  {
    assert IsInstruction(p, p.instructions[i]);
    var t' := Step(p, true, t, i);
    assert t'.fsp[p.instructions[i].parent] == BestHere(p, true, t, i);
    hide Within, IsLimits, Step, BestHere, Changes, SizeOf;
    StepWithin(p, l, t, i);
    FspSmall(p, l, t', p.instructions[i].parent);
  }

  lemma StepFitsWithin(p: Program, l: Limits, t: Table, i: nat)
    requires IsProgram(p) && IsLimits(p, l) && IsSmall(p, l) && Sound(p, t) && Within(p, l, t) && i < |t.dist|
    ensures StepFits(p, t, i)
  {
    assert HasShape(p, t) && IsInstruction(p, p.instructions[i]);
    hide Within, IsLimits, ThroughFits, OffersFit, Through, Changes, BestHere, Sound, IsEntry, SumFits, Cheapest;
    forall f: nat | f < |t.fsp|
      ensures t.fsp[f] + 1 < UINT32
    {
      assert LevelFits(p, l, f);
      FspSmall(p, l, t, f);
    }
    assert CallsSmall(p, t.fsp, i);
    ThroughSmall(p, t.fsp, i);
    OffersSmall(p, l, t, i, Through(p, true, t.fsp, i));
    if IsEntry(p, i) && Changes(p, true, t, i) {
      EntrySmall(p, l, t, i);
      assert LevelFits(p, l, p.instructions[i].parent);
    }
  }

  /** A program with limits below 32 bits is computed exactly. */
  lemma LimitsFit(p: Program, l: Limits)
    requires IsProgram(p) && IsLimits(p, l) && IsSmall(p, l)
    ensures RunFits(p)
  {
    hide IsLimits, Within, StepFits, After, IsSmall, Sound;
    forall k: nat
      ensures VisitFits(p, k)
    {
      if |p.instructions| > 0 {
        AfterWithin(p, l, k);
        AfterSound(p, k);
        StepFitsWithin(p, l, After(p, true, k), VisitAt(p, k));
      }
    }
  }

  // --------------------------------------------- a function beyond the field

  predicate Uncalled(p: Program, f: nat)
    requires IsProgram(p)
  {
    forall i: nat :: i < |p.instructions| && p.instructions[i].kind.Call? ==> f !in p.instructions[i].kind.targets
  }

  /** The limits of every function but one fit the field, and all sums fit 64 bits. */
  predicate IsSmallBut(p: Program, l: Limits, f: nat)
    requires |l.group| == |p.functions|
  {
    && f < |p.functions|
    && forall g: nat :: g < |p.functions| ==> SumFits(p, l, g) && (g != f ==> LevelFits(p, l, g))
  }

  /** Every way through a function is too long for its field, and there is one. */
  ghost predicate TooLong(p: Program, f: nat)
    requires IsProgram(p)
  {
    && f < |p.functions| && p.functions[f].Definition?
    && (exists path :: IsPath(p, p.functions[f].entry, path))
    && (forall path :: IsPath(p, p.functions[f].entry, path) ==> UINT32 <= Cost(path))
  }

  /** What the run with the fields has in common with the unbounded one. */
  predicate InStep(p: Program, f: nat, t: Table, u: Table) {
    && HasShape(p, t) && HasShape(p, u) && t.dist == u.dist && f < |p.functions| && u.fsp[f] < UINT32
    && forall g: nat :: g < |p.functions| && g != f ==> t.fsp[g] == u.fsp[g]
  }

  lemma {:induction false} CheapestCongruent(wide: bool, fsp: seq<nat>, fsp': seq<nat>, targets: seq<nat>)
    requires |fsp| == |fsp'| && InRange(targets, |fsp|)
    requires forall k :: 0 <= k < |targets| ==> fsp[targets[k]] == fsp'[targets[k]]
    ensures Cheapest(wide, fsp, targets) == Cheapest(wide, fsp', targets)
  {
    if targets != [] {
      var before := targets[..|targets| - 1];
      assert forall k :: 0 <= k < |before| ==> before[k] == targets[k];
      CheapestCongruent(wide, fsp, fsp', before);
    }
  }

  lemma CallsSmallBut(p: Program, l: Limits, f: nat, t: Table, i: nat)
    requires IsProgram(p) && IsLimits(p, l) && IsSmallBut(p, l, f) && Uncalled(p, f) && Within(p, l, t) && i < |t.dist|
    ensures CallsSmall(p, t.fsp, i)
  {
    assert HasShape(p, t);
    hide Within, IsLimits, SumFits, SizeOf;
    assert IsInstruction(p, p.instructions[i]);
    if p.instructions[i].kind.Call? {
      var targets := p.instructions[i].kind.targets;
      forall k | 0 <= k < |targets|
        ensures t.fsp[targets[k]] + 1 < UINT32
      {
        assert targets[k] in targets && LevelFits(p, l, targets[k]);
        FspSmall(p, l, t, targets[k]);
      }
    }
  }

  /** Both runs see the same crossing and the same best value. */
  lemma SameBest(p: Program, l: Limits, f: nat, t: Table, u: Table, i: nat)
    requires IsProgram(p) && IsLimits(p, l) && IsSmallBut(p, l, f) && Uncalled(p, f)
    requires Within(p, l, t) && InStep(p, f, t, u) && i < |t.dist|
    ensures Through(p, false, u.fsp, i) == Through(p, true, t.fsp, i)
    ensures BestHere(p, false, u, i) == BestHere(p, true, t, i)
  {
    assert IsInstruction(p, p.instructions[i]);
    var b := Through(p, true, t.fsp, i);
    CallsSmallBut(p, l, f, t, i);
    ThroughSmall(p, t.fsp, i);
    if p.instructions[i].kind.Call? {
      var targets := p.instructions[i].kind.targets;
      assert forall k :: 0 <= k < |targets| ==> targets[k] in targets;
      CheapestCongruent(false, t.fsp, u.fsp, targets);
    }
    OffersSmall(p, l, t, i, b);
    BestAtLeast(p, t.dist, i, b, t.dist[i]);
  }

  lemma StepInStep(p: Program, l: Limits, f: nat, t: Table, u: Table, i: nat)
    requires IsProgram(p) && IsLimits(p, l) && IsSmallBut(p, l, f) && Uncalled(p, f)
    requires Within(p, l, t) && Sound(p, t) && InStep(p, f, t, u) && i < |t.dist|
    ensures InStep(p, f, Step(p, true, t, i), Step(p, false, u, i))
  {
    assert IsInstruction(p, p.instructions[i]);
    hide Within, IsLimits, Uncalled, Through, BestHere, IsProgram, IsInstruction, Sound, SumFits, SizeOf;
    SameBest(p, l, f, t, u, i);
    var best, g := BestHere(p, true, t, i), p.instructions[i].parent;
    if Changes(p, true, t, i) && IsEntry(p, i) && g != f {
      EntrySmall(p, l, t, i);
      assert LevelFits(p, l, g);
    }
    if best == t.dist[i] { assert t.dist[i := best] == t.dist; }
  }

  lemma {:induction false} AfterInStep(p: Program, l: Limits, f: nat, k: nat)
    requires IsProgram(p) && IsLimits(p, l) && IsSmallBut(p, l, f) && Uncalled(p, f)
    ensures InStep(p, f, After(p, true, k), After(p, false, k))
  {
    hide IsLimits, IsSmallBut, Uncalled, Step, VisitAt, InStep, Within, Sound;
    if k == 0 || |p.instructions| == 0 {
      InitialInStep(p, l, f);
    } else {
      AfterInStep(p, l, f, k - 1);
      AfterWithin(p, l, k - 1);
      AfterSound(p, k - 1);
      StepInStep(p, l, f, After(p, true, k - 1), After(p, false, k - 1), VisitAt(p, k - 1));
    }
  }

  lemma InitialInStep(p: Program, l: Limits, f: nat)
    requires IsProgram(p) && IsLimits(p, l) && IsSmallBut(p, l, f)
    ensures InStep(p, f, Initial(p), Initial(p))
  {
  }

  /** An instruction that is quiet in the run with the fields is settled in the unbounded
      one. */
  lemma QuietSettled(p: Program, l: Limits, f: nat, t: Table, u: Table, i: nat)
    requires IsProgram(p) && IsLimits(p, l) && IsSmallBut(p, l, f) && Uncalled(p, f) && TooLong(p, f)
    requires Within(p, l, t) && Sound(p, t) && InStep(p, f, t, u) && i < |t.dist| && !Changes(p, false, u, i)
    ensures Settled(p, t, i)
  {
    SameBest(p, l, f, t, u, i);
    if IsEntry(p, i) && p.instructions[i].parent == f { EntryUnknown(p, f, t); }
    StepSound(p, t, i);
    assert IsInstruction(p, p.instructions[i]);
    hide Within, IsLimits, Uncalled, Through, BestHere, IsProgram, IsInstruction, TooLong, Sound, Settled, Step;
  }

  lemma EntryUnknown(p: Program, f: nat, t: Table)
    requires IsProgram(p) && TooLong(p, f) && Sound(p, t)
    ensures var d := t.dist[p.functions[f].entry]; (d == 0 || UINT32 <= d) && t.fsp[f] == d
  {
    var e := p.functions[f].entry;
    assert KnowsFunction(p, t, f);
    if t.dist[e] > 0 {
      assert Attained(p, e, t.dist[e]);
      var path :| IsPath(p, e, path) && Cost(path) == t.dist[e];
    }
    assert p.instructions[e].kind.Return? ==> IsPath(p, e, End) && Cost(End) == 1;
  }

  /** In an exact table the entry of the function is not quiet. */
  lemma EntryRestless(p: Program, l: Limits, f: nat, t: Table, u: Table)
    requires IsProgram(p) && IsLimits(p, l) && IsSmallBut(p, l, f) && Uncalled(p, f) && TooLong(p, f)
    requires Within(p, l, t) && Sound(p, t) && InStep(p, f, t, u) && ExactReturns(p, t)
    ensures Changes(p, false, u, p.functions[f].entry)
  {
    var e := p.functions[f].entry;
    SameBest(p, l, f, t, u, e);
    EntryUnknown(p, f, t);
    EntryThrough(p, f, t);
    assert IsDistance(p, e, t.dist[e]) && t.dist[e] >= UINT32;
    assert IsEntry(p, e) && p.instructions[e].parent == f;
    hide Within, IsLimits, Uncalled, Through, BestHere, IsProgram, TooLong, Sound, ExactReturns, IsDistance;
  }

  lemma EntryThrough(p: Program, f: nat, t: Table)
    requires IsProgram(p) && TooLong(p, f) && ExactReturns(p, t)
    ensures var e := p.functions[f].entry; Through(p, true, t.fsp, e) > 0 && t.dist[e] > 0
  {
    var e := p.functions[f].entry;
    var path :| IsPath(p, e, path);
    assert IsDistance(p, e, t.dist[e]);
    ThroughLeast(p, t.fsp, e);
    if path.Over? { OverCrosses(p, t, e, path); }
    assert Cost(End) == 1;
  }

  /** In an exact table a call that a path crosses has a crossing. */
  lemma OverCrosses(p: Program, t: Table, i: nat, path: Path)
    requires IsProgram(p) && ExactReturns(p, t) && IsPath(p, i, path) && path.Over?
    ensures Crosses(p, t.fsp, i, 1 + t.fsp[path.target])
  {
    var g, targets := path.target, p.instructions[i].kind.targets;
    assert IsShortest(p, g, t.fsp[g]);
    var k :| 0 <= k < |targets| && targets[k] == g;
  }

  /** A visit of the run with the fields changes its table. */
  ghost predicate ChangesAt(p: Program, k: nat)
    requires IsProgram(p)
  {
    |p.instructions| > 0 && Changes(p, false, After(p, false, k), VisitAt(p, k))
  }

  ghost predicate Restless(p: Program, start: nat)
    requires IsProgram(p)
  {
    exists k: nat :: start <= k < start + |p.instructions| && ChangesAt(p, k)
  }

  lemma {:induction false} SameTable(p: Program, start: nat, k: nat)
    requires IsProgram(p) && !Restless(p, start) && start <= k <= start + |p.instructions|
    ensures After(p, false, k) == After(p, false, start)
    decreases k
  {
    hide Changes, VisitAt, Initial, Improve, BestHere;
    if start < k {
      SameTable(p, start, k - 1);
      assert !ChangesAt(p, k - 1);
    }
  }

  /** The loop never ends on such a program: every round changes the table. */
  lemma NeverQuiet(p: Program, l: Limits, f: nat, start: nat)
    requires IsProgram(p) && IsLimits(p, l) && IsSmallBut(p, l, f) && Uncalled(p, f) && TooLong(p, f)
    requires IsStart(p, start)
    ensures Restless(p, start)
  {
    var t, u := After(p, true, start), After(p, false, start);
    AfterWithin(p, l, start);
    AfterInStep(p, l, f, start);
    AfterSound(p, start);
    var n, e := |p.instructions|, p.functions[f].entry;
    hide Within, IsLimits, IsSmallBut, Uncalled, TooLong, Sound, InStep, After, Changes, ExactReturns, Restless,
         Settled;
    if !Restless(p, start) {
      forall i | 0 <= i < n
        ensures Settled(p, t, i) && !Changes(p, false, u, i)
      {
        QuietVisit(p, start, i);
        QuietSettled(p, l, f, t, u, i);
      }
      SettledExact(p, t);
      EntryRestless(p, l, f, t, u);
    }
  }

  lemma QuietVisit(p: Program, start: nat, i: nat)
    requires IsProgram(p) && !Restless(p, start) && IsStart(p, start) && i < |p.instructions|
    ensures !Changes(p, false, After(p, false, start), i)
  {
    hide Changes, After, VisitAt, IsProgram, IsStart;
    var k: nat := |p.instructions| - 1 - i;
    VisitInRound(p, start, k);
    SameTable(p, start, start + k);
    assert !ChangesAt(p, start + k);
  }

  lemma {:induction false} AfterSound(p: Program, k: nat)
    requires IsProgram(p)
    ensures Sound(p, After(p, true, k))
  {
    hide Sound, Step, VisitAt, Initial;
    if k == 0 || |p.instructions| == 0 {
      InitialSound(p);
    } else {
      AfterSound(p, k - 1);
      StepSound(p, After(p, true, k - 1), VisitAt(p, k - 1));
    }
  }

  // ------------------------------------------------------- programs on the edge

  /** Functions of four instructions each: the first three of the lowest one are plain,
      every other one calls the one below it twice, and the last instruction returns. */
  function Floor(q: nat, r: nat): Instruction {
    if r == 3 then Instruction(Return, [], q)
    else Instruction(if q > 0 && r > 0 then Call([q - 1]) else Other, [4 * q + r + 1], q)
  }

  function Tower(n: nat): Program {
    Program(seq(4 * n, j requires 0 <= j < 4 * n => Floor(j / 4, j % 4)),
            seq(n, k requires 0 <= k < n => Definition(4 * k)))
  }

  function Height(k: nat): nat { if k == 0 then 4 else 2 * Height(k - 1) + 4 }

  lemma {:induction false} HeightPower(k: nat)
    ensures Height(k) + 4 == Pow2(k + 3)
  {
    if k == 0 { assert Pow2(3) == 8; } else { HeightPower(k - 1); }
  }

  function FloorWeight(q: nat, r: nat): nat { if q > 0 && 0 < r < 3 then 1 + Height(q - 1) else 1 }

  function HeightAt(q: nat, c: nat): nat { if c == 0 then 0 else Height(q) }

  function TowerLimits(n: nat): Limits {
    Limits(seq(n, k requires 0 <= k < n => k), (s: nat, c: nat) => HeightAt(s, c),
           (j: nat, c: nat) => FloorWeight(j / 4, j % 4))
  }

  lemma FloorAt(n: nat, q: nat, r: nat)
    requires q < n && r < 4
    ensures 4 * q + r < |Tower(n).instructions| && Tower(n).instructions[4 * q + r] == Floor(q, r)
  {
    assert (4 * q + r) / 4 == q && (4 * q + r) % 4 == r;
  }

  lemma WeightAt(n: nat, q: nat, r: nat, c: nat)
    requires r < 4
    ensures TowerLimits(n).weight(4 * q + r, c) == FloorWeight(q, r)
  {
    assert (4 * q + r) / 4 == q && (4 * q + r) % 4 == r;
  }

  lemma EntryAt(n: nat, k: nat)
    requires k < n
    ensures k < |Tower(n).functions| && Tower(n).functions[k] == Definition(4 * k)
  {
  }

  lemma TowerProgram(n: nat)
    ensures IsProgram(Tower(n))
  {
    var p := Tower(n);
    forall j | 0 <= j < |p.instructions|
      ensures IsInstruction(p, p.instructions[j])
    {
      var q, r := j / 4, j % 4;
      FloorAt(n, q, r);
      if r < 3 { FloorAt(n, q, r + 1); }
    }
    forall f: nat | f < n
      ensures p.instructions[4 * f].parent == f
    {
      FloorAt(n, f, 0);
    }
  }

  /** The weight of a function of the tower is its height. */
  lemma {:induction false} TowerLoad(n: nat, f: nat, c: nat, q: nat)
    requires q <= n && f < n
    ensures Weight(Tower(n), TowerLimits(n), f, c, 4 * q) == if f < q then Height(f) else 0
  {
    if q > 0 {
      TowerLoad(n, f, c, q - 1);
      WeightFloor(n, f, c, q - 1);
      hide Weight, Tower, TowerLimits;
    }
  }

  lemma WeightFloor(n: nat, f: nat, c: nat, q: nat)
    requires q < n && f < n
    ensures 4 * q + 4 <= |Tower(n).instructions|
    ensures Weight(Tower(n), TowerLimits(n), f, c, 4 * q + 4) ==
              Weight(Tower(n), TowerLimits(n), f, c, 4 * q) + if q == f then Height(f) else 0
  {
    TowerSize(n);
    hide Weight, Tower, TowerLimits;
    WeightNext(n, f, c, q, 0);
    WeightNext(n, f, c, q, 1);
    WeightNext(n, f, c, q, 2);
    WeightNext(n, f, c, q, 3);
  }

  lemma TowerSize(n: nat)
    ensures |Tower(n).instructions| == 4 * n
    ensures |Tower(n).functions| == |TowerLimits(n).group| == n
  {
  }

  lemma WeightNext(n: nat, f: nat, c: nat, q: nat, r: nat)
    requires q < n && f < n && r < 4
    ensures 4 * q + r < |Tower(n).instructions|
    ensures Weight(Tower(n), TowerLimits(n), f, c, 4 * q + r + 1) ==
              Weight(Tower(n), TowerLimits(n), f, c, 4 * q + r) + if q == f then FloorWeight(q, r) else 0
  {
    hide Tower, TowerLimits, FloorWeight;
    FloorAt(n, q, r);
    WeightAt(n, q, r, c);
    TowerSize(n);
  }

  /** Every function of the tower is a group of its own. */
  lemma {:induction false} TowerGroups(n: nat, k: nat, m: nat)
    requires m <= n
    ensures |TowerLimits(n).group| == n && Size(TowerLimits(n), k, m) == if k < m then 1 else 0
  {
    if m > 0 { TowerGroups(n, k, m - 1); }
  }

  lemma TowerLevel(n: nat, k: nat)
    requires k < n
    ensures |TowerLimits(n).group| == |Tower(n).functions| == n && SizeOf(Tower(n), TowerLimits(n), k) == 1
    ensures TowerLimits(n).group[k] == k && TowerLimits(n).level(k, 1) == Height(k) && TowerLimits(n).level(k, 0) == 0
    ensures GroupSize(TowerLimits(n), k) == 1
  {
    TowerGroups(n, k, n);
  }

  lemma TowerWeighs(n: nat, i: nat, c: nat)
    requires IsProgram(Tower(n)) && i < |Tower(n).instructions| && |TowerLimits(n).group| == |Tower(n).functions|
    ensures Weighs(Tower(n), TowerLimits(n), i, c)
  {
    hide IsProgram, Size, Height;
    TowerSize(n);
    var q, r := i / 4, i % 4;
    FloorAt(n, q, r);
    WeightAt(n, q, r, c);
    WeightAt(n, q, r, c + 1);
    hide Tower, TowerLimits;
    TowerLevel(n, q);
    if q > 0 { TowerLevel(n, q - 1); }
  }

  lemma TowerLimited(n: nat, f: nat)
    requires IsProgram(Tower(n)) && f < n
    ensures |TowerLimits(n).group| == |Tower(n).functions| == n && Limited(Tower(n), TowerLimits(n), f, 0)
  {
    hide IsProgram, Size, Weight, Height, Tower, TowerLimits;
    TowerSize(n);
    TowerLevel(n, f);
    EntryAt(n, f);
    TowerLoad(n, f, 0, n);
  }

  lemma TowerIsLimited(n: nat)
    ensures IsProgram(Tower(n)) && IsLimits(Tower(n), TowerLimits(n))
  {
    hide Weight, IsProgram, Size, Tower, TowerLimits, Weighs, Limited, SizeOf;
    TowerProgram(n);
    TowerSize(n);
    var p, l := Tower(n), TowerLimits(n);
    forall f: nat, c: nat | f < n && c < SizeOf(p, l, f)
      ensures Limited(p, l, f, c)
    {
      TowerLevel(n, f);
      TowerLimited(n, f);
    }
    forall i: nat, c: nat | i < |p.instructions|
      ensures Weighs(p, l, i, c)
    {
      TowerWeighs(n, i, c);
    }
  }

  /** What the limits of the tower come to. */
  lemma TowerSums(n: nat, k: nat)
    requires k < n <= 31
    ensures |TowerLimits(n).group| == |Tower(n).functions| == n && SumFits(Tower(n), TowerLimits(n), k)
    ensures k < 30 ==> LevelFits(Tower(n), TowerLimits(n), k)
  {
    hide Weight, Tower, TowerLimits, Height, SizeOf;
    TowerSize(n);
    TowerLevel(n, k);
    TowerLoad(n, k, 1, n);
    if k < 30 { HeightSmall(k); } else { TopHeight(); }
  }

  lemma HeightSmall(k: nat)
    requires k < 30
    ensures Height(k) + 1 < UINT32
  {
    Pow2Values();
    HeightPower(k);
    Pow2Monotone(k + 3, 32);
  }

  /** Thirty functions fit. */
  lemma TowerFits(n: nat)
    requires n <= 30
    ensures IsProgram(Tower(n)) && RunFits(Tower(n))
  {
    hide Tower, TowerLimits, IsProgram, IsLimits, RunFits, SumFits, LevelFits;
    TowerSize(n);
    TowerIsLimited(n);
    forall f: nat | f < n
      ensures SumFits(Tower(n), TowerLimits(n), f) && LevelFits(Tower(n), TowerLimits(n), f)
    {
      TowerSums(n, f);
    }
    LimitsFit(Tower(n), TowerLimits(n));
  }

  function FloorWay(q: nat, r: nat, below: Path, rest: Path): Path {
    if q > 0 && r > 0 then Over(q - 1, Some(below), 4 * q + r + 1, rest) else Next(4 * q + r + 1, rest)
  }

  function TowerPath(k: nat): Path {
    var below := if k == 0 then End else TowerPath(k - 1);
    FloorWay(k, 0, below, FloorWay(k, 1, below, FloorWay(k, 2, below, End)))
  }

  lemma FloorExtends(n: nat, q: nat, r: nat, below: Path, rest: Path)
    requires q < n && r < 3 && IsProgram(Tower(n)) && IsPath(Tower(n), 4 * q + r + 1, rest)
    requires q > 0 ==> IsPath(Tower(n), 4 * (q - 1), below)
    ensures IsPath(Tower(n), 4 * q + r, FloorWay(q, r, below, rest))
  {
    hide Tower, TowerLimits, IsProgram, IsPath, FloorWeight;
    FloorAt(n, q, r);
    if q > 0 { EntryAt(n, q - 1); }
    assert 4 * q + r + 1 in Tower(n).instructions[4 * q + r].succs;
    if q > 0 && r > 0 {
      assert q - 1 in Tower(n).instructions[4 * q + r].kind.targets;
      PathOver(Tower(n), 4 * q + r, q - 1, below, 4 * q + r + 1, rest);
    } else {
      PathNext(Tower(n), 4 * q + r, 4 * q + r + 1, rest);
    }
  }

  lemma PathNext(p: Program, i: nat, j: nat, rest: Path)
    requires IsProgram(p) && i < |p.instructions| && !p.instructions[i].kind.Call?
    requires j in p.instructions[i].succs && IsPath(p, j, rest)
    ensures IsPath(p, i, Next(j, rest))
  {
    hide IsProgram;
  }

  lemma PathOver(p: Program, i: nat, f: nat, callee: Path, j: nat, rest: Path)
    requires IsProgram(p) && i < |p.instructions| && p.instructions[i].kind.Call? && f in p.instructions[i].kind.targets
    requires f < |p.functions| && p.functions[f].Definition? && IsPath(p, p.functions[f].entry, callee)
    requires j in p.instructions[i].succs && IsPath(p, j, rest)
    ensures IsPath(p, i, Over(f, Some(callee), j, rest))
  {
    hide IsProgram;
  }

  lemma {:induction false} TowerHasPath(n: nat, k: nat)
    requires k < n && IsProgram(Tower(n))
    ensures IsPath(Tower(n), 4 * k, TowerPath(k))
  {
    hide Tower, TowerLimits, IsProgram, FloorWeight;
    if k > 0 { TowerHasPath(n, k - 1); }
    FloorAt(n, k, 3);
    assert IsPath(Tower(n), 4 * k + 3, End);
    var below := if k == 0 then End else TowerPath(k - 1);
    assert TowerPath(k) == FloorWay(k, 0, below, FloorWay(k, 1, below, FloorWay(k, 2, below, End)));
    hide IsPath, FloorWay, TowerPath;
    FloorExtends(n, k, 2, below, End);
    FloorExtends(n, k, 1, below, FloorWay(k, 2, below, End));
    FloorExtends(n, k, 0, below, FloorWay(k, 1, below, FloorWay(k, 2, below, End)));
  }

  /** A path from an instruction of the tower goes on to the next one. */
  lemma FloorPath(n: nat, q: nat, r: nat, path: Path)
    requires q < n && r < 4 && IsProgram(Tower(n)) && IsPath(Tower(n), 4 * q + r, path)
    ensures r == 3 <==> path == End
    ensures r < 3 ==> IsPath(Tower(n), 4 * q + r + 1, path.rest)
    ensures q > 0 && 0 < r < 3 ==> path.Over? && path.callee.Some? && IsPath(Tower(n), 4 * (q - 1), path.callee.value)
  {
    hide Tower, TowerLimits, IsProgram, FloorWeight;
    FloorAt(n, q, r);
    if q > 0 { EntryAt(n, q - 1); }
  }

  /** Every path through a function of the tower is at least as long as it is high. */
  lemma {:induction false} TowerCost(n: nat, k: nat, path: Path)
    requires k < n && IsProgram(Tower(n)) && IsPath(Tower(n), 4 * k, path)
    ensures Cost(path) >= Height(k)
    decreases k
  {
    hide Tower, IsProgram, IsPath;
    FloorPath(n, k, 0, path);
    var first := path.rest;
    FloorPath(n, k, 1, first);
    var second := first.rest;
    FloorPath(n, k, 2, second);
    FloorPath(n, k, 3, second.rest);
    if k > 0 {
      TowerCost(n, k - 1, first.callee.value);
      TowerCost(n, k - 1, second.callee.value);
    }
    assert Cost(second) >= 1 + (if k > 0 then Height(k - 1) else 0) + 1;
    assert Cost(first) >= 1 + (if k > 0 then Height(k - 1) else 0) + Cost(second);
  }

  lemma TopHeight()
    ensures UINT32 <= Height(30) && Height(30) + UINT32 < UINT64
  {
    hide Height;
    HeightPower(30);
    Pow2Values();
    Pow2Add(1, 32);
    assert Pow2(1) == 2;
  }

  lemma TowerTooLong()
    ensures IsProgram(Tower(31)) && TooLong(Tower(31), 30)
  {
    hide Tower, IsProgram, IsPath, Height, Cost;
    TowerProgram(31);
    EntryAt(31, 30);
    var p := Tower(31);
    TopHeight();
    TowerHasPath(31, 30);
    forall path | IsPath(p, 120, path)
      ensures UINT32 <= Cost(path)
    {
      TowerCost(31, 30, path);
    }
  }

  lemma TowerUncalled()
    ensures IsProgram(Tower(31)) && Uncalled(Tower(31), 30)
    ensures |TowerLimits(31).group| == |Tower(31).functions| && IsSmallBut(Tower(31), TowerLimits(31), 30)
  {
    hide IsProgram, Tower, TowerLimits, SumFits, LevelFits, FloorWeight;
    TowerProgram(31);
    TowerSize(31);
    forall g: nat | g < 31
      ensures SumFits(Tower(31), TowerLimits(31), g) && (g != 30 ==> LevelFits(Tower(31), TowerLimits(31), g))
    {
      TowerSums(31, g);
    }
    forall i: nat | i < 124 && Tower(31).instructions[i].kind.Call?
      ensures 30 !in Tower(31).instructions[i].kind.targets
    {
      FloorAt(31, i / 4, i % 4);
    }
  }

  /** With thirty-one functions the loop never ends. */
  lemma TowerNever(start: nat)
    requires IsStart(Tower(31), start)
    ensures IsProgram(Tower(31)) && Restless(Tower(31), start)
  {
    TowerIsLimited(31);
    TowerTooLong();
    TowerUncalled();
    hide *;
    NeverQuiet(Tower(31), TowerLimits(31), 30, start);
  }

  // ------------------------------------------------------- a recursive program

  /** A function that returns, or first calls itself or a function outside. */
  function Recursive(): Program {
    Program([Instruction(Other, [1, 2], 0), Instruction(Call([0, 1]), [2], 0), Instruction(Return, [], 0)],
            [Definition(0), Declaration(false)])
  }

  /** Before a way through the function is known, the call costs what the other target
      does. */
  function RecursiveLimits(): Limits {
    Limits([0, 1], (s: nat, c: nat) => if c == 0 then 0 else if s == 0 then 4 else 1,
           (i: nat, c: nat) => if i != 1 then 1 else if c == 0 then 2 else 5)
  }

  lemma RecursiveSizes()
    ensures IsProgram(Recursive())
    ensures forall f: nat :: f < 2 ==> SizeOf(Recursive(), RecursiveLimits(), f) == 1
  {
    var l := RecursiveLimits();
    assert Size(l, 0, 0) == 0 && Size(l, 0, 1) == 1 && Size(l, 0, 2) == 1;
    assert Size(l, 1, 0) == 0 && Size(l, 1, 1) == 0 && Size(l, 1, 2) == 1;
  }

  lemma RecursiveWeights(f: nat, c: nat)
    requires f < 2
    ensures Weight(Recursive(), RecursiveLimits(), f, c, 3) == if f == 1 then 0 else if c == 0 then 4 else 7
  {
    var p, l := Recursive(), RecursiveLimits();
    assert Weight(p, l, f, c, 1) == if f == 0 then 1 else 0;
    assert Weight(p, l, f, c, 2) == if f == 1 then 0 else if c == 0 then 3 else 6;
  }

  /** Recursion and calls with several targets have limits too. */
  lemma RecursiveFits()
    ensures IsProgram(Recursive()) && RunFits(Recursive())
  {
    RecursiveSizes();
    var p, l := Recursive(), RecursiveLimits();
    hide Size, Weight;
    forall i: nat, c: nat | i < 3 && c <= SizeOf(p, l, p.instructions[i].parent)
      ensures Weighs(p, l, i, c)
    {
    }
    forall f: nat, c: nat | f < 2 && c < SizeOf(p, l, f)
      ensures Limited(p, l, f, c)
    {
      RecursiveWeights(f, c);
    }
    forall f: nat | f < 2
      ensures SumFits(p, l, f) && LevelFits(p, l, f)
    {
      RecursiveWeights(f, 1);
    }
    LimitsFit(p, l);
  }

  // --------------------------------------------------- searches fit their field

  /** The number of entries that are not zero. */
  function Live(s: seq<nat>): nat { if s == [] then 0 else (if s[0] > 0 then 1 else 0) + Live(s[1..]) }

  lemma {:induction false} LiveUpdate(s: seq<nat>, i: nat, v: nat)
    requires i < |s| && (s[i] > 0 ==> v > 0)
    ensures Live(s[i := v]) == Live(s) + (if s[i] == 0 && v > 0 then 1 else 0)
    ensures Live(s) <= |s|
  {
    if i > 0 {
      assert s[i := v][1..] == s[1..][i - 1 := v];
      LiveUpdate(s[1..], i - 1, v);
    } else {
      LiveSize(s[1..]);
    }
  }

  lemma {:induction false} LiveSize(s: seq<nat>)
    ensures Live(s) <= |s|
  {
    if s != [] { LiveSize(s[1..]); }
  }

  /** What every table of the unbounded search satisfies: each entry that is not zero adds
      less than the width of a crossing. */
  predicate SearchWithin(dist: seq<nat>) { forall i: nat :: i < |dist| ==> dist[i] <= Live(dist) * UINT32 }

  predicate AreSmall(fsp: seq<nat>) { forall f: nat :: f < |fsp| ==> fsp[f] + 1 < UINT32 }

  lemma StartWithin(p: Program, uncovered: seq<bool>)
    requires |uncovered| == |p.instructions|
    ensures SearchWithin(StartOf(p, uncovered))
  {
    var dist := StartOf(p, uncovered);
    forall i: nat | i < |dist|
      ensures dist[i] <= Live(dist) * UINT32
    {
      if dist[i] > 0 { LiveHas(dist, i); }
    }
  }

  lemma {:induction false} LiveHas(s: seq<nat>, i: nat)
    requires i < |s| && s[i] > 0
    ensures Live(s) > 0
  {
    if i > 0 { LiveHas(s[1..], i - 1); }
  }

  lemma BestWithin(p: Program, fsp: seq<nat>, shared: bool, dist: seq<nat>, i: nat, best: nat)
    requires IsProgram(p) && |fsp| == |p.functions| && AreSmall(fsp) && HasSlots(p, dist) && i < |p.instructions|
    requires SearchWithin(dist) && IsBestSearch(p, fsp, shared, dist, i, best)
    ensures best <= dist[i] || best <= Live(dist) * UINT32 + UINT32
  {
    hide Live;
    assert IsInstruction(p, p.instructions[i]);
    if best > 0 && best != dist[i] && !Inside(p, shared, dist, i, best) {
      var w: nat :| Crosses(p, fsp, i, w) && Offers(p, dist, i, w, best);
      var succs := p.instructions[i].succs;
      var k :| 0 <= k < |succs| && dist[succs[k]] > 0 && best == w + dist[succs[k]];
      assert w <= UINT32;
    }
  }

  lemma SearchStepWithin(p: Program, t: Table, shared: bool, dist: seq<nat>, i: nat)
    requires IsProgram(p) && HasShape(p, t) && AreSmall(t.fsp) && HasSlots(p, dist) && i < |p.instructions|
    requires SearchWithin(dist)
    ensures SearchWithin(SearchStep(p, true, t, shared, dist, i))
  {
    var best := BestSearch(p, true, t, shared, dist, i);
    SearchStepSame(p, t, shared, dist, i);
    BestWithin(p, t.fsp, shared, dist, i, best);
    assert dist[i] > 0 ==> 0 < best <= dist[i];
    hide IsProgram, IsBestSearch, BestSearch, Live;
    LiveUpdate(dist, i, best);
  }

  lemma {:induction false} SearchedWithin(p: Program, t: Table, uncovered: seq<bool>, shared: bool, k: nat)
    requires IsProgram(p) && HasShape(p, t) && AreSmall(t.fsp) && |uncovered| == |p.instructions|
    ensures SearchWithin(Searched(p, t, uncovered, shared, k))
  {
    hide SearchWithin, SearchStep, StartOf, VisitAt, AreSmall;
    if k == 0 || |p.instructions| == 0 {
      StartWithin(p, uncovered);
    } else {
      SearchedWithin(p, t, uncovered, shared, k - 1);
      SearchStepWithin(p, t, shared, Searched(p, t, uncovered, shared, k - 1), VisitAt(p, k - 1));
    }
  }

  lemma SearchStepSmall(p: Program, t: Table, shared: bool, dist: seq<nat>, i: nat)
    requires IsProgram(p) && HasShape(p, t) && AreSmall(t.fsp) && HasSlots(p, dist) && i < |p.instructions|
    requires SearchWithin(dist) && |dist| + 1 < UINT32
    ensures SearchStepFits(p, t, shared, dist, i)
  {
    LiveSize(dist);
    assert IsInstruction(p, p.instructions[i]);
    assert CallsSmall(p, t.fsp, i);
    ThroughSmall(p, t.fsp, i);
    hide Through, ThroughFits, Live;
    assert forall j: nat :: j < |dist| ==> dist[j] + UINT32 < UINT64;
    hide SearchWithin;
  }

  /** Where every function is below its field, a search of a program with fewer than 2^32
      identifiers is computed exactly. */
  lemma SmallSearchFits(p: Program, t: Table, uncovered: seq<bool>, shared: bool)
    requires IsProgram(p) && HasShape(p, t) && AreSmall(t.fsp) && |uncovered| == |p.instructions|
    requires |p.instructions| + |p.functions| + 1 < UINT32
    ensures SearchFits(p, t, uncovered, shared)
  {
    hide SearchWithin, SearchStepFits, Searched, VisitAt, AreSmall;
    forall k: nat
      ensures SearchVisitFits(p, t, uncovered, shared, k)
    {
      if |p.instructions| > 0 {
        SearchedWithin(p, t, uncovered, shared, k);
        SearchStepSmall(p, t, shared, Searched(p, t, uncovered, shared, k), VisitAt(p, k));
      }
    }
  }
}
