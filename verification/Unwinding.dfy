/**
 Two-phase unwinding of C++ exceptions: a search for a frame that handles the
 exception, which leaves the stack alone, and a cleanup that pops frames down to it.
 */
module Unwinding {
  import opened Exprs

  datatype Pad = Pad(id: nat, pureCleanup: bool)

  /** How a frame was entered; only the first frame has no caller. */
  datatype Caller = NoCaller | PlainCall | Invoke(pad: Pad)

  datatype Frame = Frame(caller: Caller)

  datatype Info = Idle | Search(exception: nat, progress: nat) | Cleanup(exception: nat, selector: nat, catching: nat)

  datatype Control = Normal | InPersonality(pad: Pad) | AtPad(pad: Pad) | Failed

  /** A frame that something called. */
  type Called = f: Frame | !f.caller.NoCaller? witness Frame(PlainCall)

  /** What a landing pad raises, in order. */
  datatype Activity = Activity(raises: seq<Raise>)

  /** An exception of a pad's own: the pad calls into some frames, the last of which raises
      it. The pads that run while it is cleaned up may raise in turn. */
  datatype Raise = Raise(frames: seq<Called>, exception: nat, personality: Pad -> nat, pads: seq<Activity>)

  predicate IsStack(stack: seq<Frame>) {
    |stack| > 0 && forall i :: 0 < i < |stack| ==> !stack[i].caller.NoCaller?
  }

  // ---------------------------------------------------------- the reference

  /** The pads a phase stops at: the search passes over pads that only clean up. */
  predicate StopsAt(f: Frame, search: bool) { f.caller.Invoke? && !(search && f.caller.pad.pureCleanup) }

  /** The first frame, from one down to but not including another, at which a phase stops. */
  function NextStop(stack: seq<Frame>, search: bool, from: nat, low: nat): (r: Option<nat>)
    requires from < |stack|
    ensures r.Some? ==> low < r.value <= from && StopsAt(stack[r.value], search)
    ensures forall k :: low < k <= from && (r.Some? ==> r.value < k) ==> !StopsAt(stack[k], search)
    decreases from
  {
    if from <= low then None
    else if StopsAt(stack[from], search) then Some(from)
    else NextStop(stack, search, from - 1, low)
  }

  lemma NextStopAt(stack: seq<Frame>, search: bool, from: nat, low: nat)
    requires from < |stack|
    ensures NextStop(stack, search, from, low) ==
            if from <= low then None
            else if StopsAt(stack[from], search) then Some(from)
            else NextStop(stack, search, from - 1, low)
  {
  }

  /** The topmost frame whose pad accepts the exception, with what its personality said. */
  function Handler(stack: seq<Frame>, personality: Pad -> nat, from: nat): (r: Option<nat>)
    requires from < |stack|
    ensures r.Some? ==> 0 < r.value <= from && Accepts(stack[r.value], personality)
    ensures forall k :: 0 < k <= from && (r.Some? ==> r.value < k) ==> !Accepts(stack[k], personality)
    decreases from
  {
    if from == 0 then None
    else if Accepts(stack[from], personality) then Some(from)
    else Handler(stack, personality, from - 1)
  }

  predicate Accepts(f: Frame, personality: Pad -> nat) { StopsAt(f, true) && personality(f.caller.pad) != 0 }

  /** What the landing pads are given on the way from a frame down to the handling one:
      the selector at the handling frame, and zero at every other pad. */
  function Deliveries(stack: seq<Frame>, from: nat, handler: nat, selector: nat): seq<(Pad, nat)>
    requires from < |stack|
    decreases from
  {
    if from < handler || from == 0 then []
    else if StopsAt(stack[from], false) then
      [(stack[from].caller.pad, if from == handler then selector else 0)]
      + Deliveries(stack, from - 1, handler, selector)
    else Deliveries(stack, from - 1, handler, selector)
  }

  lemma {:induction false} DeliveriesSkip(stack: seq<Frame>, from: nat, to: nat, handler: nat, selector: nat)
    requires to <= from < |stack| && forall k :: to < k <= from ==> !StopsAt(stack[k], false)
    ensures Deliveries(stack, from, handler, selector) == Deliveries(stack, to, handler, selector)
    decreases from
  {
    if to < from && handler <= from { DeliveriesSkip(stack, from - 1, to, handler, selector); }
    if handler > from { assert Deliveries(stack, to, handler, selector) == []; }
  }

  /** The frames whose pads those are. */
  function Stops(stack: seq<Frame>, from: nat, handler: nat): (r: seq<nat>)
    requires from < |stack|
    ensures forall k :: 0 <= k < |r| ==> r[k] <= from
    decreases from
  {
    if from < handler || from == 0 then []
    else if StopsAt(stack[from], false) then [from] + Stops(stack, from - 1, handler)
    else Stops(stack, from - 1, handler)
  }

  lemma {:induction false} StopsSkip(stack: seq<Frame>, from: nat, to: nat, handler: nat)
    requires to <= from < |stack| && forall k :: to < k <= from ==> !StopsAt(stack[k], false)
    ensures Stops(stack, from, handler) == Stops(stack, to, handler)
    decreases from
  {
    if to < from && handler <= from { StopsSkip(stack, from - 1, to, handler); }
    if handler > from { assert Stops(stack, to, handler) == []; }
  }

  lemma {:induction false} StopsDeliver(stack: seq<Frame>, from: nat, handler: nat, selector: nat)
    requires from < |stack|
    ensures |Stops(stack, from, handler)| == |Deliveries(stack, from, handler, selector)|
    decreases from
  {
    if handler <= from && from > 0 { StopsDeliver(stack, from - 1, handler, selector); }
  }

  // ------------------------------------------- pads that raise exceptions

  /** What the pad that runs k-th raises. */
  function Does(pads: seq<Activity>, k: nat): seq<Raise> { if k < |pads| then pads[k].raises else [] }

  lemma DoesIs(pads: seq<Activity>, k: nat)
    ensures Does(pads, k) == if k < |pads| then pads[k].raises else []
  {
  }

  /** The first of n pads that raises anything. */
  function FirstLoud(pads: seq<Activity>, n: nat): (r: Option<nat>)
    ensures r.Some? ==> r.value < n && Does(pads, r.value) != []
    ensures forall k: nat :: k < n && (r.Some? ==> k < r.value) ==> Does(pads, k) == []
  {
    if n == 0 then None
    else
      var r := FirstLoud(pads, n - 1);
      if r.Some? then r else if Does(pads, n - 1) != [] then Some(n - 1) else None
  }

  lemma {:induction false} FirstLoudIs(pads: seq<Activity>, n: nat, k: nat)
    requires k < n && Does(pads, k) != [] && forall j: nat :: j < k ==> Does(pads, j) == []
    ensures FirstLoud(pads, n) == Some(k)
  {
    assert FirstLoud(pads, n).Some?;
  }

  /** The pads that run on the way to the handling frame, without its own. */
  function CleanupPads(stack: seq<Frame>, handler: nat): int
    requires |stack| > 0
  {
    |Stops(stack, |stack| - 1, handler)| - 1
  }

  /** An exception is handled: some frame accepts it, and no pad on the way there raises
      anything. */
  predicate IsHandled(stack: seq<Frame>, personality: Pad -> nat, pads: seq<Activity>)
    requires |stack| > 0
  {
    var r := Handler(stack, personality, |stack| - 1);
    r.Some? && forall k: nat :: k < CleanupPads(stack, r.value) ==> Does(pads, k) == []
  }

  /** An exception a pad raises is handled without leaving the pad. */
  predicate IsContained(stack: seq<Frame>, r: Raise) {
    var all := stack + r.frames;
    |all| > 0 && IsHandled(all, r.personality, r.pads) &&
    |stack| <= Handler(all, r.personality, |all| - 1).value
  }

  /** The search passes over the frames that do not accept. */
  lemma {:induction false} HandlerSkip(stack: seq<Frame>, personality: Pad -> nat, from: nat, to: nat)
    requires to <= from < |stack| && forall k :: to < k <= from ==> !Accepts(stack[k], personality)
    ensures Handler(stack, personality, from) == Handler(stack, personality, to)
    decreases from
  {
    if to < from { HandlerSkip(stack, personality, from - 1, to); }
  }

  ghost predicate Searched(stack: seq<Frame>, info: Info, stack': seq<Frame>, info': Info, control': Control)
    requires info.Search? && info.progress < |stack|
  {
    match NextStop(stack, true, info.progress, 0)
    case Some(i) => stack' == stack + [Frame(PlainCall)] && info' == info.(progress := i - 1) &&
                    control' == InPersonality(stack[i].caller.pad)
    case None => stack' == stack && info' == Idle && control' == Normal
  }

  /** The search stops at a pad that does more than clean up, and passes over no such pad. */
  ghost predicate PassesCleanups(stack: seq<Frame>, info: Info, info': Info, control': Control)
    requires info.Search? && info.progress < |stack|
  {
    if control'.InPersonality? then
      && info'.Search? && info'.progress < info.progress
      && stack[info'.progress + 1].caller == Invoke(control'.pad) && !control'.pad.pureCleanup
      && OnlyCleanups(stack[info'.progress + 2..info.progress + 1])
    else OnlyCleanups(stack[1..info.progress + 1])
  }

  predicate OnlyCleanups(frames: seq<Frame>) {
    forall k :: 0 <= k < |frames| && frames[k].caller.Invoke? ==> frames[k].caller.pad.pureCleanup
  }

  lemma SearchPasses(stack: seq<Frame>, info: Info, stack': seq<Frame>, info': Info, control': Control)
    requires IsStack(stack) && info.Search? && info.progress < |stack|
    requires Searched(stack, info, stack', info', control')
    ensures PassesCleanups(stack, info, info', control')
  {
    var at := NextStop(stack, true, info.progress, 0);
    var low: nat := if at.Some? then at.value + 1 else 1;
    hide NextStop;
    var passed := stack[low..info.progress + 1];
    forall k | 0 <= k < |passed| && passed[k].caller.Invoke? ensures passed[k].caller.pad.pureCleanup {
      assert !StopsAt(stack[low + k], true);
    }
  }

  ghost predicate CleanedUp(stack: seq<Frame>, info: Info, stack': seq<Frame>, info': Info, control': Control)
    requires info.Cleanup? && |stack| > 0
  {
    info' == info &&
    match NextStop(stack, false, |stack| - 1, info.catching)
    case Some(i) => stack' == stack[..i] && control' == AtPad(stack[i].caller.pad)
    case None => stack' == (if info.catching < |stack| then stack[..info.catching + 1] else stack) && control' == Failed
  }

  class State {
    var stack: seq<Frame>
    var info: Info
    var control: Control

    constructor (stack: seq<Frame>)
      requires IsStack(stack)
      ensures this.stack == stack && info == Idle && control == Normal
    {
      this.stack, info, control := stack, Idle, Normal;
    }

    /** The next landing pad. In the search phase a frame for the personality function is
        pushed and the progress recorded; in the cleanup phase the frames are popped. */
    method UnwindToNextLandingpad()
      requires IsStack(stack) && !info.Idle?
      requires info.Search? ==> info.progress < |stack|
      modifies this
      ensures old(info).Search? ==> Searched(old(stack), old(info), stack, info, control)
      ensures old(info).Cleanup? ==> CleanedUp(old(stack), old(info), stack, info, control)
      ensures old(info).Search? ==> PassesCleanups(old(stack), old(info), info, control)
    {
      hide PassesCleanups, NextStop;
      var i := if info.Search? then info.progress else |stack| - 1;
      var lowest := if info.Search? then 0 else info.catching;
      while i > lowest
        invariant i < |old(stack)| && (lowest <= i || i == |old(stack)| - 1)
        invariant info == old(info)
        invariant info.Search? ==> stack == old(stack)
        invariant info.Cleanup? ==> stack == old(stack)[..i + 1]
        invariant
          NextStop(old(stack), info.Search?, if info.Search? then info.progress else |old(stack)| - 1, lowest) ==
          NextStop(old(stack), info.Search?, i, lowest)
      {
        var caller := stack[i].caller;
        NextStopAt(old(stack), info.Search?, i, lowest);
        if info.Cleanup? { stack := stack[..i]; }
        if caller.Invoke? {
          if info.Search? {
            if caller.pad.pureCleanup {
              i := i - 1;
              continue;
            }
            control := InPersonality(caller.pad);
            stack := stack + [Frame(PlainCall)];
            info := info.(progress := i - 1);
            SearchPasses(old(stack), old(info), stack, info, control);
          } else {
            control := AtPad(caller.pad);
          }
          return;
        }
        i := i - 1;
      }
      NextStopAt(old(stack), info.Search?, i, lowest);
      if info.Search? {
        info, control := Idle, Normal;
        SearchPasses(old(stack), old(info), stack, info, control);
      } else {
        control := Failed;
      }
    }

    /** An exception is raised. */
    method RaiseException(exception: nat)
      requires IsStack(stack)
      modifies this
      ensures old(info).Search? ==> control == Failed && stack == old(stack) && info == old(info)
      ensures !old(info).Search? ==>
                Searched(old(stack), Search(exception, |old(stack)| - 1), stack, info, control)
    {
      if info.Search? {
        control := Failed;
      } else {
        info := Search(exception, |stack| - 1);
        UnwindToNextLandingpad();
      }
    }

    /** The personality function returns: its frame is popped, and the search goes on or
        the cleanup begins. */
    method ReturnFromPersonality(result: nat)
      requires |stack| > 1 && IsStack(stack) && info.Search? && info.progress < |stack| - 1
      modifies this
      ensures var below := old(stack)[..|old(stack)| - 1];
              if result == 0 then Searched(below, old(info), stack, info, control)
              else CleanedUp(below, Cleanup(old(info).exception, result, old(info).progress), stack, info, control)
    {
      stack := stack[..|stack| - 1];
      if result != 0 { info := Cleanup(info.exception, result, info.progress); }
      UnwindToNextLandingpad();
    }

    /** A landing pad is entered: it gets the selector in the handling frame and zero in
        every other. */
    method EnterLandingPad() returns (selector: nat)
      requires control.AtPad?
      modifies this
      ensures stack == old(stack)
      ensures !old(info).Cleanup? ==> control == Failed
      ensures old(info).Cleanup? ==> control == Normal
      ensures old(info).Cleanup? && |stack| - 1 == old(info).catching ==> selector == old(info).selector && info == Idle
      ensures old(info).Cleanup? && |stack| - 1 != old(info).catching ==> selector == 0 && info == old(info)
    {
      selector := 0;
      if !info.Cleanup? {
        control := Failed;
      } else {
        if |stack| - 1 == info.catching {
          selector := info.selector;
          info := Idle;
        }
        control := Normal;
      }
    }

    /** A landing pad is done cleaning up. */
    method Resume(exception: nat)
      requires IsStack(stack)
      modifies this
      ensures !old(info).Cleanup? || old(info).exception != exception ==>
                control == Failed && stack == old(stack) && info == old(info)
      ensures old(info).Cleanup? && old(info).exception == exception ==>
                CleanedUp(old(stack), old(info), stack, info, control)
    {
      if !info.Cleanup? || info.exception != exception {
        control := Failed;
      } else {
        UnwindToNextLandingpad();
      }
    }

    /** The search, from a raise to a pad or to the end: the personality functions are
        asked from the top, and the progress goes down with each one. */
    method SearchPhase(exception: nat, personality: Pad -> nat)
      requires IsStack(stack) && !info.Search?
      modifies this
      ensures Found(old(stack), personality, exception, stack, info, control)
    {
      hide Searched, CleanedUp, Handler, NextStop, Searching, Found;
      ghost var before, top := stack, |stack| - 1;
      RaiseException(exception);
      SearchStep(before, personality, exception, top, stack, info, control);
      while control.InPersonality?
        invariant Searching(before, personality, exception, stack, info, control)
        decreases if info.Search? then 1 + info.progress else 0
      {
        SearchingParts(before, personality, exception, stack, info, control);
        ghost var p := info.progress;
        var result := personality(control.pad);
        ReturnFromPersonality(result);
        if result != 0 {
          FoundStep(before, personality, exception, p, stack, info, control);
          return;
        }
        SearchStep(before, personality, exception, p, stack, info, control);
      }
      NotFound(before, personality, exception, stack, info, control);
    }

    /** The cleanup, from the first pad to the one that handles the exception. Each pad
        cleans up, leaves the stack as it found it and resumes. A pad that raises an
        exception of its own ends the cleanup: it never comes back, or the state fails when
        it resumes. */
    method CleanupPhase(exception: nat, pads: seq<Activity>, ghost before: seq<Frame>, ghost h: nat,
                        ghost selector: nat)
      returns (deliveries: seq<(Pad, nat)>, handled: bool)
      requires IsStack(before) && 0 < h <= |stack| < |before|
      requires Cleaning(before, h, selector, exception, stack, info, control)
      modifies this
      ensures info == Idle && IsStack(stack) && (control == Normal || control == Failed)
      ensures CleanupEnd(before, |old(stack)|, h, selector, pads, stack, control, deliveries, handled)
      decreases pads, 1
    {
      hide *;
      deliveries, handled := [], false;
      ghost var start := |stack|;
      CleanupStart(before, start, h, selector, pads);
      while true
        invariant 0 < h <= |stack| < |before| && Cleaning(before, h, selector, exception, stack, info, control)
        invariant CleanupSoFar(before, start, h, selector, pads, |stack|, deliveries)
        decreases |stack|
      {
        ghost var i := |stack|;
        CleaningParts(before, h, selector, exception, stack, info, control);
        var pad, k := control.pad, |deliveries|;
        var given := EnterLandingPad();
        deliveries := deliveries + [(pad, given)];
        if info.Idle? {
          handled := true;
          CleanupHandled(before, start, h, selector, pads, deliveries);
          return;
        }
        DoesIs(pads, k);
        if k < |pads| {
          FinishPad(exception, pads[k]);
        } else {
          Resume(exception);
        }
        if info.Idle? {
          CleanupLost(before, start, h, selector, pads, i, stack, control, deliveries);
          return;
        }
        CleanStep(before, h, selector, exception, i, stack, info, control);
        CleanupOn(before, start, h, selector, pads, i, |stack|, deliveries);
      }
    }

    /** The rest of a pad in the cleanup of an exception: what it raises, and its resumption
        if it comes back. The cleanup goes on if and only if the pad raised nothing. */
    method FinishPad(exception: nat, activity: Activity)
      requires IsStack(stack) && info.Cleanup? && info.exception == exception && control == Normal
      modifies this
      ensures info.Cleanup? <==> activity.raises == []
      ensures activity.raises == [] ==> CleanedUp(old(stack), old(info), stack, info, control)
      ensures activity.raises != [] ==> info == Idle && IsStack(stack) && (control == Normal || control == Failed)
      ensures activity.raises != [] && (forall r :: r in activity.raises ==> IsContained(old(stack), r)) ==>
                control == Failed && stack == old(stack)
      decreases activity, 1
    {
      hide IsContained, CleanedUp;
      if activity.raises == [] {
        Resume(exception);
        SameInfo(old(stack), old(info), stack, info, control);
      } else {
        var back := RunPad(activity);
        if back { Resume(exception); }
      }
    }

    /** What a pad does between its entry and its resumption: it raises some exceptions, one
        after the other, as long as each is handled inside it. */
    method RunPad(activity: Activity) returns (back: bool)
      requires IsStack(stack) && !info.Search? && control == Normal && activity.raises != []
      modifies this
      ensures info == Idle && IsStack(stack) && (control == Normal || control == Failed)
      ensures back <==> forall r :: r in activity.raises ==> IsContained(old(stack), r)
      ensures back ==> stack == old(stack) && control == Normal
      decreases activity, 0
    {
      var raises := activity.raises;
      ghost var own := stack;
      var height := |stack|;
      back := true;
      for j := 0 to |raises|
        invariant IsStack(stack) && stack == own && |stack| == height && control == Normal && back
        invariant if j == 0 then !info.Search? else info == Idle
        invariant forall l :: 0 <= l < j ==> IsContained(own, raises[l])
      {
        var r := raises[j];
        stack := stack + r.frames;
        var deliveries, handled := Throw(r.exception, r.personality, r.pads);
        ContainedExactly(own, r, stack, control, deliveries, handled);
        if !handled || |stack| < height {
          assert r in activity.raises;
          back := false;
          return;
        }
        stack := stack[..height];
        assert stack == own;
      }
    }

    /** A throw, from the raise to the landing pad that handles it, from any state that is
        not in a search. The search leaves the stack alone and finds the topmost handler;
        the cleanup runs every pad above it in order, never pops the handling frame, never
        misses a pad, and delivers the selector in that frame only. It gets there if and only
        if no pad on the way raises an exception of its own: the information about the
        exception is lost with the first one that does. */
    method Throw(exception: nat, personality: Pad -> nat, pads: seq<Activity>)
      returns (deliveries: seq<(Pad, nat)>, handled: bool)
      requires IsStack(stack) && !info.Search?
      modifies this
      ensures info == Idle && IsStack(stack) && (control == Normal || control == Failed)
      ensures handled <==> IsHandled(old(stack), personality, pads)
      ensures Thrown(old(stack), personality, pads, stack, control, deliveries, handled)
      decreases pads, 2
    {
      hide *;
      ghost var before := stack;
      SearchPhase(exception, personality);
      deliveries, handled := [], false;
      FoundParts(before, personality, exception, stack, info, control);
      if control.AtPad? {
        ghost var start, h := |stack|, Handler(before, personality, |before| - 1).value;
        ghost var selector := personality(before[h].caller.pad);
        deliveries, handled := CleanupPhase(exception, pads, before, h, selector);
        ThrownOn(before, personality, pads, h, selector, start, stack, control, deliveries, handled);
      } else {
        ThrownOff(before, personality, pads);
      }
    }

    /** A throw during the cleanup of another exception makes the state forget that one:
        whatever becomes of the inner exception, the outer one cannot be resumed. */
    method ResumeAfterThrow(outer: nat, exception: nat, personality: Pad -> nat, pads: seq<Activity>)
      requires IsStack(stack) && info.Cleanup? && info.exception == outer
      modifies this
      ensures info == Idle && control == Failed
    {
      var deliveries, handled := Throw(exception, personality, pads);
      Resume(outer);
    }
  }

  /** The end of a cleanup that began at a frame. */
  ghost predicate CleanupEnd(before: seq<Frame>, start: nat, h: nat, selector: nat, pads: seq<Activity>,
                             stack: seq<Frame>, control: Control, deliveries: seq<(Pad, nat)>, handled: bool)
    requires start < |before|
  {
    var all, stops := Deliveries(before, start, h, selector), Stops(before, start, h);
    |all| == |stops| > 0 &&
    var loud := FirstLoud(pads, |all| - 1);
    if loud.None? then handled && stack == before[..h] && control == Normal && deliveries == all
    else
      && !handled && deliveries == all[..loud.value + 1]
      && ((forall r :: r in Does(pads, loud.value) ==> IsContained(before[..stops[loud.value]], r)) ==>
            control == Failed && stack == before[..stops[loud.value]])
  }

  /** A pad comes back from what it raised if and only if it was contained. */
  lemma ContainedExactly(own: seq<Frame>, r: Raise, stack: seq<Frame>, control: Control, deliveries: seq<(Pad, nat)>,
                         handled: bool)
    requires |own| > 0 && (handled <==> IsHandled(own + r.frames, r.personality, r.pads))
    requires Thrown(own + r.frames, r.personality, r.pads, stack, control, deliveries, handled)
    ensures IsContained(own, r) <==> handled && |own| <= |stack|
    ensures IsContained(own, r) ==> stack[..|own|] == own && control == Normal
  {
    hide Handler, Deliveries, Stops;
  }

  /** The end of a throw. If a pad raises, the pads below it are not run, and if that pad
      handles all it raises, the state fails when the pad resumes. */
  ghost predicate Thrown(before: seq<Frame>, personality: Pad -> nat, pads: seq<Activity>, stack: seq<Frame>,
                         control: Control, deliveries: seq<(Pad, nat)>, handled: bool)
    requires |before| > 0
  {
    var r := Handler(before, personality, |before| - 1);
    if r.None? then stack == before && control == Normal && deliveries == []
    else CleanupEnd(before, |before| - 1, r.value, personality(before[r.value].caller.pad), pads, stack, control,
                    deliveries, handled)
  }

  /** A cleanup that has come down to a frame, with no pad so far that raised anything. */
  ghost predicate CleanupSoFar(before: seq<Frame>, start: nat, h: nat, selector: nat, pads: seq<Activity>, i: nat,
                               deliveries: seq<(Pad, nat)>)
  {
    && i <= start < |before|
    && deliveries + Deliveries(before, i, h, selector) == Deliveries(before, start, h, selector)
    && |deliveries| <= |Stops(before, start, h)|
    && Stops(before, start, h)[|deliveries|..] == Stops(before, i, h)
    && forall k: nat :: k < |deliveries| ==> Does(pads, k) == []
  }

  lemma CleanupStart(before: seq<Frame>, start: nat, h: nat, selector: nat, pads: seq<Activity>)
    requires start < |before|
    ensures CleanupSoFar(before, start, h, selector, pads, start, [])
  {
  }

  lemma {:induction false} HandlerDelivers(before: seq<Frame>, from: nat, h: nat, selector: nat)
    requires 0 < h <= from < |before| && StopsAt(before[h], false)
    ensures Deliveries(before, from, h, selector) != []
    decreases from
  {
    if h < from { HandlerDelivers(before, from - 1, h, selector); }
  }

  lemma CleanupHandled(before: seq<Frame>, start: nat, h: nat, selector: nat, pads: seq<Activity>,
                       deliveries: seq<(Pad, nat)>)
    requires 0 < h < |before| && StopsAt(before[h], false) && |deliveries| > 0
    requires CleanupSoFar(before, start, h, selector, pads, h, deliveries[..|deliveries| - 1])
    requires deliveries[|deliveries| - 1] == (before[h].caller.pad, selector)
    ensures CleanupEnd(before, start, h, selector, pads, before[..h], Normal, deliveries, true)
  {
    LastPad(before, h, selector);
    StopsDeliver(before, start, h, selector);
    assert deliveries == deliveries[..|deliveries| - 1] + [(before[h].caller.pad, selector)];
  }

  lemma CleanupLost(before: seq<Frame>, start: nat, h: nat, selector: nat, pads: seq<Activity>, i: nat,
                    stack: seq<Frame>, control: Control, deliveries: seq<(Pad, nat)>)
    requires 0 < h < i < |before| && StopsAt(before[h], false) && StopsAt(before[i], false) && |deliveries| > 0
    requires CleanupSoFar(before, start, h, selector, pads, i, deliveries[..|deliveries| - 1])
    requires deliveries[|deliveries| - 1] == (before[i].caller.pad, 0) && Does(pads, |deliveries| - 1) != []
    requires (forall r :: r in Does(pads, |deliveries| - 1) ==> IsContained(before[..i], r)) ==>
               control == Failed && stack == before[..i]
    ensures CleanupEnd(before, start, h, selector, pads, stack, control, deliveries, false)
  {
    hide IsContained;
    var k := |deliveries| - 1;
    HandlerDelivers(before, i - 1, h, selector);
    StopsDeliver(before, start, h, selector);
    var all := Deliveries(before, start, h, selector);
    assert Deliveries(before, i, h, selector) == [(before[i].caller.pad, 0)] + Deliveries(before, i - 1, h, selector);
    assert Stops(before, start, h)[k..][0] == i;
    FirstLoudIs(pads, |all| - 1, k);
    assert deliveries == deliveries[..k] + [(before[i].caller.pad, 0)];
    assert all[..k + 1] == deliveries;
  }

  lemma CleanupOn(before: seq<Frame>, start: nat, h: nat, selector: nat, pads: seq<Activity>, i: nat, j: nat,
                  deliveries: seq<(Pad, nat)>)
    requires j < i < |before| && |deliveries| > 0 && Does(pads, |deliveries| - 1) == []
    requires CleanupSoFar(before, start, h, selector, pads, i, deliveries[..|deliveries| - 1])
    requires StopsAt(before[i], false) && deliveries[|deliveries| - 1] == (before[i].caller.pad, 0)
    requires Deliveries(before, i, h, selector) == [(before[i].caller.pad, 0)] + Deliveries(before, j, h, selector)
    requires Stops(before, i, h) == [i] + Stops(before, j, h)
    ensures CleanupSoFar(before, start, h, selector, pads, j, deliveries)
  {
    assert before[i].caller.Invoke?;
    hide Deliveries, Stops;
    var k := |deliveries| - 1;
    assert deliveries == deliveries[..k] + [(before[i].caller.pad, 0)];
    assert Stops(before, start, h)[k + 1..] == Stops(before, start, h)[k..][1..];
  }

  lemma FoundParts(before: seq<Frame>, personality: Pad -> nat, exception: nat, stack: seq<Frame>, info: Info,
                   control: Control)
    requires IsStack(before) && Found(before, personality, exception, stack, info, control)
    ensures |before| > 0 && (control.AtPad? <==> Handler(before, personality, |before| - 1).Some?)
    ensures !control.AtPad? ==> stack == before && info == Idle && control == Normal
    ensures control.AtPad? ==>
              var h := Handler(before, personality, |before| - 1).value;
              && 0 < h < |before| && StopsAt(before[h], true) && 0 < h <= |stack| < |before|
              && Cleaning(before, h, personality(before[h].caller.pad), exception, stack, info, control)
              && NextStop(before, false, |before| - 1, h - 1) == Some(|stack|)
  {
  }

  lemma ThrownOn(before: seq<Frame>, personality: Pad -> nat, pads: seq<Activity>, h: nat, selector: nat, start: nat,
                 stack: seq<Frame>, control: Control, deliveries: seq<(Pad, nat)>, handled: bool)
    requires 0 < h < |before| && StopsAt(before[h], true) && selector == personality(before[h].caller.pad)
    requires Handler(before, personality, |before| - 1) == Some(h)
    requires NextStop(before, false, |before| - 1, h - 1) == Some(start) && start < |before|
    requires CleanupEnd(before, start, h, selector, pads, stack, control, deliveries, handled)
    ensures handled <==> IsHandled(before, personality, pads)
    ensures Thrown(before, personality, pads, stack, control, deliveries, handled)
  {
    hide *;
    SkipToFirst(before, start, h, selector);
    EndFrom(before, start, |before| - 1, h, selector, pads, stack, control, deliveries, handled);
    EndHandled(before, h, selector, pads, stack, control, deliveries, handled);
    ThrownIs(before, personality, pads, h, selector, stack, control, deliveries, handled);
  }

  lemma ThrownIs(before: seq<Frame>, personality: Pad -> nat, pads: seq<Activity>, h: nat, selector: nat,
                 stack: seq<Frame>, control: Control, deliveries: seq<(Pad, nat)>, handled: bool)
    requires 0 < h < |before| && StopsAt(before[h], true) && selector == personality(before[h].caller.pad)
    requires Handler(before, personality, |before| - 1) == Some(h)
    requires CleanupEnd(before, |before| - 1, h, selector, pads, stack, control, deliveries, handled)
    requires handled <==> forall k: nat :: k < CleanupPads(before, h) ==> Does(pads, k) == []
    ensures handled <==> IsHandled(before, personality, pads)
    ensures Thrown(before, personality, pads, stack, control, deliveries, handled)
  {
    hide Handler, CleanupEnd, CleanupPads, Does;
  }

  lemma EndFrom(before: seq<Frame>, start: nat, top: nat, h: nat, selector: nat, pads: seq<Activity>,
                stack: seq<Frame>, control: Control, deliveries: seq<(Pad, nat)>, handled: bool)
    requires start < |before| && top < |before| && Stops(before, start, h) == Stops(before, top, h)
    requires Deliveries(before, start, h, selector) == Deliveries(before, top, h, selector)
    requires CleanupEnd(before, start, h, selector, pads, stack, control, deliveries, handled)
    ensures CleanupEnd(before, top, h, selector, pads, stack, control, deliveries, handled)
  {
    hide Deliveries, Stops, IsContained, FirstLoud, Does;
  }

  lemma EndHandled(before: seq<Frame>, h: nat, selector: nat, pads: seq<Activity>, stack: seq<Frame>,
                   control: Control, deliveries: seq<(Pad, nat)>, handled: bool)
    requires |before| > 0
    requires CleanupEnd(before, |before| - 1, h, selector, pads, stack, control, deliveries, handled)
    ensures handled <==> forall k: nat :: k < CleanupPads(before, h) ==> Does(pads, k) == []
  {
    hide Deliveries, Stops, IsContained, Does;
  }

  lemma SkipToFirst(before: seq<Frame>, start: nat, h: nat, selector: nat)
    requires 0 < h <= |before| && NextStop(before, false, |before| - 1, h - 1) == Some(start)
    ensures start < |before|
    ensures Deliveries(before, |before| - 1, h, selector) == Deliveries(before, start, h, selector)
    ensures Stops(before, |before| - 1, h) == Stops(before, start, h)
  {
    hide Deliveries, Stops, NextStop;
    DeliveriesSkip(before, |before| - 1, start, h, selector);
    StopsSkip(before, |before| - 1, start, h);
  }

  lemma ThrownOff(before: seq<Frame>, personality: Pad -> nat, pads: seq<Activity>)
    requires |before| > 0 && Handler(before, personality, |before| - 1) == None
    ensures !IsHandled(before, personality, pads) && Thrown(before, personality, pads, before, Normal, [], false)
  {
  }

  lemma SameInfo(stack: seq<Frame>, info: Info, stack': seq<Frame>, info': Info, control: Control)
    requires info.Cleanup? && |stack| > 0 && CleanedUp(stack, info, stack', info', control)
    ensures info' == info
  {
  }

  // ------------------------------------------------------ a lost exception

  /** Frame one was invoked by frame zero, which handles the exception, and frame two by
      frame one, which only cleans up. */
  const STACK: seq<Frame> := [Frame(NoCaller), Frame(Invoke(Pad(0, false))), Frame(Invoke(Pad(1, true)))]

  function Takes(id: nat): Pad -> nat { (p: Pad) => if p.id == id then 1 else 0 }

  /** While it cleans up, frame one calls a function that raises another exception, and
      catches it. */
  function Inner(): Raise { Raise([Frame(Invoke(Pad(2, false)))], 2, Takes(2), []) }

  lemma LostExample()
    ensures IsHandled(STACK, Takes(0), []) && Stops(STACK, 2, 1) == [2, 1]
    ensures Handler(STACK, Takes(0), 2) == Some(1)
    ensures IsContained(STACK[..2], Inner()) && !IsHandled(STACK, Takes(0), [Activity([Inner()])])
  {
    assert Stops(STACK, 0, 1) == [] && Stops(STACK, 1, 1) == [1];
    assert Stops(STACK, 2, 1) == [2, 1];
    assert Handler(STACK, Takes(0), 1) == Some(1) && Handler(STACK, Takes(0), 2) == Some(1);
    InnerContained();
    hide IsContained;
    assert Does([Activity([Inner()])], 0) == [Inner()];
  }

  lemma InnerContained()
    ensures IsContained(STACK[..2], Inner())
  {
    var all := STACK[..2] + Inner().frames;
    assert |all| == 3 && Handler(all, Takes(2), 2) == Some(2);
    assert Stops(all, 1, 2) == [] && Stops(all, 2, 2) == [2];
  }

  /** The exception is handled if that does not happen, and lost if it does: the state
      fails when the frame resumes. */
  method LoseException() returns (quiet: State, loud: State)
    ensures fresh(quiet) && quiet.stack == STACK[..1] && quiet.control == Normal
    ensures fresh(loud) && loud.stack == STACK[..2] && loud.control == Failed && loud.info == Idle
  {
    LostExample();
    LostEnds();
    hide *;
    quiet := new State(STACK);
    var deliveries, handled := quiet.Throw(1, Takes(0), []);
    loud := new State(STACK);
    deliveries, handled := loud.Throw(1, Takes(0), [Activity([Inner()])]);
  }

  lemma LostEnds()
    ensures IsStack(STACK)
    ensures forall stack, control, deliveries, handled ::
              Thrown(STACK, Takes(0), [], stack, control, deliveries, handled) ==>
                stack == STACK[..1] && control == Normal
    ensures forall stack, control, deliveries, handled ::
              Thrown(STACK, Takes(0), [Activity([Inner()])], stack, control, deliveries, handled) ==>
                stack == STACK[..2] && control == Failed
  {
    LostExample();
    hide Handler, Stops, IsContained;
    var pads := [Activity([Inner()])];
    assert Does(pads, 0) == [Inner()];
    FirstLoudIs(pads, 1, 0);
    assert FirstLoud([], 1) == None;
  }

  /** The search phase while a personality function runs, or when it has ended. */
  ghost predicate Searching(before: seq<Frame>, personality: Pad -> nat, exception: nat, stack: seq<Frame>, info: Info,
                            control: Control)
    requires |before| > 0
  {
    var top := |before| - 1;
    if control.InPersonality? then
      && info.Search? && info.exception == exception && info.progress < top && stack == before + [Frame(PlainCall)]
      && StopsAt(before[info.progress + 1], true) && control.pad == before[info.progress + 1].caller.pad
      && Handler(before, personality, top) == Handler(before, personality, info.progress + 1)
    else
      control == Normal && info == Idle && stack == before && Handler(before, personality, top) == None
  }

  /** The cleanup phase at a landing pad. */
  ghost predicate Cleaning(before: seq<Frame>, h: nat, selector: nat, exception: nat, stack: seq<Frame>, info: Info,
                           control: Control)
  {
    && 0 < h <= |stack| < |before| && stack == before[..|stack|] && StopsAt(before[h], false)
    && info == Cleanup(exception, selector, h - 1)
    && StopsAt(before[|stack|], false) && control == AtPad(before[|stack|].caller.pad)
  }

  /** The end of the search: nothing has changed, or the first pad of the cleanup. */
  ghost predicate Found(before: seq<Frame>, personality: Pad -> nat, exception: nat, stack: seq<Frame>, info: Info,
                        control: Control)
    requires |before| > 0
  {
    var top := |before| - 1;
    match Handler(before, personality, top)
    case None => stack == before && info == Idle && control == Normal
    case Some(h) =>
      && Cleaning(before, h, personality(before[h].caller.pad), exception, stack, info, control)
      && NextStop(before, false, top, h - 1) == Some(|stack|)
  }

  lemma SearchingParts(before: seq<Frame>, personality: Pad -> nat, exception: nat, stack: seq<Frame>, info: Info,
                       control: Control)
    requires IsStack(before) && Searching(before, personality, exception, stack, info, control) &&
             control.InPersonality?
    ensures IsStack(stack) && |stack| > 1 && info.Search? && info.progress < |stack| - 1
    ensures stack[..|stack| - 1] == before && info.progress < |before| - 1 && info.exception == exception
    ensures control.pad == before[info.progress + 1].caller.pad && StopsAt(before[info.progress + 1], true)
    ensures Handler(before, personality, |before| - 1) ==
            if personality(control.pad) != 0 then Some(info.progress + 1)
            else Handler(before, personality, info.progress)
  {
  }

  /** The frames between a stop of the search and the next one do not accept. */
  lemma SearchStep(before: seq<Frame>, personality: Pad -> nat, exception: nat, from: nat, stack: seq<Frame>,
                   info: Info, control: Control)
    requires from < |before| && Handler(before, personality, |before| - 1) == Handler(before, personality, from)
    requires Searched(before, Search(exception, from), stack, info, control)
    ensures Searching(before, personality, exception, stack, info, control)
    ensures info.Search? <==> control.InPersonality?
    ensures info.Search? ==> info.progress < from
  {
    match NextStop(before, true, from, 0)
    case Some(i) => HandlerSkip(before, personality, from, i);
    case None => HandlerSkip(before, personality, from, 0);
  }

  lemma FoundStep(before: seq<Frame>, personality: Pad -> nat, exception: nat, p: nat, stack: seq<Frame>, info: Info,
                  control: Control)
    requires p + 1 < |before| && Handler(before, personality, |before| - 1) == Some(p + 1)
    requires CleanedUp(before, Cleanup(exception, personality(before[p + 1].caller.pad), p), stack, info, control)
    ensures Found(before, personality, exception, stack, info, control)
  {
  }

  lemma NotFound(before: seq<Frame>, personality: Pad -> nat, exception: nat, stack: seq<Frame>, info: Info,
                 control: Control)
    requires |before| > 0 && Searching(before, personality, exception, stack, info, control) && !control.InPersonality?
    ensures Found(before, personality, exception, stack, info, control)
  {
  }

  lemma CleaningParts(before: seq<Frame>, h: nat, selector: nat, exception: nat, stack: seq<Frame>, info: Info,
                      control: Control)
    requires IsStack(before) && Cleaning(before, h, selector, exception, stack, info, control)
    ensures IsStack(stack) && info == Cleanup(exception, selector, h - 1) && stack == before[..|stack|]
    ensures control == AtPad(before[|stack|].caller.pad) && StopsAt(before[|stack|], false) && StopsAt(before[h], false)
  {
  }

  lemma LastPad(before: seq<Frame>, h: nat, selector: nat)
    requires 0 < h < |before| && StopsAt(before[h], false)
    ensures Deliveries(before, h, h, selector) == [(before[h].caller.pad, selector)]
  {
  }

  /** From one pad of the cleanup to the next: no pad is missed, and the handling frame
      stays. */
  lemma CleanStep(before: seq<Frame>, h: nat, selector: nat, exception: nat, i: nat, stack: seq<Frame>, info: Info,
                  control: Control)
    requires 0 < h < i < |before| && StopsAt(before[h], false) && StopsAt(before[i], false)
    requires CleanedUp(before[..i], Cleanup(exception, selector, h - 1), stack, info, control)
    ensures Cleaning(before, h, selector, exception, stack, info, control) && h <= |stack| < i
    ensures Deliveries(before, i, h, selector) == [(before[i].caller.pad, 0)] + Deliveries(before, |stack|, h, selector)
    ensures Stops(before, i, h) == [i] + Stops(before, |stack|, h)
  {
    assert before[..i][h] == before[h];
    var j := NextStop(before[..i], false, i - 1, h - 1).value;
    assert before[..i][..j] == before[..j] && before[..i][j] == before[j];
    assert forall k :: j < k <= i - 1 ==> before[..i][k] == before[k];
    hide NextStop, Deliveries, Stops;
    PadAt(before, i, h, selector);
    DeliveriesSkip(before, i - 1, j, h, selector);
    StopsSkip(before, i - 1, j, h);
  }

  lemma PadAt(before: seq<Frame>, i: nat, h: nat, selector: nat)
    requires 0 < h < i < |before| && StopsAt(before[i], false)
    ensures Deliveries(before, i, h, selector) == [(before[i].caller.pad, 0)] + Deliveries(before, i - 1, h, selector)
    ensures Stops(before, i, h) == [i] + Stops(before, i - 1, h)
  {
  }
}
