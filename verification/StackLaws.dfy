/** What every run of the shadow stacks keeps about frames: a return is charged to the routine that returns. */
module StackLaws {
  import opened Prelude
  import opened ShadowStacks

  // ----- the two stacks of one hardware stack agree -----

  /** From the top down, call frames and profiler frames name the same routines, as far as both reach. */
  ghost predicate TopsAgree(s: Stack)
  {
    forall k :: 0 <= k < |s.calls| && k < |s.prof| ==> FromTop(s.calls, k).target == FromTop(s.prof, k).target
  }

  function FromTop<T>(s: seq<T>, k: nat): T
    requires k < |s|
  {
    s[|s| - 1 - k]
  }

  ghost predicate AllTopsAgree(parked: seq<Parked>)
  {
    forall i :: 0 <= i < |parked| ==> TopsAgree(parked[i].stack)
  }

  ghost predicate NoFrames(parked: seq<Parked>)
  {
    forall i :: 0 <= i < |parked| ==> parked[i].stack.prof == []
  }

  /** While the profiler is off no frame of it is left anywhere. */
  ghost predicate Aligned(w: World)
  {
    && w.Valid() && TopsAgree(w.live) && AllTopsAgree(w.parked)
    && (!w.active ==> w.live.prof == [] && NoFrames(w.parked))
  }

  lemma PushBoth(s: Stack, k: nat, f: CallFrame, sp: u16, p: ProfFrame)
    requires s.Valid() && TopsAgree(s) && k <= |s.calls| && f.target == p.target
    ensures TopsAgree(Stack(s.calls[k..] + [f], s.callsS[k..] + [sp], s.prof + [p]))
  {
    var t := Stack(s.calls[k..] + [f], s.callsS[k..] + [sp], s.prof + [p]);
    forall j | 0 <= j < |t.calls| && j < |t.prof| ensures FromTop(t.calls, j).target == FromTop(t.prof, j).target {
      if j > 0 {
        assert FromTop(t.calls, j) == FromTop(s.calls, j - 1) && FromTop(t.prof, j) == FromTop(s.prof, j - 1);
      }
    }
  }

  lemma PopBoth(s: Stack, prof: seq<ProfFrame>)
    requires s.Valid() && TopsAgree(s) && s.calls != []
    requires |prof| == if s.prof == [] then 0 else |s.prof| - 1
    requires forall j :: 0 <= j < |prof| ==> prof[j].target == s.prof[j].target
    ensures TopsAgree(Stack(s.calls[..|s.calls| - 1], s.callsS[..|s.calls| - 1], prof))
  {
    var t := Stack(s.calls[..|s.calls| - 1], s.callsS[..|s.calls| - 1], prof);
    forall j | 0 <= j < |t.calls| && j < |t.prof| ensures FromTop(t.calls, j).target == FromTop(t.prof, j).target {
      assert FromTop(t.calls, j) == FromTop(s.calls, j + 1);
      assert FromTop(t.prof, j).target == FromTop(s.prof, j + 1).target;
    }
  }

  lemma AlignedCall(w: World, callsite: u32, target: u32, kind: byte, s: u16, raw: u32)
    requires Aligned(w)
    ensures Aligned(OnCall(w, callsite, target, kind, s, raw))
  {
    hide TopsAgree, AllTopsAgree, NoFrames;
    var k := if |w.live.calls| >= CALLSTACK_CAP then 1 else 0;
    var f := CallFrame(Addr24(callsite), Addr24(target), kind);
    if w.active {
      PushBoth(w.live, k, f, s, NewFrame(w, target, w.clock.Sample(raw).Now()));
    } else {
      NoProf(OnCall(w, callsite, target, kind, s, raw).live);
    }
  }

  lemma NoProf(s: Stack)
    requires s.prof == []
    ensures TopsAgree(s)
  {
  }

  lemma AlignedReturn(w: World, raw: u32)
    requires Aligned(w)
    ensures Aligned(OnReturn(w, raw))
  {
    hide TopsAgree, AllTopsAgree, NoFrames;
    if w.live.calls != [] { PopBoth(w.live, OnReturn(w, raw).live.prof); }
  }

  lemma AlignedSwitch(w: World, newS: u16, raw: u32)
    requires Aligned(w)
    ensures Aligned(OnSwitch(w, newS, raw))
  {
    hide BestOf, Park, Shift, Ignored, TopsAgree, AllTopsAgree, NoFrames;
    if !Ignored(w, newS) {
      var now := w.clock.Sample(raw).Now();
      var best := BestOf(w.parked, newS, |w.parked|);
      if best.Some? {
        var b := best.value;
        RemoveKeeps(w.parked, b, now);
        ParkKeeps(Remove(w.parked, b), w.live, now);
      } else {
        NoProf(NO_STACK.(prof := Shift([], now)));
        ParkKeeps(w.parked, w.live, now);
      }
    }
  }

  lemma RemoveKeeps(parked: seq<Parked>, b: nat, now: int)
    requires AllTopsAgree(parked) && b < |parked|
    ensures AllTopsAgree(Remove(parked, b)) && (NoFrames(parked) ==> NoFrames(Remove(parked, b)))
    ensures var p := parked[b]; TopsAgree(p.stack.(prof := Shift(p.stack.prof, now - p.at)))
    ensures NoFrames(parked) ==> Shift(parked[b].stack.prof, now - parked[b].at) == []
  {
    var s := parked[b].stack;
    var t := s.(prof := Shift(s.prof, now - parked[b].at));
    forall j | 0 <= j < |t.calls| && j < |t.prof| ensures FromTop(t.calls, j).target == FromTop(t.prof, j).target {
      assert FromTop(s.calls, j).target == FromTop(s.prof, j).target;
    }
  }

  lemma ParkKeeps(parked: seq<Parked>, live: Stack, now: int)
    requires AllTopsAgree(parked) && TopsAgree(live)
    ensures AllTopsAgree(Park(parked, live, now))
    ensures NoFrames(parked) && live.prof == [] ==> NoFrames(Park(parked, live, now))
  {
    hide TopsAgree;
  }

  lemma ClearKeeps(parked: seq<Parked>)
    ensures AllTopsAgree(ClearProf(parked)) && NoFrames(ClearProf(parked))
  {
  }

  lemma AlignedStep(w: World, e: Event)
    requires Aligned(w)
    ensures Aligned(Step(w, e))
  {
    hide TopsAgree, AllTopsAgree, NoFrames, OnCall, OnReturn, OnSwitch;
    match e {
      case Sample(_) =>
      case Call(callsite, target, kind, s, raw) => AlignedCall(w, callsite, target, kind, s, raw);
      case Return(raw) => AlignedReturn(w, raw);
      case Switch(newS, raw) => AlignedSwitch(w, newS, raw);
      case ClearStacks =>
        NoCalls(Step(w, e).live);
        Nobody();
      case _ =>
        ClearKeeps(w.parked);
        NoProf(Step(w, e).live);
    }
  }

  lemma NoCalls(s: Stack)
    requires s.calls == []
    ensures TopsAgree(s)
  {
  }

  lemma Nobody()
    ensures AllTopsAgree([]) && NoFrames([])
  {
  }

  lemma {:induction false} RunIsAligned(events: seq<Event>)
    ensures Aligned(Run(events))
  {
    hide Aligned, Step;
    if events == [] {
      StartIsAligned();
    } else {
      RunIsAligned(events[..|events| - 1]);
      AlignedStep(Run(events[..|events| - 1]), events[|events| - 1]);
    }
  }

  lemma StartIsAligned()
    ensures Aligned(START)
  {
    hide TopsAgree, AllTopsAgree, NoFrames;
    NoProf(START.live);
    Nobody();
  }

  /** In every run, the profiler frame a return pops is that of the call frame it pops. */
  lemma ReturnChargesReturningRoutine(events: seq<Event>)
    requires var w := Run(events); w.live.calls != [] && w.live.prof != []
    ensures var w := Run(events);
            w.active && w.live.prof[|w.live.prof| - 1].target == w.live.calls[|w.live.calls| - 1].target
  {
    hide Run;
    RunIsAligned(events);
    var w := Run(events);
    assert FromTop(w.live.calls, 0).target == FromTop(w.live.prof, 0).target;
  }

  // ----- the call stack against a true one -----

  /** The calls not yet returned from, however many, with the stack pointer of each. */
  datatype TrueStack = TrueStack(calls: seq<CallFrame>, callsS: seq<u16>)

  function Unreturned(events: seq<Event>): (t: TrueStack)
    ensures |t.calls| == |t.callsS|
  {
    if events == [] then TrueStack([], [])
    else
      var t := Unreturned(events[..|events| - 1]);
      match events[|events| - 1]
      case Call(callsite, target, kind, s, _) =>
        TrueStack(t.calls + [CallFrame(Addr24(callsite), Addr24(target), kind)], t.callsS + [s])
      case Return(_) => if t.calls == [] then t else TrueStack(t.calls[..|t.calls| - 1], t.callsS[..|t.calls| - 1])
      case _ => t
  }

  ghost predicate OneStack(events: seq<Event>)
  {
    forall i :: 0 <= i < |events| ==> !events[i].Switch? && !events[i].ClearStacks?
  }

  ghost predicate NeverDeep(events: seq<Event>)
  {
    forall n :: 0 <= n <= |events| ==> |Unreturned(events[..n]).calls| <= CALLSTACK_CAP
  }

  ghost predicate EndOf<T>(a: seq<T>, b: seq<T>)
  {
    |a| <= |b| && forall i :: 0 <= i < |a| ==> a[i] == b[|b| - |a| + i]
  }

  lemma EndPush<T>(a: seq<T>, b: seq<T>, k: nat, x: T)
    requires EndOf(a, b) && k <= |a|
    ensures EndOf(a[k..] + [x], b + [x])
  {
  }

  lemma EndPop<T>(a: seq<T>, b: seq<T>)
    requires EndOf(a, b)
    ensures a != [] ==> EndOf(a[..|a| - 1], b[..|b| - 1])
    ensures a == [] && b != [] ==> EndOf(a, b[..|b| - 1])
  {
  }

  /** Without switches the shadow stack is the top of the true one, and all of it while that is never deeper than 256. */
  lemma {:induction false} ShadowIsTop(events: seq<Event>)
    requires OneStack(events)
    ensures var w, t := Run(events), Unreturned(events);
            && EndOf(w.live.calls, t.calls) && EndOf(w.live.callsS, t.callsS)
            && (NeverDeep(events) ==> w.live.calls == t.calls && w.live.callsS == t.callsS)
  {
    hide ProfileCall, ProfileReturn, EndOf, NeverDeep;
    if events == [] {
      EndOfItself<CallFrame>([]);
      EndOfItself<u16>([]);
    } else {
      var n, e := |events| - 1, events[|events| - 1];
      ShadowIsTop(events[..n]);
      if NeverDeep(events) { Shallower(events); }
      var w, t := Run(events[..n]), Unreturned(events[..n]);
      EndLength(w.live.calls, t.calls);
      if e.Call? {
        TopAfterCall(w, t, e);
      } else if e.Return? {
        TopAfterReturn(w, t, e);
      }
    }
  }

  lemma TopAfterCall(w: World, t: TrueStack, e: Event)
    requires w.Valid() && e.Call? && EndOf(w.live.calls, t.calls) && EndOf(w.live.callsS, t.callsS)
    ensures var f, w' := CallFrame(Addr24(e.callsite), Addr24(e.target), e.kind), Step(w, e);
            && EndOf(w'.live.calls, t.calls + [f]) && EndOf(w'.live.callsS, t.callsS + [e.s])
            && (|w.live.calls| < CALLSTACK_CAP ==>
                  w'.live.calls == w.live.calls + [f] && w'.live.callsS == w.live.callsS + [e.s])
  {
    hide ProfileCall, EndOf;
    var k := if |w.live.calls| >= CALLSTACK_CAP then 1 else 0;
    var f := CallFrame(Addr24(e.callsite), Addr24(e.target), e.kind);
    EndPush(w.live.calls, t.calls, k, f);
    EndPush(w.live.callsS, t.callsS, k, e.s);
    CallsOfProfile(w.(live := w.live.(calls := w.live.calls[k..] + [f], callsS := w.live.callsS[k..] + [e.s])), e.target, e.raw);
  }

  lemma TopAfterReturn(w: World, t: TrueStack, e: Event)
    requires w.Valid() && e.Return? && EndOf(w.live.calls, t.calls) && EndOf(w.live.callsS, t.callsS)
    requires |t.calls| == |t.callsS|
    ensures var w', n := Step(w, e), |t.calls|;
            if n == 0 then w'.live.calls == [] && w'.live.callsS == []
            else && EndOf(w'.live.calls, t.calls[..n - 1]) && EndOf(w'.live.callsS, t.callsS[..n - 1])
                 && (w.live.calls == t.calls && w.live.callsS == t.callsS ==>
                       w'.live.calls == t.calls[..n - 1] && w'.live.callsS == t.callsS[..n - 1])
  {
    hide ProfileReturn, EndOf;
    var n := |w.live.calls|;
    EndLength(w.live.calls, t.calls);
    EndPop(w.live.calls, t.calls);
    EndPop(w.live.callsS, t.callsS);
    if n > 0 {
      CallsOfReturn(w.(live := w.live.(calls := w.live.calls[..n - 1], callsS := w.live.callsS[..n - 1])), e.raw);
    }
  }

  lemma EndOfItself<T>(a: seq<T>)
    ensures EndOf(a, a)
  {
  }

  lemma EndLength<T>(a: seq<T>, b: seq<T>)
    requires EndOf(a, b)
    ensures |a| <= |b|
  {
  }

  lemma CallsOfProfile(w: World, target: u32, raw: u32)
    ensures ProfileCall(w, target, raw).live.calls == w.live.calls && ProfileCall(w, target, raw).live.callsS == w.live.callsS
  {
  }

  lemma CallsOfReturn(w: World, raw: u32)
    ensures ProfileReturn(w, raw).live.calls == w.live.calls && ProfileReturn(w, raw).live.callsS == w.live.callsS
  {
  }

  lemma Shallower(events: seq<Event>)
    requires events != [] && NeverDeep(events)
    ensures NeverDeep(events[..|events| - 1])
    ensures |Unreturned(events).calls| <= CALLSTACK_CAP
  {
    var n := |events| - 1;
    forall k | 0 <= k <= n ensures |Unreturned(events[..n][..k]).calls| <= CALLSTACK_CAP {
      assert events[..n][..k] == events[..k];
    }
    assert events[..|events|] == events;
  }
}
