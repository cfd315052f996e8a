/** The globals of libkintsuki.cpp behind the call, return and stack-switch hooks. */
module Profiler {
  import opened Prelude
  import opened ShadowStacks

  class Profiler {
    var callstack: seq<CallFrame>
    var callstackS: seq<u16>
    var profileActive: bool
    var profileLo: u32
    var profileHi: u32
    var profileStack: seq<ProfFrame>
    var profileStats: map<u32, Stat>
    var lastMasterCounter: u32
    var masterCounterBase: nat
    var parkedStacks: seq<Parked>

    /** The globals as one value. */
    ghost function Snapshot(): World
      reads this
    {
      World(Clock(lastMasterCounter, masterCounterBase), profileActive, profileLo, profileHi,
            Stack(callstack, callstackS, profileStack), parkedStacks, profileStats)
    }

    constructor ()
      ensures Snapshot() == START
    {
      callstack, callstackS, profileActive, profileLo, profileHi := [], [], false, 0, 0;
      profileStack, profileStats, lastMasterCounter, masterCounterBase, parkedStacks := [], map[], 0, 0, [];
    }

    /** profileMasterCycles */
    method MasterCycles(raw: u32) returns (now: nat)
      modifies `lastMasterCounter, `masterCounterBase
      ensures var clock := old(Snapshot()).clock.Sample(raw);
              Snapshot() == old(Snapshot()).(clock := clock) && now == clock.Now()
    {
      if raw < lastMasterCounter {
        masterCounterBase := masterCounterBase + 0x1_0000_0000;
      }
      lastMasterCounter := raw;
      now := masterCounterBase + raw;
    }

    /** profileOnCall */
    method ProfileOnCall(targetPc: u32, raw: u32)
      modifies this
      ensures Snapshot() == ProfileCall(old(Snapshot()), targetPc, raw)
    {
      if !profileActive {
        return;
      }
      var target := targetPc % 0x100_0000;
      var now := MasterCycles(raw);
      var aggregated := (profileLo == 0 && profileHi == 0) || (target >= profileLo && target <= profileHi);
      profileStack := profileStack + [ProfFrame(target, now, 0, aggregated)];
    }

    /** profileOnReturn */
    method ProfileOnReturn(raw: u32)
      modifies this
      ensures Snapshot() == ProfileReturn(old(Snapshot()), raw)
    {
      if !profileActive {
        return;
      }
      if profileStack == [] {
        return;
      }
      var top := profileStack[|profileStack| - 1];
      profileStack := profileStack[..|profileStack| - 1];
      var now := MasterCycles(raw);
      var incl := now - top.push;
      var excl := if incl > top.childAcc then incl - top.childAcc else 0;
      if top.aggregated {
        var s := if top.target in profileStats then profileStats[top.target] else NO_STAT;
        s := s.(calls := s.calls + 1, incl := s.incl + incl, excl := s.excl + excl);
        if incl > s.max {
          s := s.(max := incl);
        }
        if incl < s.min {
          s := s.(min := incl);
        }
        assert s == Record(Bucket(profileStats, top.target), incl, excl);
        profileStats := profileStats[top.target := s];
      }
      hide Record, Bucket;
      if profileStack != [] {
        var last := |profileStack| - 1;
        profileStack := profileStack[last := profileStack[last].(childAcc := profileStack[last].childAcc + incl)];
      }
    }

    /** cOnCall */
    method CallHook(callsitePc: u32, targetPc: u32, kind: byte, s: u16, raw: u32)
      requires Snapshot().Valid()
      modifies this
      ensures Snapshot() == Step(old(Snapshot()), Call(callsitePc, targetPc, kind, s, raw))
    {
      if |callstack| >= CALLSTACK_CAP {
        callstack := callstack[1..];
        callstackS := callstackS[1..];
      }
      callstack := callstack + [CallFrame(callsitePc % 0x100_0000, targetPc % 0x100_0000, kind)];
      callstackS := callstackS + [s];
      ProfileOnCall(targetPc, raw);
    }

    /** cOnReturn */
    method ReturnHook(raw: u32)
      requires Snapshot().Valid()
      modifies this
      ensures Snapshot() == Step(old(Snapshot()), Return(raw))
    {
      if callstack == [] {
        return;
      }
      callstack := callstack[..|callstack| - 1];
      callstackS := callstackS[..|callstackS| - 1];
      ProfileOnReturn(raw);
    }

    /** switchShadowStack's scan for the stack to resume. */
    method FindParked(newS: u16) returns (best: int)
      requires Snapshot().Valid()
      ensures -1 <= best < |parkedStacks|
      ensures IsBest(parkedStacks, newS, if best == -1 then None else Some(best))
      ensures BestOf(parkedStacks, newS, |parkedStacks|) == if best == -1 then None else Some(best)
    {
      best := -1;
      var bestGap := 0xFFFF;
      var i := 0;
      while i < |parkedStacks|
        invariant 0 <= i <= |parkedStacks| && -1 <= best < i
        invariant AllValid(parkedStacks[..i]) && IsBest(parkedStacks[..i], newS, if best == -1 then None else Some(best))
        invariant best == -1 ==> bestGap == 0xFFFF
        invariant best != -1 ==> bestGap == TopS(parkedStacks[best].stack) - newS && 0 <= bestGap <= RESUME_SLACK
      {
        var calls := parkedStacks[i].stack.callsS;
        var top := calls[|calls| - 1];
        if ResumesAt(top, newS) && top - newS < bestGap {
          best := i;
          bestGap := top - newS;
        }
        i := i + 1;
      }
      assert parkedStacks[..i] == parkedStacks;
      BestIsUnique(parkedStacks, newS, BestOf(parkedStacks, newS, i), if best == -1 then None else Some(best));
    }

    /** switchShadowStack */
    method SwitchShadowStack(newS: u16, raw: u32)
      requires Snapshot().Valid()
      modifies this
      ensures Snapshot() == Step(old(Snapshot()), Switch(newS, raw))
    {
      hide Shift, BestOf, Park, ResumesAt, IsBest;
      if callstackS != [] && ResumesAt(callstackS[|callstackS| - 1], newS) {
        return;
      }
      var best := FindParked(newS);
      if callstack == [] && best < 0 {
        return;
      }
      var now := MasterCycles(raw);
      var resumed := Parked(NO_STACK, 0);
      if best >= 0 {
        resumed := parkedStacks[best];
        parkedStacks := parkedStacks[..best] + parkedStacks[best + 1..];
      }
      ParkLive(now);
      callstack, callstackS, profileStack := resumed.stack.calls, resumed.stack.callsS, resumed.stack.prof;
      MoveClocks(now - resumed.at);
    }

    /** Parks the live stack if it has call frames, dropping the oldest parked one when full. */
    method ParkLive(now: int)
      modifies `parkedStacks
      ensures parkedStacks == Park(old(parkedStacks), Stack(callstack, callstackS, profileStack), now)
    {
      if callstack != [] {
        if |parkedStacks| >= PARKED_CAP {
          parkedStacks := parkedStacks[1..];
        }
        parkedStacks := parkedStacks + [Parked(Stack(callstack, callstackS, profileStack), now)];
      }
    }

    /** The loop that moves every push clock of a resumed stack. */
    method MoveClocks(d: int)
      modifies `profileStack
      ensures profileStack == Shift(old(profileStack), d)
    {
      var i := 0;
      while i < |profileStack|
        invariant 0 <= i <= |profileStack| == |old(profileStack)|
        invariant forall k :: 0 <= k < i ==> profileStack[k] == old(profileStack)[k].(push := old(profileStack)[k].push + d)
        invariant forall k :: i <= k < |profileStack| ==> profileStack[k] == old(profileStack)[k]
      {
        profileStack := profileStack[i := profileStack[i].(push := profileStack[i].push + d)];
        i := i + 1;
      }
    }

    /** clearShadowStacks */
    method ClearShadowStacks()
      requires Snapshot().Valid()
      modifies this
      ensures Snapshot() == Step(old(Snapshot()), ClearStacks)
    {
      callstack, callstackS, parkedStacks := [], [], [];
    }

    /** clearProfileFrames */
    method ClearProfileFrames()
      modifies `profileStack, `parkedStacks
      ensures Snapshot() == ClearFrames(old(Snapshot()))
    {
      profileStack := [];
      var i := 0;
      while i < |parkedStacks|
        invariant 0 <= i <= |parkedStacks| == |old(parkedStacks)| && profileStack == []
        invariant forall k :: 0 <= k < i ==> parkedStacks[k] == ClearProf(old(parkedStacks))[k]
        invariant forall k :: i <= k < |parkedStacks| ==> parkedStacks[k] == old(parkedStacks)[k]
      {
        parkedStacks := parkedStacks[i := parkedStacks[i].(stack := parkedStacks[i].stack.(prof := []))];
        i := i + 1;
      }
      assert parkedStacks == ClearProf(old(parkedStacks));
    }

    /** kintsuki_profile_start */
    method ProfileStart(lo: u32, hi: u32)
      requires Snapshot().Valid()
      modifies this
      ensures Snapshot() == Step(old(Snapshot()), Start(lo, hi))
    {
      profileStats := map[];
      ClearProfileFrames();
      profileLo, profileHi := lo % 0x100_0000, hi % 0x100_0000;
      profileActive := true;
    }

    /** kintsuki_profile_stop */
    method ProfileStop()
      requires Snapshot().Valid()
      modifies this
      ensures Snapshot() == Step(old(Snapshot()), Stop)
    {
      profileActive := false;
      ClearProfileFrames();
    }

    /** kintsuki_profile_reset */
    method ProfileReset()
      requires Snapshot().Valid()
      modifies this
      ensures Snapshot() == Step(old(Snapshot()), Reset)
    {
      profileStats := map[];
      ClearProfileFrames();
    }
  }
}
