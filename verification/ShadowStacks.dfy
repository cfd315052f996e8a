/**
 The shadow call stacks and the profiler as a state machine: calls, returns, switches of
 the hardware stack, and the profiler's start, stop and reset.
 */
module ShadowStacks {
  import opened Prelude

  const CALLSTACK_CAP := 256
  const PARKED_CAP := 64
  const RESUME_SLACK := 0x80

  // ----- the widened master clock -----

  /** The last raw counter value and the wraps before it. */
  datatype Clock = Clock(last: u32, base: nat) {
    function Now(): nat { base + last }

    /** profileMasterCycles: a backward step of the 32-bit counter is a wrap. */
    function Sample(raw: u32): (c: Clock)
      ensures c.Now() >= Now()
    {
      Clock(raw, if raw < last then base + 0x1_0000_0000 else base)
    }
  }

  // ----- state -----

  datatype CallFrame = CallFrame(callsite: u32, target: u32, kind: byte)

  datatype ProfFrame = ProfFrame(target: u32, push: int, childAcc: int, aggregated: bool)

  datatype Stat = Stat(calls: nat, incl: int, excl: int, max: int, min: int)

  const NO_STAT := Stat(0, 0, 0, 0, 0xFFFF_FFFF_FFFF_FFFF)

  datatype Stack = Stack(calls: seq<CallFrame>, callsS: seq<u16>, prof: seq<ProfFrame>) {
    predicate Valid() { |calls| == |callsS| }
  }

  const NO_STACK := Stack([], [], [])

  datatype Parked = Parked(stack: Stack, at: int)

  predicate AllValid(parked: seq<Parked>)
  {
    forall i :: 0 <= i < |parked| ==> parked[i].stack.Valid() && parked[i].stack.calls != []
  }

  datatype World = World(clock: Clock, active: bool, lo: u32, hi: u32, live: Stack, parked: seq<Parked>,
                         stats: map<u32, Stat>) {

    /** Parked stacks have at least one call frame: only such stacks are ever parked. */
    predicate Valid() {
      live.Valid() && AllValid(parked)
    }

    predicate Unfiltered() { lo == 0 && hi == 0 }
  }

  const START := World(Clock(0, 0), false, 0, 0, NO_STACK, [], map[])

  datatype Event =
    | Sample(raw: u32)
    | Call(callsite: u32, target: u32, kind: byte, s: u16, raw: u32)
    | Return(raw: u32)
    | Switch(newS: u16, raw: u32)
    | ClearStacks
    | Start(lo: u32, hi: u32)
    | Stop
    | Reset

  function Addr24(a: u32): u32 { a % 0x100_0000 }

  // ----- calls and returns -----

  function NewFrame(w: World, target: u32, now: int): ProfFrame
  {
    var t := Addr24(target);
    ProfFrame(t, now, 0, w.Unfiltered() || w.lo <= t <= w.hi)
  }

  function ProfileCall(w: World, target: u32, raw: u32): World
  {
    if !w.active then w
    else
      var clock := w.clock.Sample(raw);
      w.(clock := clock, live := w.live.(prof := w.live.prof + [NewFrame(w, target, clock.Now())]))
  }

  function Exclusive(incl: int, childAcc: int): int
  {
    if incl > childAcc then incl - childAcc else 0
  }

  function Record(s: Stat, incl: int, excl: int): Stat
  {
    Stat(s.calls + 1, s.incl + incl, s.excl + excl, Max(s.max, incl), Min(s.min, incl))
  }

  function Bucket(stats: map<u32, Stat>, t: u32): Stat { if t in stats then stats[t] else NO_STAT }

  /** Charges a completed call to the frame below it. */
  function Charge(prof: seq<ProfFrame>, incl: int): (r: seq<ProfFrame>)
    ensures |r| == |prof|
  {
    if prof == [] then []
    else
      var top := prof[|prof| - 1];
      prof[..|prof| - 1] + [top.(childAcc := top.childAcc + incl)]
  }

  function ProfileReturn(w: World, raw: u32): World
  {
    if !w.active || w.live.prof == [] then w
    else
      var top, below := w.live.prof[|w.live.prof| - 1], w.live.prof[..|w.live.prof| - 1];
      var clock := w.clock.Sample(raw);
      var incl := clock.Now() - top.push;
      var stats := if top.aggregated
                   then w.stats[top.target := Record(Bucket(w.stats, top.target), incl, Exclusive(incl, top.childAcc))]
                   else w.stats;
      w.(clock := clock, stats := stats, live := w.live.(prof := Charge(below, incl)))
  }

  /** cOnCall: past 256 frames the oldest call frame is forgotten, but not its profiler frame. */
  function OnCall(w: World, callsite: u32, target: u32, kind: byte, s: u16, raw: u32): (w': World)
    requires w.Valid()
    ensures w'.Valid() && w'.parked == w.parked
    ensures |w.live.calls| < CALLSTACK_CAP ==>
              && w'.live.calls == w.live.calls + [CallFrame(Addr24(callsite), Addr24(target), kind)]
              && w'.live.callsS == w.live.callsS + [s]
    ensures |w.live.calls| >= CALLSTACK_CAP ==>
              && w'.live.calls == w.live.calls[1..] + [CallFrame(Addr24(callsite), Addr24(target), kind)]
              && w'.live.callsS == w.live.callsS[1..] + [s]
  {
    var k := if |w.live.calls| >= CALLSTACK_CAP then 1 else 0;
    var calls := w.live.calls[k..] + [CallFrame(Addr24(callsite), Addr24(target), kind)];
    ProfileCall(w.(live := w.live.(calls := calls, callsS := w.live.callsS[k..] + [s])), target, raw)
  }

  function OnReturn(w: World, raw: u32): (w': World)
    requires w.Valid()
    ensures w'.Valid()
  {
    var n := |w.live.calls|;
    if n == 0 then w
    else ProfileReturn(w.(live := w.live.(calls := w.live.calls[..n - 1], callsS := w.live.callsS[..n - 1])), raw)
  }

  // ----- stack switches -----

  predicate ResumesAt(top: u16, newS: u16)
  {
    top >= newS && top - newS <= RESUME_SLACK
  }

  function TopS(s: Stack): u16
    requires s.Valid() && s.calls != []
  {
    s.callsS[|s.callsS| - 1]
  }

  /** The parked stack to resume: the first of those whose top frame is nearest above `newS`. */
  ghost predicate IsBest(parked: seq<Parked>, newS: u16, best: Option<nat>)
    requires AllValid(parked)
  {
    match best
    case None => forall i :: 0 <= i < |parked| ==> !ResumesAt(TopS(parked[i].stack), newS)
    case Some(b) =>
      && b < |parked| && ResumesAt(TopS(parked[b].stack), newS)
      && (forall i :: 0 <= i < |parked| && ResumesAt(TopS(parked[i].stack), newS) ==>
                        TopS(parked[b].stack) <= TopS(parked[i].stack))
      && (forall i :: 0 <= i < b && ResumesAt(TopS(parked[i].stack), newS) ==>
                        TopS(parked[b].stack) < TopS(parked[i].stack))
  }

  lemma BestIsUnique(parked: seq<Parked>, newS: u16, a: Option<nat>, b: Option<nat>)
    requires AllValid(parked)
    requires IsBest(parked, newS, a) && IsBest(parked, newS, b)
    ensures a == b
  {
  }

  /** The choice as a scan of the first `n` parked stacks. */
  function BestOf(parked: seq<Parked>, newS: u16, n: nat): (best: Option<nat>)
    requires n <= |parked|
    requires AllValid(parked)
    ensures IsBest(parked[..n], newS, best)
  {
    if n == 0 then None
    else
      var b := BestOf(parked, newS, n - 1);
      assert forall i :: 0 <= i < n - 1 ==> parked[..n][i] == parked[..n - 1][i];
      var top := TopS(parked[n - 1].stack);
      if ResumesAt(top, newS) && (b == None || top < TopS(parked[b.value].stack)) then Some(n - 1) else b
  }

  /** A resumed stack's clocks move past the time it was parked. */
  function Shift(prof: seq<ProfFrame>, d: int): (r: seq<ProfFrame>)
    ensures |r| == |prof| && forall i :: 0 <= i < |prof| ==> r[i] == prof[i].(push := prof[i].push + d)
  {
    seq(|prof|, i requires 0 <= i < |prof| => prof[i].(push := prof[i].push + d))
  }

  function Remove<T>(s: seq<T>, i: nat): seq<T>
    requires i < |s|
  {
    s[..i] + s[i + 1..]
  }

  /** Parks a stack, forgetting the oldest parked one when 64 are parked already. */
  function Park(parked: seq<Parked>, s: Stack, now: int): (r: seq<Parked>)
    ensures AllValid(parked) && s.Valid() ==> AllValid(r)
  {
    if s.calls == [] then parked
    else (if |parked| >= PARKED_CAP then parked[1..] else parked) + [Parked(s, now)]
  }

  predicate Ignored(w: World, newS: u16)
    requires w.Valid()
  {
    || (w.live.calls != [] && ResumesAt(TopS(w.live), newS))
    || (w.live.calls == [] && BestOf(w.parked, newS, |w.parked|) == None)
  }

  function OnSwitch(w: World, newS: u16, raw: u32): (w': World)
    requires w.Valid()
    ensures w'.Valid()
  {
    if Ignored(w, newS) then w
    else
      var best := BestOf(w.parked, newS, |w.parked|);
      var clock := w.clock.Sample(raw);
      var resumed := if best.Some? then w.parked[best.value] else Parked(NO_STACK, 0);
      var others := if best.Some? then Remove(w.parked, best.value) else w.parked;
      w.(clock := clock,
         parked := Park(others, w.live, clock.Now()),
         live := resumed.stack.(prof := Shift(resumed.stack.prof, clock.Now() - resumed.at)))
  }

  // ----- clearing -----

  function ClearProf(parked: seq<Parked>): (r: seq<Parked>)
    ensures |r| == |parked|
    ensures forall i :: 0 <= i < |parked| ==> r[i] == parked[i].(stack := parked[i].stack.(prof := []))
  {
    seq(|parked|, i requires 0 <= i < |parked| => parked[i].(stack := parked[i].stack.(prof := [])))
  }

  /** clearProfileFrames */
  function ClearFrames(w: World): World
  {
    w.(live := w.live.(prof := []), parked := ClearProf(w.parked))
  }

  /** clearShadowStacks: the live profiler frames stay. */
  function ClearCalls(w: World): World
  {
    w.(live := w.live.(calls := [], callsS := []), parked := [])
  }

  // ----- runs -----

  function Step(w: World, e: Event): (w': World)
    requires w.Valid()
    ensures w'.Valid()
  {
    match e
    case Sample(raw) => w.(clock := w.clock.Sample(raw))
    case Call(callsite, target, kind, s, raw) => OnCall(w, callsite, target, kind, s, raw)
    case Return(raw) => OnReturn(w, raw)
    case Switch(newS, raw) => OnSwitch(w, newS, raw)
    case ClearStacks => ClearCalls(w)
    case Start(lo, hi) => ClearFrames(w).(stats := map[], lo := Addr24(lo), hi := Addr24(hi), active := true)
    case Stop => ClearFrames(w).(active := false)
    case Reset => ClearFrames(w).(stats := map[])
  }

  function Run(events: seq<Event>): (w: World)
    ensures w.Valid()
  {
    if events == [] then START else Step(Run(events[..|events| - 1]), events[|events| - 1])
  }
}
