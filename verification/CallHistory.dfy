/**
 The shadow stacks and the profile retold from the events alone. Frames are the positions of
 the calls that made them, times are how long a stack has been live, and the profile is a list
 of completed visits. Every run of the machine shows exactly this history.
 */
module CallHistory {
  import opened Prelude
  import opened ShadowStacks
  import opened ProfilerLaws
  import opened ProfilerTime

  /** A profiled call not yet returned from: how long its stack has been live since, and how much of that its callees took. */
  datatype Act = Act(call: nat, ran: int, callees: int)

  /** One hardware stack: its calls not yet returned from, oldest first, and those that are profiled. */
  datatype Thread = Thread(calls: seq<nat>, acts: seq<Act>)

  /** A completed profiled call. */
  datatype Visit = Visit(routine: u32, incl: int, excl: int)

  datatype History = History(now: int, active: bool, lo: int, hi: int, live: Thread, parked: seq<Thread>, visits: seq<Visit>)

  const NO_THREAD := Thread([], [])

  // ----- the history -----

  function Pointer(events: seq<Event>, c: nat): int
  {
    if c < |events| && events[c].Call? then events[c].s else 0
  }

  function Routine(events: seq<Event>, c: nat): u32
  {
    if c < |events| && events[c].Call? then events[c].target % 0x100_0000 else 0
  }

  function Latest<T>(s: seq<T>, n: nat): seq<T>
  {
    if |s| > n then s[|s| - n..] else s
  }

  function Older(acts: seq<Act>, d: int): (r: seq<Act>)
    ensures |r| == |acts| && forall i :: 0 <= i < |acts| ==> r[i] == acts[i].(ran := acts[i].ran + d)
  {
    seq(|acts|, i requires 0 <= i < |acts| => acts[i].(ran := acts[i].ran + d))
  }

  /** The counter is read: the live stack has run until the next time it shows `raw`. */
  function Read(h: History, raw: u32): History
  {
    var d := (raw - h.now) % 0x1_0000_0000;
    h.(now := h.now + d, live := h.live.(acts := Older(h.live.acts, d)))
  }

  predicate InWindow(h: History, routine: int)
  {
    (h.lo == 0 && h.hi == 0) || h.lo <= routine <= h.hi
  }

  function Called(before: seq<Event>, h: History, raw: u32): History
  {
    var h1 := h.(live := h.live.(calls := Latest<nat>(h.live.calls + [|before|], 256)));
    if !h.active then h1
    else
      var h2 := Read(h1, raw);
      h2.(live := h2.live.(acts := h2.live.acts + [Act(|before|, 0, 0)]))
  }

  function Returned(before: seq<Event>, h: History, raw: u32): History
  {
    if h.live.calls == [] then h
    else
      var h1 := h.(live := h.live.(calls := h.live.calls[..|h.live.calls| - 1]));
      if !h.active || h.live.acts == [] then h1 else Visited(before, Read(h1, raw))
  }

  /** The last profiled call is complete; its caller has had a callee run as long. */
  function Visited(before: seq<Event>, h: History): History
    requires h.live.acts != []
  {
    var n := |h.live.acts| - 1;
    var a, callers := h.live.acts[n], h.live.acts[..n];
    var routine := Routine(before, a.call);
    h.(live := h.live.(acts := if n == 0 then []
                               else callers[..n - 1] + [callers[n - 1].(callees := callers[n - 1].callees + a.ran)]),
       visits := h.visits + if InWindow(h, routine) then [Visit(routine, a.ran, a.ran - a.callees)] else [])
  }

  /** Is `newS` where the stack's last call left it, or at most 128 bytes below? */
  predicate Near(before: seq<Event>, t: Thread, newS: int)
  {
    t.calls != [] && newS <= Pointer(before, t.calls[|t.calls| - 1]) <= newS + 0x80
  }

  ghost predicate Nearest(before: seq<Event>, parked: seq<Thread>, newS: int, i: nat)
  {
    && i < |parked| && Near(before, parked[i], newS)
    && forall j :: 0 <= j < |parked| && Near(before, parked[j], newS) ==>
         var si, sj := Pointer(before, parked[i].calls[|parked[i].calls| - 1]), Pointer(before, parked[j].calls[|parked[j].calls| - 1]);
         si < sj || (si == sj && i <= j)
  }

  ghost function Switched(before: seq<Event>, h: History, newS: int, raw: u32): History
  {
    if Near(before, h.live, newS) then h
    else if i: nat :| Nearest(before, h.parked, newS, i) then Resumed(Read(h, raw), h.parked[i], h.parked[..i] + h.parked[i + 1..])
    else if h.live.calls == [] then h
    else Resumed(Read(h, raw), NO_THREAD, h.parked)
  }

  /** `next` becomes live; the live one is parked last if it has calls, and at most 64 are kept. */
  function Resumed(h: History, next: Thread, others: seq<Thread>): History
  {
    h.(live := next, parked := if h.live.calls == [] then others else Latest(others + [h.live], 64))
  }

  function Quiet(h: History): History
  {
    h.(live := h.live.(acts := []),
       parked := seq(|h.parked|, i requires 0 <= i < |h.parked| => h.parked[i].(acts := [])))
  }

  ghost function Next(before: seq<Event>, h: History, e: Event): History
  {
    match e
    case Sample(raw) => Read(h, raw)
    case Call(_, _, _, _, raw) => Called(before, h, raw)
    case Return(raw) => Returned(before, h, raw)
    case Switch(newS, raw) => Switched(before, h, newS, raw)
    case ClearStacks => h.(live := h.live.(calls := []), parked := [])
    case Start(lo, hi) => Quiet(h).(active := true, lo := lo % 0x100_0000, hi := hi % 0x100_0000, visits := [])
    case Stop => Quiet(h).(active := false)
    case Reset => Quiet(h).(visits := [])
  }

  const NO_HISTORY := History(0, false, 0, 0, NO_THREAD, [], [])

  ghost function Tell(events: seq<Event>): History
  {
    if events == [] then NO_HISTORY
    else var before := events[..|events| - 1]; Next(before, Tell(before), events[|events| - 1])
  }

  // ----- what the machine shows of it -----

  /** The call frames are those of the calls, with the stack pointer each was made at. */
  ghost predicate ShowsCalls(events: seq<Event>, s: Stack, calls: seq<nat>)
  {
    && |s.calls| == |s.callsS| == |calls|
    && forall i :: 0 <= i < |calls| ==> IsFrame(events, calls[i], s.calls[i], s.callsS[i])
  }

  ghost predicate IsFrame(events: seq<Event>, c: nat, f: CallFrame, s: u16)
  {
    && c < |events| && events[c].Call? && s == events[c].s
    && f.callsite == events[c].callsite % 0x100_0000 && f.target == events[c].target % 0x100_0000 && f.kind == events[c].kind
  }

  /** The profiler frames are those of the profiled calls, as of time `at`. */
  ghost predicate ShowsActs(events: seq<Event>, prof: seq<ProfFrame>, acts: seq<Act>, at: int, h: History)
  {
    && |prof| == |acts|
    && forall i :: 0 <= i < |acts| ==> IsAct(events, acts[i], prof[i], at, h.lo, h.hi)
  }

  ghost predicate IsAct(events: seq<Event>, a: Act, f: ProfFrame, at: int, lo: int, hi: int)
  {
    && a.call < |events| && events[a.call].Call? && f.target == events[a.call].target % 0x100_0000
    && at - f.push == a.ran && f.childAcc == a.callees
    && (f.aggregated <==> (lo == 0 && hi == 0) || lo <= f.target <= hi)
  }

  ghost predicate ShowsThread(events: seq<Event>, s: Stack, t: Thread, at: int, h: History)
  {
    ShowsCalls(events, s, t.calls) && ShowsActs(events, s.prof, t.acts, at, h)
  }

  ghost predicate ShowsParked(events: seq<Event>, parked: seq<Parked>, threads: seq<Thread>, h: History)
  {
    && |parked| == |threads|
    && forall i :: 0 <= i < |threads| ==> ShowsThread(events, parked[i].stack, threads[i], parked[i].at, h)
  }

  function VisitsOf(visits: seq<Visit>, routine: u32): seq<Visit>
  {
    if visits == [] then []
    else
      var v := visits[|visits| - 1];
      VisitsOf(visits[..|visits| - 1], routine) + if v.routine == routine then [v] else []
  }

  function InclSum(vs: seq<Visit>): int
  {
    if vs == [] then 0 else InclSum(vs[..|vs| - 1]) + vs[|vs| - 1].incl
  }

  function OwnSum(vs: seq<Visit>): int
  {
    if vs == [] then 0 else OwnSum(vs[..|vs| - 1]) + vs[|vs| - 1].excl
  }

  /** Number, sums and extremes of a routine's visits; a minimum beyond 64 bits is not reached. */
  ghost predicate Totals(s: Stat, vs: seq<Visit>)
  {
    && s.calls == |vs| && s.incl == InclSum(vs) && s.excl == OwnSum(vs)
    && (forall v :: v in vs ==> s.min <= v.incl <= s.max)
    && (exists v :: v in vs && v.incl == s.max)
    && ((exists v :: v in vs && v.incl == s.min) || s.min == 0xFFFF_FFFF_FFFF_FFFF)
  }

  /** Every routine visited has a bucket with its totals, and no other has one. */
  ghost predicate ShowsStats(stats: map<u32, Stat>, visits: seq<Visit>)
  {
    forall t: u32 ::
      if VisitsOf(visits, t) == [] then t !in stats else t in stats && Totals(stats[t], VisitsOf(visits, t))
  }

  /** No stack has more than 256 calls, and no more than 64 are parked. */
  ghost predicate Small(h: History)
  {
    |h.live.calls| <= 256 && AllSmall(h.parked)
  }

  ghost predicate AllSmall(parked: seq<Thread>)
  {
    |parked| <= 64 && forall i :: 0 <= i < |parked| ==> |parked[i].calls| <= 256
  }

  ghost predicate Shows(events: seq<Event>, w: World, h: History)
  {
    && Small(h)
    && w.clock.Now() == h.now && WholeWraps(w.clock)
    && w.active == h.active && w.lo == h.lo && w.hi == h.hi
    && ShowsThread(events, w.live, h.live, h.now, h)
    && ShowsParked(events, w.parked, h.parked, h)
    && ShowsStats(w.stats, h.visits)
  }

  // ----- it shows it after every event -----

  lemma ReadsAlike(c: Clock, raw: u32)
    requires WholeWraps(c)
    ensures WholeWraps(c.Sample(raw)) && c.Sample(raw).Now() == c.Now() + (raw - c.Now()) % 0x1_0000_0000
  {
    var k := c.base / 0x1_0000_0000;
    assert c.base == k * 0x1_0000_0000;
    ModShift(raw - c.last, k);
  }

  lemma {:induction false} ModShift(x: int, k: nat)
    ensures (x - k * 0x1_0000_0000) % 0x1_0000_0000 == x % 0x1_0000_0000
  {
    if k > 0 {
      ModShift(x, k - 1);
      ModOnce(x - (k - 1) * 0x1_0000_0000);
    }
  }

  lemma ModOnce(x: int)
    ensures (x - 0x1_0000_0000) % 0x1_0000_0000 == x % 0x1_0000_0000
  {
  }

  lemma CallsLater(before: seq<Event>, e: Event, s: Stack, calls: seq<nat>)
    requires ShowsCalls(before, s, calls)
    ensures ShowsCalls(before + [e], s, calls)
  {
    forall i | 0 <= i < |calls| ensures IsFrame(before + [e], calls[i], s.calls[i], s.callsS[i]) {
      assert IsFrame(before, calls[i], s.calls[i], s.callsS[i]);
    }
  }

  lemma ActsLater(before: seq<Event>, e: Event, prof: seq<ProfFrame>, acts: seq<Act>, at: int, h: History)
    requires ShowsActs(before, prof, acts, at, h)
    ensures ShowsActs(before + [e], prof, acts, at, h)
  {
    forall i | 0 <= i < |acts| ensures IsAct(before + [e], acts[i], prof[i], at, h.lo, h.hi) {
      assert IsAct(before, acts[i], prof[i], at, h.lo, h.hi);
    }
  }

  lemma ParkedLater(before: seq<Event>, e: Event, parked: seq<Parked>, threads: seq<Thread>, h: History)
    requires ShowsParked(before, parked, threads, h)
    ensures ShowsParked(before + [e], parked, threads, h)
  {
    hide ShowsCalls, ShowsActs;
    forall i | 0 <= i < |threads| ensures ShowsThread(before + [e], parked[i].stack, threads[i], parked[i].at, h) {
      CallsLater(before, e, parked[i].stack, threads[i].calls);
      ActsLater(before, e, parked[i].stack.prof, threads[i].acts, parked[i].at, h);
    }
  }

  lemma ActsOlder(events: seq<Event>, prof: seq<ProfFrame>, acts: seq<Act>, at: int, d: int, h: History)
    requires ShowsActs(events, prof, acts, at, h)
    ensures ShowsActs(events, prof, Older(acts, d), at + d, h)
  {
    forall i | 0 <= i < |acts| ensures IsAct(events, Older(acts, d)[i], prof[i], at + d, h.lo, h.hi) {
      assert IsAct(events, acts[i], prof[i], at, h.lo, h.hi);
    }
  }

  /** A reading changes nothing but the time. */
  lemma ShowsRead(events: seq<Event>, w: World, h: History, raw: u32)
    requires Shows(events, w, h)
    ensures Shows(events, w.(clock := w.clock.Sample(raw)), Read(h, raw))
  {
    hide ShowsCalls, ShowsActs, ShowsStats, Clock.Sample, WholeWraps;
    ReadsAlike(w.clock, raw);
    ActsOlder(events, w.live.prof, h.live.acts, h.now, (raw - h.now) % 0x1_0000_0000, h);
    SameWindow(events, w.live.prof, Read(h, raw).live.acts, Read(h, raw).now, h, Read(h, raw));
    ParkedSameWindow(events, w.parked, h.parked, h, Read(h, raw));
  }

  lemma SameWindow(events: seq<Event>, prof: seq<ProfFrame>, acts: seq<Act>, at: int, h: History, h': History)
    requires ShowsActs(events, prof, acts, at, h) && h'.lo == h.lo && h'.hi == h.hi
    ensures ShowsActs(events, prof, acts, at, h')
  {
  }

  lemma ParkedSameWindow(events: seq<Event>, parked: seq<Parked>, threads: seq<Thread>, h: History, h': History)
    requires ShowsParked(events, parked, threads, h) && h'.lo == h.lo && h'.hi == h.hi
    ensures ShowsParked(events, parked, threads, h')
  {
    hide ShowsCalls, ShowsActs;
    forall i | 0 <= i < |threads| ensures ShowsThread(events, parked[i].stack, threads[i], parked[i].at, h') {
      SameWindow(events, parked[i].stack.prof, threads[i].acts, parked[i].at, h, h');
    }
  }

  lemma ShowsLater(before: seq<Event>, e: Event, w: World, h: History)
    requires Shows(before, w, h)
    ensures Shows(before + [e], w, h)
  {
    hide ShowsCalls, ShowsActs, ShowsParked, ShowsStats;
    CallsLater(before, e, w.live, h.live.calls);
    ActsLater(before, e, w.live.prof, h.live.acts, h.now, h);
    ParkedLater(before, e, w.parked, h.parked, h);
  }

  // calls

  lemma CallPushed(before: seq<Event>, e: Event, s: Stack, calls: seq<nat>)
    requires e.Call? && ShowsCalls(before, s, calls) && |calls| <= 256
    ensures var k := if |s.calls| >= CALLSTACK_CAP then 1 else 0;
            var f := CallFrame(Addr24(e.callsite), Addr24(e.target), e.kind);
            ShowsCalls(before + [e], Stack(s.calls[k..] + [f], s.callsS[k..] + [e.s], s.prof), Latest<nat>(calls + [|before|], 256))
  {
    var events := before + [e];
    var k := if |s.calls| >= CALLSTACK_CAP then 1 else 0;
    var f := CallFrame(Addr24(e.callsite), Addr24(e.target), e.kind);
    var calls', frames, pointers := Latest<nat>(calls + [|before|], 256), s.calls[k..] + [f], s.callsS[k..] + [e.s];
    assert |calls'| == |frames| == |pointers|;
    CallsLater(before, e, s, calls);
    forall i | 0 <= i < |calls'| ensures IsFrame(events, calls'[i], frames[i], pointers[i]) {
      if i < |calls'| - 1 {
        assert calls'[i] == calls[i + k] && frames[i] == s.calls[i + k] && pointers[i] == s.callsS[i + k];
        assert IsFrame(events, calls[i + k], s.calls[i + k], s.callsS[i + k]);
      } else {
        assert calls'[i] == |before| && frames[i] == f && pointers[i] == e.s && events[|before|] == e;
      }
    }
  }

  lemma ActPushed(before: seq<Event>, e: Event, prof: seq<ProfFrame>, acts: seq<Act>, h: History, w: World)
    requires e.Call? && ShowsActs(before, prof, acts, h.now, h) && w.lo == h.lo && w.hi == h.hi
    ensures ShowsActs(before + [e], prof + [NewFrame(w, e.target, h.now)], acts + [Act(|before|, 0, 0)], h.now, h)
  {
    ActsLater(before, e, prof, acts, h.now, h);
    var f := NewFrame(w, e.target, h.now);
    var prof', acts' := prof + [f], acts + [Act(|before|, 0, 0)];
    forall i | 0 <= i < |acts'| ensures IsAct(before + [e], acts'[i], prof'[i], h.now, h.lo, h.hi) {
      if i < |acts| {
        assert IsAct(before + [e], acts[i], prof[i], h.now, h.lo, h.hi);
      } else {
        assert (before + [e])[|before|] == e;
      }
    }
  }

  lemma LatestSmall<T>(s: seq<T>, n: nat)
    ensures |Latest(s, n)| <= n
  {
  }

  lemma ShowsCall(before: seq<Event>, w: World, h: History, e: Event)
    requires w.Valid() && e.Call? && Shows(before, w, h)
    ensures Shows(before + [e], Step(w, e), Called(before, h, e.raw))
  {
    hide ShowsCalls, ShowsActs, ShowsParked, ShowsStats, Clock.Sample, WholeWraps, Latest, Older, NewFrame, AllSmall, Addr24;
    LatestSmall<nat>(h.live.calls + [|before|], 256);
    CallPushed(before, e, w.live, h.live.calls);
    ShowsLater(before, e, w, h);
    var k := if |w.live.calls| >= CALLSTACK_CAP then 1 else 0;
    assert |w.live.calls| == |w.live.callsS| by { CallsMatch(before, w.live, h.live.calls); }
    var f := CallFrame(Addr24(e.callsite), Addr24(e.target), e.kind);
    var w1 := w.(live := w.live.(calls := w.live.calls[k..] + [f], callsS := w.live.callsS[k..] + [e.s]));
    var h1 := h.(live := h.live.(calls := Latest<nat>(h.live.calls + [|before|], 256)));
    SameWindow(before + [e], w.live.prof, h.live.acts, h.now, h, h1);
    ParkedSameWindow(before + [e], w.parked, h.parked, h, h1);
    SameFrames(before + [e], w1.live, Stack(w1.live.calls, w1.live.callsS, w.live.prof), h1.live.calls);
    assert Shows(before + [e], w1, h1);
    if h.active {
      SameWindow(before, w.live.prof, h.live.acts, h.now, h, h1);
      ShowsCallRead(before, w1, h1, e);
    }
  }

  lemma CallsMatch(events: seq<Event>, s: Stack, calls: seq<nat>)
    requires ShowsCalls(events, s, calls)
    ensures |s.calls| == |s.callsS| == |calls|
  {
  }

  lemma SameFrames(events: seq<Event>, s: Stack, s': Stack, calls: seq<nat>)
    requires ShowsCalls(events, s', calls) && s.calls == s'.calls && s.callsS == s'.callsS
    ensures ShowsCalls(events, s, calls)
  {
  }

  /** The profiler's part of a call. */
  lemma ShowsCallRead(before: seq<Event>, w: World, h: History, e: Event)
    requires e.Call? && Shows(before + [e], w, h) && w.active
    requires ShowsActs(before, w.live.prof, h.live.acts, h.now, h)
    ensures var h' := Read(h, e.raw);
            Shows(before + [e], ProfileCall(w, e.target, e.raw), h'.(live := h'.live.(acts := h'.live.acts + [Act(|before|, 0, 0)])))
  {
    hide ShowsCalls, ShowsActs, ShowsParked, ShowsStats, Clock.Sample, WholeWraps, Older, NewFrame, AllSmall;
    var h', w' := Read(h, e.raw), ProfileCall(w, e.target, e.raw);
    ShowsRead(before + [e], w, h, e.raw);
    ActsOlder(before, w.live.prof, h.live.acts, h.now, (e.raw - h.now) % 0x1_0000_0000, h);
    SameWindow(before, w.live.prof, h'.live.acts, h'.now, h, h');
    ActPushed(before, e, w.live.prof, h'.live.acts, h', w);
    var h2 := h'.(live := h'.live.(acts := h'.live.acts + [Act(|before|, 0, 0)]));
    SameWindow(before + [e], w'.live.prof, h2.live.acts, h'.now, h', h2);
    ParkedSameWindow(before + [e], w.parked, h'.parked, h', h2);
    SameFrames(before + [e], w'.live, w.live, h2.live.calls);
  }

  // returns

  lemma CallPopped(events: seq<Event>, s: Stack, calls: seq<nat>, s': Stack)
    requires ShowsCalls(events, s, calls) && calls != []
    requires s'.calls == s.calls[..|calls| - 1] && s'.callsS == s.callsS[..|calls| - 1]
    ensures ShowsCalls(events, s', calls[..|calls| - 1])
  {
  }

  lemma ActPopped(events: seq<Event>, prof: seq<ProfFrame>, acts: seq<Act>, h: History, incl: int)
    requires ShowsActs(events, prof, acts, h.now, h) && acts != []
    ensures var n := |acts| - 1;
            ShowsActs(events, Charge(prof[..n], incl),
                      if n == 0 then [] else acts[..n - 1] + [acts[n - 1].(callees := acts[n - 1].callees + incl)], h.now, h)
  {
    var n := |acts| - 1;
    forall i | 0 <= i < n ensures IsAct(events, acts[i], prof[i], h.now, h.lo, h.hi) {
    }
  }

  lemma {:induction false} VisitsSnoc(visits: seq<Visit>, v: Visit, t: u32)
    ensures VisitsOf(visits + [v], t) == VisitsOf(visits, t) + if v.routine == t then [v] else []
  {
    assert (visits + [v])[..|visits|] == visits;
  }

  lemma TotalsOfOne(v: Visit)
    requires v.incl >= 0
    ensures Totals(Record(NO_STAT, v.incl, v.excl), [v])
  {
    assert [v][..0] == [];
    assert v in [v];
  }

  lemma TotalsGrow(s: Stat, vs: seq<Visit>, v: Visit)
    requires Totals(s, vs)
    ensures Totals(Record(s, v.incl, v.excl), vs + [v])
  {
    var more := vs + [v];
    assert more[..|vs|] == vs && more[|vs|] == v;
    var s' := Record(s, v.incl, v.excl);
    var a :| a in vs && a.incl == s.max;
    assert a in more && v in more;
    if b :| b in vs && b.incl == s.min { assert b in more; }
  }

  lemma StatsGrow(stats: map<u32, Stat>, visits: seq<Visit>, v: Visit)
    requires ShowsStats(stats, visits) && v.incl >= 0
    ensures ShowsStats(stats[v.routine := Record(Bucket(stats, v.routine), v.incl, v.excl)], visits + [v])
  {
    hide Totals, Record, VisitsOf;
    var stats' := stats[v.routine := Record(Bucket(stats, v.routine), v.incl, v.excl)];
    forall t: u32
      ensures if VisitsOf(visits + [v], t) == [] then t !in stats'
              else t in stats' && Totals(stats'[t], VisitsOf(visits + [v], t))
    {
      VisitsSnoc(visits, v, t);
      if t == v.routine {
        if VisitsOf(visits, t) == [] {
          assert Bucket(stats, t) == NO_STAT && [] + [v] == [v];
          TotalsOfOne(v);
        } else {
          TotalsGrow(stats[t], VisitsOf(visits, t), v);
        }
      } else {
        assert VisitsOf(visits, t) + [] == VisitsOf(visits, t);
      }
    }
  }

  lemma ShowsReturn(before: seq<Event>, w: World, h: History, e: Event)
    requires w.Valid() && NestedWorld(w) && e.Return? && Shows(before, w, h)
    ensures Shows(before + [e], Step(w, e), Returned(before, h, e.raw))
  {
    hide ShowsCalls, ShowsActs, ShowsParked, ShowsStats, Clock.Sample, WholeWraps, Older, AllSmall, NestedWorld, Visited, ProfileReturn;
    ShowsLater(before, e, w, h);
    CallsMatch(before, w.live, h.live.calls);
    assert |w.live.prof| == |h.live.acts| by { ActsMatch(before, w.live.prof, h.live.acts, h.now, h); }
    if h.live.calls != [] {
      var n := |w.live.calls|;
      var w1 := w.(live := w.live.(calls := w.live.calls[..n - 1], callsS := w.live.callsS[..n - 1]));
      var h1 := h.(live := h.live.(calls := h.live.calls[..n - 1]));
      CallPopped(before + [e], w.live, h.live.calls, w1.live);
      SameWindow(before + [e], w.live.prof, h.live.acts, h.now, h, h1);
      ParkedSameWindow(before + [e], w.parked, h.parked, h, h1);
      assert Shows(before + [e], w1, h1);
      SameNesting(w, w1);
      if h.active && h.live.acts != [] {
        SameWindow(before, w.live.prof, h.live.acts, h.now, h, h1);
        ShowsVisit(before, w1, h1, e);
      } else {
        NoVisit(w1, e.raw);
      }
    }
  }

  lemma NoVisit(w: World, raw: u32)
    requires !w.active || w.live.prof == []
    ensures ProfileReturn(w, raw) == w
  {
  }

  lemma ActsMatch(events: seq<Event>, prof: seq<ProfFrame>, acts: seq<Act>, at: int, h: History)
    requires ShowsActs(events, prof, acts, at, h)
    ensures |prof| == |acts|
  {
  }

  lemma SameNesting(w: World, w': World)
    requires NestedWorld(w) && w'.live.prof == w.live.prof && w'.parked == w.parked && w'.clock == w.clock
    ensures NestedWorld(w')
  {
  }

  /** The profiler's part of a return. */
  lemma ShowsVisit(before: seq<Event>, w: World, h: History, e: Event)
    requires NestedWorld(w) && e.Return? && Shows(before + [e], w, h) && w.active && h.live.acts != []
    requires ShowsActs(before, w.live.prof, h.live.acts, h.now, h)
    ensures Shows(before + [e], ProfileReturn(w, e.raw), Visited(before, Read(h, e.raw)))
  {
    hide ShowsCalls, ShowsActs, ShowsParked, ShowsStats, Clock.Sample, WholeWraps, Older, AllSmall;
    hide NestedWorld, Charge, Record, Bucket, Exclusive;
    var h', n := Read(h, e.raw), |h.live.acts| - 1;
    ShowsRead(before + [e], w, h, e.raw);
    ActsMatch(before, w.live.prof, h.live.acts, h.now, h);
    var top, a := w.live.prof[n], h'.live.acts[n];
    var incl := w.clock.Sample(e.raw).Now() - top.push;
    LastAct(before, w.live.prof, h.live.acts, h);
    assert incl == a.ran && a.callees == top.childAcc && top.target == Routine(before, a.call);
    NestedReturnHere(w, e.raw);
    ActPopped(before + [e], w.live.prof, h'.live.acts, h', incl);
    var h2, w2 := Visited(before, h'), ProfileReturn(w, e.raw);
    assert h'.live.acts[..n][..n] == h'.live.acts[..n];
    if n > 0 { assert h'.live.acts[..n][..n - 1] == h'.live.acts[..n - 1]; }
    assert w2.live.prof == Charge(w.live.prof[..n], incl);
    SameWindow(before + [e], w2.live.prof, h2.live.acts, h'.now, h', h2);
    ParkedSameWindow(before + [e], w.parked, h'.parked, h', h2);
    SameFrames(before + [e], w2.live, w.live, h2.live.calls);
    StatsGrow(w.stats, h.visits, Visit(top.target, incl, incl - top.childAcc));
    assert h.visits + [] == h.visits;
    assert ShowsStats(w2.stats, h2.visits);
    assert ShowsThread(before + [e], w2.live, h2.live, h2.now, h2);
  }

  lemma LastAct(before: seq<Event>, prof: seq<ProfFrame>, acts: seq<Act>, h: History)
    requires ShowsActs(before, prof, acts, h.now, h) && acts != []
    ensures var n := |acts| - 1;
            && |prof| == |acts| && prof[n].target == Routine(before, acts[n].call) && h.now - prof[n].push == acts[n].ran
            && prof[n].childAcc == acts[n].callees && (prof[n].aggregated <==> InWindow(h, prof[n].target))
  {
    assert IsAct(before, acts[|acts| - 1], prof[|acts| - 1], h.now, h.lo, h.hi);
  }

  lemma NestedReturnHere(w: World, raw: u32)
    requires NestedWorld(w) && w.live.prof != []
    ensures var top := w.live.prof[|w.live.prof| - 1];
            var incl := w.clock.Sample(raw).Now() - top.push;
            incl >= 0 && Exclusive(incl, top.childAcc) == incl - top.childAcc
  {
    NestedReturn(w.live.prof, w.clock.Now(), w.clock.Sample(raw).Now());
  }

  // switches

  lemma NearIff(before: seq<Event>, s: Stack, t: Thread, newS: u16)
    requires ShowsCalls(before, s, t.calls)
    ensures Near(before, t, newS) <==> s.calls != [] && ResumesAt(s.callsS[|s.callsS| - 1], newS)
    ensures s.calls != [] ==> Pointer(before, t.calls[|t.calls| - 1]) == s.callsS[|s.callsS| - 1]
  {
    if s.calls != [] {
      var n := |t.calls| - 1;
      assert IsFrame(before, t.calls[n], s.calls[n], s.callsS[n]);
    }
  }

  lemma NearestIsBest(before: seq<Event>, parked: seq<Parked>, threads: seq<Thread>, newS: u16, h: History, i: nat)
    requires AllValid(parked) && ShowsParked(before, parked, threads, h)
    ensures Nearest(before, threads, newS, i) <==> IsBest(parked, newS, Some(i))
  {
    hide ShowsCalls, ShowsActs, ResumesAt;
    forall j | 0 <= j < |parked|
      ensures Near(before, threads[j], newS) <==> ResumesAt(TopS(parked[j].stack), newS)
      ensures Near(before, threads[j], newS) ==> Pointer(before, threads[j].calls[|threads[j].calls| - 1]) == TopS(parked[j].stack)
    {
      NearIff(before, parked[j].stack, threads[j], newS);
    }
  }

  /** The stack the scan finds is the nearest one, if there is one. */
  lemma ScanFindsNearest(before: seq<Event>, w: World, h: History, newS: u16)
    requires w.Valid() && ShowsParked(before, w.parked, h.parked, h)
    ensures var best := BestOf(w.parked, newS, |w.parked|);
            && (best.Some? ==> best.value < |w.parked| && Nearest(before, h.parked, newS, best.value))
            && forall i: nat :: Nearest(before, h.parked, newS, i) ==> best == Some(i)
  {
    var best := BestOf(w.parked, newS, |w.parked|);
    assert w.parked[..|w.parked|] == w.parked;
    hide Nearest, IsBest, ShowsParked, BestOf;
    if best.Some? {
      BestExists(w.parked, newS, best);
      NearestIsBest(before, w.parked, h.parked, newS, h, best.value);
    }
    forall i: nat | Nearest(before, h.parked, newS, i) ensures best == Some(i) {
      NearestIsBest(before, w.parked, h.parked, newS, h, i);
      BestIsUnique(w.parked, newS, best, Some(i));
    }
  }

  lemma BestExists(parked: seq<Parked>, newS: u16, best: Option<nat>)
    requires AllValid(parked) && IsBest(parked, newS, best)
    ensures best.Some? ==> best.value < |parked|
  {
  }

  lemma ActsShifted(events: seq<Event>, prof: seq<ProfFrame>, acts: seq<Act>, at: int, now: int, h: History)
    requires ShowsActs(events, prof, acts, at, h)
    ensures ShowsActs(events, Shift(prof, now - at), acts, now, h)
  {
    forall i | 0 <= i < |acts| ensures IsAct(events, acts[i], Shift(prof, now - at)[i], now, h.lo, h.hi) {
      assert IsAct(events, acts[i], prof[i], at, h.lo, h.hi);
    }
  }

  lemma ParkShown(events: seq<Event>, others: seq<Parked>, threads: seq<Thread>, live: Stack, thread: Thread, now: int, h: History)
    requires ShowsParked(events, others, threads, h) && ShowsThread(events, live, thread, now, h)
    requires AllSmall(threads) && |thread.calls| <= 256
    ensures var threads' := if thread.calls == [] then threads else Latest(threads + [thread], 64);
            ShowsParked(events, Park(others, live, now), threads', h) && AllSmall(threads')
  {
    CallsMatch(events, live, thread.calls);
    hide ShowsThread;
    if thread.calls != [] {
      var parked' := Park(others, live, now);
      var threads' := Latest(threads + [thread], 64);
      var k := if |others| >= PARKED_CAP then 1 else 0;
      forall i | 0 <= i < |threads'| ensures ShowsThread(events, parked'[i].stack, threads'[i], parked'[i].at, h) {
        if i < |threads'| - 1 {
          assert parked'[i] == others[i + k] && threads'[i] == threads[i + k];
        }
      }
    }
  }

  lemma ParkedWithout(events: seq<Event>, parked: seq<Parked>, threads: seq<Thread>, b: nat, h: History)
    requires ShowsParked(events, parked, threads, h) && AllSmall(threads) && b < |threads|
    ensures ShowsParked(events, Remove(parked, b), threads[..b] + threads[b + 1..], h)
    ensures AllSmall(threads[..b] + threads[b + 1..])
    ensures ShowsThread(events, parked[b].stack, threads[b], parked[b].at, h) && |threads[b].calls| <= 256
  {
    hide ShowsThread;
  }

  lemma ShowsSwitch(before: seq<Event>, w: World, h: History, e: Event)
    requires w.Valid() && e.Switch? && Shows(before, w, h)
    ensures Shows(before + [e], Step(w, e), Switched(before, h, e.newS, e.raw))
  {
    hide *;
    ValidParked(w);
    SwitchesAlike(before, w, h, e);
    if Ignored(w, e.newS) {
      ShowsLater(before, e, w, h);
    } else if BestOf(w.parked, e.newS, |w.parked|).Some? {
      BestInRange(w, e.newS);
      ShowsMove(before, w, h, e, BestOf(w.parked, e.newS, |w.parked|).value);
    } else {
      ShowsLeave(before, w, h, e);
    }
  }

  lemma ValidParked(w: World)
    requires w.Valid()
    ensures AllValid(w.parked)
  {
  }

  lemma ShowsMove(before: seq<Event>, w: World, h: History, e: Event, b: nat)
    requires Shows(before, w, h) && e.Switch? && b < |w.parked| && b < |h.parked|
    ensures Shows(before + [e], After(w.(clock := w.clock.Sample(e.raw)), Remove(w.parked, b), w.parked[b]),
                  Resumed(Read(h, e.raw), h.parked[b], h.parked[..b] + h.parked[b + 1..]))
  {
    ReadParked(h, e.raw);
    hide *;
    ShowsLater(before, e, w, h);
    ShowsRead(before + [e], w, h, e.raw);
    ShowsResumed(before + [e], w.(clock := w.clock.Sample(e.raw)), Read(h, e.raw), b);
  }

  lemma ShowsLeave(before: seq<Event>, w: World, h: History, e: Event)
    requires Shows(before, w, h) && e.Switch?
    ensures Shows(before + [e], After(w.(clock := w.clock.Sample(e.raw)), w.parked, Parked(NO_STACK, 0)),
                  Resumed(Read(h, e.raw), NO_THREAD, h.parked))
  {
    ReadParked(h, e.raw);
    hide *;
    ShowsLater(before, e, w, h);
    ShowsRead(before + [e], w, h, e.raw);
    ShowsFresh(before + [e], w.(clock := w.clock.Sample(e.raw)), Read(h, e.raw));
  }

  lemma ReadParked(h: History, raw: u32)
    ensures Read(h, raw).parked == h.parked
  {
  }

  lemma BestInRange(w: World, newS: u16)
    requires w.Valid()
    ensures var best := BestOf(w.parked, newS, |w.parked|); best.Some? ==> best.value < |w.parked|
  {
  }

  /** Machine and history decide alike whether and where to switch. */
  lemma SwitchesAlike(before: seq<Event>, w: World, h: History, e: Event)
    requires w.Valid() && e.Switch? && Shows(before, w, h)
    ensures var best, now := BestOf(w.parked, e.newS, |w.parked|), w.(clock := w.clock.Sample(e.raw));
            if Ignored(w, e.newS) then Step(w, e) == w && Switched(before, h, e.newS, e.raw) == h
            else if best.Some? && best.value < |w.parked| then
              && best.value < |h.parked|
              && Step(w, e) == After(now, Remove(w.parked, best.value), w.parked[best.value])
              && Switched(before, h, e.newS, e.raw)
                 == Resumed(Read(h, e.raw), h.parked[best.value], h.parked[..best.value] + h.parked[best.value + 1..])
            else
              && Step(w, e) == After(now, w.parked, Parked(NO_STACK, 0))
              && Switched(before, h, e.newS, e.raw) == Resumed(Read(h, e.raw), NO_THREAD, h.parked)
  {
    var best := BestOf(w.parked, e.newS, |w.parked|);
    ScanFindsNearest(before, w, h, e.newS);
    assert |w.parked| == |h.parked| by { ParkedMatch(before, w.parked, h.parked, h); }
    IgnoresAlike(before, w, h, e.newS);
    hide *;
    MachineSwitches(w, e, best);
    HistorySwitches(before, h, e.newS, e.raw, best);
  }

  lemma IgnoresAlike(before: seq<Event>, w: World, h: History, newS: u16)
    requires w.Valid() && Shows(before, w, h)
    ensures Ignored(w, newS)
       <==> Near(before, h.live, newS) || (h.live.calls == [] && BestOf(w.parked, newS, |w.parked|) == None)
  {
    NearIff(before, w.live, h.live, newS);
    CallsMatch(before, w.live, h.live.calls);
    hide ShowsCalls, ShowsThread, ShowsParked, ShowsStats, Near, BestOf, ResumesAt;
  }

  lemma MachineSwitches(w: World, e: Event, best: Option<nat>)
    requires w.Valid() && e.Switch? && best == BestOf(w.parked, e.newS, |w.parked|) && (best.Some? ==> best.value < |w.parked|)
    ensures var now := w.(clock := w.clock.Sample(e.raw));
            Step(w, e) == if Ignored(w, e.newS) then w
                          else if best.Some? then After(now, Remove(w.parked, best.value), w.parked[best.value])
                          else After(now, w.parked, Parked(NO_STACK, 0))
  {
    hide BestOf, Park, Shift, Ignored, Remove, Clock.Sample;
  }

  lemma HistorySwitches(before: seq<Event>, h: History, newS: int, raw: u32, best: Option<nat>)
    requires best.Some? ==> best.value < |h.parked| && Nearest(before, h.parked, newS, best.value)
    requires forall i: nat :: Nearest(before, h.parked, newS, i) ==> best == Some(i)
    ensures Switched(before, h, newS, raw)
         == if Near(before, h.live, newS) || (h.live.calls == [] && best == None) then h
            else if best.Some? then Resumed(Read(h, raw), h.parked[best.value], h.parked[..best.value] + h.parked[best.value + 1..])
            else Resumed(Read(h, raw), NO_THREAD, h.parked)
  {
    NearestExists(before, h.parked, newS);
    hide Near, Nearest, Read, Resumed;
  }

  lemma NearestExists(before: seq<Event>, parked: seq<Thread>, newS: int)
    ensures forall i: nat :: Nearest(before, parked, newS, i) ==> i < |parked|
  {
  }

  lemma ParkedMatch(events: seq<Event>, parked: seq<Parked>, threads: seq<Thread>, h: History)
    requires ShowsParked(events, parked, threads, h)
    ensures |parked| == |threads|
  {
  }

  /** The live stack parked behind the others, another one resumed. */
  function After(w: World, others: seq<Parked>, next: Parked): World
  {
    w.(parked := Park(others, w.live, w.clock.Now()),
       live := next.stack.(prof := Shift(next.stack.prof, w.clock.Now() - next.at)))
  }

  lemma ShowsResumed(events: seq<Event>, w: World, h: History, b: nat)
    requires Shows(events, w, h) && b < |w.parked|
    ensures b < |h.parked|
    ensures Shows(events, After(w, Remove(w.parked, b), w.parked[b]), Resumed(h, h.parked[b], h.parked[..b] + h.parked[b + 1..]))
  {
    assert |w.parked| == |h.parked|;
    hide ShowsCalls, ShowsActs, ShowsParked, ShowsStats, WholeWraps, AllSmall, Park, Shift, Remove, Latest, Clock.Now, IsFrame, IsAct;
    var p, rest := w.parked[b], h.parked[..b] + h.parked[b + 1..];
    ParkedWithout(events, w.parked, h.parked, b, h);
    ParkShown(events, Remove(w.parked, b), rest, w.live, h.live, h.now, h);
    ParkedSameWindow(events, Park(Remove(w.parked, b), w.live, h.now), Resumed(h, h.parked[b], rest).parked, h,
                     Resumed(h, h.parked[b], rest));
    ShowsNextThread(events, p, h.parked[b], h, Resumed(h, h.parked[b], rest));
  }

  lemma ShowsNextThread(events: seq<Event>, p: Parked, t: Thread, h: History, h': History)
    requires ShowsThread(events, p.stack, t, p.at, h) && h'.lo == h.lo && h'.hi == h.hi
    ensures ShowsThread(events, p.stack.(prof := Shift(p.stack.prof, h.now - p.at)), t, h.now, h')
  {
    hide ShowsCalls, ShowsActs, Shift;
    ActsShifted(events, p.stack.prof, t.acts, p.at, h.now, h);
    SameWindow(events, Shift(p.stack.prof, h.now - p.at), t.acts, h.now, h, h');
    SameFrames(events, p.stack.(prof := Shift(p.stack.prof, h.now - p.at)), p.stack, t.calls);
  }

  lemma ShowsFresh(events: seq<Event>, w: World, h: History)
    requires Shows(events, w, h)
    ensures Shows(events, After(w, w.parked, Parked(NO_STACK, 0)), Resumed(h, NO_THREAD, h.parked))
  {
    hide ShowsStats, WholeWraps, AllSmall, Park, Latest, ShowsParked;
    ParkShown(events, w.parked, h.parked, w.live, h.live, h.now, h);
    var h' := Resumed(h, NO_THREAD, h.parked);
    ParkedSameWindow(events, Park(w.parked, w.live, h.now), h'.parked, h, h');
  }

  // clearing

  lemma ShowsQuiet(events: seq<Event>, w: World, h: History, h': History)
    requires Shows(events, w, h) && h' == Quiet(h).(active := h'.active, lo := h'.lo, hi := h'.hi, visits := h'.visits)
    ensures var w' := ClearFrames(w);
            && Small(h') && ShowsThread(events, w'.live, h'.live, h'.now, h') && ShowsParked(events, w'.parked, h'.parked, h')
  {
    hide ShowsStats, WholeWraps;
    var w' := ClearFrames(w);
    forall i | 0 <= i < |h'.parked| ensures ShowsThread(events, w'.parked[i].stack, h'.parked[i], w'.parked[i].at, h') {
      assert ShowsThread(events, w.parked[i].stack, h.parked[i], w.parked[i].at, h);
      SameFrames(events, w'.parked[i].stack, w.parked[i].stack, h.parked[i].calls);
    }
    SameFrames(events, w'.live, w.live, h.live.calls);
  }

  lemma NoVisits()
    ensures ShowsStats(map[], [])
  {
  }

  lemma ShowsClear(before: seq<Event>, w: World, h: History, e: Event)
    requires w.Valid() && Shows(before, w, h) && (e.ClearStacks? || e.Start? || e.Stop? || e.Reset?)
    ensures Shows(before + [e], Step(w, e), Next(before, h, e))
  {
    ShowsLater(before, e, w, h);
    NoVisits();
    var h' := Next(before, h, e);
    hide ShowsActs, ShowsStats, WholeWraps, ClearFrames, Quiet;
    match e {
      case ClearStacks =>
        SameWindow(before + [e], w.live.prof, h'.live.acts, h.now, h, h');
      case Start(lo, hi) => ShowsQuiet(before + [e], w, h, h'); Quieted(w, h);
      case Stop => ShowsQuiet(before + [e], w, h, h'); Quieted(w, h);
      case Reset => ShowsQuiet(before + [e], w, h, h'); Quieted(w, h);
    }
  }

  lemma Quieted(w: World, h: History)
    ensures var w', h' := ClearFrames(w), Quiet(h);
            && w' == w.(live := w'.live, parked := w'.parked) && h' == h.(live := h'.live, parked := h'.parked)
  {
  }

  // ----- every run -----

  lemma ShowsNext(before: seq<Event>, w: World, h: History, e: Event)
    requires w.Valid() && NestedWorld(w) && Shows(before, w, h)
    ensures Shows(before + [e], Step(w, e), Next(before, h, e))
  {
    hide Shows, Called, Returned, Switched, Quiet, NestedWorld, OnCall, OnReturn, OnSwitch, Read;
    match e {
      case Sample(raw) => ShowsLater(before, e, w, h); ShowsRead(before + [e], w, h, raw);
      case Call(_, _, _, _, _) => ShowsCall(before, w, h, e);
      case Return(_) => ShowsReturn(before, w, h, e);
      case Switch(_, _) => ShowsSwitch(before, w, h, e);
      case _ => ShowsClear(before, w, h, e);
    }
  }

  /** Every run of the machine shows exactly its history. */
  lemma {:induction false} RunShowsHistory(events: seq<Event>)
    ensures Shows(events, Run(events), Tell(events))
  {
    hide Shows, Next, Step, NestedWorld;
    if events == [] {
      StartShowsNothing();
    } else {
      var before, e := events[..|events| - 1], events[|events| - 1];
      RunShowsHistory(before);
      RunIsNested(before);
      ShowsNext(before, Run(before), Tell(before), e);
      assert before + [e] == events;
    }
  }

  lemma StartShowsNothing()
    ensures Shows([], START, NO_HISTORY)
  {
  }

  lemma RunIsNested(events: seq<Event>)
    ensures NestedWorld(Run(events))
  {
    hide Run, Books, LiveTimes, Balanced, NestedWorld;
    RunIsLawful(events);
  }

  /** In every run the profile reports, for every routine, the number, the sums and the extremes of its visits. */
  lemma ProfileIsTally(events: seq<Event>, routine: u32)
    ensures var stats, vs := Run(events).stats, VisitsOf(Tell(events).visits, routine);
            if vs == [] then routine !in stats else routine in stats && Totals(stats[routine], vs)
  {
    hide Run, Tell, Totals, VisitsOf, ShowsThread, ShowsParked;
    RunShowsHistory(events);
  }

  /** In every run, through any switches, the call stack is that of the live thread, and parked ones those of theirs in order. */
  lemma StacksAreThreads(events: seq<Event>)
    ensures var w, h := Run(events), Tell(events);
            && ShowsCalls(events, w.live, h.live.calls) && |w.parked| == |h.parked|
            && forall i :: 0 <= i < |w.parked| ==> ShowsCalls(events, w.parked[i].stack, h.parked[i].calls)
  {
    hide Run, Tell, ShowsCalls, ShowsActs, ShowsStats;
    RunShowsHistory(events);
  }

  // ----- in true time -----

  /** In a timely run the visit a return completes took the true time its stack was live since the call. */
  lemma VisitsTakeTrueTime(ts: seq<Timed>, raw: u32, at: nat)
    requires Timely(ts + [Timed(Return(raw), at)])
    requires var w := Run(Events(ts)); w.live.calls != [] && w.active && w.live.prof != []
    ensures var w, v, n := Run(Events(ts)), LivedAt(ts), |Run(Events(ts)).live.prof| - 1;
            && |v.live| == n + 1
            && var top, incl := w.live.prof[n], v.live[n] + (at - LastAt(ts));
               Tell(Events(ts + [Timed(Return(raw), at)])).visits
               == Tell(Events(ts)).visits + if top.aggregated then [Visit(top.target, incl, incl - top.childAcc)] else []
  {
    hide *;
    var all := ts + [Timed(Return(raw), at)];
    TrueInclusive(ts, raw, at);
    LastTold(ts, Return(raw), at);
    RunShowsHistory(Events(ts));
    RunRanSince(Events(ts), raw);
    VisitCompleted(Events(ts), Run(Events(ts)), Tell(Events(ts)), raw);
  }

  lemma LastTold(ts: seq<Timed>, e: Event, at: nat)
    ensures Tell(Events(ts + [Timed(e, at)])) == Next(Events(ts), Tell(Events(ts)), e)
  {
    hide Next;
    var all := ts + [Timed(e, at)];
    assert all[..|ts|] == ts;
    assert Events(all) == Events(ts) + [e];
    assert Events(all)[..|ts|] == Events(ts);
  }

  /** The live time of the top frame, brought up to the return. */
  lemma RunRanSince(events: seq<Event>, raw: u32)
    requires Run(events).live.prof != []
    ensures var w, l, n := Run(events), Books(events), |Run(events).live.prof| - 1;
            |l.ran| == n + 1 && l.ran[n] == w.clock.Now() - w.live.prof[n].push
  {
    hide Run, Books;
  }

  lemma VisitCompleted(before: seq<Event>, w: World, h: History, raw: u32)
    requires w.Valid() && Shows(before, w, h) && w.live.calls != [] && w.active && w.live.prof != []
    ensures var top := w.live.prof[|w.live.prof| - 1];
            var incl := Step(w, Return(raw)).clock.Now() - top.push;
            Next(before, h, Return(raw)).visits
            == h.visits + if top.aggregated then [Visit(top.target, incl, incl - top.childAcc)] else []
  {
    hide *;
    LastShown(before, w, h);
    ReadsAlike(w.clock, raw);
    ReturnReads(w, raw);
    ReturnVisits(before, h, raw);
  }

  /** What the history says of the top frame. */
  lemma LastShown(before: seq<Event>, w: World, h: History)
    requires w.Valid() && Shows(before, w, h) && w.live.calls != [] && w.active && w.live.prof != []
    ensures h.live.calls != [] && h.active && h.live.acts != [] && WholeWraps(w.clock) && w.clock.Now() == h.now
    ensures var top, a := w.live.prof[|w.live.prof| - 1], h.live.acts[|h.live.acts| - 1];
            && top.target == Routine(before, a.call) && w.clock.Now() - top.push == a.ran && top.childAcc == a.callees
            && (top.aggregated <==> InWindow(h, top.target))
  {
    CallsMatch(before, w.live, h.live.calls);
    ActsMatch(before, w.live.prof, h.live.acts, h.now, h);
    LastAct(before, w.live.prof, h.live.acts, h);
    hide ShowsCalls, ShowsActs, ShowsParked, ShowsStats, WholeWraps, Routine, InWindow, Clock.Now;
  }

  lemma ReturnReads(w: World, raw: u32)
    requires w.Valid() && w.live.calls != [] && w.active && w.live.prof != []
    ensures Step(w, Return(raw)).clock == w.clock.Sample(raw)
  {
    hide World.Valid, Record, Charge, Clock.Sample;
  }

  lemma ReturnVisits(before: seq<Event>, h: History, raw: u32)
    requires h.live.calls != [] && h.active && h.live.acts != []
    ensures var a := h.live.acts[|h.live.acts| - 1];
            var ran, routine := a.ran + (raw - h.now) % 0x1_0000_0000, Routine(before, a.call);
            Next(before, h, Return(raw)).visits
            == h.visits + if InWindow(h, routine) then [Visit(routine, ran, ran - a.callees)] else []
  {
    hide Routine;
  }
}
