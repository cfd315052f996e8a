/** Recorded times against true time: a run whose events carry the true time at which they happen. */
module ProfilerTime {
  import opened Prelude
  import opened ShadowStacks
  import opened ProfilerLaws

  /** An event and the true master cycle at which it happens. */
  datatype Timed = Timed(e: Event, at: nat)

  function Events(ts: seq<Timed>): (r: seq<Event>)
    ensures |r| == |ts|
  {
    if ts == [] then [] else Events(ts[..|ts| - 1]) + [ts[|ts| - 1].e]
  }

  /** Does the event read the counter? */
  predicate Samples(w: World, e: Event)
    requires w.Valid()
  {
    match e
    case Sample(_) => true
    case Call(_, _, _, _, _) => w.active
    case Return(_) => w.live.calls != [] && w.active && w.live.prof != []
    case Switch(newS, _) => !Ignored(w, newS)
    case _ => false
  }

  lemma SampleClock(w: World, e: Event)
    requires w.Valid()
    ensures Step(w, e).clock == if Samples(w, e) then w.clock.Sample(e.raw) else w.clock
  {
    hide Park, Shift, BestOf, Ignored, Charge;
  }

  function LastAt(ts: seq<Timed>): nat
  {
    if ts == [] then 0 else ts[|ts| - 1].at
  }

  /** The true time of the last event that read the counter. */
  function LastSample(ts: seq<Timed>): nat
  {
    if ts == [] then 0
    else if Samples(Run(Events(ts[..|ts| - 1])), ts[|ts| - 1].e) then ts[|ts| - 1].at
    else LastSample(ts[..|ts| - 1])
  }

  /** Time does not run backward, the counter shows it, and it is read at least once per wrap. */
  ghost predicate Timely(ts: seq<Timed>)
  {
    ts == [] ||
    var before, t := ts[..|ts| - 1], ts[|ts| - 1];
    && Timely(before) && LastAt(before) <= t.at
    && (Samples(Run(Events(before)), t.e) ==> t.e.raw == CounterAt(t.at) && t.at - LastSample(before) < 0x1_0000_0000)
  }

  lemma {:induction false} LastSampleBound(ts: seq<Timed>)
    requires Timely(ts)
    ensures LastSample(ts) <= LastAt(ts)
  {
    hide Samples, Run;
    if ts != [] { LastSampleBound(ts[..|ts| - 1]); }
  }

  lemma NoEvents()
    ensures Run([]) == START && Books([]) == NO_LEDGER
  {
    hide Step, Book;
  }

  lemma StartsAtZero()
    ensures START.clock == Clock(0, 0)
  {
  }

  lemma OneMoreSample(w: World, e: Event, last: nat, at: nat)
    requires w.Valid() && WholeWraps(w.clock) && w.clock.Now() == last <= at
    requires Samples(w, e) ==> e.raw == CounterAt(at) && at - last < 0x1_0000_0000
    ensures var clock := Step(w, e).clock; WholeWraps(clock) && clock.Now() == if Samples(w, e) then at else last
  {
    hide Samples, Step, WholeWraps;
    SampleClock(w, e);
    if Samples(w, e) { WideningIsExact(w.clock, at); }
  }

  lemma TimelyParts(ts: seq<Timed>)
    requires ts != [] && Timely(ts)
    ensures var before, t := ts[..|ts| - 1], ts[|ts| - 1];
            && Timely(before) && LastAt(before) <= t.at && LastSample(before) <= t.at
            && (Samples(Run(Events(before)), t.e) ==>
                  t.e.raw == CounterAt(t.at) && t.at - LastSample(before) < 0x1_0000_0000)
            && LastSample(ts) == if Samples(Run(Events(before)), t.e) then t.at else LastSample(before)
  {
    hide Samples, Run, CounterAt;
    LastSampleBound(ts[..|ts| - 1]);
  }

  lemma TrueAtStart()
    ensures var clock := Run(Events([])).clock; WholeWraps(clock) && clock.Now() == LastSample([])
  {
    hide *;
    NothingYet();
    NoEvents();
    StartsAtZero();
    NoWraps();
  }

  lemma NothingYet()
    ensures Events([]) == [] && LastSample([]) == 0
  {
    hide Run;
  }

  /** In a timely run the widened clock shows the true time of the last event that read the counter. */
  lemma {:induction false} ClockIsTrue(ts: seq<Timed>)
    requires Timely(ts)
    ensures var clock := Run(Events(ts)).clock; WholeWraps(clock) && clock.Now() == LastSample(ts)
  {
    hide *;
    if ts == [] {
      TrueAtStart();
    } else {
      var before, t := ts[..|ts| - 1], ts[|ts| - 1];
      TimelyParts(ts);
      ClockIsTrue(before);
      LastEvent(ts);
      OneMoreSample(Run(Events(before)), t.e, LastSample(before), t.at);
    }
  }

  lemma LastEvent(ts: seq<Timed>)
    requires ts != []
    ensures Run(Events(ts)) == Step(Run(Events(ts[..|ts| - 1])), ts[|ts| - 1].e)
    ensures Books(Events(ts)) == Book(Run(Events(ts[..|ts| - 1])), Books(Events(ts[..|ts| - 1])), ts[|ts| - 1].e)
  {
    hide Step, Book;
    assert Events(ts)[..|ts| - 1] == Events(ts[..|ts| - 1]);
  }

  // ----- how long each frame's stack has truly been live -----

  /** For each profiler frame the true time its stack has been live since the call. */
  datatype Lived = Lived(live: seq<int>, parked: seq<seq<int>>)

  /** `d` cycles pass, then the event happens. */
  ghost function LiveStep(w: World, v: Lived, e: Event, d: int): Lived
    requires w.Valid()
  {
    var live := Tick(v.live, d);
    match e
    case Sample(_) => Lived(live, v.parked)
    case Call(_, _, _, _, _) => Lived(if w.active then live + [0] else live, v.parked)
    case Return(_) =>
      if Samples(w, e) && live != [] then Lived(live[..|live| - 1], v.parked) else Lived(live, v.parked)
    case Switch(newS, _) =>
      var best := BestOf(w.parked, newS, |w.parked|);
      if Ignored(w, newS) then Lived(live, v.parked)
      else if best.Some? && best.value < |v.parked| then
        Lived(v.parked[best.value], ParkRan(Remove(v.parked, best.value), w.live, live))
      else Lived([], ParkRan(v.parked, w.live, live))
    case ClearStacks => Lived(live, [])
    case _ => Lived([], seq(|w.parked|, _ => []))
  }

  /** True live times after a run. */
  ghost function LivedAt(ts: seq<Timed>): Lived
  {
    if ts == [] then Lived([], [])
    else
      var before, t := ts[..|ts| - 1], ts[|ts| - 1];
      LiveStep(Run(Events(before)), LivedAt(before), t.e, t.at - LastAt(before))
  }

  /** The books in widened-clock time lag behind true time by the time since the last reading. */
  ghost predicate Lags(v: Lived, l: Ledger, lag: int)
  {
    v.live == Tick(l.ran, lag) && v.parked == l.parkedRan
  }

  lemma TickTwice(ran: seq<int>, a: int, b: int)
    ensures Tick(Tick(ran, a), b) == Tick(ran, a + b)
  {
  }

  lemma TickNone(ran: seq<int>)
    ensures Tick(ran, 0) == ran
    ensures forall d :: Tick([], d) == []
  {
  }

  /** Time passes on both sides, by `d` truly and by `c` on the clock. */
  lemma LagTicks(v: Lived, l: Ledger, lag: int, d: int, c: int)
    requires Lags(v, l, lag)
    ensures Tick(v.live, d) == Tick(Tick(l.ran, c), lag + d - c)
  {
    TickTwice(l.ran, lag, d);
    TickTwice(l.ran, c, lag + d - c);
  }

  lemma LagStep(w: World, l: Ledger, v: Lived, e: Event, lag: int, d: int)
    requires w.Valid() && Shaped(w, l) && Lags(v, l, lag)
    requires Samples(w, e) ==> Step(w, e).clock.Now() - w.clock.Now() == lag + d
    requires !Samples(w, e) ==> Step(w, e).clock == w.clock
    ensures Lags(LiveStep(w, v, e, d), Book(w, l, e), if Samples(w, e) then 0 else lag + d)
  {
    hide Tick, BestOf, Step, ParkRan, ParkedSum, ChildSum, Dropped, World.Valid, Ignored, Book, Lags, LiveStep;
    var c := Step(w, e).clock.Now() - w.clock.Now();
    LagTicks(v, l, lag, d, c);
    match e {
      case Sample(_) => LagSample(w, l, v, e, lag, d);
      case Call(_, _, _, _, _) => LagCall(w, l, v, e, lag, d);
      case Return(_) => LagReturn(w, l, v, e, lag, d);
      case Switch(_, _) => LagSwitch(w, l, v, e, lag, d);
      case ClearStacks => LagOther(w, l, v, e, lag, d);
      case _ => LagOther(w, l, v, e, lag, d);
    }
  }

  lemma LagSample(w: World, l: Ledger, v: Lived, e: Event, lag: int, d: int)
    requires w.Valid() && Shaped(w, l) && Lags(v, l, lag) && e.Sample?
    requires Step(w, e).clock.Now() - w.clock.Now() == lag + d
    ensures Lags(LiveStep(w, v, e, d), Book(w, l, e), 0)
  {
    hide Tick, Step, World.Valid;
    LagTicks(v, l, lag, d, lag + d);
  }

  lemma LagCall(w: World, l: Ledger, v: Lived, e: Event, lag: int, d: int)
    requires w.Valid() && Shaped(w, l) && Lags(v, l, lag) && e.Call?
    requires Samples(w, e) ==> Step(w, e).clock.Now() - w.clock.Now() == lag + d
    requires !Samples(w, e) ==> Step(w, e).clock == w.clock
    ensures Lags(LiveStep(w, v, e, d), Book(w, l, e), if Samples(w, e) then 0 else lag + d)
  {
    hide Tick, Step, World.Valid;
    var c := Step(w, e).clock.Now() - w.clock.Now();
    LagTicks(v, l, lag, d, c);
    TickNone(Tick(l.ran, c));
    TickNone(Tick(l.ran, c) + [0]);
  }

  lemma LagReturn(w: World, l: Ledger, v: Lived, e: Event, lag: int, d: int)
    requires w.Valid() && Shaped(w, l) && Lags(v, l, lag) && e.Return?
    requires Samples(w, e) ==> Step(w, e).clock.Now() - w.clock.Now() == lag + d
    requires !Samples(w, e) ==> Step(w, e).clock == w.clock
    ensures Lags(LiveStep(w, v, e, d), Book(w, l, e), if Samples(w, e) then 0 else lag + d)
  {
    hide Step, World.Valid;
    var c := Step(w, e).clock.Now() - w.clock.Now();
    LagTicks(v, l, lag, d, c);
    var ran := Tick(l.ran, c);
    assert |ran| == |w.live.prof|;
    hide Tick;
    TickNone(ran);
    if Samples(w, e) { TickNone(ran[..|ran| - 1]); }
  }

  lemma LagSwitch(w: World, l: Ledger, v: Lived, e: Event, lag: int, d: int)
    requires w.Valid() && Shaped(w, l) && Lags(v, l, lag) && e.Switch?
    requires Samples(w, e) ==> Step(w, e).clock.Now() - w.clock.Now() == lag + d
    requires !Samples(w, e) ==> Step(w, e).clock == w.clock
    ensures Lags(LiveStep(w, v, e, d), Book(w, l, e), if Samples(w, e) then 0 else lag + d)
  {
    hide Tick, Step, World.Valid, BestOf, Ignored, ParkRan, Dropped;
    var c := Step(w, e).clock.Now() - w.clock.Now();
    LagTicks(v, l, lag, d, c);
    TickNone(Tick(l.ran, c));
    TickNone(Book(w, l, e).ran);
  }

  lemma LagOther(w: World, l: Ledger, v: Lived, e: Event, lag: int, d: int)
    requires w.Valid() && Shaped(w, l) && Lags(v, l, lag) && (e.ClearStacks? || e.Start? || e.Stop? || e.Reset?)
    requires Step(w, e).clock == w.clock
    ensures Lags(LiveStep(w, v, e, d), Book(w, l, e), lag + d) && !Samples(w, e)
  {
    hide Tick, Step, World.Valid, ChildSum, ParkedSum;
    LagTicks(v, l, lag, d, 0);
    TickNone(l.ran);
  }

  /** The true live times of a timely run are those of the books, once the lag of the clock is added. */
  lemma {:induction false} LivedLags(ts: seq<Timed>)
    requires Timely(ts)
    ensures Lags(LivedAt(ts), Books(Events(ts)), LastAt(ts) - Run(Events(ts)).clock.Now())
  {
    hide *;
    if ts == [] {
      NothingLags();
    } else {
      var before, t := ts[..|ts| - 1], ts[|ts| - 1];
      LastLived(ts);
      var w, l, v := Run(Events(before)), Books(Events(before)), LivedAt(before);
      TimelyParts(ts);
      LivedLags(before);
      LiveIsShaped(w, l);
      LastEvent(ts);
      ClockIsTrue(before);
      ClockIsTrue(ts);
      SampleClock(w, t.e);
      LagStep(w, l, v, t.e, LastAt(before) - w.clock.Now(), t.at - LastAt(before));
    }
  }

  lemma LastLived(ts: seq<Timed>)
    requires ts != []
    ensures var before, t := ts[..|ts| - 1], ts[|ts| - 1];
            && LastAt(ts) == t.at
            && LivedAt(ts) == LiveStep(Run(Events(before)), LivedAt(before), t.e, t.at - LastAt(before))
  {
    hide Run, Events, LiveStep;
  }

  lemma NothingLags()
    ensures Lags(LivedAt([]), Books(Events([])), LastAt([]) - Run(Events([])).clock.Now())
  {
    assert LivedAt([]) == Lived([], []) && Events([]) == [] && LastAt([]) == 0;
    hide Tick, Run, Books, LivedAt, Events, LastAt;
    NoEvents();
    TickNone([]);
  }

  /**
   In a timely run, a return that pops a profiler frame records exactly the true time the frame's stack was live since
   the call, and the exclusive time is that less the true time of its children.
   */
  lemma ReturnRecordsTrueTime(ts: seq<Timed>, raw: u32, at: nat)
    requires Timely(ts + [Timed(Return(raw), at)])
    requires var w := Run(Events(ts)); w.live.calls != [] && w.active && w.live.prof != []
    ensures var w, v := Run(Events(ts)), LivedAt(ts);
            var w', n := Step(w, Return(raw)), |w.live.prof| - 1;
            var top := w.live.prof[n];
            && |v.live| == n + 1
            && var incl := v.live[n] + (at - LastAt(ts));
               && incl >= top.childAcc >= 0
               && Booked(w.stats, w'.stats, top.target, top.aggregated, incl, incl - top.childAcc)
               && CallerBooked(w.live.prof, w'.live.prof, incl)
  {
    hide Step, Run, Books, LivedAt, Booked, CallerBooked, Timely, Events, LastAt, World.Valid;
    TrueInclusive(ts, raw, at);
    ReturnRecordsLiveTime(Events(ts), raw);
  }

  lemma TrueInclusive(ts: seq<Timed>, raw: u32, at: nat)
    requires Timely(ts + [Timed(Return(raw), at)])
    requires var w := Run(Events(ts)); w.live.calls != [] && w.active && w.live.prof != []
    ensures var w, l, v, n := Run(Events(ts)), Books(Events(ts)), LivedAt(ts), |Run(Events(ts)).live.prof| - 1;
            && |v.live| == |l.ran| == n + 1
            && v.live[n] + (at - LastAt(ts)) == l.ran[n] + (Step(w, Return(raw)).clock.Now() - w.clock.Now())
  {
    hide *;
    var all := ts + [Timed(Return(raw), at)];
    assert all[..|all| - 1] == ts && all[|all| - 1] == Timed(Return(raw), at);
    var w, l := Run(Events(ts)), Books(Events(ts));
    LiveLength(w, l);
    ReturnSamples(w, raw);
    TimelyParts(all);
    ClockIsTrue(all);
    LastEvent(all);
    LivedLags(ts);
    LagAt(LivedAt(ts), l, LastAt(ts) - w.clock.Now(), |w.live.prof| - 1);
  }

  lemma LiveLength(w: World, l: Ledger)
    requires LiveTimes(w, l)
    ensures |l.ran| == |w.live.prof|
  {
  }

  lemma ReturnSamples(w: World, raw: u32)
    requires w.Valid() && w.live.calls != [] && w.active && w.live.prof != []
    ensures Samples(w, Return(raw))
  {
  }

  lemma LagAt(v: Lived, l: Ledger, lag: int, n: nat)
    requires Lags(v, l, lag) && n < |l.ran|
    ensures |v.live| == |l.ran| && v.live[n] == l.ran[n] + lag
  {
  }
}
