/** What every run of the shadow stacks and the profiler keeps: time is never lost or charged twice. */
module ProfilerLaws {
  import opened Prelude
  import opened ShadowStacks

  // ----- sums -----

  /** Total child time a stack of frames has accumulated. */
  ghost function ChildSum(prof: seq<ProfFrame>): int
  {
    if prof == [] then 0 else ChildSum(prof[..|prof| - 1]) + prof[|prof| - 1].childAcc
  }

  ghost function ParkedSum(parked: seq<Parked>): int
  {
    if parked == [] then 0 else ParkedSum(parked[..|parked| - 1]) + ChildSum(parked[|parked| - 1].stack.prof)
  }

  /** Exclusive cycles over all buckets. */
  ghost function ExclSum(stats: map<u32, Stat>): int
  {
    if stats == map[] then 0
    else
      var t :| t in stats;
      stats[t].excl + ExclSum(stats - {t})
  }

  lemma {:induction false} ExclSumPick(stats: map<u32, Stat>, t: u32)
    requires t in stats
    ensures ExclSum(stats) == stats[t].excl + ExclSum(stats - {t})
    decreases |stats|
  {
    var u :| u in stats && ExclSum(stats) == stats[u].excl + ExclSum(stats - {u});
    if u != t {
      ExclSumPick(stats - {u}, t);
      ExclSumPick(stats - {t}, u);
      assert stats - {u} - {t} == stats - {t} - {u};
    }
  }

  lemma ExclSumUpdate(stats: map<u32, Stat>, t: u32, s: Stat)
    ensures ExclSum(stats[t := s]) == ExclSum(stats) + s.excl - Bucket(stats, t).excl
  {
    ExclSumPick(stats[t := s], t);
    if t in stats {
      ExclSumPick(stats, t);
      assert stats[t := s] - {t} == stats - {t};
    } else {
      assert stats[t := s] - {t} == stats;
    }
  }

  lemma {:induction false} ParkedSumConcat(a: seq<Parked>, b: seq<Parked>)
    ensures ParkedSum(a + b) == ParkedSum(a) + ParkedSum(b)
  {
    if b == [] {
      assert a + b == a;
    } else {
      ParkedSumConcat(a, b[..|b| - 1]);
      assert (a + b)[..|a + b| - 1] == a + b[..|b| - 1];
    }
  }

  lemma ParkedSumOne(p: Parked)
    ensures ParkedSum([p]) == ChildSum(p.stack.prof)
  {
    assert [p][..0] == [];
  }

  lemma RemoveParts<T>(s: seq<T>, i: nat)
    requires i < |s|
    ensures Remove(s, i) == s[..i] + s[i + 1..]
  {
  }

  lemma ParkedSumRemove(parked: seq<Parked>, i: nat)
    requires i < |parked|
    ensures ParkedSum(Remove(parked, i)) == ParkedSum(parked) - ChildSum(parked[i].stack.prof)
  {
    hide ParkedSum, ChildSum;
    assert parked == parked[..i] + ([parked[i]] + parked[i + 1..]);
    hide Remove;
    assert Remove(parked, i) == parked[..i] + parked[i + 1..] by { RemoveParts(parked, i); }
    ParkedSumConcat(parked[..i], [parked[i]] + parked[i + 1..]);
    ParkedSumConcat([parked[i]], parked[i + 1..]);
    ParkedSumOne(parked[i]);
    ParkedSumConcat(parked[..i], parked[i + 1..]);
  }

  lemma {:induction false} ChildSumShift(prof: seq<ProfFrame>, d: int)
    ensures ChildSum(Shift(prof, d)) == ChildSum(prof)
  {
    if prof == [] {
    } else {
      ChildSumShift(prof[..|prof| - 1], d);
      assert Shift(prof, d)[..|prof| - 1] == Shift(prof[..|prof| - 1], d);
    }
  }

  lemma {:induction false} ClearedSum(parked: seq<Parked>)
    requires forall i :: 0 <= i < |parked| ==> parked[i].stack.prof == []
    ensures ParkedSum(parked) == 0
  {
    if parked == [] {
    } else {
      ClearedSum(parked[..|parked| - 1]);
    }
  }

  lemma ChargeSum(prof: seq<ProfFrame>, incl: int)
    ensures ChildSum(Charge(prof, incl)) == ChildSum(prof) + if prof == [] then 0 else incl
  {
    if prof != [] {
      assert Charge(prof, incl)[..|prof| - 1] == prof[..|prof| - 1];
    }
  }

  // ----- frames nest in time -----

  /** Each frame was pushed, ran its completed children, and only then pushed the next frame. */
  ghost predicate Nested(prof: seq<ProfFrame>, limit: int)
  {
    forall i :: 0 <= i < |prof| ==>
      && prof[i].childAcc >= 0
      && prof[i].push + prof[i].childAcc <= NextPush(prof, i, limit)
  }

  ghost function NextPush(prof: seq<ProfFrame>, i: nat, limit: int): int
    requires i < |prof|
  {
    if i + 1 < |prof| then prof[i + 1].push else limit
  }

  ghost predicate NestedWorld(w: World)
  {
    Nested(w.live.prof, w.clock.Now()) && AllNested(w.parked)
  }

  ghost predicate AllNested(parked: seq<Parked>)
  {
    forall i :: 0 <= i < |parked| ==> Nested(parked[i].stack.prof, parked[i].at)
  }

  lemma NestedReturn(prof: seq<ProfFrame>, limit: int, now: int)
    requires Nested(prof, limit) && prof != [] && limit <= now
    ensures var top := prof[|prof| - 1];
            now - top.push >= top.childAcc >= 0 && Nested(Charge(prof[..|prof| - 1], now - top.push), now)
  {
    var n := |prof| - 1;
    var below := prof[..n];
    if n > 0 {
      assert prof[n - 1].push + prof[n - 1].childAcc <= NextPush(prof, n - 1, limit);
    }
  }

  lemma NestedLater(prof: seq<ProfFrame>, limit: int, now: int)
    requires Nested(prof, limit) && limit <= now
    ensures Nested(prof, now)
  {
  }

  lemma NestedCall(prof: seq<ProfFrame>, now: int, f: ProfFrame)
    requires Nested(prof, now) && f.push == now && f.childAcc == 0
    ensures Nested(prof + [f], now)
  {
  }

  lemma NestedShift(prof: seq<ProfFrame>, at: int, now: int)
    requires Nested(prof, at)
    ensures Nested(Shift(prof, now - at), now)
  {
    var r := Shift(prof, now - at);
    forall i | 0 <= i < |r|
      ensures r[i].childAcc >= 0 && r[i].push + r[i].childAcc <= NextPush(r, i, now)
    {
      assert prof[i].push + prof[i].childAcc <= NextPush(prof, i, at);
    }
  }

  /** Every event keeps the frames of every stack nested in time. */
  lemma NestedStep(w: World, e: Event)
    requires w.Valid() && NestedWorld(w)
    ensures NestedWorld(Step(w, e))
  {
    match e {
      case Sample(raw) =>
        NestedLater(w.live.prof, w.clock.Now(), w.clock.Sample(raw).Now());
      case Call(_, target, _, _, raw) =>
        if w.active {
          var now := w.clock.Sample(raw).Now();
          NestedLater(w.live.prof, w.clock.Now(), now);
          NestedCall(w.live.prof, now, NewFrame(w, target, now));
        }
      case Return(raw) =>
        if w.live.calls != [] && w.active && w.live.prof != [] {
          NestedReturn(w.live.prof, w.clock.Now(), w.clock.Sample(raw).Now());
        }
      case Switch(newS, raw) =>
        NestedSwitch(w, newS, raw);
      case ClearStacks =>
      case Start(_, _) =>
      case Stop =>
      case Reset =>
    }
  }

  lemma NestedSwitch(w: World, newS: u16, raw: u32)
    requires w.Valid() && NestedWorld(w)
    ensures NestedWorld(OnSwitch(w, newS, raw))
  {
    hide Nested, AllNested, Shift, BestOf, Park;
    if !Ignored(w, newS) {
      var now := w.clock.Sample(raw).Now();
      var best := BestOf(w.parked, newS, |w.parked|);
      NestedLater(w.live.prof, w.clock.Now(), now);
      if best.Some? {
        NestedRemove(w.parked, best.value, now);
        NestedPark(Remove(w.parked, best.value), w.live, now);
      } else {
        NestedNone(0);
        NestedShift([], 0, now);
        NestedPark(w.parked, w.live, now);
      }
    }
  }

  lemma NestedRemove(parked: seq<Parked>, b: nat, now: int)
    requires AllNested(parked) && b < |parked|
    ensures AllNested(Remove(parked, b)) && Nested(Shift(parked[b].stack.prof, now - parked[b].at), now)
  {
    NestedShift(parked[b].stack.prof, parked[b].at, now);
  }

  lemma NestedPark(others: seq<Parked>, live: Stack, now: int)
    requires AllNested(others) && Nested(live.prof, now)
    ensures AllNested(Park(others, live, now))
  {
  }

  lemma NestedNone(at: int)
    ensures Nested([], at)
  {
  }

  // ----- the ledger -----

  /**
   What the books must add up to, kept from the events alone: inclusive time of completed
   root calls, child time of frames thrown away, exclusive time outside the range filter,
   and for every profiler frame how long its stack has been live since its call.
   */
  datatype Ledger = Ledger(root: int, lost: int, filtered: int, ran: seq<int>, parkedRan: seq<seq<int>>)

  const NO_LEDGER := Ledger(0, 0, 0, [], [])

  function Tick(ran: seq<int>, d: int): (r: seq<int>)
    ensures |r| == |ran| && forall i :: 0 <= i < |ran| ==> r[i] == ran[i] + d
  {
    seq(|ran|, i requires 0 <= i < |ran| => ran[i] + d)
  }

  /** The books agree with the shape of the world. */
  ghost predicate Shaped(w: World, l: Ledger)
  {
    |l.ran| == |w.live.prof| && |l.parkedRan| == |w.parked|
  }

  ghost function BookReturn(w: World, l: Ledger): Ledger
    requires Shaped(w, l)
  {
    if w.live.calls == [] || !w.active || w.live.prof == [] then l
    else
      var n := |w.live.prof| - 1;
      var top, incl := w.live.prof[n], l.ran[n];
      l.(root := l.root + if n == 0 then incl else 0,
         filtered := l.filtered + if top.aggregated then 0 else Exclusive(incl, top.childAcc),
         ran := l.ran[..n])
  }

  ghost function BookSwitch(w: World, newS: u16, l: Ledger): Ledger
    requires w.Valid() && Shaped(w, l)
  {
    if Ignored(w, newS) then l
    else
      var best := BestOf(w.parked, newS, |w.parked|);
      var others := if best.Some? then Remove(w.parked, best.value) else w.parked;
      var othersRan := if best.Some? then Remove(l.parkedRan, best.value) else l.parkedRan;
      l.(lost := l.lost + Dropped(others, w.live),
         ran := if best.Some? then l.parkedRan[best.value] else [],
         parkedRan := ParkRan(othersRan, w.live, l.ran))
  }

  /** Child time of the frames a switch throws away. */
  ghost function Dropped(others: seq<Parked>, live: Stack): int
  {
    if live.calls == [] then ChildSum(live.prof)
    else if |others| >= PARKED_CAP then ChildSum(others[0].stack.prof)
    else 0
  }

  ghost function ParkRan(others: seq<seq<int>>, live: Stack, ran: seq<int>): seq<seq<int>>
  {
    if live.calls == [] then others
    else (if |others| >= PARKED_CAP then others[1..] else others) + [ran]
  }

  ghost function Book(w: World, l0: Ledger, e: Event): Ledger
    requires w.Valid() && Shaped(w, l0)
  {
    var l := l0.(ran := Tick(l0.ran, Step(w, e).clock.Now() - w.clock.Now()));
    var cleared := seq(|w.parked|, _ => []);
    match e
    case Sample(_) => l
    case Call(_, _, _, _, _) => if w.active then l.(ran := l.ran + [0]) else l
    case Return(_) => BookReturn(w, l)
    case Switch(newS, _) => BookSwitch(w, newS, l)
    case ClearStacks => l.(lost := l.lost + ParkedSum(w.parked), parkedRan := [])
    case Start(_, _) => NO_LEDGER.(parkedRan := cleared)
    case Stop => l.(lost := l.lost + ChildSum(w.live.prof) + ParkedSum(w.parked), ran := [], parkedRan := cleared)
    case Reset => NO_LEDGER.(parkedRan := cleared)
  }

  ghost predicate Ran(ran: seq<int>, prof: seq<ProfFrame>, now: int)
  {
    |ran| == |prof| && forall k :: 0 <= k < |ran| ==> ran[k] == now - prof[k].push
  }

  ghost predicate AllRan(parkedRan: seq<seq<int>>, parked: seq<Parked>)
  {
    |parkedRan| == |parked| && forall i :: 0 <= i < |parked| ==> Ran(parkedRan[i], parked[i].stack.prof, parked[i].at)
  }

  /** Every frame's push clock says how long its stack has been live since the call. */
  ghost predicate LiveTimes(w: World, l: Ledger)
  {
    Ran(l.ran, w.live.prof, w.clock.Now()) && AllRan(l.parkedRan, w.parked)
  }

  lemma RanLater(ran: seq<int>, prof: seq<ProfFrame>, now: int, d: int)
    requires Ran(ran, prof, now)
    ensures Ran(Tick(ran, d), prof, now + d)
  {
  }

  lemma RanShift(ran: seq<int>, prof: seq<ProfFrame>, at: int, now: int)
    requires Ran(ran, prof, at)
    ensures Ran(ran, Shift(prof, now - at), now)
  {
  }

  /** Parked time is never charged: every event keeps push clocks equal to live times. */
  lemma LiveTimesStep(w: World, l: Ledger, e: Event)
    requires w.Valid() && LiveTimes(w, l)
    ensures LiveTimes(Step(w, e), Book(w, l, e))
  {
    match e {
      case Switch(newS, raw) => LiveTimesSwitch(w, l, newS, raw);
      case _ =>
    }
  }

  lemma LiveTimesSwitch(w: World, l: Ledger, newS: u16, raw: u32)
    requires w.Valid() && LiveTimes(w, l)
    ensures LiveTimes(OnSwitch(w, newS, raw), Book(w, l, Switch(newS, raw)))
  {
    assert |l.parkedRan| == |w.parked|;
    hide Ran, Shift, Tick, BestOf, AllRan, Park, ParkRan;
    var now, w' := w.clock.Sample(raw).Now(), OnSwitch(w, newS, raw);
    RanLater(l.ran, w.live.prof, w.clock.Now(), w'.clock.Now() - w.clock.Now());
    if !Ignored(w, newS) {
      var ran := Tick(l.ran, w'.clock.Now() - w.clock.Now());
      var best := BestOf(w.parked, newS, |w.parked|);
      if best.Some? {
        AllRanRemove(l.parkedRan, w.parked, best.value, now);
        AllRanPark(Remove(l.parkedRan, best.value), Remove(w.parked, best.value), w.live, ran, now);
      } else {
        RanNothing(now);
        AllRanPark(l.parkedRan, w.parked, w.live, ran, now);
      }
    }
  }

  lemma RanNothing(now: int)
    ensures Ran([], Shift([], now), now)
  {
  }

  lemma AllRanRemove(ran: seq<seq<int>>, parked: seq<Parked>, b: nat, now: int)
    requires AllRan(ran, parked) && b < |parked|
    ensures AllRan(Remove(ran, b), Remove(parked, b))
    ensures Ran(ran[b], Shift(parked[b].stack.prof, now - parked[b].at), now)
  {
    RanShift(ran[b], parked[b].stack.prof, parked[b].at, now);
  }

  lemma AllRanPark(others: seq<seq<int>>, parked: seq<Parked>, live: Stack, ran: seq<int>, now: int)
    requires AllRan(others, parked) && Ran(ran, live.prof, now)
    ensures AllRan(ParkRan(others, live, ran), Park(parked, live, now))
  {
  }

  // ----- the books balance -----

  /** The sum over all buckets, and everything it does not contain. */
  ghost predicate Balanced(w: World, l: Ledger)
  {
    ExclSum(w.stats) + l.filtered == l.root + ChildSum(w.live.prof) + ParkedSum(w.parked) + l.lost
  }

  lemma BalancedReturn(w: World, l: Ledger, raw: u32)
    requires w.Valid() && NestedWorld(w) && LiveTimes(w, l) && Balanced(w, l)
    ensures Balanced(OnReturn(w, raw), Book(w, l, Return(raw)))
  {
    hide ExclSum, Book, Charge, Exclusive, Record, Bucket;
    if w.live.calls != [] && w.active && w.live.prof != [] {
      var n := |w.live.prof| - 1;
      var top, below := w.live.prof[n], w.live.prof[..n];
      var incl := w.clock.Sample(raw).Now() - top.push;
      ChargeSum(below, incl);
      assert ChildSum(w.live.prof) == ChildSum(below) + top.childAcc;
      BookedReturn(w, l, raw, top, incl);
      RecordedExcl(w.stats, top.target, incl, Exclusive(incl, top.childAcc));
      ClampLosesNothing(w, raw, top, incl);
      hide ChildSum, NestedWorld, LiveTimes, OnReturn;
    } else {
      BookedNothing(w, l, raw);
    }
  }

  lemma RecordedExcl(stats: map<u32, Stat>, t: u32, incl: int, excl: int)
    ensures ExclSum(stats[t := Record(Bucket(stats, t), incl, excl)]) == ExclSum(stats) + excl
  {
    ExclSumUpdate(stats, t, Record(Bucket(stats, t), incl, excl));
  }

  lemma ClampLosesNothing(w: World, raw: u32, top: ProfFrame, incl: int)
    requires NestedWorld(w) && w.live.prof != [] && top == w.live.prof[|w.live.prof| - 1]
    requires incl == w.clock.Sample(raw).Now() - top.push
    ensures Exclusive(incl, top.childAcc) == incl - top.childAcc
  {
    NestedReturn(w.live.prof, w.clock.Now(), w.clock.Sample(raw).Now());
  }

  lemma BookedNothing(w: World, l: Ledger, raw: u32)
    requires w.Valid() && Shaped(w, l) && (w.live.calls == [] || !w.active || w.live.prof == [])
    ensures var w', l' := OnReturn(w, raw), Book(w, l, Return(raw));
            && w'.stats == w.stats && w'.live.prof == w.live.prof && w'.parked == w.parked
            && l'.root == l.root && l'.lost == l.lost && l'.filtered == l.filtered
  {
  }

  /** What a return that pops a profiler frame does to the world and to the books. */
  lemma BookedReturn(w: World, l: Ledger, raw: u32, top: ProfFrame, incl: int)
    requires w.Valid() && LiveTimes(w, l) && w.live.calls != [] && w.active && w.live.prof != []
    requires top == w.live.prof[|w.live.prof| - 1] && incl == w.clock.Sample(raw).Now() - top.push
    ensures var l', n := Book(w, l, Return(raw)), |w.live.prof| - 1;
            && l'.root == l.root + (if n == 0 then incl else 0)
            && l'.filtered == l.filtered + (if top.aggregated then 0 else Exclusive(incl, top.childAcc))
            && l'.lost == l.lost
    ensures var w' := OnReturn(w, raw);
            && w'.live.prof == Charge(w.live.prof[..|w.live.prof| - 1], incl) && w'.parked == w.parked
            && w'.stats == if top.aggregated
                           then w.stats[top.target := Record(Bucket(w.stats, top.target), incl, Exclusive(incl, top.childAcc))]
                           else w.stats
  {
    var n := |w.live.prof| - 1;
    assert l.ran[n] == w.clock.Now() - w.live.prof[n].push;
  }

  lemma BalancedSwitch(w: World, l: Ledger, newS: u16, raw: u32)
    requires w.Valid() && Shaped(w, l) && Balanced(w, l)
    ensures Balanced(OnSwitch(w, newS, raw), Book(w, l, Switch(newS, raw)))
  {
    hide BestOf, Shift, ExclSum, ChildSum, ParkedSum, Dropped, Park, ParkRan, Tick;
    if !Ignored(w, newS) {
      var now := w.clock.Sample(raw).Now();
      var best := BestOf(w.parked, newS, |w.parked|);
      if best.Some? {
        var p := w.parked[best.value];
        ParkedSumRemove(w.parked, best.value);
        ChildSumShift(p.stack.prof, now - p.at);
        ParkSum(Remove(w.parked, best.value), w.live, now);
      } else {
        ChildSumShift([], now);
        NoChildren();
        ParkSum(w.parked, w.live, now);
      }
    }
  }

  lemma NoChildren()
    ensures ChildSum([]) == 0
  {
  }

  lemma ParkSum(others: seq<Parked>, live: Stack, now: int)
    ensures ParkedSum(Park(others, live, now)) + Dropped(others, live) == ParkedSum(others) + ChildSum(live.prof)
  {
    if live.calls != [] {
      var kept := if |others| >= PARKED_CAP then others[1..] else others;
      ParkedSumConcat(kept, [Parked(live, now)]);
      ParkedSumOne(Parked(live, now));
      if |others| >= PARKED_CAP {
        ParkedSumConcat([others[0]], others[1..]);
        ParkedSumOne(others[0]);
        assert others == [others[0]] + others[1..];
      }
    }
  }

  /** Conservation: every event keeps the books balanced. */
  lemma BalancedStep(w: World, l: Ledger, e: Event)
    requires w.Valid() && NestedWorld(w) && LiveTimes(w, l) && Balanced(w, l)
    ensures Balanced(Step(w, e), Book(w, l, e))
  {
    match e {
      case Sample(_) =>
      case Call(_, target, _, _, raw) =>
        if w.active {
          var f := NewFrame(w, target, w.clock.Sample(raw).Now());
          assert (w.live.prof + [f])[..|w.live.prof|] == w.live.prof;
        }
      case Return(raw) => BalancedReturn(w, l, raw);
      case Switch(newS, raw) => BalancedSwitch(w, l, newS, raw);
      case ClearStacks =>
      case Start(_, _) => ClearedSum(ClearProf(w.parked));
      case Stop => ClearedSum(ClearProf(w.parked));
      case Reset => ClearedSum(ClearProf(w.parked));
    }
  }

  // ----- every run -----

  /** The books after a run. */
  ghost function Books(events: seq<Event>): (l: Ledger)
    ensures LiveTimes(Run(events), l)
  {
    hide Step, Book, LiveTimes, Shaped, World.Valid;
    if events == [] then
      StartIsLive();
      NO_LEDGER
    else
      var before, e := events[..|events| - 1], events[|events| - 1];
      var l := Books(before);
      LiveIsShaped(Run(before), l);
      LiveTimesStep(Run(before), l, e);
      Book(Run(before), l, e)
  }

  lemma LiveIsShaped(w: World, l: Ledger)
    requires LiveTimes(w, l)
    ensures Shaped(w, l)
  {
  }

  lemma StartIsLive()
    ensures LiveTimes(START, NO_LEDGER)
  {
  }

  lemma StartIsValid()
    ensures START.Valid()
  {
  }

  lemma StartIsNested()
    ensures NestedWorld(START)
  {
    hide Nested;
    NestedNone(START.clock.Now());
  }

  lemma StartIsBalanced()
    ensures Balanced(START, NO_LEDGER)
  {
    hide ExclSum, ChildSum, ParkedSum;
    EmptySums();
  }

  /** Every run is lawful. */
  lemma {:induction false} RunIsLawful(events: seq<Event>)
    ensures Lawful(Run(events), Books(events))
  {
    hide Lawful, Step, Book;
    if events == [] {
      LawfulStart();
    } else {
      var before, e := events[..|events| - 1], events[|events| - 1];
      RunIsLawful(before);
      LawfulStep(Run(before), Books(before), e);
    }
  }

  lemma LawfulStart()
    ensures Lawful(START, NO_LEDGER)
  {
    StartIsValid();
    StartIsNested();
    StartIsLive();
    StartIsBalanced();
    hide Balanced, NestedWorld, LiveTimes, World.Valid, START;
  }

  lemma EmptySums()
    ensures ExclSum(map[]) == 0 && ChildSum([]) == 0 && ParkedSum([]) == 0
  {
  }

  /** Everything a run keeps. */
  ghost predicate Lawful(w: World, l: Ledger)
  {
    w.Valid() && NestedWorld(w) && LiveTimes(w, l) && Balanced(w, l)
  }

  lemma LawfulStep(w: World, l: Ledger, e: Event)
    requires Lawful(w, l)
    ensures Lawful(Step(w, e), Book(w, l, e))
  {
    hide NestedWorld, LiveTimes, Balanced, Book, World.Valid;
    NestedStep(w, e);
    LiveTimesStep(w, l, e);
    BalancedStep(w, l, e);
  }

  /**
   Conservation over every run: the buckets' exclusive cycles, and those kept out by the range
   filter, are the inclusive cycles of completed root calls plus the child time still held by
   live and parked frames or lost with discarded ones.
   */
  lemma Conservation(events: seq<Event>)
    ensures var w, l := Run(events), Books(events);
            ExclSum(w.stats) + l.filtered == l.root + ChildSum(w.live.prof) + ParkedSum(w.parked) + l.lost
  {
    hide *;
    RunIsLawful(events);
    LawfulIsBalanced(Run(events), Books(events));
  }

  lemma LawfulIsBalanced(w: World, l: Ledger)
    requires Lawful(w, l)
    ensures ExclSum(w.stats) + l.filtered == l.root + ChildSum(w.live.prof) + ParkedSum(w.parked) + l.lost
  {
    hide ExclSum, ChildSum, ParkedSum, NestedWorld, LiveTimes;
  }

  /** A call of routine `t` that took `incl`, `excl` of it outside its callees, is in its bucket, if it is counted, and in no other. */
  ghost predicate Booked(stats: map<u32, Stat>, stats': map<u32, Stat>, t: u32, counted: bool, incl: int, excl: int)
  {
    && (forall u :: u in stats && (u != t || !counted) ==> u in stats' && stats'[u] == stats[u])
    && (forall u :: u in stats' && (u != t || !counted) ==> u in stats)
    && (counted ==> t in stats' && if t in stats then OneMore(stats[t], stats'[t], incl, excl) else First(stats'[t], incl, excl))
  }

  ghost predicate OneMore(s: Stat, s': Stat, incl: int, excl: int)
  {
    && s'.calls == s.calls + 1 && s'.incl == s.incl + incl && s'.excl == s.excl + excl
    && s'.max == (if incl > s.max then incl else s.max) && s'.min == (if incl < s.min then incl else s.min)
  }

  ghost predicate First(s: Stat, incl: int, excl: int)
  {
    && s.calls == 1 && s.incl == s.max == incl && s.excl == excl
    && (incl <= 0xFFFF_FFFF_FFFF_FFFF ==> s.min == incl)
  }

  /** The frame is gone, and its caller's callees have taken `incl` more. */
  ghost predicate CallerBooked(prof: seq<ProfFrame>, prof': seq<ProfFrame>, incl: int)
  {
    && |prof'| == |prof| - 1
    && forall i :: 0 <= i < |prof'| ==>
         prof'[i] == if i == |prof| - 2 then prof[i].(childAcc := prof[i].childAcc + incl) else prof[i]
  }

  /**
   In every reachable state a return that pops a profiler frame records exactly the time the
   frame's stack was live since the call, and never less than its children took, so the clamp
   in the exclusive time loses nothing.
   */
  lemma ReturnRecordsLiveTime(events: seq<Event>, raw: u32)
    requires var w := Run(events); w.live.calls != [] && w.active && w.live.prof != []
    ensures var w, l := Run(events), Books(events);
            var w', n := Step(w, Return(raw)), |w.live.prof| - 1;
            var top, elapsed := w.live.prof[n], w'.clock.Now() - w.clock.Now();
            && |l.ran| == n + 1
            && var incl := l.ran[n] + elapsed;
               && incl - top.childAcc >= 0 && top.childAcc >= 0
               && Booked(w.stats, w'.stats, top.target, top.aggregated, incl, incl - top.childAcc)
               && CallerBooked(w.live.prof, w'.live.prof, incl)
  {
    hide Run, Books;
    var w, l := Run(events), Books(events);
    RunIsLawful(events);
    ReturnFromLawful(w, l, raw);
  }

  lemma ReturnFromLawful(w: World, l: Ledger, raw: u32)
    requires Lawful(w, l) && w.live.calls != [] && w.active && w.live.prof != []
    ensures var w', n := Step(w, Return(raw)), |w.live.prof| - 1;
            var top, elapsed := w.live.prof[n], w'.clock.Now() - w.clock.Now();
            && |l.ran| == n + 1
            && var incl := l.ran[n] + elapsed;
               && incl - top.childAcc >= 0 && top.childAcc >= 0
               && Booked(w.stats, w'.stats, top.target, top.aggregated, incl, incl - top.childAcc)
               && CallerBooked(w.live.prof, w'.live.prof, incl)
  {
    NestedReturn(w.live.prof, w.clock.Now(), w.clock.Sample(raw).Now());
  }

  // ----- without a range filter nothing is filtered -----

  /** No start in the run sets a range. */
  ghost predicate NeverFiltered(events: seq<Event>)
  {
    forall i :: 0 <= i < |events| && events[i].Start? ==> Addr24(events[i].lo) == 0 && Addr24(events[i].hi) == 0
  }

  ghost predicate Aggregated(prof: seq<ProfFrame>)
  {
    forall k :: 0 <= k < |prof| ==> prof[k].aggregated
  }

  ghost predicate AllAggregated(w: World)
  {
    w.Unfiltered() && Aggregated(w.live.prof) && ParkedAggregated(w.parked)
  }

  ghost predicate ParkedAggregated(parked: seq<Parked>)
  {
    forall i :: 0 <= i < |parked| ==> Aggregated(parked[i].stack.prof)
  }

  lemma AggregatedStep(w: World, l: Ledger, e: Event)
    requires Lawful(w, l) && AllAggregated(w) && l.filtered == 0
    requires e.Start? ==> Addr24(e.lo) == 0 && Addr24(e.hi) == 0
    ensures AllAggregated(Step(w, e)) && Book(w, l, e).filtered == 0
  {
    assert Shaped(w, l);
    hide BestOf, NestedWorld, Balanced, Ran, AllRan;
    match e {
      case Sample(_) =>
      case Call(_, target, _, _, raw) =>
      case Return(raw) =>
      case Switch(newS, raw) => AggregatedSwitch(w, l, newS, raw);
      case ClearStacks =>
      case Start(_, _) =>
      case Stop =>
      case Reset =>
    }
  }

  lemma AggregatedSwitch(w: World, l: Ledger, newS: u16, raw: u32)
    requires w.Valid() && Shaped(w, l) && AllAggregated(w) && l.filtered == 0
    ensures AllAggregated(OnSwitch(w, newS, raw)) && Book(w, l, Switch(newS, raw)).filtered == 0
  {
    hide BestOf, Dropped, ParkRan, Tick, Park, Remove, Aggregated, ParkedAggregated;
    if !Ignored(w, newS) {
      var now := w.clock.Sample(raw).Now();
      var best := BestOf(w.parked, newS, |w.parked|);
      if best.Some? {
        AggregatedRemove(w.parked, best.value, now);
        AggregatedPark(Remove(w.parked, best.value), w.live, now);
      } else {
        AggregatedNone(now);
        AggregatedPark(w.parked, w.live, now);
      }
    }
  }

  lemma AggregatedNone(now: int)
    ensures Aggregated(Shift(NO_STACK.prof, now))
  {
  }

  lemma AggregatedRemove(parked: seq<Parked>, b: nat, now: int)
    requires ParkedAggregated(parked) && b < |parked|
    ensures ParkedAggregated(Remove(parked, b)) && Aggregated(Shift(parked[b].stack.prof, now - parked[b].at))
  {
  }

  lemma AggregatedPark(others: seq<Parked>, live: Stack, now: int)
    requires ParkedAggregated(others) && Aggregated(live.prof)
    ensures ParkedAggregated(Park(others, live, now))
  {
  }

  lemma {:induction false} NothingFiltered(events: seq<Event>)
    requires NeverFiltered(events)
    ensures AllAggregated(Run(events)) && Books(events).filtered == 0
  {
    if events == [] {
    } else {
      var before, e := events[..|events| - 1], events[|events| - 1];
      NothingFiltered(before);
      hide Lawful, AllAggregated, Step, Book;
      RunIsLawful(before);
      AggregatedStep(Run(before), Books(before), e);
    }
  }

  /** Conservation as users see it: with no range filter. */
  lemma UnfilteredConservation(events: seq<Event>)
    requires NeverFiltered(events)
    ensures var w, l := Run(events), Books(events);
            ExclSum(w.stats) == l.root + ChildSum(w.live.prof) + ParkedSum(w.parked) + l.lost
  {
    hide *;
    Conservation(events);
    NothingFiltered(events);
  }

  // ----- the clock -----

  /**
   The widened clock is exact after a sample exactly when less than one wrap of the 32-bit
   counter has passed since the last exact one.
   */
  lemma WideningIsExact(c: Clock, t: nat)
    requires c.Now() <= t && WholeWraps(c)
    ensures c.Sample(CounterAt(t)).Now() == t <==> t - c.Now() < 0x1_0000_0000
    ensures WholeWraps(c.Sample(CounterAt(t)))
  {
    var raw := t % 0x1_0000_0000;
    var wraps := t / 0x1_0000_0000;
    assert t == wraps * 0x1_0000_0000 + raw;
    assert c.base == c.base / 0x1_0000_0000 * 0x1_0000_0000;
  }

  function CounterAt(t: nat): u32 { t % 0x1_0000_0000 }

  /** The clock after sampling the counter at each of the given true times. */
  ghost function SampleAll(times: seq<nat>): Clock
  {
    if times == [] then Clock(0, 0)
    else SampleAll(times[..|times| - 1]).Sample(CounterAt(times[|times| - 1]))
  }

  ghost predicate WholeWraps(c: Clock) { c.base % 0x1_0000_0000 == 0 }

  ghost function Last(times: seq<nat>): nat { if times == [] then 0 else times[|times| - 1] }

  /** Non-decreasing times, each less than a wrap after the one before. */
  ghost predicate OncePerWrap(times: seq<nat>)
  {
    times != [] ==>
      var before := times[..|times| - 1];
      Last(before) <= Last(times) < Last(before) + 0x1_0000_0000 && OncePerWrap(before)
  }

  /** Sampled at least once per wrap, the widened clock shows the true time at every sample. */
  lemma {:induction false} SampledOncePerWrap(times: seq<nat>)
    requires OncePerWrap(times)
    ensures WholeWraps(SampleAll(times)) && SampleAll(times).Now() == Last(times)
  {
    hide Clock.Sample, CounterAt, WholeWraps, Clock.Now;
    if times == [] {
      NoWraps();
    } else {
      var before := times[..|times| - 1];
      SampledOncePerWrap(before);
      WideningIsExact(SampleAll(before), Last(times));
    }
  }

  lemma NoWraps()
    ensures WholeWraps(Clock(0, 0)) && Clock(0, 0).Now() == 0
  {
  }
}
