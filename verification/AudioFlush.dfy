/**
 setAudioEnabled run by any thread: its load and its store fall anywhere among the steps of a
 push and of a read. When that lets the two sides meet in a slot, and when it lets out again
 what it was to throw away. Indices are compared modulo 2^32 throughout, so nothing is assumed
 of how long a flush takes.
 */
module AudioFlush {
  import opened Prelude
  import opened AudioRing

  predicate Pending<S>(p: Producer<S>) { p.PWriteLeft? || p.PWriteRight? || p.PStore? }

  /** The write index once the push in flight is over. */
  function Ahead<S>(m: Machine<S>): u32 { if Pending(m.p) then Add32(m.writeIdx, 1) else m.writeIdx }

  /** How many frames the index is behind that. */
  function Behind<S>(m: Machine<S>, idx: u32): u32 { Sub32(Ahead(m), idx) }

  /** The index of the next frame to be handed out. */
  function NextRead<S>(m: Machine<S>): u32
  {
    if m.c.CIdle? then m.readIdx else Add32(m.c.rd, Copied(m.c))
  }

  /** Frames the read in flight still has to copy. */
  function ToCopy<S>(c: Consumer<S>): int
  {
    if c.CCopyLeft? || c.CCopyRight? then c.n - c.i else 0
  }

  predicate Formed<S>(m: Machine<S>)
  {
    && m.Valid() && (!m.p.PIdle? ==> m.p.w == m.writeIdx)
    && (m.c.CCopyRight? ==> m.c.i < m.c.n)
    && 0 <= ToCopy(m.c) <= Sub32(m.writeIdx, NextRead(m))
  }

  /** What a flush to `idx` must leave: the next read is not where a push is, and no push can get there first. */
  predicate Harmless<S>(m: Machine<S>, idx: u32)
  {
    if m.c.CIdle? then
      && (Writing(m).Some? ==> Behind(m, idx) <= FRAMES)
      && (Pending(m.p) ==> Behind(m, idx) >= 1)
    else
      Behind(m, NextRead(m)) <= Behind(m, idx) || Behind(m, idx) >= FRAMES
  }

  /** The states from which reads and pushes alone never meet in a slot. */
  predicate Sound<S>(m: Machine<S>)
  {
    && Formed(m) && Harmless(m, m.readIdx)
    && (Writing(m).Some? ==> Behind(m, NextRead(m)) <= FRAMES)
    && (Pending(m.p) ==> Behind(m, NextRead(m)) >= 1)
  }

  predicate Shares<S>(m: Machine<S>)
  {
    Writing(m).Some? && Writing(m) == Reading(m)
  }

  // ----- runs -----

  /** The state after any steps whatever, if each was enabled. */
  function Go<S>(m: Machine<S>, actions: seq<Action<S>>): (r: Option<Machine<S>>)
    requires m.Valid()
    ensures r.Some? ==> r.value.Valid()
    decreases |actions|
  {
    if actions == [] then Some(m)
    else if !Enabled(m, actions[0]) then None
    else Go(Step(m, actions[0]), actions[1..])
  }

  /** Every flush of the run stores harmlessly. */
  ghost predicate AllHarmless<S>(m: Machine<S>, actions: seq<Action<S>>)
    requires m.Valid()
    decreases |actions|
  {
    actions == [] || (Enabled(m, actions[0]) ==>
                        && (actions[0].FlushStore? ==> Harmless(m, m.f.w))
                        && AllHarmless(Step(m, actions[0]), actions[1..]))
  }

  predicate NoStore<S(==)>(actions: seq<Action<S>>)
  {
    FlushStore !in actions
  }

  /** No continuation without another flush brings both sides to one slot. */
  ghost predicate NeverShares<S(!new)>(m: Machine<S>)
    requires m.Valid()
  {
    forall actions: seq<Action<S>> :: NoStore(actions) && Go(m, actions).Some? ==> !Shares(Go(m, actions).value)
  }

  // ----- index arithmetic -----

  lemma OneOn(a: u32, b: u32)
    ensures Sub32(a, b) < WRAP - 1 ==> Sub32(Add32(a, 1), b) == Sub32(a, b) + 1
    ensures Sub32(a, b) == WRAP - 1 ==> Sub32(Add32(a, 1), b) == 0
    ensures Sub32(a, b) >= 1 ==> Sub32(a, Add32(b, 1)) == Sub32(a, b) - 1
  {
    hide Sub32, Add32;
  }

  lemma AddTwice(a: u32, i: nat, j: nat)
    ensures Add32(Add32(a, i), j) == Add32(a, i + j)
  {
  }

  /** Indices less than a ring apart use different slots, a ring apart the same. */
  lemma SlotsByDistance(a: u32, b: u32)
    ensures Sub32(a, b) == FRAMES ==> Slot(a) == Slot(b)
    ensures 0 < Sub32(a, b) < FRAMES ==> Slot(a) != Slot(b)
  {
    assert WRAP == 524288 * FRAMES;
  }

  // ----- sound states stay sound -----

  lemma SoundNeverShares<S>(m: Machine<S>)
    requires Sound(m)
    ensures !Shares(m)
  {
    if Writing(m).Some? && Reading(m).Some? {
      OneOn(m.writeIdx, NextRead(m));
      SlotsByDistance(m.writeIdx, NextRead(m));
    }
  }

  lemma PushKeepsSound<S>(m: Machine<S>, a: Action<S>)
    requires Sound(m) && Enabled(m, a) && ByProducer(a)
    ensures Sound(Step(m, a))
  {
    hide Sub32, Add32, Slot;
    OneOn(m.writeIdx, NextRead(m));
    OneOn(m.writeIdx, m.readIdx);
  }

  lemma ReadKeepsSound<S>(m: Machine<S>, a: Action<S>)
    requires Sound(m) && Enabled(m, a) && (a.ReadLoadRead? || a.ReadLoadWrite? || a.ReadLeft? || a.ReadRight? || a.ReadStore?)
    ensures Sound(Step(m, a))
  {
    hide Sub32, Add32, Slot;
    if a.ReadRight? { CopyKeepsSound(m); }
  }

  lemma CopyKeepsSound<S>(m: Machine<S>)
    requires Sound(m) && m.c.CCopyRight?
    ensures Sound(Step(m, ReadRight))
  {
    hide Sub32, Add32, Slot;
    AddTwice(m.c.rd, m.c.i, 1);
    OneOn(m.writeIdx, NextRead(m));
    OneOn(Ahead(m), NextRead(m));
  }

  lemma SoundStep<S>(m: Machine<S>, a: Action<S>)
    requires Sound(m) && Enabled(m, a) && (a.FlushStore? ==> Harmless(m, m.f.w))
    ensures Sound(Step(m, a))
  {
    if ByProducer(a) {
      PushKeepsSound(m, a);
    } else if !a.FlushLoad? && !a.FlushStore? {
      ReadKeepsSound(m, a);
    }
  }

  /** In every interleaving whose flushes store harmlessly, the two sides never touch one slot. */
  lemma {:induction false} HarmlessRunNeverShares<S>(m: Machine<S>, actions: seq<Action<S>>)
    requires Sound(m) && Go(m, actions).Some? && AllHarmless(m, actions)
    ensures Sound(Go(m, actions).value) && !Shares(Go(m, actions).value)
    decreases |actions|
  {
    assert m.Valid();
    hide Sound, Shares, Harmless, Enabled, Step;
    if actions == [] {
      SoundNeverShares(m);
    } else {
      SoundStep(m, actions[0]);
      HarmlessRunNeverShares(Step(m, actions[0]), actions[1..]);
    }
  }

  lemma StartIsSound<S>(m0: Machine<S>)
    requires Initial(m0)
    ensures Sound(m0)
  {
  }

  // ----- a flush that is not harmless -----

  lemma GoCons<S>(m: Machine<S>, a: Action<S>, rest: seq<Action<S>>)
    requires m.Valid() && Enabled(m, a)
    ensures Go(m, [a] + rest) == Go(Step(m, a), rest)
    ensures !a.FlushStore? && NoStore(rest) ==> NoStore([a] + rest)
  {
    hide Step, Enabled;
    assert ([a] + rest)[1..] == rest;
  }

  function ReaderRank<S>(c: Consumer<S>): nat
  {
    match c
    case CCopyRight(_, _, _, _) => 0
    case CCopyLeft(_, n, i) => if i < n then 1 else 4
    case CLoadedRead(frames, _) => if frames > 0 then 2 else 5
    case CIdle => 3
  }

  /** The reader's next step towards the frame `NextRead`, asking for one frame at a time. */
  function ReaderStep<S>(m: Machine<S>): (a: Action<S>)
    ensures Enabled(m, a) && !ByProducer(a) && !a.FlushStore? && !a.FlushLoad?
  {
    match m.c
    case CCopyRight(_, _, _, _) => ReadRight
    case CCopyLeft(_, n, i) => if i < n then ReadLeft else ReadStore
    case CLoadedRead(_, _) => ReadLoadWrite
    case CIdle => ReadLoadRead(1)
  }

  lemma ReaderMoves<S>(m: Machine<S>)
    requires Formed(m) && Sub32(m.writeIdx, NextRead(m)) >= 1
    ensures var m' := Step(m, ReaderStep(m));
            && Formed(m') && m'.p == m.p && m'.writeIdx == m.writeIdx
            && (m.c.CCopyRight? ==> Sub32(m.writeIdx, NextRead(m')) == Sub32(m.writeIdx, NextRead(m)) - 1)
            && (!m.c.CCopyRight? ==> NextRead(m') == NextRead(m) && ReaderRank(m'.c) < ReaderRank(m.c))
  {
    hide Sub32, Add32, Slot;
    if m.c.CCopyRight? {
      AddTwice(m.c.rd, m.c.i, 1);
      OneOn(m.writeIdx, NextRead(m));
    }
  }

  /** While a push writes a slot a ring or more ahead, the reader gets there. */
  lemma {:induction false} ReaderMeets<S>(m: Machine<S>) returns (actions: seq<Action<S>>)
    requires Formed(m) && Writing(m).Some? && Sub32(m.writeIdx, NextRead(m)) >= FRAMES
    ensures NoStore(actions) && Go(m, actions).Some? && Shares(Go(m, actions).value)
    decreases Sub32(m.writeIdx, NextRead(m)), ReaderRank(m.c)
  {
    if Sub32(m.writeIdx, NextRead(m)) == FRAMES && Reading(m).Some? {
      SlotsByDistance(m.writeIdx, NextRead(m));
      actions := [];
    } else {
      ReaderMoves(m);
      var rest := ReaderMeets(Step(m, ReaderStep(m)));
      GoCons(m, ReaderStep(m), rest);
      actions := [ReaderStep(m)] + rest;
    }
  }

  function ProducerStep<S>(m: Machine<S>, frame: Frame<S>): (a: Action<S>)
    ensures Enabled(m, a) && ByProducer(a)
  {
    match m.p
    case PIdle => PushLoadWrite(frame)
    case PLoadedWrite(_, _) => PushLoadRead
    case PWriteLeft(_, _) => PushLeft
    case PWriteRight(_, _) => PushRight
    case PStore(_, _) => PushStore
  }

  /** How far the writer still is from lapping the reader. */
  function Gap<S>(m: Machine<S>): nat
  {
    if Sub32(m.writeIdx, NextRead(m)) >= FRAMES then 0 else FRAMES - Sub32(m.writeIdx, NextRead(m))
  }

  function ProducerRank<S>(m: Machine<S>): nat
  {
    match m.p
    case PIdle => 4
    case PLoadedWrite(_, _) => 3
    case PWriteLeft(_, _) => 2
    case PWriteRight(_, _) => 1
    case PStore(_, _) => if Gap(m) == 0 then 5 else 0
  }

  /** A read in flight is overtaken when the read index stands ahead of it: the producer sees room there. */
  predicate Overtakable<S>(m: Machine<S>)
  {
    Formed(m) && !m.c.CIdle? && Behind(m, m.readIdx) < FRAMES && Behind(m, NextRead(m)) > Behind(m, m.readIdx)
  }

  predicate Overtaking<S>(m: Machine<S>)
  {
    Formed(m) && Writing(m).Some? && Gap(m) == 0
  }

  lemma ProducerMoves<S>(m: Machine<S>, frame: Frame<S>)
    requires Overtakable(m) && !Overtaking(m)
    ensures var m' := Step(m, ProducerStep(m, frame));
            && Formed(m')
            && (Overtaking(m') || (Overtakable(m') && (Gap(m') < Gap(m)
                                                       || (Gap(m') == Gap(m) && ProducerRank(m') < ProducerRank(m)))))
  {
    hide Sub32, Add32, Slot;
    OneOn(m.writeIdx, NextRead(m));
    OneOn(m.writeIdx, m.readIdx);
  }

  /** The producer fills the ring up to the slot the read stands at. */
  lemma {:induction false} ProducerMeets<S>(m: Machine<S>, frame: Frame<S>) returns (actions: seq<Action<S>>)
    requires Overtakable(m) || Overtaking(m)
    ensures NoStore(actions) && Go(m, actions).Some? && Shares(Go(m, actions).value)
    decreases if Overtaking(m) then 0 else 1, Gap(m), ProducerRank(m)
  {
    if Overtaking(m) {
      actions := ReaderMeets(m);
    } else {
      ProducerMoves(m, frame);
      hide Step, Go, Gap, ProducerRank, Shares, Writing;
      var a := ProducerStep(m, frame);
      var rest := ProducerMeets(Step(m, a), frame);
      GoCons(m, a, rest);
      actions := [a] + rest;
    }
  }

  /** A push about to store over an index a full 2^32 behind makes a whole ring look empty. */
  lemma WrappedDepthMeets<S>(m: Machine<S>, frame: Frame<S>) returns (actions: seq<Action<S>>)
    requires Formed(m) && m.c.CIdle? && m.p.PStore? && Behind(m, m.readIdx) == 0
    ensures NoStore(actions) && Go(m, actions).Some? && Shares(Go(m, actions).value)
  {
    hide Sub32, Add32, Slot;
    var m1 := Step(m, ReadLoadRead(1));
    var m2 := Step(m1, ReadLoadWrite);
    var m3 := Step(m2, PushStore);
    var m4 := Step(m3, PushLoadWrite(frame));
    var m5 := Step(m4, PushLoadRead);
    assert Shares(m5);
    hide Step, Shares;
    GoCons(m4, PushLoadRead, []);
    GoCons(m3, PushLoadWrite(frame), [PushLoadRead]);
    GoCons(m2, PushStore, [PushLoadWrite(frame)] + [PushLoadRead]);
    var later := [PushStore] + ([PushLoadWrite(frame)] + [PushLoadRead]);
    GoCons(m1, ReadLoadWrite, later);
    GoCons(m, ReadLoadRead(1), [ReadLoadWrite] + later);
    actions := [ReadLoadRead(1)] + ([ReadLoadWrite] + later);
  }

  /** After a flush that is not harmless, some steps of the two sides bring them to one slot. */
  lemma HarmfulStoreShares<S>(m: Machine<S>, frame: Frame<S>) returns (actions: seq<Action<S>>)
    requires Sound(m) && m.f.FLoaded? && !Harmless(m, m.f.w)
    ensures var m' := Step(m, FlushStore);
            NoStore(actions) && Go(m', actions).Some? && Shares(Go(m', actions).value)
  {
    var m' := Step(m, FlushStore);
    OneOn(m.writeIdx, m.f.w);
    if !m.c.CIdle? {
      actions := ProducerMeets(m', frame);
    } else if Writing(m).Some? {
      actions := ReaderMeets(m');
    } else {
      actions := WrappedDepthMeets(m', frame);
    }
  }

  /** A flush leaves a state in which the two sides never meet exactly when it is harmless. */
  lemma HarmlessIffNeverShares<S(!new)>(m: Machine<S>, frame: Frame<S>)
    requires Sound(m) && m.f.FLoaded?
    ensures Harmless(m, m.f.w) <==> NeverShares(Step(m, FlushStore))
  {
    var m' := Step(m, FlushStore);
    if Harmless(m, m.f.w) {
      SoundStep(m, FlushStore);
      hide Sound, Harmless, Step, Go, Shares;
      forall actions: seq<Action<S>> | NoStore(actions) && Go(m', actions).Some? ensures !Shares(Go(m', actions).value) {
        NoStoreIsHarmless(m', actions);
        HarmlessRunNeverShares(m', actions);
      }
    } else {
      var actions := HarmfulStoreShares(m, frame);
    }
  }

  lemma {:induction false} NoStoreIsHarmless<S>(m: Machine<S>, actions: seq<Action<S>>)
    requires m.Valid() && NoStore(actions)
    ensures AllHarmless(m, actions)
    decreases |actions|
  {
    hide Step, Enabled, Harmless;
    if actions != [] && Enabled(m, actions[0]) {
      NoStoreIsHarmless(Step(m, actions[0]), actions[1..]);
    }
  }

  // ----- what comes out after a flush -----

  /**
   The frames accepted, how many there were at the last flush's load, and, since the last
   flush's store, where the reader stood then and what it has handed out.
   */
  datatype Trail<S> = Trail(accepted: seq<Frame<S>>, flushTo: nat, start: int, out: seq<Frame<S>>)

  function Pushes<S>(m: Machine<S>): nat { if Pending(m.p) then 1 else 0 }

  /** Which accepted frame an index stands for. */
  ghost function Position<S>(m: Machine<S>, t: Trail<S>, idx: u32): int
  {
    |t.accepted| + Pushes(m) - Behind(m, idx)
  }

  ghost function Mark<S>(m: Machine<S>, t: Trail<S>, a: Action<S>): Trail<S>
    requires m.Valid() && Enabled(m, a)
  {
    match a
    case PushStore => t.(accepted := t.accepted + [m.p.frame])
    case ReadRight => t.(out := t.out + [Frame(m.c.left, m.right[Slot(Add32(m.c.rd, m.c.i))])])
    case FlushLoad => t.(flushTo := |t.accepted|)
    case FlushStore => t.(start := NextPosition(Step(m, FlushStore), t), out := [])
    case _ => t
  }

  /** Where the reader stands; no frame is before the first. */
  ghost function NextPosition<S>(m: Machine<S>, t: Trail<S>): nat
  {
    Max(0, Position(m, t, NextRead(m)))
  }

  /** The slots of the last `FRAMES` frames hold them, but for the slot a push has begun to write. */
  ghost predicate SlotsHold<S>(m: Machine<S>, t: Trail<S>)
    requires m.Valid()
  {
    && m.writeIdx == |t.accepted| % WRAP
    && (m.p.PWriteRight? || m.p.PStore? ==> m.left[|t.accepted| % FRAMES] == m.p.frame.left)
    && (m.p.PStore? ==> m.right[|t.accepted| % FRAMES] == m.p.frame.right)
    && forall k :: 0 <= k < |t.accepted| && |t.accepted| + Pushes(m) <= k + FRAMES ==>
         m.left[k % FRAMES] == t.accepted[k].left && m.right[k % FRAMES] == t.accepted[k].right
  }

  /** The reader stands at a frame of the ring, or where the next one goes. */
  predicate Placed<S>(m: Machine<S>)
  {
    && Formed(m) && Behind(m, NextRead(m)) <= FRAMES
    && (Pending(m.p) ==> Behind(m, NextRead(m)) >= 1)
  }

  /** The frames to be read are in the ring, and those handed out are the accepted ones from `start` on. */
  ghost predicate Held<S>(m: Machine<S>, t: Trail<S>)
  {
    && Placed(m) && SlotsHold(m, t)
    && (m.f.FLoaded? ==> m.f.w == t.flushTo % WRAP && t.flushTo <= |t.accepted|)
    && Position(m, t, NextRead(m)) == t.start + |t.out|
    && OutHolds(m.c, t)
  }

  ghost predicate Kept<S>(m: Machine<S>, t: Trail<S>)
  {
    Sound(m) && Held(m, t)
  }

  ghost predicate OutHolds<S>(c: Consumer<S>, t: Trail<S>)
  {
    var r := t.start + |t.out|;
    && 0 <= t.start <= r <= |t.accepted| && t.out == t.accepted[t.start..r]
    && (c.CCopyRight? ==> r < |t.accepted| && c.left == t.accepted[r].left)
  }

  /** A flush that is harmless and, outside a read, goes no further back than the ring reaches. */
  predicate Clean<S>(m: Machine<S>, idx: u32)
  {
    Harmless(m, idx) && (m.c.CIdle? ==> Behind(m, idx) <= FRAMES)
  }

  lemma PushKeeps<S>(m: Machine<S>, t: Trail<S>, a: Action<S>)
    requires Kept(m, t) && Enabled(m, a) && ByProducer(a)
    ensures Kept(Step(m, a), Mark(m, t, a))
  {
    PushKeepsSound(m, a);
    PushKeepsSlots(m, t, a);
    PushKeepsReader(m, t, a);
    hide Sub32, Add32, Slot, SlotsHold, Sound, Harmless, Behind, NextRead, Position;
    var m', t' := Step(m, a), Mark(m, t, a);
    assert Sound(m');
    assert SlotsHold(m', t');
    assert OutHolds(m'.c, t');
    assert Behind(m', NextRead(m')) <= FRAMES && Position(m', t', NextRead(m')) == t'.start + |t'.out|;
  }

  lemma PushKeepsSlots<S>(m: Machine<S>, t: Trail<S>, a: Action<S>)
    requires Formed(m) && SlotsHold(m, t) && Enabled(m, a) && ByProducer(a)
    ensures SlotsHold(Step(m, a), Mark(m, t, a))
  {
    hide Sub32;
    WrappedSlot(|t.accepted|, 1);
    if a.PushLeft? || a.PushRight? {
      forall k | 0 <= k < |t.accepted| && |t.accepted| + 1 <= k + FRAMES
        ensures k % FRAMES != |t.accepted| % FRAMES
      {
        SlotsDiffer(k, |t.accepted|);
      }
    }
  }

  /** A push leaves the reader's frames in the ring. */
  lemma PushKeepsReader<S>(m: Machine<S>, t: Trail<S>, a: Action<S>)
    requires Sound(m) && Enabled(m, a) && ByProducer(a)
    requires Behind(m, NextRead(m)) <= FRAMES && Position(m, t, NextRead(m)) <= |t.accepted|
    ensures var m' := Step(m, a);
            && Behind(m', NextRead(m')) <= FRAMES
            && Position(m', Mark(m, t, a), NextRead(m')) == Position(m, t, NextRead(m))
  {
    hide Sub32, Add32, Slot;
    OneOn(m.writeIdx, NextRead(m));
  }

  /** The frame the reader stands at is in its slot. */
  lemma ReaderFindsFrame<S>(m: Machine<S>, t: Trail<S>, r: nat)
    requires Placed(m) && SlotsHold(m, t) && Position(m, t, NextRead(m)) == r && ToCopy(m.c) >= 1
    ensures r < |t.accepted| && Slot(NextRead(m)) == r % FRAMES
    ensures m.left[Slot(NextRead(m))] == t.accepted[r].left && m.right[Slot(NextRead(m))] == t.accepted[r].right
  {
    assert r < |t.accepted| && Ahead(m) == (|t.accepted| + Pushes(m)) % WRAP by {
      hide Slot;
      OneOn(m.writeIdx, NextRead(m));
      WrappedSlot(|t.accepted|, 1);
    }
    hide Placed, Ahead;
    IndexAt(|t.accepted| + Pushes(m), NextRead(m), r);
    WrappedSlot(r, 0);
  }

  lemma IndexAt(a: nat, idx: u32, r: nat)
    requires r == a - Sub32(a % WRAP, idx)
    ensures r % WRAP == idx
  {
    var d := Sub32(a % WRAP, idx);
    assert a == a / WRAP * WRAP + a % WRAP;
    if a % WRAP >= idx {
      assert r == a / WRAP * WRAP + idx;
    } else {
      assert r == (a / WRAP - 1) * WRAP + idx;
    }
  }

  lemma CopyKeeps<S>(m: Machine<S>, t: Trail<S>, a: Action<S>)
    requires Held(m, t) && Enabled(m, a) && (a.ReadLeft? || a.ReadRight?)
    ensures Held(Step(m, a), Mark(m, t, a))
  {
    var r := t.start + |t.out|;
    ReaderFindsFrame(m, t, r);
    CopyMoves(m, t, a);
    hide Sub32, Add32, Slot, Placed, Behind, NextRead, Position;
    var m', t' := Step(m, a), Mark(m, t, a);
    assert SlotsHold(m', t');
    assert Placed(m') && Position(m', t', NextRead(m')) == t'.start + |t'.out|;
    OneMoreOut(t.accepted, t.start, r);
  }

  lemma OneMoreOut<T>(s: seq<T>, i: nat, r: nat)
    requires i <= r < |s|
    ensures s[i..r] + [s[r]] == s[i..r + 1]
  {
  }

  lemma CopyMoves<S>(m: Machine<S>, t: Trail<S>, a: Action<S>)
    requires Placed(m) && Enabled(m, a) && (a.ReadLeft? || a.ReadRight?)
    ensures Placed(Step(m, a))
    ensures var m' := Step(m, a);
            var moved := if a.ReadRight? then 1 else 0;
            && Behind(m', NextRead(m')) == Behind(m, NextRead(m)) - moved
            && Position(m', Mark(m, t, a), NextRead(m')) == Position(m, t, NextRead(m)) + moved
    ensures Slot(Add32(m.c.rd, m.c.i)) == Slot(NextRead(m)) && ToCopy(m.c) >= 1
  {
    hide Sub32, Add32, Slot;
    AddTwice(m.c.rd, m.c.i, 1);
    OneOn(m.writeIdx, NextRead(m));
    OneOn(Ahead(m), NextRead(m));
  }

  lemma ReadKeepsPlace<S>(m: Machine<S>, t: Trail<S>, a: Action<S>)
    requires Held(m, t) && Enabled(m, a) && (a.ReadLoadRead? || a.ReadLoadWrite? || a.ReadStore?)
    ensures Held(Step(m, a), Mark(m, t, a))
  {
    var m', t' := Step(m, a), Mark(m, t, a);
    assert NextRead(m') == NextRead(m) && Ahead(m') == Ahead(m) by { hide Sub32, Slot; }
    hide Sub32, Add32, Slot, NextRead;
    assert SlotsHold(m', t') && OutHolds(m'.c, t');
  }

  lemma FlushKeepsKept<S>(m: Machine<S>, t: Trail<S>, a: Action<S>)
    requires Kept(m, t) && Enabled(m, a) && (a.FlushLoad? || (a.FlushStore? && Clean(m, m.f.w)))
    ensures Kept(Step(m, a), Mark(m, t, a))
  {
    hide *;
    if a.FlushLoad? { LoadKeepsKept(m, t); } else { StoreKeepsKept(m, t); }
  }

  lemma LoadKeepsKept<S>(m: Machine<S>, t: Trail<S>)
    requires Kept(m, t) && Enabled(m, FlushLoad)
    ensures Kept(Step(m, FlushLoad), Mark(m, t, FlushLoad))
  {
    SoundStep(m, FlushLoad);
    var m', t' := Step(m, FlushLoad), Mark(m, t, FlushLoad);
    hide Sub32, Add32, Slot, Sound, Harmless;
    assert SlotsHold(m', t') && OutHolds(m'.c, t');
  }

  lemma StoreKeepsKept<S>(m: Machine<S>, t: Trail<S>)
    requires Kept(m, t) && Enabled(m, FlushStore) && Clean(m, m.f.w)
    ensures Kept(Step(m, FlushStore), Mark(m, t, FlushStore))
  {
    SoundStep(m, FlushStore);
    var m', t' := Step(m, FlushStore), Mark(m, t, FlushStore);
    FlushedPlace(m, t);
    hide Sub32, Add32, Slot, Sound, Harmless;
    assert SlotsHold(m', t') && OutHolds(m'.c, t');
  }

  /** The flush's index stands for no frame older than those it was to throw away. */
  lemma FlushAt<S>(m: Machine<S>, t: Trail<S>)
    requires Kept(m, t) && m.f.FLoaded?
    ensures t.flushTo <= Position(m, t, m.f.w)
  {
    hide Slot, Harmless;
    WrappedSlot(|t.accepted|, 1);
    FlushBehind(|t.accepted| + Pushes(m), t.flushTo);
  }

  /** A flush outside a read puts the reader where the flush found the writer, inside one it leaves it where it was. */
  lemma FlushedPlace<S>(m: Machine<S>, t: Trail<S>)
    requires Kept(m, t) && m.f.FLoaded? && Clean(m, m.f.w)
    ensures var m', t' := Step(m, FlushStore), Mark(m, t, FlushStore);
            && Behind(m', NextRead(m')) <= FRAMES && Position(m', t', NextRead(m')) == t'.start <= |t.accepted|
            && t'.start == (if m.c.CIdle? then Position(m, t, m.f.w) else t.start + |t.out|)
  {
    FlushAt(m, t);
    assert Pending(m.p) && m.c.CIdle? ==> Behind(m, m.f.w) >= 1;
    hide Sub32, Add32, Slot, SlotsHold;
  }

  lemma FlushBehind(a: nat, f: nat)
    requires f <= a
    ensures Sub32(a % WRAP, f % WRAP) <= a - f
    ensures a < f + WRAP ==> Sub32(a % WRAP, f % WRAP) == a - f
  {
    var k := (a - f) / WRAP;
    WrappedDistance(a - k * WRAP, f);
    ModWhole(a - k * WRAP, k);
  }

  lemma {:induction false} ModWhole(a: nat, k: nat)
    ensures (a + k * WRAP) % WRAP == a % WRAP
  {
    if k > 0 {
      ModWhole(a, k - 1);
      ModAdd(a + (k - 1) * WRAP, WRAP);
      assert (a + (k - 1) * WRAP + WRAP) == a + k * WRAP;
    }
  }

  lemma KeptStep<S>(m: Machine<S>, t: Trail<S>, a: Action<S>)
    requires Kept(m, t) && Enabled(m, a) && (a.FlushStore? ==> Clean(m, m.f.w))
    ensures Kept(Step(m, a), Mark(m, t, a))
  {
    SoundStep(m, a);
    hide Held, Sound, Step, Mark, Clean;
    if ByProducer(a) {
      PushKeeps(m, t, a);
    } else if a.ReadLeft? || a.ReadRight? {
      CopyKeeps(m, t, a);
    } else if a.FlushLoad? || a.FlushStore? {
      FlushKeepsKept(m, t, a);
    } else {
      ReadKeepsPlace(m, t, a);
    }
  }

  /** A run with its trail. */
  ghost function Follow<S>(m: Machine<S>, t: Trail<S>, actions: seq<Action<S>>): (r: Option<(Machine<S>, Trail<S>)>)
    requires m.Valid()
    decreases |actions|
  {
    if actions == [] then Some((m, t))
    else if !Enabled(m, actions[0]) then None
    else Follow(Step(m, actions[0]), Mark(m, t, actions[0]), actions[1..])
  }

  ghost predicate AllClean<S>(m: Machine<S>, actions: seq<Action<S>>)
    requires m.Valid()
    decreases |actions|
  {
    actions == [] || (Enabled(m, actions[0]) ==>
                        && (actions[0].FlushStore? ==> Clean(m, m.f.w))
                        && AllClean(Step(m, actions[0]), actions[1..]))
  }

  lemma KeptIsValid<S>(m: Machine<S>, t: Trail<S>)
    requires Kept(m, t)
    ensures m.Valid() && t.start + |t.out| <= |t.accepted| && t.out == t.accepted[t.start..t.start + |t.out|]
  {
  }

  /**
   In every interleaving whose flushes are clean, what has come out since the last one is the
   accepted stream from `start` on, whole frames in order.
   */
  lemma {:induction false} OutputSinceFlush<S>(m: Machine<S>, t: Trail<S>, actions: seq<Action<S>>)
    requires Kept(m, t) && m.Valid() && Follow(m, t, actions).Some? && AllClean(m, actions)
    ensures var (m', t') := Follow(m, t, actions).value;
            && Kept(m', t') && t'.start + |t'.out| <= |t'.accepted| && t'.out == t'.accepted[t'.start..t'.start + |t'.out|]
    decreases |actions|
  {
    hide Kept, Step, Mark, Clean, Enabled;
    if actions == [] {
      KeptIsValid(m, t);
    } else {
      KeptStep(m, t, actions[0]);
      OutputSinceFlush(Step(m, actions[0]), Mark(m, t, actions[0]), actions[1..]);
    }
  }

  lemma StartIsKept<S>(m0: Machine<S>)
    requires Initial(m0)
    ensures Kept(m0, Trail([], 0, 0, []))
  {
  }

  // ----- frames from before the flush -----

  /** Some continuation first hands out an accepted frame that is older than the first `flushed`. */
  ghost predicate ComesOut<S(!new)>(m: Machine<S>, t: Trail<S>, flushed: nat)
    requires m.Valid()
  {
    exists actions: seq<Action<S>> ::
      && NoStore(actions) && Follow(m, t, actions).Some?
      && FirstIsOlder(Follow(m, t, actions).value.1, flushed)
  }

  ghost predicate FirstIsOlder<S>(t: Trail<S>, flushed: nat)
  {
    t.out != [] && t.start < flushed && 0 <= t.start < |t.accepted| && t.out[0] == t.accepted[t.start]
  }

  lemma FollowCons<S>(m: Machine<S>, t: Trail<S>, a: Action<S>, rest: seq<Action<S>>)
    requires m.Valid() && Enabled(m, a)
    ensures Follow(m, t, [a] + rest) == Follow(Step(m, a), Mark(m, t, a), rest)
    ensures !a.FlushStore? && NoStore(rest) ==> NoStore([a] + rest)
  {
    hide Step, Enabled, Mark;
    assert ([a] + rest)[1..] == rest;
  }

  lemma HeldIsFormed<S>(m: Machine<S>, t: Trail<S>)
    requires Held(m, t)
    ensures Formed(m) && t.start + |t.out| <= |t.accepted| && t.out == t.accepted[t.start..t.start + |t.out|]
  {
  }

  /** The reader alone hands out another frame, if there is one. */
  lemma {:induction false} ReaderHandsOut<S>(m: Machine<S>, t: Trail<S>) returns (actions: seq<Action<S>>)
    requires Held(m, t) && m.Valid() && Sub32(m.writeIdx, NextRead(m)) >= 1
    ensures NoStore(actions) && Follow(m, t, actions).Some?
    ensures var (m', t') := Follow(m, t, actions).value;
            Held(m', t') && t'.start == t.start && |t'.out| == |t.out| + 1
    decreases ReaderRank(m.c)
  {
    var a := ReaderStep(m);
    HeldIsFormed(m, t);
    ReaderMoves(m);
    var m', t' := Step(m, a), Mark(m, t, a);
    if a.ReadLeft? || a.ReadRight? { CopyKeeps(m, t, a); } else { ReadKeepsPlace(m, t, a); }
    hide Held, NextRead, Sub32, Formed;
    var rest: seq<Action<S>> := [];
    if !m.c.CCopyRight? { rest := ReaderHandsOut(m', t'); }
    FollowCons(m, t, a, rest);
    actions := [a] + rest;
  }

  lemma {:induction false} StartKept<S>(m: Machine<S>, t: Trail<S>, actions: seq<Action<S>>)
    requires m.Valid() && NoStore(actions) && Follow(m, t, actions).Some?
    ensures Follow(m, t, actions).value.1.start == t.start
    decreases |actions|
  {
    hide Enabled, Step;
    if actions != [] {
      assert actions[0] in actions;
      StartKept(Step(m, actions[0]), Mark(m, t, actions[0]), actions[1..]);
    }
  }

  lemma FlushedIdle<S>(m: Machine<S>, t: Trail<S>)
    requires Kept(m, t) && m.f.FLoaded? && m.c.CIdle?
    ensures Step(m, FlushStore).Valid() && Mark(m, t, FlushStore).start >= t.flushTo
  {
    FlushAt(m, t);
    hide Harmless, Sub32, Add32, Slot, Sound;
  }

  lemma FlushedReading<S>(m: Machine<S>, t: Trail<S>)
    requires Kept(m, t) && m.f.FLoaded? && !m.c.CIdle?
    ensures var m', t' := Step(m, FlushStore), Mark(m, t, FlushStore);
            && m'.Valid() && t'.start == Position(m, t, NextRead(m)) && Held(m', t')
            && (t'.start < t.flushTo ==> Sub32(m'.writeIdx, NextRead(m')) >= 1)
  {
    var m', t' := Step(m, FlushStore), Mark(m, t, FlushStore);
    FlushAt(m, t);
    hide Harmless;
    OneOn(m.writeIdx, NextRead(m));
    hide Sub32, Add32, Slot, Sound;
    assert SlotsHold(m', t') && OutHolds(m'.c, t');
  }

  /** After a flush in a read the reader stands where it stood; after any other, at a frame the flush left. */
  lemma FlushedStart<S>(m: Machine<S>, t: Trail<S>)
    requires Kept(m, t) && m.f.FLoaded?
    ensures var m', t' := Step(m, FlushStore), Mark(m, t, FlushStore);
            && m'.Valid() && (m.c.CIdle? ==> t'.start >= t.flushTo)
            && (!m.c.CIdle? ==> t'.start == Position(m, t, NextRead(m)) && Held(m', t'))
            && (!m.c.CIdle? && t'.start < t.flushTo ==> Sub32(m'.writeIdx, NextRead(m')) >= 1)
  {
    hide *;
    if m.c.CIdle? { FlushedIdle(m, t); } else { FlushedReading(m, t); }
  }

  /** After a flush, frames accepted before it come out exactly when a read is in flight that has not yet copied that far. */
  lemma StaleFramesComeOutIff<S(!new)>(m: Machine<S>, t: Trail<S>)
    requires Kept(m, t) && m.f.FLoaded?
    ensures ComesOut(Step(m, FlushStore), Mark(m, t, FlushStore), t.flushTo)
       <==> !m.c.CIdle? && Position(m, t, NextRead(m)) < t.flushTo
  {
    var m', t' := Step(m, FlushStore), Mark(m, t, FlushStore);
    FlushedStart(m, t);
    hide Kept, Held, Step, Mark, Follow, Position, NextRead, Sub32;
    if !m.c.CIdle? && t'.start < t.flushTo {
      var actions := ReaderHandsOut(m', t');
      var (m'', t'') := Follow(m', t', actions).value;
      HeldIsFormed(m'', t'');
      assert FirstIsOlder(t'', t.flushTo) by { FlushEmpties(m, t); }
    }
    forall actions: seq<Action<S>> | NoStore(actions) && Follow(m', t', actions).Some?
      ensures Follow(m', t', actions).value.1.start == t'.start
    {
      StartKept(m', t', actions);
    }
  }

  lemma FlushEmpties<S>(m: Machine<S>, t: Trail<S>)
    requires m.Valid() && m.f.FLoaded?
    ensures Mark(m, t, FlushStore).out == []
  {
  }

  /** Frames the read in flight still has to copy, or has been asked for when it has yet to load the write index. */
  function Wanted<S>(c: Consumer<S>): int
  {
    if c.CLoadedRead? then c.frames else ToCopy(c)
  }

  /** The read index the read will store, rd + n, as a position: rd + frames while n is unknown. */
  ghost function ReadEnd<S>(m: Machine<S>, t: Trail<S>): int
  {
    Position(m, t, NextRead(m)) + Wanted(m.c)
  }

  /** A read that the producer is at most two rings ahead of. */
  predicate Trailing<S>(m: Machine<S>)
  {
    && Formed(m) && !m.c.CIdle?
    && (Pending(m.p) ==> Behind(m, NextRead(m)) >= 1)
    && Behind(m, NextRead(m)) <= Min(2 * FRAMES, Behind(m, m.readIdx) + FRAMES)
  }

  /** Whatever the producer does until the read's store, the read ends before the first `flushed` frames do or not. */
  lemma {:induction false} ReadEndKept<S>(m: Machine<S>, t: Trail<S>, actions: seq<Action<S>>, flushed: nat)
    requires Trailing(m) && m.Valid() && NoStore(actions) && ReadStore !in actions && Follow(m, t, actions).Some?
    requires flushed <= |t.accepted|
    ensures var (m', t') := Follow(m, t, actions).value;
            Trailing(m') && (ReadEnd(m', t') < flushed <==> ReadEnd(m, t) < flushed)
    decreases |actions|
  {
    hide Trailing, ReadEnd;
    if actions != [] {
      var a := actions[0];
      assert a in actions;
      ReadEndStep(m, t, a, flushed);
      assert |t.accepted| <= |Mark(m, t, a).accepted|;
      hide Enabled, Step, Mark;
      ReadEndKept(Step(m, a), Mark(m, t, a), actions[1..], flushed);
    }
  }

  lemma ReadEndStep<S>(m: Machine<S>, t: Trail<S>, a: Action<S>, flushed: nat)
    requires Trailing(m) && Enabled(m, a) && !a.FlushStore? && !a.ReadStore? && flushed <= |t.accepted|
    ensures Trailing(Step(m, a)) && (ReadEnd(Step(m, a), Mark(m, t, a)) < flushed <==> ReadEnd(m, t) < flushed)
  {
    assert !m.c.CIdle?;
    hide Trailing, Mark, ReadEnd;
    if ByProducer(a) {
      PushKeepsEnd(m, t, a);
    } else if a.ReadLoadWrite? {
      LoadKeepsEnd(m, t, flushed);
    } else {
      CopyKeepsEnd(m, t, a);
    }
  }

  /** The read takes what it was asked for, or all there is: then it ends no earlier than what was accepted before. */
  lemma LoadKeepsEnd<S>(m: Machine<S>, t: Trail<S>, flushed: nat)
    requires Trailing(m) && m.c.CLoadedRead? && flushed <= |t.accepted|
    ensures var m' := Step(m, ReadLoadWrite);
            Trailing(m') && (ReadEnd(m', Mark(m, t, ReadLoadWrite)) < flushed <==> ReadEnd(m, t) < flushed)
  {
    var m' := Step(m, ReadLoadWrite);
    assert NextRead(m') == NextRead(m) == m.c.rd by { hide Sub32, Slot; }
    assert Position(m, t, m.c.rd) + Sub32(m.writeIdx, m.c.rd) == |t.accepted| by {
      hide Sub32, Add32, Slot;
      OneOn(m.writeIdx, m.c.rd);
    }
    hide Sub32, Add32, Slot, NextRead;
  }

  lemma PushKeepsEnd<S>(m: Machine<S>, t: Trail<S>, a: Action<S>)
    requires Trailing(m) && Enabled(m, a) && ByProducer(a)
    ensures Trailing(Step(m, a)) && ReadEnd(Step(m, a), Mark(m, t, a)) == ReadEnd(m, t)
  {
    var m' := Step(m, a);
    PushMoves(m, a);
    hide Sub32, Add32, Slot, Step, Mark, Formed, Ahead, NextRead;
    MarkedPush(m, t, a);
    OneOn(m.writeIdx, NextRead(m));
    OneOn(m.writeIdx, m.readIdx);
  }

  lemma MarkedPush<S>(m: Machine<S>, t: Trail<S>, a: Action<S>)
    requires m.Valid() && Enabled(m, a) && ByProducer(a)
    ensures |Mark(m, t, a).accepted| + Pushes(Step(m, a)) == |t.accepted| + Pushes(m) + (if Enters(m, a) then 1 else 0)
  {
    hide Sub32, Add32, Slot;
  }

  predicate Enters<S>(m: Machine<S>, a: Action<S>)
  {
    a.PushLoadRead? && m.p.PLoadedWrite? && Sub32(m.p.w, m.readIdx) < FRAMES
  }

  /** A push moves `Ahead` when it finds room, and nothing of the reader. */
  lemma PushMoves<S>(m: Machine<S>, a: Action<S>)
    requires Formed(m) && Enabled(m, a) && ByProducer(a) && (m.p.PStore? ==> Behind(m, NextRead(m)) >= 1)
    ensures var m' := Step(m, a);
            && Formed(m') && m'.c == m.c && m'.readIdx == m.readIdx && NextRead(m') == NextRead(m)
            && (Enters(m, a) ==> m.p.w == m.writeIdx && Ahead(m) == m.writeIdx && Ahead(m') == Add32(m.writeIdx, 1) && Pending(m'.p))
            && (!Enters(m, a) ==> Ahead(m') == Ahead(m) && (Pending(m'.p) ==> Pending(m.p)))
  {
    hide Sub32, Add32, Slot;
    OneOn(m.writeIdx, NextRead(m));
  }

  lemma CopyKeepsEnd<S>(m: Machine<S>, t: Trail<S>, a: Action<S>)
    requires Trailing(m) && (a == ReadLeft || a == ReadRight || a == FlushLoad) && Enabled(m, a)
    ensures Trailing(Step(m, a)) && ReadEnd(Step(m, a), Mark(m, t, a)) == ReadEnd(m, t)
  {
    hide Sub32, Add32, Slot;
    if a == ReadRight {
      AddTwice(m.c.rd, m.c.i, 1);
      OneOn(m.writeIdx, NextRead(m));
      OneOn(Ahead(m), NextRead(m));
    }
  }

  /**
   When the read that a flush fell into stores its index, frames accepted before the flush are
   to be read again exactly when the read was not going to take all of them, as far as it was
   asked for.
   */
  lemma StoreUndoesFlushIff<S>(m: Machine<S>, t: Trail<S>, actions: seq<Action<S>>)
    requires Kept(m, t) && m.Valid() && m.f.FLoaded? && !m.c.CIdle?
    requires NoStore(actions) && ReadStore !in actions
    requires Follow(Step(m, FlushStore), Mark(m, t, FlushStore), actions).Some?
    ensures var (m', t') := Follow(Step(m, FlushStore), Mark(m, t, FlushStore), actions).value;
            Trailing(m') && (Enabled(m', ReadStore) ==>
              var stored := Step(m', ReadStore);
              Position(stored, t', stored.readIdx) < t.flushTo <==> ReadEnd(m, t) < t.flushTo)
  {
    var m1, t1 := Step(m, FlushStore), Mark(m, t, FlushStore);
    assert Trailing(m1) && ReadEnd(m1, t1) == ReadEnd(m, t) by { hide Sub32, Add32, Slot; }
    ReadEndKept(m1, t1, actions, t.flushTo);
    var (m', t') := Follow(m1, t1, actions).value;
    if Enabled(m', ReadStore) { StoredAtEnd(m', t'); }
  }

  lemma StoredAtEnd<S>(m: Machine<S>, t: Trail<S>)
    requires Formed(m) && Enabled(m, ReadStore)
    ensures var stored := Step(m, ReadStore); Position(stored, t, stored.readIdx) == ReadEnd(m, t)
  {
    var stored := Step(m, ReadStore);
    assert stored.readIdx == NextRead(m) && stored.writeIdx == m.writeIdx && stored.p == m.p;
    hide Sub32, Add32, Slot, Step, Formed, NextRead;
  }

  // ----- no read in flight -----

  /** A flush under way outside any read. */
  predicate Quiet<S>(m: Machine<S>)
  {
    && Sound(m) && m.c.CIdle? && m.f.FLoaded?
    && Behind(m, m.f.w) <= Behind(m, m.readIdx) && (Pending(m.p) ==> Behind(m, m.f.w) >= 1)
  }

  lemma QuietStep<S>(m: Machine<S>, a: Action<S>)
    requires Quiet(m) && Enabled(m, a) && ByProducer(a)
    ensures Quiet(Step(m, a))
  {
    PushKeepsSound(m, a);
    PushMoves(m, a);
    hide Sub32, Add32, Slot, Step, Sound;
    OneOn(m.writeIdx, m.f.w);
    OneOn(m.writeIdx, m.readIdx);
    FlagKept(m, a);
  }

  lemma FlagKept<S>(m: Machine<S>, a: Action<S>)
    requires m.Valid() && Enabled(m, a) && ByProducer(a)
    ensures Step(m, a).f == m.f
  {
  }

  lemma {:induction false} QuietRun<S>(m: Machine<S>, actions: seq<Action<S>>)
    requires Quiet(m) && m.Valid() && Go(m, actions).Some? && forall a :: a in actions ==> ByProducer(a)
    ensures Quiet(Go(m, actions).value)
    decreases |actions|
  {
    hide Quiet;
    if actions != [] {
      assert actions[0] in actions;
      QuietStep(m, actions[0]);
      hide Step, Enabled, ByProducer;
      QuietRun(Step(m, actions[0]), actions[1..]);
    }
  }

  /** From any sound state, a flush with nothing but pushes between its load and its store is harmless. */
  lemma QuietFlushIsHarmless<S>(m: Machine<S>, pushes: seq<Action<S>>)
    requires Sound(m) && m.c.CIdle? && m.f.FIdle? && forall a :: a in pushes ==> ByProducer(a)
    requires Go(Step(m, FlushLoad), pushes).Some?
    ensures var m' := Go(Step(m, FlushLoad), pushes).value;
            m'.c.CIdle? && m'.f.FLoaded? && Harmless(m', m'.f.w)
  {
    OneOn(m.writeIdx, m.writeIdx);
    assert Quiet(Step(m, FlushLoad));
    QuietRun(Step(m, FlushLoad), pushes);
  }

  /** With no read in flight from a flush's load to its store, the flush is clean and nothing stale comes out. */
  lemma OrderlyFlushIsClean<S>(m0: Machine<S>, actions: seq<Action<S>>)
    requires Initial(m0) && Play(m0, actions).Some? && Play(m0, actions).value.0.f.FLoaded?
    ensures var m := Play(m0, actions).value.0;
            m.c.CIdle? && Harmless(m, m.f.w) && Clean(m, m.f.w)
  {
    hide Play;
    EveryStateIsLawful(m0, actions);
    var (m, h) := Play(m0, actions).value;
    hide Slot, SlotsOk;
    WrappedSlot(|h.accepted|, 1);
    FlushBehind(|h.accepted| + Pushes(m), h.flushTo);
  }

  /** A read that found nothing stores its old index after a flush, and a frame pushed before the flush comes out after it. */
  lemma FlushDuringReadIsUndone<S>(m0: Machine<S>, frame: Frame<S>)
    requires Initial(m0)
    ensures var m1 := Step(Step(m0, ReadLoadRead(0)), ReadLoadWrite);
            var m2 := Step(Step(Step(Step(Step(m1, PushLoadWrite(frame)), PushLoadRead), PushLeft), PushRight), PushStore);
            var flushed := Step(Step(m2, FlushLoad), FlushStore);
            flushed.Depth() == 0 && Step(flushed, ReadStore).Depth() == 1
  {
  }
}
