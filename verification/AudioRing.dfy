/**
 The audio ring between the emulator thread and the host's audio thread: free-running
 32-bit indices, 8192 frames of two samples. Every load, slot access and store is a step
 of its own. Here pushes interleave with everything, and reads with everything but a flush;
 AudioFlush lets flushes fall anywhere.
 */
module AudioRing {
  import opened Prelude

  const FRAMES: nat := 8192
  const WRAP: nat := 0x1_0000_0000

  datatype Frame<S> = Frame(left: S, right: S)

  /** Where audioPushFrame stands. */
  datatype Producer<S> =
    | PIdle
    | PLoadedWrite(frame: Frame<S>, w: u32)
    | PWriteLeft(frame: Frame<S>, w: u32)
    | PWriteRight(frame: Frame<S>, w: u32)
    | PStore(frame: Frame<S>, w: u32)

  /** Where audioRead stands. */
  datatype Consumer<S> =
    | CIdle
    | CLoadedRead(frames: u32, rd: u32)
    | CCopyLeft(rd: u32, n: nat, i: nat)
    | CCopyRight(rd: u32, n: nat, i: nat, left: S)

  /** Where setAudioEnabled stands. */
  datatype Flusher = FIdle | FLoaded(w: u32)

  datatype Machine<S> = Machine(writeIdx: u32, readIdx: u32, left: seq<S>, right: seq<S>,
                                p: Producer<S>, c: Consumer<S>, f: Flusher) {
    predicate Valid() { |left| == FRAMES && |right| == FRAMES }

    /** The distance of the indices. */
    function Depth(): u32 { Sub32(writeIdx, readIdx) }
  }

  datatype Action<S> =
    | PushLoadWrite(frame: Frame<S>) | PushLoadRead | PushLeft | PushRight | PushStore
    | ReadLoadRead(frames: u32) | ReadLoadWrite | ReadLeft | ReadRight | ReadStore
    | FlushLoad | FlushStore

  function Sub32(a: u32, b: u32): (d: u32)
    ensures d == if a < b then a - b + WRAP else a - b
  {
    (a - b) % WRAP
  }

  function Add32(a: u32, n: nat): (s: u32)
    ensures n < WRAP ==> s == if a + n < WRAP then a + n else a + n - WRAP
  {
    (a + n) % WRAP
  }

  function Slot(idx: u32): (s: nat)
    ensures s < FRAMES
  {
    idx % FRAMES
  }

  predicate Enabled<S>(m: Machine<S>, a: Action<S>)
  {
    match a
    case PushLoadWrite(_) => m.p.PIdle?
    case PushLoadRead => m.p.PLoadedWrite?
    case PushLeft => m.p.PWriteLeft?
    case PushRight => m.p.PWriteRight?
    case PushStore => m.p.PStore?
    case ReadLoadRead(_) => m.c.CIdle?
    case ReadLoadWrite => m.c.CLoadedRead?
    case ReadLeft => m.c.CCopyLeft? && m.c.i < m.c.n
    case ReadRight => m.c.CCopyRight?
    case ReadStore => m.c.CCopyLeft? && m.c.i >= m.c.n
    case FlushLoad => m.f.FIdle?
    case FlushStore => m.f.FLoaded?
  }

  /** No read is in flight from a flush's load to its store. */
  predicate Orderly<S>(m: Machine<S>, a: Action<S>)
  {
    (a.FlushLoad? ==> m.c.CIdle?) && (a.ReadLoadRead? ==> m.f.FIdle?)
  }

  function Step<S>(m: Machine<S>, a: Action<S>): (m': Machine<S>)
    requires m.Valid() && Enabled(m, a)
    ensures m'.Valid()
  {
    match a
    case PushLoadWrite(frame) => m.(p := PLoadedWrite(frame, m.writeIdx))
    case PushLoadRead =>
      // A full ring drops the newest frame.
      m.(p := if Sub32(m.p.w, m.readIdx) >= FRAMES then PIdle else PWriteLeft(m.p.frame, m.p.w))
    case PushLeft => m.(left := m.left[Slot(m.p.w) := m.p.frame.left], p := PWriteRight(m.p.frame, m.p.w))
    case PushRight => m.(right := m.right[Slot(m.p.w) := m.p.frame.right], p := PStore(m.p.frame, m.p.w))
    case PushStore => m.(writeIdx := Add32(m.p.w, 1), p := PIdle)
    case ReadLoadRead(frames) => m.(c := CLoadedRead(frames, m.readIdx))
    case ReadLoadWrite =>
      var avail := Sub32(m.writeIdx, m.c.rd);
      m.(c := CCopyLeft(m.c.rd, if m.c.frames < avail then m.c.frames else avail, 0))
    case ReadLeft => m.(c := CCopyRight(m.c.rd, m.c.n, m.c.i, m.left[Slot(Add32(m.c.rd, m.c.i))]))
    case ReadRight => m.(c := CCopyLeft(m.c.rd, m.c.n, m.c.i + 1))
    case ReadStore => m.(readIdx := Add32(m.c.rd, m.c.n), c := CIdle)
    case FlushLoad => m.(f := FLoaded(m.writeIdx))
    case FlushStore => m.(readIdx := m.f.w, f := FIdle)
  }

  // ----- what has happened -----

  /**
   The frames the ring accepted, how many of them are behind the read index, where the last
   flush left it, and the frames handed out since that flush.
   */
  datatype History<S> = History(accepted: seq<Frame<S>>, taken: nat, since: nat, out: seq<Frame<S>>, flushTo: nat)

  ghost function Note<S>(m: Machine<S>, h: History<S>, a: Action<S>): History<S>
    requires m.Valid() && Enabled(m, a)
  {
    match a
    case PushStore => h.(accepted := h.accepted + [m.p.frame])
    case ReadRight => h.(out := h.out + [Frame(m.c.left, m.right[Slot(Add32(m.c.rd, m.c.i))])])
    case ReadStore => h.(taken := h.taken + m.c.n)
    case FlushLoad => h.(flushTo := |h.accepted|)
    case FlushStore => h.(taken := h.flushTo, since := h.flushTo, out := [])
    case _ => h
  }

  /** Frames handed out by the read in flight. */
  function Copied<S>(c: Consumer<S>): nat
  {
    if c.CCopyLeft? || c.CCopyRight? then c.i else 0
  }

  ghost predicate IndicesOk<S>(m: Machine<S>, h: History<S>)
  {
    && m.writeIdx == |h.accepted| % WRAP && m.readIdx == h.taken % WRAP
    && h.since <= h.taken <= |h.accepted| <= h.taken + FRAMES
  }

  /** Frames accepted and not yet taken are in their slots. */
  ghost predicate SlotsOk<S>(m: Machine<S>, h: History<S>)
    requires m.Valid()
  {
    forall k :: h.taken <= k < |h.accepted| ==>
      m.left[k % FRAMES] == h.accepted[k].left && m.right[k % FRAMES] == h.accepted[k].right
  }

  ghost predicate ProducerOk<S>(m: Machine<S>, h: History<S>)
    requires m.Valid()
  {
    && (!m.p.PIdle? ==> m.p.w == m.writeIdx)
    && (m.p.PWriteLeft? || m.p.PWriteRight? || m.p.PStore? ==> |h.accepted| < h.taken + FRAMES)
    && (m.p.PWriteRight? || m.p.PStore? ==> m.left[Slot(m.p.w)] == m.p.frame.left)
    && (m.p.PStore? ==> m.right[Slot(m.p.w)] == m.p.frame.right)
  }

  ghost predicate ConsumerOk<S>(m: Machine<S>, h: History<S>)
  {
    && h.since <= h.taken && h.taken + Copied(m.c) <= |h.accepted|
    && h.out == h.accepted[h.since..h.taken + Copied(m.c)]
    && match m.c
       case CIdle => true
       case CLoadedRead(_, rd) => rd == m.readIdx
       case CCopyLeft(rd, n, i) => rd == m.readIdx && i <= n && h.taken + n <= |h.accepted|
       case CCopyRight(rd, n, i, left) =>
         rd == m.readIdx && i < n && h.taken + n <= |h.accepted| && left == h.accepted[h.taken + i].left
  }

  ghost predicate FlusherOk<S>(m: Machine<S>, h: History<S>)
  {
    m.f.FLoaded? ==> m.c.CIdle? && m.f.w == h.flushTo % WRAP && h.taken <= h.flushTo <= |h.accepted|
  }

  ghost predicate Inv<S>(m: Machine<S>, h: History<S>)
  {
    m.Valid() && IndicesOk(m, h) && SlotsOk(m, h) && ProducerOk(m, h) && ConsumerOk(m, h) && FlusherOk(m, h)
  }

  // ----- index arithmetic -----

  /** The difference of two wrapped indices is the true distance while that is small. */
  lemma WrappedDistance(a: nat, b: nat)
    requires b <= a < b + WRAP
    ensures Sub32(a % WRAP, b % WRAP) == a - b
  {
    ModSub(a, b);
  }

  lemma ModSub(a: nat, b: nat)
    requires b <= a < b + WRAP
    ensures (a % WRAP - b % WRAP) % WRAP == a - b
  {
    var qa, qb := a / WRAP, b / WRAP;
    assert a == qa * WRAP + a % WRAP && b == qb * WRAP + b % WRAP;
    assert qa == qb || qa == qb + 1;
  }

  /** Wrapping does not change the slot: the ring size divides 2^32. */
  lemma WrappedSlot(a: nat, i: nat)
    ensures Slot(Add32(a % WRAP, i)) == (a + i) % FRAMES
    ensures Add32(a % WRAP, i) == (a + i) % WRAP
    ensures Slot(a % WRAP) == a % FRAMES
  {
    ModAdd(a, i);
    ModRing(a + i);
    ModRing(a);
  }

  lemma ModAdd(a: nat, i: nat)
    ensures (a % WRAP + i) % WRAP == (a + i) % WRAP
  {
    assert a == a / WRAP * WRAP + a % WRAP;
  }

  lemma ModRing(a: nat)
    ensures a % WRAP % FRAMES == a % FRAMES
  {
    assert WRAP == 524288 * FRAMES;
  }

  /** Two positions less than a ring apart use different slots. */
  lemma SlotsDiffer(a: nat, b: nat)
    requires a < b < a + FRAMES
    ensures a % FRAMES != b % FRAMES
  {
  }

  // ----- every step keeps the invariant -----

  /** The producer's store makes the frame in its slot the newest accepted one. */
  lemma PushStoreKeeps<S>(m: Machine<S>, h: History<S>)
    requires Inv(m, h) && m.p.PStore?
    ensures Inv(Step(m, PushStore), Note(m, h, PushStore))
  {
    WrappedSlot(|h.accepted|, 1);
    WrappedSlot(|h.accepted|, 0);
  }

  /** Writing one sample of the slot after the newest frame disturbs no unread frame. */
  lemma WriteKeeps<S>(m: Machine<S>, h: History<S>, a: Action<S>)
    requires Inv(m, h) && Enabled(m, a) && (a.PushLeft? || a.PushRight?)
    ensures Inv(Step(m, a), Note(m, h, a))
  {
    WrappedSlot(|h.accepted|, 0);
    forall k | h.taken <= k < |h.accepted|
      ensures k % FRAMES != Slot(m.p.w)
    {
      SlotsDiffer(k, |h.accepted|);
    }
  }

  lemma PushLoadReadKeeps<S>(m: Machine<S>, h: History<S>)
    requires Inv(m, h) && m.p.PLoadedWrite?
    ensures Inv(Step(m, PushLoadRead), Note(m, h, PushLoadRead))
  {
    WrappedDistance(|h.accepted|, h.taken);
  }

  lemma ReadKeeps<S>(m: Machine<S>, h: History<S>, a: Action<S>)
    requires Inv(m, h) && Enabled(m, a) && (a.ReadLoadWrite? || a.ReadLeft? || a.ReadRight? || a.ReadStore?)
    ensures Inv(Step(m, a), Note(m, h, a))
  {
    match a {
      case ReadLoadWrite => WrappedDistance(|h.accepted|, h.taken);
      case ReadLeft => WrappedSlot(h.taken, m.c.i);
      case ReadRight => ReadRightKeeps(m, h);
      case ReadStore => WrappedSlot(h.taken, m.c.n);
    }
  }

  lemma ReadRightKeeps<S>(m: Machine<S>, h: History<S>)
    requires Inv(m, h) && m.c.CCopyRight?
    ensures Inv(Step(m, ReadRight), Note(m, h, ReadRight))
  {
    WrappedSlot(h.taken, m.c.i);
    var k := h.taken + m.c.i;
    assert h.accepted[h.since..k] + [h.accepted[k]] == h.accepted[h.since..k + 1];
  }

  lemma FlushKeeps<S>(m: Machine<S>, h: History<S>, a: Action<S>)
    requires Inv(m, h) && Enabled(m, a) && Orderly(m, a) && (a.FlushLoad? || a.FlushStore?)
    ensures Inv(Step(m, a), Note(m, h, a))
  {
  }

  lemma InvStep<S>(m: Machine<S>, h: History<S>, a: Action<S>)
    requires Inv(m, h) && Enabled(m, a) && Orderly(m, a)
    ensures Inv(Step(m, a), Note(m, h, a))
  {
    match a {
      case PushLoadWrite(_) =>
      case PushLoadRead => PushLoadReadKeeps(m, h);
      case PushLeft => WriteKeeps(m, h, a);
      case PushRight => WriteKeeps(m, h, a);
      case PushStore => PushStoreKeeps(m, h);
      case ReadLoadRead(_) =>
      case ReadLoadWrite => ReadKeeps(m, h, a);
      case ReadLeft => ReadKeeps(m, h, a);
      case ReadRight => ReadKeeps(m, h, a);
      case ReadStore => ReadKeeps(m, h, a);
      case FlushLoad => FlushKeeps(m, h, a);
      case FlushStore => FlushKeeps(m, h, a);
    }
  }

  // ----- every interleaving -----

  predicate Initial<S>(m: Machine<S>)
  {
    m.Valid() && m.writeIdx == 0 && m.readIdx == 0 && m.p.PIdle? && m.c.CIdle? && m.f.FIdle?
  }

  /** The state after a sequence of steps, if each was enabled and no flush met a read. */
  ghost function Run<S>(m: Machine<S>, h: History<S>, actions: seq<Action<S>>): (r: Option<(Machine<S>, History<S>)>)
    requires m.Valid()
    ensures r.Some? ==> r.value.0.Valid()
  {
    if actions == [] then Some((m, h))
    else
      var r := Run(m, h, actions[..|actions| - 1]);
      var a := actions[|actions| - 1];
      if r.None? || !Enabled(r.value.0, a) || !Orderly(r.value.0, a) then None
      else Some((Step(r.value.0, a), Note(r.value.0, r.value.1, a)))
  }

  ghost function Play<S>(m0: Machine<S>, actions: seq<Action<S>>): (r: Option<(Machine<S>, History<S>)>)
    requires Initial(m0)
    ensures r.Some? ==> r.value.0.Valid()
  {
    Run(m0, History([], 0, 0, [], 0), actions)
  }

  lemma {:induction false} RunIsLawful<S>(m: Machine<S>, h: History<S>, actions: seq<Action<S>>)
    requires Inv(m, h) && Run(m, h, actions).Some?
    ensures var (m', h') := Run(m, h, actions).value; Inv(m', h')
  {
    InvIsValid(m, h);
    hide Inv, Step, Note, Enabled, Orderly;
    if actions == [] {
    } else {
      var before := actions[..|actions| - 1];
      RunIsLawful(m, h, before);
      var (m', h') := Run(m, h, before).value;
      InvStep(m', h', actions[|actions| - 1]);
    }
  }

  lemma InvIsValid<S>(m: Machine<S>, h: History<S>)
    requires Inv(m, h)
    ensures m.Valid()
  {
  }

  /** The invariant holds after every interleaving. */
  lemma EveryStateIsLawful<S>(m0: Machine<S>, actions: seq<Action<S>>)
    requires Initial(m0) && Play(m0, actions).Some?
    ensures var (m, h) := Play(m0, actions).value; Inv(m, h)
  {
    StartIsLawful(m0);
    hide Inv, Run;
    RunIsLawful(m0, History([], 0, 0, [], 0), actions);
  }

  lemma StartIsLawful<S>(m0: Machine<S>)
    requires Initial(m0)
    ensures Inv(m0, History([], 0, 0, [], 0))
  {
  }

  /** The slot the producer's next step writes, and the one the consumer's next step reads. */
  function Writing<S>(m: Machine<S>): Option<nat>
  {
    if m.p.PWriteLeft? || m.p.PWriteRight? then Some(Slot(m.p.w)) else None
  }

  function Reading<S>(m: Machine<S>): Option<nat>
  {
    if m.c.CCopyRight? || (m.c.CCopyLeft? && m.c.i < m.c.n) then Some(Slot(Add32(m.c.rd, m.c.i))) else None
  }

  /** The two threads never touch the same slot at once. */
  lemma NoSharedSlot<S>(m0: Machine<S>, actions: seq<Action<S>>)
    requires Initial(m0) && Play(m0, actions).Some?
    ensures var m := Play(m0, actions).value.0;
            Writing(m).Some? && Reading(m).Some? ==> Writing(m) != Reading(m)
  {
    hide Play;
    EveryStateIsLawful(m0, actions);
    var (m, h) := Play(m0, actions).value;
    if Writing(m).Some? && Reading(m).Some? {
      WrappedSlot(|h.accepted|, 0);
      WrappedSlot(h.taken, m.c.i);
      SlotsDiffer(h.taken + m.c.i, |h.accepted|);
    }
  }

  /** The distance of the indices is the true depth, within the ring, however often they wrapped. */
  lemma TrueDepth<S>(m0: Machine<S>, actions: seq<Action<S>>)
    requires Initial(m0) && Play(m0, actions).Some?
    ensures var (m, h) := Play(m0, actions).value;
            && h.taken <= |h.accepted| && m.Depth() == |h.accepted| - h.taken <= FRAMES
  {
    hide Play;
    EveryStateIsLawful(m0, actions);
    var (m, h) := Play(m0, actions).value;
    WrappedDistance(|h.accepted|, h.taken);
  }

  /** What the consumer hands out is the accepted stream from the last flush on, in order and without gaps. */
  lemma OutputIsAcceptedStream<S>(m0: Machine<S>, actions: seq<Action<S>>)
    requires Initial(m0) && Play(m0, actions).Some?
    ensures var (m, h) := Play(m0, actions).value;
            h.since + |h.out| <= |h.accepted| && h.out == h.accepted[h.since..h.since + |h.out|]
    ensures (forall i :: 0 <= i < |actions| ==> actions[i] != FlushStore) ==>
              var (m, h) := Play(m0, actions).value; h.since == 0 && h.out <= h.accepted
  {
    hide Play;
    EveryStateIsLawful(m0, actions);
    var (m, h) := Play(m0, actions).value;
    if forall i :: 0 <= i < |actions| ==> actions[i] != FlushStore {
      SinceStart(m0, actions);
    }
  }

  lemma {:induction false} SinceStart<S>(m0: Machine<S>, actions: seq<Action<S>>)
    requires Initial(m0) && Play(m0, actions).Some?
    requires forall i :: 0 <= i < |actions| ==> actions[i] != FlushStore
    ensures Play(m0, actions).value.1.since == 0
  {
    SinceKept(m0, History([], 0, 0, [], 0), actions);
  }

  lemma {:induction false} SinceKept<S>(m: Machine<S>, h: History<S>, actions: seq<Action<S>>)
    requires m.Valid() && Run(m, h, actions).Some?
    requires forall i :: 0 <= i < |actions| ==> actions[i] != FlushStore
    ensures Run(m, h, actions).value.1.since == h.since
  {
    if actions != [] {
      SinceKept(m, h, actions[..|actions| - 1]);
    }
  }

  // ----- audioAvailable -----

  /** audioAvailable: the write index as loaded in one state, the read index as loaded in a later one. */
  function Available<S>(first: Machine<S>, later: Machine<S>): u32
  {
    Sub32(first.writeIdx, later.readIdx)
  }

  predicate ByProducer<S>(a: Action<S>)
  {
    a.PushLoadWrite? || a.PushLoadRead? || a.PushLeft? || a.PushRight? || a.PushStore?
  }

  /** Frames are only ever added, and only by the producer; the read index is only moved by the others. */
  lemma {:induction false} CountsMove<S>(m: Machine<S>, h: History<S>, actions: seq<Action<S>>)
    requires m.Valid() && Run(m, h, actions).Some?
    ensures var h' := Run(m, h, actions).value.1;
            && |h.accepted| <= |h'.accepted|
            && ((forall a :: a in actions ==> !ByProducer(a)) ==> |h'.accepted| == |h.accepted|)
            && ((forall a :: a in actions ==> ByProducer(a)) ==> h'.taken == h.taken)
  {
    hide Enabled, Orderly;
    if actions != [] {
      var before := actions[..|actions| - 1];
      CountsMove(m, h, before);
      assert forall a :: a in before ==> a in actions;
      assert actions[|actions| - 1] in actions;
    }
  }

  /**
   The emulator thread, which makes no push between its two loads, and the audio thread, which
   neither reads nor flushes between them, both see a depth within the ring. A third thread does
   exactly when what was taken by its second load does not exceed what was accepted at its first;
   this says nothing of a thread that sleeps for 2^32 frames less a ring.
   */
  lemma AvailableInRangeIff<S>(m0: Machine<S>, before: seq<Action<S>>, between: seq<Action<S>>)
    requires Initial(m0) && Play(m0, before).Some?
    requires var (m, h) := Play(m0, before).value; Run(m, h, between).Some?
    ensures var (m, h) := Play(m0, before).value;
            var (m', h') := Run(m, h, between).value;
            && ((forall a :: a in between ==> !ByProducer(a)) ==> Available(m, m') == |h.accepted| - h'.taken <= FRAMES)
            && ((forall a :: a in between ==> ByProducer(a)) ==> Available(m, m') == |h.accepted| - h'.taken <= FRAMES)
            && (h'.taken < |h.accepted| + WRAP - FRAMES ==> (Available(m, m') <= FRAMES <==> h'.taken <= |h.accepted|))
  {
    EveryStateIsLawful(m0, before);
    hide Play, Run;
    var (m, h) := Play(m0, before).value;
    RunIsLawful(m, h, between);
    CountsMove(m, h, between);
    var (m', h') := Run(m, h, between).value;
    DepthSeen(|h.accepted|, h'.taken);
  }

  lemma DepthSeen(a: nat, t: nat)
    requires a <= t + FRAMES
    ensures t <= a ==> Sub32(a % WRAP, t % WRAP) == a - t
    ensures a < t < a + WRAP - FRAMES ==> Sub32(a % WRAP, t % WRAP) > FRAMES
  {
    if t <= a {
      WrappedDistance(a, t);
    } else if t < a + WRAP - FRAMES {
      ModSub(a + WRAP, t);
      assert (a + WRAP) % WRAP == a % WRAP;
    }
  }

  /** A third thread can see 2^32 - 1 frames: one is pushed and read between its two loads. */
  lemma ThirdThreadSeesTooMany<S>(m0: Machine<S>, frame: Frame<S>)
    requires Initial(m0)
    ensures var pushed := Step(Step(Step(Step(Step(m0, PushLoadWrite(frame)), PushLoadRead), PushLeft), PushRight), PushStore);
            var read := Step(Step(Step(Step(Step(pushed, ReadLoadRead(1)), ReadLoadWrite), ReadLeft), ReadRight), ReadStore);
            Available(m0, read) == WRAP - 1
  {
  }
}
