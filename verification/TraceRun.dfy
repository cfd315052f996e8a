/** Whole runs of the trace writer: any requests, any number of files, flushes anywhere. */
module TraceRun {
  import opened Prelude
  import opened TraceReader
  import opened PerfettoTrace
  import Protobuf

  datatype Request =
    | Open(ok: bool)
    | Close
    | Declare(title: bytes, parent: nat, counter: bool)
    | Begin(track: nat, ts: nat, name: bytes, args: seq<Arg>)
    | End(track: nat, ts: nat)
    | Instant(track: nat, ts: nat, name: bytes, args: seq<Arg>)
    | Counter(track: nat, ts: nat, bits: u64)
    | Screenshot(track: nat, ts: nat, jpeg: bytes)
    | Flush

  /** What the caller asked for: the calls of every file already closed, and those meant for the open or next one. */
  datatype Session = Session(open: bool, uuid: nat, calls: seq<Call>, files: seq<seq<Call>>)

  const START := Session(false, 1, [], [])

  ghost function Closed(s: Session): Session
  {
    if s.open then Session(false, s.uuid, [], s.files + [s.calls]) else s
  }

  ghost function Log(s: Session, c: Call): Session
  {
    if s.open then s.(calls := s.calls + [c]) else s
  }

  ghost function Step(s: Session, r: Request): Session
  {
    match r
    case Open(ok) => if ok then Closed(s).(open := true, uuid := 1) else Closed(s)
    case Close => Closed(s)
    case Declare(title, parent, counter) =>
      s.(uuid := s.uuid + 1, calls := s.calls + [Call.Track(s.uuid, title, parent, counter)])
    case Begin(track, ts, name, args) => Log(s, Call.Event(K_SLICE_BEGIN, track, ts, Some(name), args, []))
    case End(track, ts) => Log(s, Call.Event(K_SLICE_END, track, ts, None, [], []))
    case Instant(track, ts, name, args) => Log(s, Call.Event(K_INSTANT, track, ts, Some(name), args, []))
    case Counter(track, ts, bits) => Log(s, Call.Event(K_COUNTER, track, ts, None, [], [Protobuf.Fixed64(44, bits)]))
    case Screenshot(track, ts, jpeg) => Log(s, ScreenshotCall(track, ts, jpeg))
    case Flush => s
  }

  ghost function Run(s: Session, rs: seq<Request>): Session
  {
    if rs == [] then s else Step(Run(s, rs[..|rs| - 1]), rs[|rs| - 1])
  }

  /** Each file reads back as the calls of its session. */
  ghost predicate ReadBack(files: seq<bytes>, calls: seq<seq<Call>>)
  {
    |files| == |calls| && forall i :: 0 <= i < |files| ==> ReadTrace(files[i]) == Some(calls[i])
  }

  ghost predicate Agrees(w: Writer, s: Session)
    reads w`file, w`nextUuid, w`log
  {
    w.file.Some? == s.open && w.nextUuid == s.uuid && w.log == s.calls
  }

  lemma OneMoreFile(files: seq<bytes>, calls: seq<seq<Call>>, file: bytes, log: seq<Call>)
    requires ReadBack(files, calls) && ReadTrace(file) == Some(log)
    ensures ReadBack(files + [file], calls + [log])
  {
  }

  /** One request on the writer, and the files after it. */
  method Serve(w: Writer, r: Request, files: seq<bytes>, ghost s: Session) returns (files': seq<bytes>)
    requires w.Valid() && Agrees(w, s) && ReadBack(files, s.files)
    modifies w
    ensures w.Valid() && Agrees(w, Step(s, r)) && ReadBack(files', Step(s, r).files)
  {
    hide ReadTrace, ReadBack, ScreenshotCall;
    files' := files;
    match r {
      case Open(ok) =>
        var closed := w.Open(ok);
        if closed.Some? {
          OneMoreFile(files, s.files, closed.value, s.calls);
          files' := files + [closed.value];
        }
      case Close =>
        var closed := w.Close();
        if closed.Some? {
          OneMoreFile(files, s.files, closed.value, s.calls);
          files' := files + [closed.value];
        }
      case Declare(title, parent, counter) =>
        if counter {
          var _ := w.CounterTrack(title, parent);
        } else {
          var _ := w.Track(title, parent);
        }
      case Begin(track, ts, name, args) => w.Begin(track, ts, name, args);
      case End(track, ts) => w.End(track, ts);
      case Instant(track, ts, name, args) => w.Instant(track, ts, name, args);
      case Counter(track, ts, bits) => w.Counter(track, ts, bits);
      case Screenshot(track, ts, jpeg) => w.Screenshot(track, ts, jpeg);
      case Flush => w.Flush();
    }
  }

  // ----- what was asked for, in the reader's terms -----

  /** What the files already closed should show, and the open or next one. */
  datatype Asked = Asked(open: bool, uuid: nat, shown: seq<Shown>, files: seq<seq<Shown>>)

  ghost function Ended(a: Asked): Asked
  {
    if a.open then Asked(false, a.uuid, [], a.files + [a.shown]) else a
  }

  ghost function Wanted(a: Asked, m: Shown): Asked
  {
    if a.open then a.(shown := a.shown + [m]) else a
  }

  ghost function Ask(a: Asked, r: Request): Asked
  {
    match r
    case Open(ok) => if ok then Ended(a).(open := true, uuid := 1) else Ended(a)
    case Close => Ended(a)
    case Declare(title, parent, counter) => a.(uuid := a.uuid + 1, shown := a.shown + [NewTrack(a.uuid, title, parent, counter)])
    case Begin(track, ts, name, args) => Wanted(a, SliceBegins(track, ts, name, args))
    case End(track, ts) => Wanted(a, SliceEnds(track, ts))
    case Instant(track, ts, name, args) => Wanted(a, Happens(track, ts, name, args))
    case Counter(track, ts, bits) => Wanted(a, Counts(track, ts, bits))
    case Screenshot(track, ts, jpeg) => Wanted(a, Pictured(track, ts, Ascii("Screenshot"), jpeg))
    case Flush => a
  }

  ghost function AskAll(rs: seq<Request>): Asked
  {
    if rs == [] then Asked(false, 1, [], []) else Ask(AskAll(rs[..|rs| - 1]), rs[|rs| - 1])
  }

  ghost predicate Means(s: Session, a: Asked)
  {
    && s.open == a.open && s.uuid == a.uuid && Meanings(s.calls) == a.shown
    && |s.files| == |a.files| && forall i :: 0 <= i < |s.files| ==> Meanings(s.files[i]) == a.files[i]
  }

  lemma ClosedMeans(s: Session, a: Asked)
    requires Means(s, a)
    ensures Means(Closed(s), Ended(a))
  {
    assert Meanings([]) == [];
  }

  lemma ShotMeans(track: nat, ts: nat, jpeg: bytes)
    ensures Meaning(ScreenshotCall(track, ts, jpeg)) == Pictured(track, ts, Ascii("Screenshot"), jpeg)
  {
    hide Protobuf.EncodeAll, Protobuf.ReadAll;
    Protobuf.ReadMessage([Protobuf.Bytes(1, jpeg)]);
    assert SCREENSHOT_CATEGORY == Ascii("android_screenshot");
    assert SCREENSHOT_NAME == Ascii("Screenshot");
  }

  lemma LogMeans(s: Session, a: Asked, c: Call)
    requires Means(s, a)
    ensures Means(Log(s, c), Wanted(a, Meaning(c)))
  {
    hide Meanings, Meaning;
    MeaningsSnoc(s.calls, c);
  }

  lemma DeclareMeans(s: Session, a: Asked, r: Request)
    requires Means(s, a) && r.Declare?
    ensures Means(Step(s, r), Ask(a, r))
  {
    hide Meanings;
    MeaningsSnoc(s.calls, Call.Track(s.uuid, r.title, r.parent, r.counter));
  }

  lemma OpenMeans(s: Session, a: Asked, ok: bool)
    requires Means(s, a)
    ensures Means(Step(s, Open(ok)), Ask(a, Open(ok)))
  {
    ClosedMeans(s, a);
    hide Meanings, Closed, Ended;
  }

  lemma StepMeans(s: Session, a: Asked, r: Request)
    requires Means(s, a)
    ensures Means(Step(s, r), Ask(a, r))
  {
    hide Means, Log, Wanted, Closed, Ended, ScreenshotCall, Picture, Ascii;
    match r {
      case Open(ok) => OpenMeans(s, a, ok);
      case Close => ClosedMeans(s, a);
      case Flush =>
      case Declare(_, _, _) => DeclareMeans(s, a, r);
      case Screenshot(track, ts, jpeg) =>
        ShotMeans(track, ts, jpeg);
        LogMeans(s, a, ScreenshotCall(track, ts, jpeg));
      case Begin(track, ts, name, args) => LogMeans(s, a, Call.Event(K_SLICE_BEGIN, track, ts, Some(name), args, []));
      case End(track, ts) => LogMeans(s, a, Call.Event(K_SLICE_END, track, ts, None, [], []));
      case Instant(track, ts, name, args) => LogMeans(s, a, Call.Event(K_INSTANT, track, ts, Some(name), args, []));
      case Counter(track, ts, bits) => LogMeans(s, a, Call.Event(K_COUNTER, track, ts, None, [], [Protobuf.Fixed64(44, bits)]));
    }
  }

  /** Over every run, the calls logged mean what was asked for. */
  lemma {:induction false} RunMeans(rs: seq<Request>)
    ensures Means(Run(START, rs), AskAll(rs))
  {
    hide Step, Ask, Means;
    if rs == [] {
      NothingMeans();
    } else {
      RunMeans(rs[..|rs| - 1]);
      StepMeans(Run(START, rs[..|rs| - 1]), AskAll(rs[..|rs| - 1]), rs[|rs| - 1]);
    }
  }

  lemma NothingMeans()
    ensures Means(START, Asked(false, 1, [], []))
  {
  }

  /** Each file shows what was asked for. */
  ghost predicate Show(files: seq<bytes>, shown: seq<seq<Shown>>)
  {
    |files| == |shown|
    && forall i :: 0 <= i < |files| ==> ReadTrace(files[i]).Some? && Meanings(ReadTrace(files[i]).value) == shown[i]
  }

  lemma ReadBackShows(files: seq<bytes>, s: Session, a: Asked)
    requires ReadBack(files, s.files) && Means(s, a)
    ensures Show(files, a.files)
  {
    hide ReadTrace, Meanings;
  }

  /** Every run, ended by the destructor: each file decodes to exactly the calls made for it, and they mean what was asked for. */
  method Record(rs: seq<Request>) returns (files: seq<bytes>)
    ensures ReadBack(files, Closed(Run(START, rs)).files)
    ensures Show(files, Ended(AskAll(rs)).files)
  {
    hide Step, ReadTrace, ReadBack, Means, Show;
    var w := new Writer();
    files := [];
    NoFiles();
    var i := 0;
    while i < |rs|
      invariant 0 <= i <= |rs|
      invariant fresh(w) && w.Valid() && Agrees(w, Run(START, rs[..i])) && ReadBack(files, Run(START, rs[..i]).files)
    {
      files := Serve(w, rs[i], files, Run(START, rs[..i]));
      assert rs[..i + 1][..i] == rs[..i];
      i := i + 1;
    }
    assert rs[..i] == rs;
    CloseStep(Run(START, rs));
    files := Serve(w, Close, files, Run(START, rs));
    RunMeans(rs);
    ClosedMeans(Run(START, rs), AskAll(rs));
    ReadBackShows(files, Closed(Run(START, rs)), Ended(AskAll(rs)));
  }

  lemma NoFiles()
    ensures ReadBack([], [])
  {
  }

  lemma CloseStep(s: Session)
    ensures Step(s, Close) == Closed(s)
  {
  }

  // ----- track ids -----

  ghost function TrackIds(calls: seq<Call>): seq<nat>
  {
    if calls == [] then []
    else
      var c := calls[|calls| - 1];
      TrackIds(calls[..|calls| - 1]) + if c.Track? then [c.uuid] else []
  }

  ghost function UpTo(n: nat): seq<nat>
  {
    seq(n, i requires 0 <= i => i + 1)
  }

  lemma TrackIdsSnoc(calls: seq<Call>, c: Call)
    ensures TrackIds(calls + [c]) == TrackIds(calls) + if c.Track? then [c.uuid] else []
  {
    assert (calls + [c])[..|calls|] == calls;
  }

  ghost predicate StaysOpen(rs: seq<Request>)
  {
    forall i :: 0 <= i < |rs| ==> !rs[i].Open? && !rs[i].Close?
  }

  /** The tracks of one file: those declared before it was opened keep their old ids, later ones count from 1. */
  lemma {:induction false} TracksCountFromOne(s: Session, rs: seq<Request>)
    requires StaysOpen(rs)
    ensures var before, after := Step(s, Open(true)), Run(Step(s, Open(true)), rs);
            after.open && after.uuid >= 1 && TrackIds(after.calls) == TrackIds(before.calls) + UpTo(after.uuid - 1)
  {
    var before := Step(s, Open(true));
    if rs == [] {
      assert UpTo(0) == [];
    } else {
      var n := |rs| - 1;
      TracksCountFromOne(s, rs[..n]);
      var mid, after := Run(before, rs[..n]), Run(before, rs);
      OneStepTracks(mid, rs[n], TrackIds(before.calls));
    }
  }

  lemma OneStepTracks(s: Session, r: Request, ids: seq<nat>)
    requires s.open && s.uuid >= 1 && !r.Open? && !r.Close? && TrackIds(s.calls) == ids + UpTo(s.uuid - 1)
    ensures var t := Step(s, r); t.open && t.uuid >= 1 && TrackIds(t.calls) == ids + UpTo(t.uuid - 1)
  {
    hide TrackIds;
    var t := Step(s, r);
    if |t.calls| > |s.calls| { TrackIdsSnoc(s.calls, t.calls[|s.calls|]); }
    if r.Declare? { assert UpTo(s.uuid) == UpTo(s.uuid - 1) + [s.uuid]; }
  }

  ghost predicate Increasing(ids: seq<nat>, limit: nat)
  {
    && (forall i :: 0 <= i < |ids| ==> 1 <= ids[i] < limit)
    && (forall i, j :: 0 <= i < j < |ids| ==> ids[i] < ids[j])
  }

  /** Tracks that wait for a file have increasing ids, all handed out already. */
  ghost predicate Waits(s: Session)
  {
    s.uuid >= 1 && (!s.open ==> Increasing(TrackIds(s.calls), s.uuid))
  }

  lemma WaitsStep(s: Session, r: Request)
    requires Waits(s)
    ensures Waits(Step(s, r))
  {
    hide TrackIds;
    NoTracks();
    if r.Declare? { TrackIdsSnoc(s.calls, Call.Track(s.uuid, r.title, r.parent, r.counter)); }
  }

  lemma NoTracks()
    ensures TrackIds([]) == []
  {
  }

  lemma {:induction false} RunWaits(rs: seq<Request>)
    ensures Waits(Run(START, rs))
  {
    hide Step, TrackIds;
    if rs == [] {
      NoTracks();
    } else {
      RunWaits(rs[..|rs| - 1]);
      WaitsStep(Run(START, rs[..|rs| - 1]), rs[|rs| - 1]);
    }
  }

  lemma DistinctFollowed(waiting: seq<nat>, limit: nat, n: nat)
    requires Increasing(waiting, limit)
    ensures Distinct(waiting + UpTo(n)) <==> forall i :: 0 <= i < |waiting| ==> waiting[i] > n
  {
    if i :| 0 <= i < |waiting| && waiting[i] <= n { LowIdRepeats(waiting, n, i); }
  }

  lemma LowIdRepeats(waiting: seq<nat>, n: nat, i: nat)
    requires i < |waiting| && 1 <= waiting[i] <= n
    ensures !Distinct(waiting + UpTo(n))
  {
    var ids := waiting + UpTo(n);
    assert ids[i] == waiting[i] && ids[|waiting| + waiting[i] - 1] == waiting[i];
  }

  /**
   In every session a run can reach, the track ids of a file opened there are pairwise distinct if and only if no track
   that waited for it has an id as low as the number of tracks declared since.
   */
  lemma IdsDistinctIff(earlier: seq<Request>, rs: seq<Request>)
    requires StaysOpen(rs)
    ensures var before := Step(Run(START, earlier), Open(true));
            var after := Run(before, rs);
            var waiting, ids := TrackIds(before.calls), TrackIds(after.calls);
            var declared := |ids| - |waiting|;
            && declared >= 0
            && (Distinct(ids) <==> forall i :: 0 <= i < |waiting| ==> waiting[i] > declared)
  {
    hide TrackIds, Distinct, Increasing, Run;
    var s := Run(START, earlier);
    var before := Step(s, Open(true));
    TracksCountFromOne(s, rs);
    var after := Run(before, rs);
    assert |UpTo(after.uuid - 1)| == after.uuid - 1;
    RunWaits(earlier);
    NoTracks();
    if s.open { NothingIncreases(s.uuid); }
    DistinctFollowed(TrackIds(before.calls), s.uuid, after.uuid - 1);
  }

  lemma NothingIncreases(limit: nat)
    ensures Increasing([], limit)
  {
  }

  /** A track declared on a fresh writer and one declared after opening it share the id 1. */
  lemma WaitingTrackCollides(a: bytes, b: bytes)
    ensures TrackIds(Run(START, [Declare(a, 0, false), Open(true), Declare(b, 0, false)]).calls) == [1, 1]
  {
    var rs := [Declare(a, 0, false), Open(true), Declare(b, 0, false)];
    assert rs[..2][..1] == rs[..1] && rs[..1][..0] == [];
    assert Run(START, rs[..1]) == Step(START, rs[0]);
    assert Run(START, rs[..2]) == Step(Step(START, rs[0]), rs[1]);
    TrackIdsSnoc([], Call.Track(1, a, 0, false));
    TrackIdsSnoc([] + [Call.Track(1, a, 0, false)], Call.Track(1, b, 0, false));
  }
}
