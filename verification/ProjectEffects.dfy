/** What each operation does to a project, said table by table, and where the contents of the tables come from over runs. */
module ProjectEffects {
  import opened Prelude
  import opened Text
  import opened ProjectTables
  import opened ProjectStore

  // ----- which tables an operation touches -----

  predicate OnLabels(op: Op) { op.SetLabel? || op.ClearLabel? || op.RecordEntryFlags? }

  predicate OnBookmarks(op: Op) { op.SetBookmark? || op.ClearBookmark? }

  predicate OnBreakpoints(op: Op) { op.AddBreakpoint? || op.RemoveBreakpoint? || op.ClearBreakpoints? }

  /** Every operation leaves the other tables alone, and all but a save the files too. */
  lemma OthersStay(s: Store, op: Op)
    ensures var s' := Step(s, op);
            && (!op.Save? ==> s'.disk == s.disk)
            && (!OnLabels(op) ==> s'.t.labels == s.t.labels)
            && (!OnBookmarks(op) ==> s'.t.bookmarks == s.t.bookmarks)
            && (!OnBreakpoints(op) ==> s'.t.breakpoints == s.t.breakpoints)
            && (!op.NoteFunctionExit? ==> s'.t.funcs == s.t.funcs)
            && (!op.NoteDma? ==> s'.t.dma == s.t.dma)
  {
    hide SaveStep, NoteDmaStep, OneExit, Named, WithFlags, Slot, Blank;
    if op.Save? { SaveKeepsTables(s, op.broken); }
  }

  /** Outside a save, a table's flag is set where the table changes and stays as it was where it does not. */
  lemma FlagsFollowChanges(s: Store, op: Op)
    requires !op.Save? && !op.RecordEntryFlags?
    ensures var s' := Step(s, op);
            && (s'.t.labels != s.t.labels ==> s'.dirty.labels) && (!OnLabels(op) ==> s'.dirty.labels == s.dirty.labels)
            && (s'.t.bookmarks != s.t.bookmarks ==> s'.dirty.bookmarks)
            && (!OnBookmarks(op) ==> s'.dirty.bookmarks == s.dirty.bookmarks)
            && (s'.t.breakpoints != s.t.breakpoints ==> s'.dirty.breakpoints)
            && (!OnBreakpoints(op) ==> s'.dirty.breakpoints == s.dirty.breakpoints)
            && (s'.t.funcs != s.t.funcs ==> s'.dirty.funcs) && (!op.NoteFunctionExit? ==> s'.dirty.funcs == s.dirty.funcs)
            && (s'.t.dma != s.t.dma ==> s'.dirty.dma) && (!op.NoteDma? ==> s'.dirty.dma == s.dirty.dma)
            && (s'.t != s.t ==> s'.dirty.any) && (s.dirty.any ==> s'.dirty.any)
            && (op.MarkMap? ==> s'.dirty == s.dirty.(any := s.dirty.any || op.changed))
  {
    LabelsFollow(s, op);
    ListsFollow(s, op);
    FuncsFollow(s, op);
    DmaFollows(s, op);
    AnyFollows(s, op);
    hide *;
  }

  lemma LabelsFollow(s: Store, op: Op)
    requires !op.Save? && !op.RecordEntryFlags?
    ensures var s' := Step(s, op);
            (s'.t.labels != s.t.labels ==> s'.dirty.labels) && (!OnLabels(op) ==> s'.dirty.labels == s.dirty.labels)
  {
    hide NoteDmaStep, OneExit, Named, FlagsStep, SaveStep;
  }

  lemma ListsFollow(s: Store, op: Op)
    requires !op.Save? && !op.RecordEntryFlags?
    ensures var s' := Step(s, op);
            && (s'.t.bookmarks != s.t.bookmarks ==> s'.dirty.bookmarks)
            && (!OnBookmarks(op) ==> s'.dirty.bookmarks == s.dirty.bookmarks)
            && (s'.t.breakpoints != s.t.breakpoints ==> s'.dirty.breakpoints)
            && (!OnBreakpoints(op) ==> s'.dirty.breakpoints == s.dirty.breakpoints)
  {
    hide NoteDmaStep, OneExit, Named, FlagsStep, SaveStep;
  }

  lemma FuncsFollow(s: Store, op: Op)
    requires !op.Save? && !op.RecordEntryFlags?
    ensures var s' := Step(s, op);
            (s'.t.funcs != s.t.funcs ==> s'.dirty.funcs) && (!op.NoteFunctionExit? ==> s'.dirty.funcs == s.dirty.funcs)
  {
    hide NoteDmaStep, OneExit, Named, FlagsStep, SaveStep;
  }

  lemma DmaFollows(s: Store, op: Op)
    requires !op.Save? && !op.RecordEntryFlags?
    ensures var s' := Step(s, op);
            (s'.t.dma != s.t.dma ==> s'.dirty.dma) && (!op.NoteDma? ==> s'.dirty.dma == s.dirty.dma)
  {
    hide NoteDmaStep, OneExit, Named, FlagsStep, SaveStep;
  }

  lemma AnyFollows(s: Store, op: Op)
    requires !op.Save? && !op.RecordEntryFlags?
    ensures var s' := Step(s, op);
            && (s'.t != s.t ==> s'.dirty.any) && (s.dirty.any ==> s'.dirty.any)
            && (op.MarkMap? ==> s'.dirty == s.dirty.(any := s.dirty.any || op.changed))
  {
    hide NoteDmaStep, OneExit, Named, FlagsStep, SaveStep;
  }

  // ----- labels -----

  /** One flag after recording `v`: `v` where it is not negative and the flag was unset or is forced, else what it was. */
  predicate Recorded(was: int, v: int, force: bool, now: int)
  {
    if v >= 0 && was < 0 then now == v
    else if v >= 0 && force then now == v
    else now == was
  }

  /**
   Recording entry flags sets each of M, X and E by its own argument and leaves name, type and comment, and every
   other label. A label is made where a flag is set, and one without name, type and flags is dropped.
   */
  lemma RecordsFlags(s: Store, addr: nat, m: int, x: int, e: int, force: bool)
    ensures var a := addr % 0x100_0000;
            var labels, labels' := s.t.labels, Step(s, RecordEntryFlags(addr, m, x, e, force)).t.labels;
            var was := if a in labels then labels[a] else Label(a, "", "", -1, -1, -1, "");
            && (forall k :: k != a ==> (k in labels <==> k in labels') && (k in labels ==> labels'[k] == labels[k]))
            && (a in labels' ==>
                  var now := labels'[a];
                  && Recorded(was.m, m, force, now.m) && Recorded(was.x, x, force, now.x) && Recorded(was.e, e, force, now.e)
                  && now.name == was.name && now.kind == was.kind && now.comment == was.comment && now.addr == was.addr)
            && (a !in labels' <==>
                  && m < 0 && x < 0 && e < 0
                  && was.name == "" && was.kind == "" && was.m < 0 && was.x < 0 && was.e < 0)
  {
  }

  /** The label flag is set exactly when a flag of the label changes. */
  lemma RecordedIsNoticed(s: Store, addr: nat, m: int, x: int, e: int, force: bool)
    ensures var a := addr % 0x100_0000;
            var s' := Step(s, RecordEntryFlags(addr, m, x, e, force));
            var was := if a in s.t.labels then s.t.labels[a] else Label(a, "", "", -1, -1, -1, "");
            if a in s'.t.labels && s'.t.labels[a] != was then s'.dirty == s.dirty.(any := true, labels := true)
            else s'.dirty == s.dirty
  {
  }

  /** Setting a label puts it at its 24-bit address whatever was there, clearing removes what is there; both leave the others. */
  lemma SetsAndClearsLabel(s: Store, l: Label)
    ensures var a := l.addr % 0x100_0000;
            var set1, cleared := Step(s, SetLabel(l)), Step(s, ClearLabel(l.addr));
            && a in set1.t.labels && set1.t.labels[a] == Label(a, l.name, l.kind, l.m, l.x, l.e, l.comment)
            && a !in cleared.t.labels
            && set1.dirty.labels && set1.dirty.any
            && (a in s.t.labels ==> cleared.dirty.labels && cleared.dirty.any) && (a !in s.t.labels ==> cleared == s)
            && forall k :: k != a ==>
                 && (k in set1.t.labels <==> k in s.t.labels) && (k in s.t.labels ==> set1.t.labels[k] == s.t.labels[k])
                 && (k in cleared.t.labels <==> k in s.t.labels) && (k in s.t.labels ==> cleared.t.labels[k] == s.t.labels[k])
  {
  }

  datatype Which = M | X | E

  function FlagOf(l: Label, f: Which): int
  {
    match f
    case M => l.m
    case X => l.x
    case E => l.e
  }

  /** The operation gives flag `f` of address `a` the value `v`: as a label's, or as the argument for that flag. */
  predicate Gives(op: Op, a: nat, f: Which, v: int)
  {
    match op
    case SetLabel(l) => l.addr % 0x100_0000 == a && FlagOf(l, f) == v
    case RecordEntryFlags(addr, m, x, e, _) =>
      addr % 0x100_0000 == a && v == (match f case M => m case X => x case E => e)
    case _ => false
  }

  /** Over every run, a flag that is set was so at the start or was given that value by an operation, for that very flag. */
  lemma {:induction false} FlagComesFrom(s: Store, ops: seq<Op>, a: nat, f: Which)
    requires a in Run(s, ops).t.labels
    ensures var v := FlagOf(Run(s, ops).t.labels[a], f);
            || v < 0 || (a in s.t.labels && FlagOf(s.t.labels[a], f) == v)
            || exists i :: 0 <= i < |ops| && Gives(ops[i], a, f, v)
  {
    hide Step, Gives, FlagOf;
    if ops != [] {
      var n := |ops| - 1;
      var was, now := Run(s, ops[..n]).t.labels, Run(s, ops).t.labels;
      FlagStep(Run(s, ops[..n]), ops[n], a, f);
      if a in was && FlagOf(now[a], f) == FlagOf(was[a], f) && FlagOf(now[a], f) >= 0 {
        FlagComesFrom(s, ops[..n], a, f);
        if i :| 0 <= i < n && Gives(ops[..n][i], a, f, FlagOf(was[a], f)) { assert Gives(ops[i], a, f, FlagOf(now[a], f)); }
      }
    }
  }

  lemma FlagStep(s: Store, op: Op, a: nat, f: Which)
    requires a in Step(s, op).t.labels
    ensures var v := FlagOf(Step(s, op).t.labels[a], f);
            v < 0 || (a in s.t.labels && FlagOf(s.t.labels[a], f) == v) || Gives(op, a, f, v)
  {
    if op.Save? {
      SaveKeepsTables(s, op.broken);
    } else if op.RecordEntryFlags? {
      RecordsFlags(s, op.addr, op.m, op.x, op.e, op.force);
      hide Step;
    }
  }

  // ----- bookmarks and breakpoints -----

  /** A bookmark takes the place of the first one of its name, or comes last; clearing removes that one and keeps the order. */
  lemma SetsAndClearsBookmark(s: Store, b: Bookmark, i: nat)
    requires i <= |s.t.bookmarks| && (i < |s.t.bookmarks| ==> s.t.bookmarks[i].name == b.name)
    requires forall j :: 0 <= j < i ==> s.t.bookmarks[j].name != b.name
    ensures var was := s.t.bookmarks;
            var set1, cleared := Step(s, SetBookmark(b)), Step(s, ClearBookmark(b.name));
            && set1.t.bookmarks == (if i == |was| then was + [b] else was[i := b]) && set1.dirty.bookmarks && set1.dirty.any
            && (i == |was| ==> cleared == s)
            && (i < |was| ==>
                  cleared.t.bookmarks == was[..i] + was[i + 1..] && cleared.dirty.bookmarks && cleared.dirty.any)
  {
    FirstNamed(s.t.bookmarks, b.name, i);
    hide Named;
  }

  lemma {:induction false} FirstNamed(b: seq<Bookmark>, name: string, i: nat)
    requires i <= |b| && (i < |b| ==> b[i].name == name) && forall j :: 0 <= j < i ==> b[j].name != name
    ensures Named(b, name) == i
  {
    if i > 0 {
      assert b[0].name != name;
      FirstNamed(b[1..], name, i - 1);
    }
  }

  /** Breakpoints are kept in the order they were added. */
  lemma Breakpoints(s: Store, bp: Breakpoint, i: nat)
    ensures var was := s.t.breakpoints;
            var added, removed, cleared := Step(s, AddBreakpoint(bp)), Step(s, RemoveBreakpoint(i)), Step(s, ClearBreakpoints);
            && |added.t.breakpoints| == |was| + 1 && added.t.breakpoints[..|was|] == was && added.t.breakpoints[|was|] == bp
            && (i >= |was| ==> removed == s)
            && (i < |was| ==>
                  && |removed.t.breakpoints| == |was| - 1 && removed.dirty.breakpoints
                  && forall j :: 0 <= j < |was| - 1 ==> removed.t.breakpoints[j] == was[if j < i then j else j + 1])
            && cleared.t.breakpoints == [] && (was == [] ==> cleared == s) && (was != [] ==> cleared.dirty.breakpoints)
  {
  }

  // ----- functions -----

  function CallsOf(ops: seq<Op>, k: nat): nat
  {
    if ops == [] then 0 else CallsOf(ops[..|ops| - 1], k) + if Exits(ops[|ops| - 1], k) then 1 else 0
  }

  predicate Exits(op: Op, k: nat)
  {
    op.NoteFunctionExit? && op.routine % 0x100_0000 == k
  }

  /** The frame of the last exit. */
  function LastFrame(ops: seq<Op>, k: nat): u64
  {
    if ops == [] then 0 else if Exits(ops[|ops| - 1], k) then ops[|ops| - 1].frame else LastFrame(ops[..|ops| - 1], k)
  }

  ghost predicate ExitNoted(ops: seq<Op>, k: nat, e: Exit)
  {
    exists i :: 0 <= i < |ops| && ExitIs(ops[i], k, e)
  }

  predicate ExitIs(op: Op, k: nat, e: Exit)
  {
    Exits(op, k) && op.pc % 0x100_0000 == e.pc && op.kind == e.kind
  }

  const NO_FUNC := FuncInfo(0, 0, 0, [])

  /** Over every run, a function's calls, last frame and exits are those noted for it, on top of what was there. */
  ghost predicate FuncIs(was: Option<FuncInfo>, ops: seq<Op>, k: nat, now: Option<FuncInfo>)
  {
    if CallsOf(ops, k) == 0 then now == was
    else
      var f0 := if was.Some? then was.value else NO_FUNC;
      && now.Some? && now.value.callCount == (f0.callCount + CallsOf(ops, k)) % U32
      && now.value.lastFrame == LastFrame(ops, k)
      && (forall e :: e in now.value.exits <==> e in f0.exits || ExitNoted(ops, k, e))
      && (was == None || was.value.entry == k ==> now.value.entry == k)
  }

  function FuncAt(m: map<nat, FuncInfo>, k: nat): Option<FuncInfo>
  {
    if k in m then Some(m[k]) else None
  }

  lemma {:induction false} FuncsAreExact(s: Store, ops: seq<Op>, k: nat)
    ensures FuncIs(FuncAt(s.t.funcs, k), ops, k, FuncAt(Run(s, ops).t.funcs, k))
  {
    hide FuncIs, Step;
    if ops == [] {
      NoCalls(FuncAt(s.t.funcs, k), k);
    } else {
      var n := |ops| - 1;
      FuncsAreExact(s, ops[..n], k);
      NotedStep(Run(s, ops[..n]), ops[n], k);
      OneMoreNoted(FuncAt(s.t.funcs, k), ops, k, FuncAt(Run(s, ops[..n]).t.funcs, k), FuncAt(Run(s, ops).t.funcs, k));
    }
  }

  lemma NoCalls(was: Option<FuncInfo>, k: nat)
    ensures FuncIs(was, [], k, was)
  {
  }

  /** What one operation does to the entry of `k`. */
  ghost predicate NotedOnce(was: Option<FuncInfo>, op: Op, k: nat, now: Option<FuncInfo>)
  {
    if !Exits(op, k) then now == was
    else
      var f0 := if was.Some? then was.value else NO_FUNC;
      && now.Some? && now.value.callCount == (f0.callCount + 1) % U32 && now.value.lastFrame == op.frame
      && (forall e :: e in now.value.exits <==> e in f0.exits || ExitIs(op, k, e))
      && (was == None || was.value.entry == k ==> now.value.entry == k)
  }

  lemma NotedStep(s: Store, op: Op, k: nat)
    ensures NotedOnce(FuncAt(s.t.funcs, k), op, k, FuncAt(Step(s, op).t.funcs, k))
  {
    if !op.NoteFunctionExit? {
      OthersStay(s, op);
      hide Step;
    }
  }

  lemma OneMoreNoted(was: Option<FuncInfo>, ops: seq<Op>, k: nat, mid: Option<FuncInfo>, now: Option<FuncInfo>)
    requires ops != [] && FuncIs(was, ops[..|ops| - 1], k, mid) && NotedOnce(mid, ops[|ops| - 1], k, now)
    ensures FuncIs(was, ops, k, now)
  {
    var n := |ops| - 1;
    hide ExitIs, ExitNoted, Exits;
    forall e: Exit
      ensures ExitNoted(ops, k, e) <==> ExitNoted(ops[..n], k, e) || ExitIs(ops[n], k, e)
      ensures ExitIs(ops[n], k, e) ==> Exits(ops[n], k)
      ensures ExitNoted(ops[..n], k, e) ==> CallsOf(ops[..n], k) > 0
    {
      OneMoreExit(ops, k, e);
      ExitIsExit(ops[n], k, e);
      NotedIsCounted(ops[..n], k, e);
    }
  }

  lemma OneMoreExit(ops: seq<Op>, k: nat, e: Exit)
    requires ops != []
    ensures ExitNoted(ops, k, e) <==> ExitNoted(ops[..|ops| - 1], k, e) || ExitIs(ops[|ops| - 1], k, e)
  {
    hide ExitIs;
    var n := |ops| - 1;
    if i :| 0 <= i < |ops| && ExitIs(ops[i], k, e) { assert i < n ==> ExitIs(ops[..n][i], k, e); }
    if i :| 0 <= i < n && ExitIs(ops[..n][i], k, e) { assert ExitIs(ops[i], k, e); }
  }

  lemma ExitIsExit(op: Op, k: nat, e: Exit)
    ensures ExitIs(op, k, e) ==> Exits(op, k)
  {
  }

  lemma {:induction false} NotedIsCounted(ops: seq<Op>, k: nat, e: Exit)
    ensures ExitNoted(ops, k, e) ==> CallsOf(ops, k) > 0
  {
    if i :| 0 <= i < |ops| && ExitIs(ops[i], k, e) {
      var n := |ops| - 1;
      if i < n {
        assert ExitIs(ops[..n][i], k, e);
        NotedIsCounted(ops[..n], k, e);
      }
    }
  }

  // ----- DMA -----

  /** A transfer noted again is counted where it stands, with the frame it was last seen in; a new one comes last. */
  lemma NotesTransfer(s: Store, rom: nat, size: u16, dst: byte, caller: nat, frame: u64, i: nat)
    requires i <= |s.t.dma| && (i < |s.t.dma| ==> Is(s.t.dma[i], rom, size, dst, caller % 0x100_0000))
    requires forall j :: 0 <= j < i ==> !Is(s.t.dma[j], rom, size, dst, caller % 0x100_0000)
    ensures var was, now := s.t.dma, Step(s, NoteDma(Some(rom), size, dst, caller, frame)).t.dma;
            if i == |was| then now == was + [DmaProv(rom, size, dst, caller % 0x100_0000, 1, frame)]
            else |now| == |was| && (forall j :: 0 <= j < |was| && j != i ==> now[j] == was[j])
                 && now[i] == DmaProv(rom, size, dst, caller % 0x100_0000, (was[i].hits + 1) % U32, frame)
  {
    FirstKnown(s.t.dma, rom, size, dst, caller % 0x100_0000, i);
    hide Known;
  }

  predicate Is(d: DmaProv, src: nat, size: u16, dst: byte, caller: nat)
  {
    d.src == src && d.size == size && d.dst == dst && d.caller == caller
  }

  lemma {:induction false} FirstKnown(d: seq<DmaProv>, src: nat, size: u16, dst: byte, caller: nat, i: nat)
    requires i <= |d| && (i < |d| ==> Is(d[i], src, size, dst, caller)) && forall j :: 0 <= j < i ==> !Is(d[j], src, size, dst, caller)
    ensures Known(d, src, size, dst, caller) == i
  {
    if i > 0 {
      assert !Is(d[0], src, size, dst, caller);
      FirstKnown(d[1..], src, size, dst, caller, i - 1);
    }
  }

  // ----- the order of a save -----

  /** Functions, bookmarks, breakpoints, DMA, labels: after the first write that fails no later file is touched. */
  lemma FirstFailureStops(s: Store, broken: map<File, string>)
    requires s.dirty.any && TomlFile !in broken && MapFile !in broken
    ensures var s' := SaveStep(s, broken);
            var f1 := s.dirty.funcs && FuncsFile in broken;
            var f2 := f1 || (s.dirty.bookmarks && BookmarksFile in broken);
            var f3 := f2 || (s.dirty.breakpoints && BreakpointsFile in broken);
            var f4 := f3 || (s.dirty.dma && DmaFile in broken);
            && (f1 ==> s'.disk.bookmarks == s.disk.bookmarks && s'.dirty.bookmarks == s.dirty.bookmarks)
            && (f2 ==> s'.disk.breakpoints == s.disk.breakpoints && s'.dirty.breakpoints == s.dirty.breakpoints)
            && (f3 ==> s'.disk.dma == s.disk.dma && s'.dirty.dma == s.dirty.dma)
            && (f4 ==> s'.disk.labels == s.disk.labels && s'.dirty.labels == s.dirty.labels)
            && (!f1 ==> !s'.dirty.funcs) && (!f2 ==> !s'.dirty.bookmarks) && (!f3 ==> !s'.dirty.breakpoints)
            && (!f4 ==> !s'.dirty.dma)
            && (SaveAll(s, broken).ok <==> !f4 && !(s.dirty.labels && LabelsFile in broken))
  {
    hide LabelsText, BookmarksText, BreakpointsText, FuncsText, DmaText;
  }

  /** Nothing at all is written while nothing is to be saved, or once the project or map file fails. */
  lemma NothingWritten(s: Store, broken: map<File, string>)
    requires !s.dirty.any || TomlFile in broken || MapFile in broken
    ensures SaveStep(s, broken) == s && (SaveAll(s, broken).ok <==> !s.dirty.any)
  {
  }

  // ----- the columns of the files -----

  /** Every row of every file has as many fields as its heading, each under the name of what it says. */
  lemma ColumnsAreNamed(l: Label, b: Bookmark, p: Breakpoint, f: FuncInfo, d: DmaProv)
    ensures Columns(LABELS_COLUMNS, LabelFields(l),
              [("# addr", Address(l.addr)), ("name", l.name), ("type", l.kind), ("m", Digit(l.m)), ("x", Digit(l.x)),
               ("e", Digit(l.e)), ("comment", l.comment)])
    ensures Columns(BOOKMARKS_COLUMNS, BookmarkFields(b),
              [("# name", b.name), ("addr", Address(b.addr)), ("view", b.view), ("comment", b.comment)])
    ensures Columns(BREAKPOINTS_COLUMNS, BreakpointFields(p),
              [("# kind", match p.kind case Exec => "exec" case Read => "read" case Write => "write"),
               ("addr_lo", Address(p.lo)), ("addr_hi", Address(p.hi)), ("halt", if p.halt then "1" else "0"),
               ("enabled", if p.enabled then "1" else "0"), ("comment", p.comment)])
    ensures Columns(FUNCS_COLUMNS, FuncFields(f),
              [("# entry", Address(f.entry)), ("call_count", Decimal(f.callCount)), ("last_frame", Decimal(f.lastFrame)),
               ("exits (pc:kind,...)", ExitsText(f.exits))])
    ensures Columns(DMA_COLUMNS, DmaFields(d),
              [("# src_rom", Address(d.src)), ("size", Decimal(d.size)), ("dst_reg", Hex(d.dst, 2)),
               ("caller_pc", Address(d.caller)), ("hits", Decimal(d.hits)), ("last_frame", Decimal(d.lastFrame))])
  {
    hide Address, Decimal, Hex, ExitsText;
  }

  predicate Columns(heading: seq<string>, fields: seq<string>, pairs: seq<(string, string)>)
  {
    |heading| == |fields| == |pairs| && forall i :: 0 <= i < |pairs| ==> (heading[i], fields[i]) == pairs[i]
  }

  /** An unset flag is an empty field. */
  function Digit(v: int): string { if v == 0 then "0" else if v == 1 then "1" else "" }
}
