/** The project object: tables, dirty flags and files changed in place, refining the steps of ProjectStore. */
module ProjectObject {
  import opened Prelude
  import opened Text
  import opened ProjectTables
  import opened ProjectStore

  class Project {
    var labels: map<nat, Label>
    var bookmarks: seq<Bookmark>
    var breakpoints: seq<Breakpoint>
    var funcs: map<nat, FuncInfo>
    var dma: seq<DmaProv>
    var dirty: bool
    var labelsDirty: bool
    var bookmarksDirty: bool
    var breakpointsDirty: bool
    var funcsDirty: bool
    var dmaDirty: bool
    /** The project's directory. */
    var disk: Disk

    ghost function State(): Store
      reads this
    {
      Store(Tables(labels, bookmarks, breakpoints, funcs, dma),
            Dirty(dirty, labelsDirty, bookmarksDirty, breakpointsDirty, funcsDirty, dmaDirty), disk)
    }

    /** Project::open */
    constructor Open(d: Disk)
      ensures State() == ProjectStore.Open(d)
    {
      hide TableRows, ByKey, ParseLabel, ParseFunc, ParseBookmark, ParseBreakpoint, ParseDma;
      var dmaRows := ReadRows(d.dma, ParseDma);
      var funcRows := ReadRows(d.funcs, ParseFunc);
      var funcMap := Keyed(funcRows, FuncKey);
      var bookmarkRows := ReadRows(d.bookmarks, ParseBookmark);
      var breakpointRows := ReadRows(d.breakpoints, ParseBreakpoint);
      var labelRows := ReadRows(d.labels, ParseLabel);
      var labelMap := Keyed(labelRows, LabelKey);
      disk := d;
      labels, bookmarks, breakpoints, funcs, dma := labelMap, bookmarkRows, breakpointRows, funcMap, dmaRows;
      dirty, labelsDirty, bookmarksDirty, breakpointsDirty, funcsDirty, dmaDirty := true, false, false, false, false, false;
    }

    method SaveFuncsFile(broken: map<File, string>) returns (ok: bool)
      modifies this
      ensures Saved(State(), ok) == SaveFuncs(Saved(old(State()), true), broken)
    {
      hide TableText, SortedRows, FuncLine;
      if !funcsDirty { return true; }
      if FuncsFile in broken { disk := disk.(funcs := broken[FuncsFile]); return false; }
      var rows := Sorted(funcs);
      var text := WriteRows(Heading(FUNCS_COLUMNS), rows, FuncLine);
      disk := disk.(funcs := text);
      funcsDirty := false;
      ok := true;
    }

    method SaveBookmarksFile(broken: map<File, string>) returns (ok: bool)
      modifies this
      ensures Saved(State(), ok) == SaveBookmarks(Saved(old(State()), true), broken)
    {
      hide TableText, SortedRows, BookmarkLine;
      if !bookmarksDirty { return true; }
      if BookmarksFile in broken { disk := disk.(bookmarks := broken[BookmarksFile]); return false; }
      var text := WriteRows(Heading(BOOKMARKS_COLUMNS), bookmarks, BookmarkLine);
      disk := disk.(bookmarks := text);
      bookmarksDirty := false;
      ok := true;
    }

    method SaveBreakpointsFile(broken: map<File, string>) returns (ok: bool)
      modifies this
      ensures Saved(State(), ok) == SaveBreakpoints(Saved(old(State()), true), broken)
    {
      hide TableText, SortedRows, BreakpointLine;
      if !breakpointsDirty { return true; }
      if BreakpointsFile in broken { disk := disk.(breakpoints := broken[BreakpointsFile]); return false; }
      var text := WriteRows(Heading(BREAKPOINTS_COLUMNS), breakpoints, BreakpointLine);
      disk := disk.(breakpoints := text);
      breakpointsDirty := false;
      ok := true;
    }

    method SaveDmaFile(broken: map<File, string>) returns (ok: bool)
      modifies this
      ensures Saved(State(), ok) == SaveDma(Saved(old(State()), true), broken)
    {
      hide TableText, SortedRows, DmaLine;
      if !dmaDirty { return true; }
      if DmaFile in broken { disk := disk.(dma := broken[DmaFile]); return false; }
      var text := WriteRows(Heading(DMA_COLUMNS), dma, DmaLine);
      disk := disk.(dma := text);
      dmaDirty := false;
      ok := true;
    }

    method SaveLabelsFile(broken: map<File, string>) returns (ok: bool)
      modifies this
      ensures Saved(State(), ok) == SaveLabels(Saved(old(State()), true), broken)
    {
      hide TableText, SortedRows, LabelLine;
      if !labelsDirty { return true; }
      if LabelsFile in broken { disk := disk.(labels := broken[LabelsFile]); return false; }
      var rows := Sorted(labels);
      var text := WriteRows(Heading(LABELS_COLUMNS), rows, LabelLine);
      disk := disk.(labels := text);
      labelsDirty := false;
      ok := true;
    }

    /** Project::save: up to the first write that fails. */
    method Save(broken: map<File, string>) returns (ok: bool)
      modifies this
      ensures State() == SaveStep(old(State()), broken) && ok == SaveAll(old(State()), broken).ok
    {
      hide SaveFuncs, SaveBookmarks, SaveBreakpoints, SaveDma, SaveLabels;
      Stopped(broken);
      if !dirty { return true; }
      if TomlFile in broken { return false; }
      if MapFile in broken { return false; }
      ok := SaveFuncsFile(broken);
      if !ok { return; }
      ok := SaveBookmarksFile(broken);
      if !ok { return; }
      ok := SaveBreakpointsFile(broken);
      if !ok { return; }
      ok := SaveDmaFile(broken);
      if !ok { return; }
      ok := SaveLabelsFile(broken);
      if !ok { return; }
      dirty := false;
    }

    method SetLabel(l: Label)
      modifies this
      ensures State() == Step(old(State()), Op.SetLabel(l))
    {
      var a := l.addr % ADDRESSES;
      labels := labels[a := l.(addr := a)];
      labelsDirty := true;
      dirty := true;
    }

    method ClearLabel(addr: nat)
      modifies this
      ensures State() == Step(old(State()), Op.ClearLabel(addr))
    {
      var a := addr % ADDRESSES;
      if a in labels {
        labels := labels - {a};
        labelsDirty := true;
        dirty := true;
      }
    }

    method RecordEntryFlags(addr: nat, m: int, x: int, e: int, force: bool)
      modifies this
      ensures State() == Step(old(State()), Op.RecordEntryFlags(addr, m, x, e, force))
    {
      var a := addr % ADDRESSES;
      var slot := if a in labels then labels[a] else BlankSlot(a);
      var m', mChanged := SetFlag(slot.m, m, force);
      var x', xChanged := SetFlag(slot.x, x, force);
      var e', eChanged := SetFlag(slot.e, e, force);
      slot := slot.(m := m', x := x', e := e');
      var changed := mChanged || xChanged || eChanged;
      if changed {
        labels := labels[a := slot];
        labelsDirty := true;
        dirty := true;
      } else if slot.name == "" && slot.kind == "" && slot.m < 0 && slot.x < 0 && slot.e < 0 {
        labels := labels - {a};
      }
    }

    method SetBookmark(b: Bookmark)
      modifies this
      ensures State() == Step(old(State()), Op.SetBookmark(b))
    {
      var i := 0;
      while i < |bookmarks|
        invariant 0 <= i <= |bookmarks| && forall j :: 0 <= j < i ==> bookmarks[j].name != b.name
        invariant State() == old(State())
      {
        if bookmarks[i].name == b.name {
          NamedIs(bookmarks, b.name, i);
          bookmarks := bookmarks[i := b];
          bookmarksDirty, dirty := true, true;
          return;
        }
        i := i + 1;
      }
      bookmarks := bookmarks + [b];
      bookmarksDirty, dirty := true, true;
    }

    method ClearBookmark(name: string)
      modifies this
      ensures State() == Step(old(State()), Op.ClearBookmark(name))
    {
      var i := 0;
      while i < |bookmarks|
        invariant 0 <= i <= |bookmarks| && forall j :: 0 <= j < i ==> bookmarks[j].name != name
        invariant State() == old(State())
      {
        if bookmarks[i].name == name {
          NamedIs(bookmarks, name, i);
          bookmarks := bookmarks[..i] + bookmarks[i + 1..];
          bookmarksDirty, dirty := true, true;
          return;
        }
        i := i + 1;
      }
    }

    method AddBreakpoint(b: Breakpoint)
      modifies this
      ensures State() == Step(old(State()), Op.AddBreakpoint(b))
    {
      breakpoints := breakpoints + [b];
      breakpointsDirty, dirty := true, true;
    }

    method RemoveBreakpoint(index: nat)
      modifies this
      ensures State() == Step(old(State()), Op.RemoveBreakpoint(index))
    {
      if index >= |breakpoints| { return; }
      breakpoints := breakpoints[..index] + breakpoints[index + 1..];
      breakpointsDirty, dirty := true, true;
    }

    method ClearBreakpoints()
      modifies this
      ensures State() == Step(old(State()), Op.ClearBreakpoints)
    {
      if breakpoints == [] { return; }
      breakpoints := [];
      breakpointsDirty, dirty := true, true;
    }

    method NoteFunctionExit(entry: nat, pc: nat, kind: byte, frame: u64)
      modifies this
      ensures State() == Step(old(State()), Op.NoteFunctionExit(entry, pc, kind, frame))
    {
      var k, exit := entry % ADDRESSES, Exit(pc % ADDRESSES, kind);
      var slot := if k in funcs then funcs[k] else FuncInfo(0, 0, 0, []);
      if slot.entry == 0 && slot.exits == [] { slot := slot.(entry := k); }
      slot := slot.(callCount := (slot.callCount + 1) % U32, lastFrame := frame);
      var seen, i := false, 0;
      while i < |slot.exits|
        invariant 0 <= i <= |slot.exits| && !seen && exit !in slot.exits[..i]
      {
        if slot.exits[i] == exit { seen := true; break; }
        i := i + 1;
      }
      if !seen { slot := slot.(exits := slot.exits + [exit]); }
      funcs := funcs[k := slot];
      funcsDirty, dirty := true, true;
    }

    /** note_dma_provenance; `rom` is the offset the bus address maps to. */
    method NoteDma(rom: Option<nat>, size: u16, dst: byte, caller: nat, frame: u64)
      modifies this
      ensures State() == Step(old(State()), Op.NoteDma(rom, size, dst, caller, frame))
    {
      if rom == None { return; }
      var src, pc := rom.value, caller % ADDRESSES;
      var i := 0;
      while i < |dma|
        invariant 0 <= i <= |dma| && forall j :: 0 <= j < i ==> !SameTransfer(dma[j], src, size, dst, pc)
        invariant State() == old(State())
      {
        if SameTransfer(dma[i], src, size, dst, pc) {
          KnownIs(dma, src, size, dst, pc, i);
          dma := dma[i := dma[i].(hits := (dma[i].hits + 1) % U32, lastFrame := frame)];
          dmaDirty, dirty := true, true;
          return;
        }
        i := i + 1;
      }
      dma := dma + [DmaProv(src, size, dst, pc, 1, frame)];
      dmaDirty, dirty := true, true;
    }

    /** mark_auto and mark_user, as far as the flag goes. */
    method MarkMap(changed: bool)
      modifies this
      ensures State() == Step(old(State()), Op.MarkMap(changed))
    {
      if changed { dirty := true; }
    }

    method Perform(op: Op)
      modifies this
      ensures State() == Step(old(State()), op)
    {
      hide Step;
      match op {
        case SetLabel(l) => SetLabel(l);
        case ClearLabel(addr) => ClearLabel(addr);
        case RecordEntryFlags(addr, m, x, e, force) => RecordEntryFlags(addr, m, x, e, force);
        case SetBookmark(b) => SetBookmark(b);
        case ClearBookmark(name) => ClearBookmark(name);
        case AddBreakpoint(b) => AddBreakpoint(b);
        case RemoveBreakpoint(i) => RemoveBreakpoint(i);
        case ClearBreakpoints => ClearBreakpoints();
        case NoteFunctionExit(entry, pc, kind, frame) => NoteFunctionExit(entry, pc, kind, frame);
        case NoteDma(rom, size, dst, caller, frame) => NoteDma(rom, size, dst, caller, frame);
        case MarkMap(changed) => MarkMap(changed);
        case Save(broken) =>
          SaveIsStep(State(), broken);
          var _ := Save(broken);
      }
    }
  }

  lemma SaveIsStep(s: Store, broken: map<File, string>)
    ensures Step(s, Op.Save(broken)) == SaveStep(s, broken)
  {
  }

  /** Once a write has failed nothing more is written. */
  lemma Stopped(broken: map<File, string>)
    ensures forall x: Saved :: !x.ok ==> SaveBookmarks(x, broken) == x
    ensures forall x: Saved :: !x.ok ==> SaveBreakpoints(x, broken) == x
    ensures forall x: Saved :: !x.ok ==> SaveDma(x, broken) == x
    ensures forall x: Saved :: !x.ok ==> SaveLabels(x, broken) == x
  {
  }

  lemma NamedIs(b: seq<Bookmark>, name: string, i: nat)
    requires i < |b| && b[i].name == name && forall j :: 0 <= j < i ==> b[j].name != name
    ensures Named(b, name) == i
  {
  }

  lemma KnownIs(d: seq<DmaProv>, src: nat, size: u16, dst: byte, caller: nat, i: nat)
    requires i < |d| && SameTransfer(d[i], src, size, dst, caller)
    requires forall j :: 0 <= j < i ==> !SameTransfer(d[j], src, size, dst, caller)
    ensures Known(d, src, size, dst, caller) == i
  {
  }

  /** setOne */
  method SetFlag(was: int, v: int, force: bool) returns (now: int, changed: bool)
    ensures now == SetOne(was, v, force) && (changed <==> now != was)
  {
    now, changed := was, false;
    if v < 0 { return; }
    if was < 0 || force {
      if was != v { now, changed := v, true; }
    }
  }

  /** Rows entered into a map in file order. */
  method Keyed<T>(rows: seq<T>, key: T -> nat) returns (m: map<nat, T>)
    ensures m == ByKey(rows, key)
  {
    m := map[];
    var i := 0;
    while i < |rows|
      invariant 0 <= i <= |rows| && m == ByKey(rows[..i], key)
    {
      m := m[key(rows[i]) := rows[i]];
      assert rows[..i + 1][..i] == rows[..i];
      i := i + 1;
    }
    assert rows[..i] == rows;
  }

  /** A map's values in key order. */
  method Sorted<T>(m: map<nat, T>) returns (rows: seq<T>)
    ensures rows == SortedRows(m, ADDRESSES)
  {
    rows := [];
    var k := 0;
    while k < ADDRESSES
      invariant 0 <= k <= ADDRESSES && rows == SortedRows(m, k)
    {
      if k in m { rows := rows + [m[k]]; }
      k := k + 1;
    }
  }

  /**
   Open a project, use it in any way, save it: the files reopen as the tables the operations made, exit kinds above 1
   read as 0, if and only if no label was forgotten since the label flag was last set, and as exactly those tables if and
   only if moreover no such exit was noted.
   */
  method UseAndSave(d: Disk, ops: seq<Op>, broken: map<File, string>) returns (ok: bool, d': Disk)
    requires Good(ReadTables(d)) && GoodOps(ops)
    ensures ok ==> (ReadTables(d') == Reopened(Run(ProjectStore.Open(d), ops).t) <==> !Forgotten(ProjectStore.Open(d), ops))
    ensures ok ==> (ReadTables(d') == Run(ProjectStore.Open(d), ops).t <==> !Forgotten(ProjectStore.Open(d), ops) && Guarded(ops))
    ensures broken == map[] ==> ok
  {
    hide Step, Forgotten, Good, ReadTables, SaveAll, SaveStep, Reopened, Guarded;
    var p := new Project.Open(d);
    var i := 0;
    while i < |ops|
      invariant 0 <= i <= |ops| && fresh(p) && p.State() == Run(ProjectStore.Open(d), ops[..i])
    {
      p.Perform(ops[i]);
      assert ops[..i + 1][..i] == ops[..i];
      i := i + 1;
    }
    assert ops[..i] == ops;
    ok := p.Save(broken);
    d' := p.disk;
    if broken == map[] { NothingBroken(Run(ProjectStore.Open(d), ops)); }
    if ok {
      SavedReopens(d, ops, broken);
      SavedReopensExactly(d, ops, broken);
    }
  }

  lemma NothingBroken(s: Store)
    ensures SaveAll(s, map[]).ok
  {
    hide LabelsText, BookmarksText, BreakpointsText, FuncsText, DmaText;
  }
}
