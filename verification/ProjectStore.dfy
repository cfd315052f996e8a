/** A project's tables in memory and on disk: what every change, failed save and reopening keeps. */
module ProjectStore {
  import opened Prelude
  import opened Text
  import opened ProjectTables

  datatype Tables = Tables(labels: map<nat, Label>, bookmarks: seq<Bookmark>, breakpoints: seq<Breakpoint>,
                           funcs: map<nat, FuncInfo>, dma: seq<DmaProv>)

  /** The table files; a missing file reads like an empty one. */
  datatype Disk = Disk(labels: string, bookmarks: string, breakpoints: string, funcs: string, dma: string)

  datatype Dirty = Dirty(any: bool, labels: bool, bookmarks: bool, breakpoints: bool, funcs: bool, dma: bool)

  datatype Store = Store(t: Tables, dirty: Dirty, disk: Disk)

  datatype File = TomlFile | MapFile | FuncsFile | BookmarksFile | BreakpointsFile | DmaFile | LabelsFile

  datatype Op =
    | SetLabel(entry: Label)
    | ClearLabel(addr: nat)
    | RecordEntryFlags(addr: nat, m: int, x: int, e: int, force: bool)
    | SetBookmark(bookmark: Bookmark)
    | ClearBookmark(name: string)
    | AddBreakpoint(breakpoint: Breakpoint)
    | RemoveBreakpoint(index: nat)
    | ClearBreakpoints
    | NoteFunctionExit(routine: nat, pc: nat, kind: byte, frame: u64)
    | NoteDma(rom: Option<nat>, size: u16, dst: byte, caller: nat, frame: u64)  // rom: where the bus address leads
    | MarkMap(changed: bool)
    | Save(broken: map<File, string>)  // the files whose write fails, and what is left in them

  // ----- tables and files -----

  /** The values of a sorted map whose keys lie below `n`, in order. */
  function SortedRows<T>(m: map<nat, T>, n: nat): seq<T>
  {
    if n == 0 then [] else SortedRows(m, n - 1) + if n - 1 in m then [m[n - 1]] else []
  }

  function ByKey<T>(rows: seq<T>, key: T -> nat): map<nat, T>
  {
    if rows == [] then map[] else var r := rows[|rows| - 1]; ByKey(rows[..|rows| - 1], key)[key(r) := r]
  }

  function LabelKey(l: Label): nat { l.addr }

  function FuncKey(f: FuncInfo): nat { f.entry }

  const LABELS_COLUMNS := ["# addr", "name", "type", "m", "x", "e", "comment"]
  const BOOKMARKS_COLUMNS := ["# name", "addr", "view", "comment"]
  const BREAKPOINTS_COLUMNS := ["# kind", "addr_lo", "addr_hi", "halt", "enabled", "comment"]
  const FUNCS_COLUMNS := ["# entry", "call_count", "last_frame", "exits (pc:kind,...)"]
  const DMA_COLUMNS := ["# src_rom", "size", "dst_reg", "caller_pc", "hits", "last_frame"]

  function Heading(columns: seq<string>): string
    requires |columns| >= 1
  {
    Join(columns, '\t')
  }

  lemma HeadingIsComment(columns: seq<string>)
    requires |columns| > 1 && |columns[0]| > 0 && columns[0][0] == '#' && Free(columns, '\n')
    ensures Skipped(Heading(columns)) && '\n' !in Heading(columns)
  {
    hide Join;
    JoinHead(columns, '\t');
    JoinFree(columns, '\t', '\n');
  }

  function LabelsText(m: map<nat, Label>): string { TableText(Heading(LABELS_COLUMNS), SortedRows(m, ADDRESSES), LabelLine) }

  function BookmarksText(b: seq<Bookmark>): string { TableText(Heading(BOOKMARKS_COLUMNS), b, BookmarkLine) }

  function BreakpointsText(b: seq<Breakpoint>): string { TableText(Heading(BREAKPOINTS_COLUMNS), b, BreakpointLine) }

  function FuncsText(m: map<nat, FuncInfo>): string { TableText(Heading(FUNCS_COLUMNS), SortedRows(m, ADDRESSES), FuncLine) }

  function DmaText(d: seq<DmaProv>): string { TableText(Heading(DMA_COLUMNS), d, DmaLine) }

  function LabelsOf(text: string): map<nat, Label> { ByKey(TableRows(text, ParseLabel), LabelKey) }

  function FuncsOf(text: string): map<nat, FuncInfo> { ByKey(TableRows(text, ParseFunc), FuncKey) }

  /** What opening the project reads. */
  function ReadTables(d: Disk): Tables
  {
    Tables(LabelsOf(d.labels), TableRows(d.bookmarks, ParseBookmark), TableRows(d.breakpoints, ParseBreakpoint),
           FuncsOf(d.funcs), TableRows(d.dma, ParseDma))
  }

  ghost predicate GoodLabels(m: map<nat, Label>)
  {
    forall k :: k in m ==> m[k].addr == k && GoodLabel(m[k])
  }

  ghost predicate GoodFuncs(m: map<nat, FuncInfo>)
  {
    forall k :: k in m ==> m[k].entry == k && GoodFunc(m[k])
  }

  ghost predicate GoodBookmarks(b: seq<Bookmark>)
  {
    forall r :: r in b ==> GoodBookmark(r)
  }

  ghost predicate GoodBreakpoints(b: seq<Breakpoint>)
  {
    forall r :: r in b ==> GoodBreakpoint(r)
  }

  ghost predicate GoodDmas(d: seq<DmaProv>)
  {
    forall r :: r in d ==> GoodDma(r)
  }

  /** What the format can hold. */
  ghost predicate Good(t: Tables)
  {
    GoodLabels(t.labels) && GoodBookmarks(t.bookmarks) && GoodBreakpoints(t.breakpoints) && GoodFuncs(t.funcs) && GoodDmas(t.dma)
  }

  // ----- reading back whole tables -----

  lemma {:induction false} ByKeySorted<T>(m: map<nat, T>, n: nat, key: T -> nat)
    requires forall k :: k in m ==> key(m[k]) == k
    ensures ByKey(SortedRows(m, n), key) == (map k | k in m && k < n :: m[k])
  {
    if n > 0 {
      ByKeySorted(m, n - 1, key);
      var rows := SortedRows(m, n - 1);
      if n - 1 in m {
        assert (rows + [m[n - 1]])[..|rows|] == rows;
      } else {
        assert rows + [] == rows;
      }
    }
  }

  lemma {:induction false} SortedRowsAre<T>(m: map<nat, T>, n: nat)
    ensures forall r :: r in SortedRows(m, n) ==> exists k :: k in m && m[k] == r
  {
    if n > 0 { SortedRowsAre(m, n - 1); }
  }

  lemma LabelsBack(m: map<nat, Label>)
    requires GoodLabels(m)
    ensures LabelsOf(LabelsText(m)) == m
  {
    hide Heading, TableText, TableRows, SortedRows, ByKey, LabelLine, ParseLabel, Sound;
    var rows := SortedRows(m, ADDRESSES);
    SortedRowsAre(m, ADDRESSES);
    forall r | r in rows ensures Sound(r, LabelLine, ParseLabel) {
      var k :| k in m && m[k] == r;
      LabelBack(r);
    }
    HeadingIsComment(LABELS_COLUMNS);
    TableReadsBack(Heading(LABELS_COLUMNS), rows, LabelLine, ParseLabel);
    ByKeySorted(m, ADDRESSES, LabelKey);
    assert (map k | k in m && k < ADDRESSES :: m[k]) == m;
  }

  /** What the function file keeps: every exit kind but 1 becomes 0. */
  function ReadFuncs(m: map<nat, FuncInfo>): map<nat, FuncInfo>
  {
    map k | k in m :: ReadFunc(m[k])
  }

  /** The tables as they come back from their files. */
  function Reopened(t: Tables): Tables
  {
    t.(funcs := ReadFuncs(t.funcs))
  }

  lemma {:induction false} SortedReadFuncs(m: map<nat, FuncInfo>, n: nat)
    ensures Mapped(SortedRows(m, n), ReadFunc) == SortedRows(ReadFuncs(m), n)
  {
    hide ReadFunc;
    if n > 0 {
      SortedReadFuncs(m, n - 1);
      var rows := SortedRows(m, n - 1);
      if n - 1 in m {
        assert (rows + [m[n - 1]])[..|rows|] == rows;
      } else {
        assert rows + [] == rows;
      }
    }
  }

  lemma FuncsBack(m: map<nat, FuncInfo>)
    requires GoodFuncs(m)
    ensures FuncsOf(FuncsText(m)) == ReadFuncs(m)
  {
    hide Heading, TableText, TableRows, SortedRows, ByKey, FuncLine, ParseFunc, ReadsAs, Mapped;
    var rows := SortedRows(m, ADDRESSES);
    SortedRowsAre(m, ADDRESSES);
    forall r | r in rows ensures ReadsAs(r, FuncLine, ParseFunc, ReadFunc) {
      var k :| k in m && m[k] == r;
      FuncBack(r);
    }
    HeadingIsComment(FUNCS_COLUMNS);
    TableReadsAs(Heading(FUNCS_COLUMNS), rows, FuncLine, ParseFunc, ReadFunc);
    SortedReadFuncs(m, ADDRESSES);
    ByKeySorted(ReadFuncs(m), ADDRESSES, FuncKey);
    assert (map k | k in ReadFuncs(m) && k < ADDRESSES :: ReadFuncs(m)[k]) == ReadFuncs(m);
  }

  lemma BookmarksBack(b: seq<Bookmark>)
    requires GoodBookmarks(b)
    ensures TableRows(BookmarksText(b), ParseBookmark) == b
  {
    hide Heading, TableText, TableRows, BookmarkLine, ParseBookmark, Sound;
    forall r | r in b ensures Sound(r, BookmarkLine, ParseBookmark) { BookmarkBack(r); }
    HeadingIsComment(BOOKMARKS_COLUMNS);
    TableReadsBack(Heading(BOOKMARKS_COLUMNS), b, BookmarkLine, ParseBookmark);
  }

  lemma BreakpointsBack(b: seq<Breakpoint>)
    requires GoodBreakpoints(b)
    ensures TableRows(BreakpointsText(b), ParseBreakpoint) == b
  {
    hide Heading, TableText, TableRows, BreakpointLine, ParseBreakpoint, Sound;
    forall r | r in b ensures Sound(r, BreakpointLine, ParseBreakpoint) { BreakpointBack(r); }
    HeadingIsComment(BREAKPOINTS_COLUMNS);
    TableReadsBack(Heading(BREAKPOINTS_COLUMNS), b, BreakpointLine, ParseBreakpoint);
  }

  lemma DmaTableBack(d: seq<DmaProv>)
    requires GoodDmas(d)
    ensures TableRows(DmaText(d), ParseDma) == d
  {
    hide Heading, TableText, TableRows, DmaLine, ParseDma, Sound;
    forall r | r in d ensures Sound(r, DmaLine, ParseDma) { DmaBack(r); }
    HeadingIsComment(DMA_COLUMNS);
    TableReadsBack(Heading(DMA_COLUMNS), d, DmaLine, ParseDma);
  }

  // ----- one operation -----

  function Named(b: seq<Bookmark>, name: string): (i: nat)
    ensures i <= |b| && (i < |b| ==> b[i].name == name)
    ensures forall j :: 0 <= j < i ==> b[j].name != name
  {
    if b == [] || b[0].name == name then 0 else 1 + Named(b[1..], name)
  }

  predicate SameTransfer(d: DmaProv, src: nat, size: u16, dst: byte, caller: nat)
  {
    d.src == src && d.size == size && d.dst == dst && d.caller == caller
  }

  function Known(d: seq<DmaProv>, src: nat, size: u16, dst: byte, caller: nat): (i: nat)
    ensures i <= |d| && (i < |d| ==> SameTransfer(d[i], src, size, dst, caller))
    ensures forall j :: 0 <= j < i ==> !SameTransfer(d[j], src, size, dst, caller)
  {
    if d == [] || SameTransfer(d[0], src, size, dst, caller) then 0 else 1 + Known(d[1..], src, size, dst, caller)
  }

  /** A flag is set once, or again by force; a negative value sets nothing. */
  function SetOne(was: int, v: int, force: bool): int
  {
    if v >= 0 && (was < 0 || force) then v else was
  }

  function BlankSlot(addr: nat): Label { Label(addr, "", "", -1, -1, -1, "") }

  function Slot(labels: map<nat, Label>, addr: nat): Label
  {
    if addr in labels then labels[addr] else BlankSlot(addr)
  }

  function WithFlags(l: Label, m: int, x: int, e: int, force: bool): Label
  {
    l.(m := SetOne(l.m, m, force), x := SetOne(l.x, x, force), e := SetOne(l.e, e, force))
  }

  /** No name, no type, no flag; a comment does not count. */
  predicate Blank(l: Label)
  {
    l.name == "" && l.kind == "" && l.m < 0 && l.x < 0 && l.e < 0
  }

  function OneExit(f: FuncInfo, entry: nat, exit: Exit, frame: u64): FuncInfo
  {
    FuncInfo(if f.entry == 0 && f.exits == [] then entry else f.entry, (f.callCount + 1) % U32, frame,
             if exit in f.exits then f.exits else f.exits + [exit])
  }

  function NoteDmaStep(d: seq<DmaProv>, src: nat, size: u16, dst: byte, caller: nat, frame: u64): seq<DmaProv>
  {
    var i := Known(d, src, size, dst, caller);
    if i < |d| then d[i := d[i].(hits := (d[i].hits + 1) % U32, lastFrame := frame)]
    else d + [DmaProv(src, size, dst, caller, 1, frame)]
  }

  function WithLabels(s: Store, labels: map<nat, Label>): Store
  {
    s.(t := s.t.(labels := labels), dirty := s.dirty.(any := true, labels := true))
  }

  function WithBookmarks(s: Store, b: seq<Bookmark>): Store
  {
    s.(t := s.t.(bookmarks := b), dirty := s.dirty.(any := true, bookmarks := true))
  }

  function WithBreakpoints(s: Store, b: seq<Breakpoint>): Store
  {
    s.(t := s.t.(breakpoints := b), dirty := s.dirty.(any := true, breakpoints := true))
  }

  function FlagsStep(s: Store, addr: nat, m: int, x: int, e: int, force: bool): Store
  {
    var slot := Slot(s.t.labels, addr);
    var slot' := WithFlags(slot, m, x, e, force);
    if slot' != slot then WithLabels(s, s.t.labels[addr := slot'])
    else if Blank(slot) then s.(t := s.t.(labels := s.t.labels - {addr}))
    else s
  }

  function Step(s: Store, op: Op): Store
  {
    match op
    case SetLabel(l) => var a := l.addr % ADDRESSES; WithLabels(s, s.t.labels[a := l.(addr := a)])
    case ClearLabel(addr) =>
      var a := addr % ADDRESSES;
      if a in s.t.labels then WithLabels(s, s.t.labels - {a}) else s
    case RecordEntryFlags(addr, m, x, e, force) => FlagsStep(s, addr % ADDRESSES, m, x, e, force)
    case SetBookmark(b) =>
      var i := Named(s.t.bookmarks, b.name);
      WithBookmarks(s, if i < |s.t.bookmarks| then s.t.bookmarks[i := b] else s.t.bookmarks + [b])
    case ClearBookmark(name) =>
      var i := Named(s.t.bookmarks, name);
      if i < |s.t.bookmarks| then WithBookmarks(s, s.t.bookmarks[..i] + s.t.bookmarks[i + 1..]) else s
    case AddBreakpoint(b) => WithBreakpoints(s, s.t.breakpoints + [b])
    case RemoveBreakpoint(i) =>
      if i < |s.t.breakpoints| then WithBreakpoints(s, s.t.breakpoints[..i] + s.t.breakpoints[i + 1..]) else s
    case ClearBreakpoints => if s.t.breakpoints != [] then WithBreakpoints(s, []) else s
    case NoteFunctionExit(entry, pc, kind, frame) =>
      var k := entry % ADDRESSES;
      var slot := if k in s.t.funcs then s.t.funcs[k] else FuncInfo(0, 0, 0, []);
      s.(t := s.t.(funcs := s.t.funcs[k := OneExit(slot, k, Exit(pc % ADDRESSES, kind), frame)]),
         dirty := s.dirty.(any := true, funcs := true))
    case NoteDma(rom, size, dst, caller, frame) =>
      if rom == None then s
      else
        s.(t := s.t.(dma := NoteDmaStep(s.t.dma, rom.value, size, dst, caller % ADDRESSES, frame)),
           dirty := s.dirty.(any := true, dma := true))
    case MarkMap(changed) => if changed then s.(dirty := s.dirty.(any := true)) else s
    case Save(broken) => SaveStep(s, broken)
  }

  // ----- saving: each dirty table in turn, up to the first write that fails -----

  datatype Saved = Saved(s: Store, ok: bool)

  function SaveFuncs(x: Saved, broken: map<File, string>): Saved
  {
    if !x.ok || !x.s.dirty.funcs then x
    else if FuncsFile in broken then Saved(x.s.(disk := x.s.disk.(funcs := broken[FuncsFile])), false)
    else x.(s := x.s.(disk := x.s.disk.(funcs := FuncsText(x.s.t.funcs)), dirty := x.s.dirty.(funcs := false)))
  }

  function SaveBookmarks(x: Saved, broken: map<File, string>): Saved
  {
    if !x.ok || !x.s.dirty.bookmarks then x
    else if BookmarksFile in broken then Saved(x.s.(disk := x.s.disk.(bookmarks := broken[BookmarksFile])), false)
    else x.(s := x.s.(disk := x.s.disk.(bookmarks := BookmarksText(x.s.t.bookmarks)), dirty := x.s.dirty.(bookmarks := false)))
  }

  function SaveBreakpoints(x: Saved, broken: map<File, string>): Saved
  {
    if !x.ok || !x.s.dirty.breakpoints then x
    else if BreakpointsFile in broken then Saved(x.s.(disk := x.s.disk.(breakpoints := broken[BreakpointsFile])), false)
    else x.(s := x.s.(disk := x.s.disk.(breakpoints := BreakpointsText(x.s.t.breakpoints)),
                      dirty := x.s.dirty.(breakpoints := false)))
  }

  function SaveDma(x: Saved, broken: map<File, string>): Saved
  {
    if !x.ok || !x.s.dirty.dma then x
    else if DmaFile in broken then Saved(x.s.(disk := x.s.disk.(dma := broken[DmaFile])), false)
    else x.(s := x.s.(disk := x.s.disk.(dma := DmaText(x.s.t.dma)), dirty := x.s.dirty.(dma := false)))
  }

  function SaveLabels(x: Saved, broken: map<File, string>): Saved
  {
    if !x.ok || !x.s.dirty.labels then x
    else if LabelsFile in broken then Saved(x.s.(disk := x.s.disk.(labels := broken[LabelsFile])), false)
    else x.(s := x.s.(disk := x.s.disk.(labels := LabelsText(x.s.t.labels)), dirty := x.s.dirty.(labels := false)))
  }

  function SaveAll(s: Store, broken: map<File, string>): Saved
  {
    if !s.dirty.any then Saved(s, true)
    else if TomlFile in broken || MapFile in broken then Saved(s, false)
    else
      var x := SaveLabels(SaveDma(SaveBreakpoints(SaveBookmarks(SaveFuncs(Saved(s, true), broken), broken), broken), broken), broken);
      if x.ok then x.(s := x.s.(dirty := x.s.dirty.(any := false))) else x
  }

  function SaveStep(s: Store, broken: map<File, string>): Store
  {
    SaveAll(s, broken).s
  }

  function Open(d: Disk): Store
  {
    Store(ReadTables(d), Dirty(true, false, false, false, false, false), d)
  }

  // ----- the invariant: a clear flag means that the file agrees, as far as it can hold the table -----

  ghost predicate LabelsAgree(s: Store)
  {
    !s.dirty.labels ==> LabelsOf(s.disk.labels) == s.t.labels
  }

  ghost predicate OthersAgree(s: Store)
  {
    && (!s.dirty.bookmarks ==> TableRows(s.disk.bookmarks, ParseBookmark) == s.t.bookmarks)
    && (!s.dirty.breakpoints ==> TableRows(s.disk.breakpoints, ParseBreakpoint) == s.t.breakpoints)
    && (!s.dirty.funcs ==> FuncsOf(s.disk.funcs) == ReadFuncs(s.t.funcs))
    && (!s.dirty.dma ==> TableRows(s.disk.dma, ParseDma) == s.t.dma)
  }

  predicate AnyTable(d: Dirty)
  {
    d.labels || d.bookmarks || d.breakpoints || d.funcs || d.dma
  }

  /** The invariant but for the labels. */
  ghost predicate OthersConsistent(s: Store)
  {
    OthersAgree(s) && (AnyTable(s.dirty) ==> s.dirty.any)
  }

  ghost predicate Consistent(s: Store)
  {
    LabelsAgree(s) && OthersConsistent(s)
  }

  ghost predicate GoodOp(op: Op)
  {
    match op
    case SetLabel(l) => GoodLabel(l.(addr := l.addr % ADDRESSES))
    case RecordEntryFlags(_, m, x, e, _) => m <= 1 && x <= 1 && e <= 1
    case SetBookmark(b) => GoodBookmark(b)
    case AddBreakpoint(b) => GoodBreakpoint(b)
    case NoteDma(rom, _, _, _, _) => rom.Some? ==> rom.value < ADDRESSES
    case _ => true
  }

  /**
   Recording no flags at a label that has neither name, type nor flags, while the file agrees: the label is dropped, and
   no flag says so.
   */
  predicate Forgets(s: Store, op: Op)
  {
    && op.RecordEntryFlags? && op.m < 0 && op.x < 0 && op.e < 0
    && op.addr % ADDRESSES in s.t.labels && Blank(s.t.labels[op.addr % ADDRESSES]) && !s.dirty.labels
  }

  lemma OpenIsConsistent(d: Disk)
    ensures Consistent(Open(d)) && KindsFit(Open(d).t.funcs)
  {
    hide TableRows, LabelsOf, FuncsOf, ReadFuncs, KindsFit;
    FileKindsFit(d.funcs);
    FitsAsItIs(FuncsOf(d.funcs));
  }

  /** Exit kinds that the function file can tell apart. */
  ghost predicate KindsFit(m: map<nat, FuncInfo>)
  {
    forall k :: k in m ==> FuncFits(m[k])
  }

  ghost predicate FuncFits(f: FuncInfo)
  {
    forall i :: 0 <= i < |f.exits| ==> f.exits[i].kind <= 1
  }

  lemma {:induction false} MappedExits(es: seq<Exit>)
    ensures |Mapped(es, ReadExit)| == |es|
    ensures forall i :: 0 <= i < |es| ==> Mapped(es, ReadExit)[i] == ReadExit(es[i])
  {
    hide ReadExit;
    if es != [] { MappedExits(es[..|es| - 1]); }
  }

  /** Reading changes a list of exits exactly when it holds a kind above 1. */
  lemma ExitsFit(es: seq<Exit>)
    ensures Mapped(es, ReadExit) == es <==> forall i :: 0 <= i < |es| ==> es[i].kind <= 1
  {
    hide Mapped;
    MappedExits(es);
    var r := Mapped(es, ReadExit);
    if r == es {
      forall i | 0 <= i < |es| ensures es[i].kind <= 1 { assert r[i] == ReadExit(es[i]); }
    }
  }

  lemma FuncFitsAsItIs(f: FuncInfo)
    ensures ReadFunc(f) == f <==> FuncFits(f)
  {
    ExitsFit(f.exits);
  }

  lemma FitsAsItIs(m: map<nat, FuncInfo>)
    ensures ReadFuncs(m) == m <==> KindsFit(m)
  {
    hide ReadFunc, FuncFits;
    forall k | k in m ensures ReadFunc(m[k]) == m[k] <==> FuncFits(m[k]) { FuncFitsAsItIs(m[k]); }
    if ReadFuncs(m) == m {
      forall k | k in m ensures FuncFits(m[k]) { assert ReadFuncs(m)[k] == ReadFunc(m[k]); }
    }
  }

  /** Whatever is in the file, only the kinds 0 and 1 are read from it. */
  lemma FileKindsFit(text: string)
    ensures KindsFit(FuncsOf(text))
  {
    hide ParseFunc, Lines;
    RowKindsFit(Lines(text));
    KeyedFit(TableRows(text, ParseFunc));
  }

  lemma {:induction false} RowKindsFit(lines: seq<string>)
    ensures forall r :: r in RowsOf(lines, ParseFunc) ==> FuncFits(r)
  {
    hide ParseFunc, Split, FuncFits;
    if lines != [] {
      var n := |lines| - 1;
      RowKindsFit(lines[..n]);
      ParsedFits(Split(lines[n], '\t'));
    }
  }

  lemma ParsedFits(f: seq<string>)
    ensures ParseFunc(f).Some? ==> FuncFits(ParseFunc(f).value)
  {
    hide ParseNumber, ParseExits, Split;
    if |f| >= 4 { ParsedExitsFit(Split(f[3], ',')); }
  }

  lemma {:induction false} ParsedExitsFit(pieces: seq<string>)
    ensures forall i :: 0 <= i < |ParseExits(pieces)| ==> ParseExits(pieces)[i].kind <= 1
  {
    hide ParseNumber, Find;
    if pieces != [] { ParsedExitsFit(pieces[..|pieces| - 1]); }
  }

  lemma {:induction false} KeyedFit(rows: seq<FuncInfo>)
    requires forall r :: r in rows ==> FuncFits(r)
    ensures KindsFit(ByKey(rows, FuncKey))
  {
    hide FuncFits;
    if rows != [] {
      var n := |rows| - 1;
      assert rows[n] in rows && forall r :: r in rows[..n] ==> r in rows;
      KeyedFit(rows[..n]);
    }
  }

  /** Every operation, failed saves included, keeps memory and files consistent, except exactly for a forgetting one. */
  lemma ConsistentUnlessForgotten(s: Store, op: Op)
    requires Consistent(s) && Good(s.t)
    ensures Consistent(Step(s, op)) <==> !Forgets(s, op)
  {
    hide TableRows, LabelsOf, FuncsOf, ReadFuncs, Good, Named, Known, NoteDmaStep, OneExit, FlagsStep, SaveStep;
    match op {
      case RecordEntryFlags(addr, m, x, e, force) => FlagsConsistent(s, addr, m, x, e, force);
      case Save(broken) => SaveConsistent(s, broken);
      case _ =>
    }
  }

  lemma FlagsConsistent(s: Store, addr: nat, m: int, x: int, e: int, force: bool)
    requires Consistent(s)
    ensures Consistent(Step(s, RecordEntryFlags(addr, m, x, e, force))) <==> !Forgets(s, RecordEntryFlags(addr, m, x, e, force))
  {
    hide TableRows, LabelsOf, FuncsOf, ReadFuncs;
    var a := addr % ADDRESSES;
    var t := Step(s, RecordEntryFlags(addr, m, x, e, force));
    if a !in s.t.labels { assert s.t.labels - {a} == s.t.labels; }
    if Forgets(s, RecordEntryFlags(addr, m, x, e, force)) {
      assert a in s.t.labels && a !in t.t.labels;
    }
  }

  ghost predicate Fine(x: Saved)
  {
    OthersAgree(x.s) && Good(x.s.t) && (!x.ok ==> x.s.dirty.any)
  }

  predicate SameLabels(s: Store, s': Store)
  {
    s'.t.labels == s.t.labels && s'.dirty.labels == s.dirty.labels && s'.disk.labels == s.disk.labels
  }

  /** A save, failed or not, leaves the tables alone; the label file is left too, or agrees, or the flag stays set. */
  lemma SaveOthers(s: Store, broken: map<File, string>)
    requires OthersConsistent(s) && Good(s.t)
    ensures var s' := SaveStep(s, broken);
            && OthersConsistent(s') && s'.t == s.t
            && (SameLabels(s, s') || (s.dirty.labels && LabelsAgree(s')))
            && (SaveAll(s, broken).ok ==> !AnyTable(s'.dirty) && !s'.dirty.any)
  {
    hide OthersAgree, Good, LabelsOf, SaveFuncs, SaveBookmarks, SaveBreakpoints, SaveDma, SaveLabels;
    if s.dirty.any && TomlFile !in broken && MapFile !in broken {
      var x0 := Saved(s, true);
      FuncsSaved(x0, broken);
      var x1 := SaveFuncs(x0, broken);
      BookmarksSaved(x1, broken);
      var x2 := SaveBookmarks(x1, broken);
      BreakpointsSaved(x2, broken);
      var x3 := SaveBreakpoints(x2, broken);
      DmaSaved(x3, broken);
      var x4 := SaveDma(x3, broken);
      LabelsSaved(x4, broken);
      AnyFlagOnly(SaveLabels(x4, broken).s);
    }
  }

  lemma SaveConsistent(s: Store, broken: map<File, string>)
    requires Consistent(s) && Good(s.t)
    ensures Consistent(SaveStep(s, broken)) && SaveStep(s, broken).t == s.t
    ensures SaveAll(s, broken).ok ==> !AnyTable(SaveStep(s, broken).dirty) && !SaveStep(s, broken).dirty.any
  {
    hide OthersConsistent, Good, SaveStep, SaveAll, LabelsOf;
    SaveOthers(s, broken);
  }

  lemma AnyFlagOnly(s: Store)
    ensures OthersAgree(s.(dirty := s.dirty.(any := false))) <==> OthersAgree(s)
  {
  }

  lemma FuncsSaved(x: Saved, broken: map<File, string>)
    requires Fine(x) && x.s.dirty.any
    ensures var y := SaveFuncs(x, broken);
            && Fine(y) && SameLabels(x.s, y.s) && y.s.t == x.s.t && y.s.dirty.any
            && (y.ok ==> x.ok && y.s.dirty == x.s.dirty.(funcs := false))
  {
    hide GoodLabels, GoodFuncs, GoodBookmarks, GoodBreakpoints, GoodDmas, FuncsText, TableRows, FuncsOf, ReadFuncs;
    FuncsBack(x.s.t.funcs);
  }

  lemma BookmarksSaved(x: Saved, broken: map<File, string>)
    requires Fine(x) && x.s.dirty.any
    ensures var y := SaveBookmarks(x, broken);
            && Fine(y) && SameLabels(x.s, y.s) && y.s.t == x.s.t && y.s.dirty.any
            && (y.ok ==> x.ok && y.s.dirty == x.s.dirty.(bookmarks := false))
  {
    hide GoodLabels, GoodFuncs, GoodBookmarks, GoodBreakpoints, GoodDmas, BookmarksText, TableRows, FuncsOf, ReadFuncs;
    BookmarksBack(x.s.t.bookmarks);
  }

  lemma BreakpointsSaved(x: Saved, broken: map<File, string>)
    requires Fine(x) && x.s.dirty.any
    ensures var y := SaveBreakpoints(x, broken);
            && Fine(y) && SameLabels(x.s, y.s) && y.s.t == x.s.t && y.s.dirty.any
            && (y.ok ==> x.ok && y.s.dirty == x.s.dirty.(breakpoints := false))
  {
    hide GoodLabels, GoodFuncs, GoodBookmarks, GoodBreakpoints, GoodDmas, BreakpointsText, TableRows, FuncsOf, ReadFuncs;
    BreakpointsBack(x.s.t.breakpoints);
  }

  lemma DmaSaved(x: Saved, broken: map<File, string>)
    requires Fine(x) && x.s.dirty.any
    ensures var y := SaveDma(x, broken);
            && Fine(y) && SameLabels(x.s, y.s) && y.s.t == x.s.t && y.s.dirty.any
            && (y.ok ==> x.ok && y.s.dirty == x.s.dirty.(dma := false))
  {
    hide GoodLabels, GoodFuncs, GoodBookmarks, GoodBreakpoints, GoodDmas, DmaText, TableRows, FuncsOf, ReadFuncs;
    DmaTableBack(x.s.t.dma);
  }

  lemma LabelsSaved(x: Saved, broken: map<File, string>)
    requires Fine(x) && x.s.dirty.any
    ensures var y := SaveLabels(x, broken);
            && Fine(y) && (SameLabels(x.s, y.s) || (x.s.dirty.labels && LabelsAgree(y.s))) && y.s.t == x.s.t && y.s.dirty.any
            && (y.ok ==> x.ok && y.s.dirty == x.s.dirty.(labels := false))
  {
    hide GoodLabels, GoodFuncs, GoodBookmarks, GoodBreakpoints, GoodDmas, LabelsText, LabelsOf, TableRows, FuncsOf, ReadFuncs;
    LabelsBack(x.s.t.labels);
  }

  /** Clean text and 24-bit addresses stay so. */
  lemma StepIsGood(s: Store, op: Op)
    requires Good(s.t) && GoodOp(op)
    ensures Good(Step(s, op).t)
  {
    hide SaveStep, FlagsStep, NoteDmaStep, GoodLabels, GoodFuncs, GoodBookmarks, GoodBreakpoints, GoodDmas, Named, OneExit;
    var t := s.t;
    match op {
      case SetLabel(l) => OneMoreLabel(t.labels, l.(addr := l.addr % ADDRESSES));
      case ClearLabel(addr) => OneLessLabel(t.labels, addr % ADDRESSES);
      case RecordEntryFlags(addr, m, x, e, force) => FlagsStayGood(s, addr % ADDRESSES, m, x, e, force);
      case SetBookmark(b) => BookmarksStayGood(t.bookmarks, b, Named(t.bookmarks, b.name));
      case ClearBookmark(name) => OneLessBookmark(t.bookmarks, Named(t.bookmarks, name));
      case AddBreakpoint(b) => OneMoreBreakpoint(t.breakpoints, b);
      case RemoveBreakpoint(i) => OneLessBreakpoint(t.breakpoints, i);
      case ClearBreakpoints => NoBreakpoints();
      case NoteFunctionExit(routine, pc, kind, frame) =>
        var k := routine % ADDRESSES;
        FuncsStayGood(t.funcs, k, if k in t.funcs then t.funcs[k] else FuncInfo(0, 0, 0, []), Exit(pc % ADDRESSES, kind), frame);
      case NoteDma(rom, size, dst, caller, frame) =>
        if rom.Some? { DmaStaysGood(t.dma, rom.value, size, dst, caller % ADDRESSES, frame); }
      case MarkMap(_) =>
      case Save(broken) => SaveKeepsTables(s, broken);
    }
  }

  lemma OneMoreLabel(m: map<nat, Label>, l: Label)
    requires GoodLabels(m) && GoodLabel(l)
    ensures GoodLabels(m[l.addr := l])
  {
  }

  lemma OneLessLabel(m: map<nat, Label>, k: nat)
    requires GoodLabels(m)
    ensures GoodLabels(m - {k})
  {
  }

  lemma FlagsStayGood(s: Store, addr: nat, m: int, x: int, e: int, force: bool)
    requires GoodLabels(s.t.labels) && addr < ADDRESSES && m <= 1 && x <= 1 && e <= 1
    ensures var t := FlagsStep(s, addr, m, x, e, force).t; GoodLabels(t.labels) && t == s.t.(labels := t.labels)
  {
    hide GoodLabels;
    SlotIsGood(s.t.labels, addr);
    OneMoreLabel(s.t.labels, WithFlags(Slot(s.t.labels, addr), m, x, e, force));
    OneLessLabel(s.t.labels, addr);
  }

  lemma SlotIsGood(m: map<nat, Label>, addr: nat)
    requires GoodLabels(m) && addr < ADDRESSES
    ensures GoodLabel(Slot(m, addr)) && Slot(m, addr).addr == addr
  {
  }

  lemma BookmarksStayGood(b: seq<Bookmark>, r: Bookmark, i: nat)
    requires GoodBookmarks(b) && GoodBookmark(r)
    ensures GoodBookmarks(b + [r]) && (i < |b| ==> GoodBookmarks(b[i := r]))
  {
  }

  lemma OneLessBookmark(b: seq<Bookmark>, i: nat)
    requires GoodBookmarks(b)
    ensures i < |b| ==> GoodBookmarks(b[..i] + b[i + 1..])
  {
  }

  lemma OneMoreBreakpoint(b: seq<Breakpoint>, r: Breakpoint)
    requires GoodBreakpoints(b) && GoodBreakpoint(r)
    ensures GoodBreakpoints(b + [r])
  {
  }

  lemma OneLessBreakpoint(b: seq<Breakpoint>, i: nat)
    requires GoodBreakpoints(b)
    ensures i < |b| ==> GoodBreakpoints(b[..i] + b[i + 1..])
  {
  }

  lemma NoBreakpoints()
    ensures GoodBreakpoints([])
  {
  }

  lemma FuncsStayGood(m: map<nat, FuncInfo>, k: nat, slot: FuncInfo, e: Exit, frame: u64)
    requires GoodFuncs(m) && k < ADDRESSES && e.pc < ADDRESSES
    requires slot == if k in m then m[k] else FuncInfo(0, 0, 0, [])
    ensures GoodFuncs(m[k := OneExit(slot, k, e, frame)])
  {
    assert GoodFunc(OneExit(slot, k, e, frame)) && OneExit(slot, k, e, frame).entry == k;
  }

  lemma DmaStaysGood(d: seq<DmaProv>, src: nat, size: u16, dst: byte, caller: nat, frame: u64)
    requires src < ADDRESSES && caller < ADDRESSES && GoodDmas(d)
    ensures GoodDmas(NoteDmaStep(d, src, size, dst, caller, frame))
  {
    var i := Known(d, src, size, dst, caller);
    if i < |d| { assert d[i] in d; }
  }

  lemma SaveKeepsTables(s: Store, broken: map<File, string>)
    ensures SaveStep(s, broken).t == s.t
  {
    hide LabelsText, BookmarksText, BreakpointsText, FuncsText, DmaText;
  }

  // ----- whole runs -----

  function Run(s: Store, ops: seq<Op>): Store
  {
    if ops == [] then s else Step(Run(s, ops[..|ops| - 1]), ops[|ops| - 1])
  }

  ghost predicate GoodOps(ops: seq<Op>)
  {
    forall i :: 0 <= i < |ops| ==> GoodOp(ops[i])
  }

  /** A label was forgotten, and the label flag has not been set since. */
  predicate Forgotten(s: Store, ops: seq<Op>)
  {
    ops != [] &&
    var before := ops[..|ops| - 1];
    && !Run(s, before).dirty.labels && !Run(s, ops).dirty.labels
    && (Forgotten(s, before) || Forgets(Run(s, before), ops[|ops| - 1]))
  }

  /** With the flag clear the labels are those of the file, less some if one was forgotten. */
  ghost predicate LabelsLeft(s: Store, forgotten: bool)
  {
    if s.dirty.labels then !forgotten
    else if forgotten then Fewer(s.t.labels, LabelsOf(s.disk.labels))
    else s.t.labels == LabelsOf(s.disk.labels)
  }

  ghost predicate Fewer(a: map<nat, Label>, b: map<nat, Label>)
  {
    && (forall k :: k in a ==> k in b && b[k] == a[k])
    && exists k :: k in b && k !in a
  }

  lemma OthersStep(s: Store, op: Op)
    requires OthersConsistent(s) && Good(s.t)
    ensures OthersConsistent(Step(s, op))
  {
    hide TableRows, LabelsOf, FuncsOf, ReadFuncs, Good, Named, Known, NoteDmaStep, OneExit, FlagsStep, SaveStep;
    match op {
      case RecordEntryFlags(addr, m, x, e, force) => FlagsLeaveOthers(s, addr % ADDRESSES, m, x, e, force);
      case Save(broken) => SaveOthers(s, broken);
      case _ =>
    }
  }

  lemma FlagsLeaveOthers(s: Store, addr: nat, m: int, x: int, e: int, force: bool)
    requires OthersConsistent(s)
    ensures OthersConsistent(FlagsStep(s, addr, m, x, e, force))
  {
    hide TableRows, FuncsOf, ReadFuncs;
  }

  lemma LabelsStep(s: Store, op: Op, forgotten: bool)
    requires OthersConsistent(s) && Good(s.t) && LabelsLeft(s, forgotten)
    ensures LabelsLeft(Step(s, op), !s.dirty.labels && !Step(s, op).dirty.labels && (forgotten || Forgets(s, op)))
  {
    hide OthersConsistent, LabelsOf, Good, Named, NoteDmaStep, OneExit, FlagsStep, SaveStep;
    match op {
      case RecordEntryFlags(addr, m, x, e, force) => FlagsLeaveLabels(s, op, forgotten);
      case Save(broken) => SaveOthers(s, broken);
      case _ =>
    }
  }

  lemma FlagsLeaveLabels(s: Store, op: Op, forgotten: bool)
    requires op.RecordEntryFlags? && LabelsLeft(s, forgotten)
    ensures LabelsLeft(Step(s, op), !s.dirty.labels && !Step(s, op).dirty.labels && (forgotten || Forgets(s, op)))
  {
    hide LabelsOf;
    var a := op.addr % ADDRESSES;
    if a !in s.t.labels { assert s.t.labels - {a} == s.t.labels; }
  }

  lemma {:induction false} RunLeaves(s: Store, ops: seq<Op>)
    requires Consistent(s) && Good(s.t) && GoodOps(ops)
    ensures var t := Run(s, ops); OthersConsistent(t) && Good(t.t) && LabelsLeft(t, Forgotten(s, ops))
  {
    hide Step, OthersConsistent, Good, GoodOp, Forgets, LabelsOf;
    if ops != [] {
      var n := |ops| - 1;
      assert forall i :: 0 <= i < n ==> ops[..n][i] == ops[i];
      RunLeaves(s, ops[..n]);
      OthersStep(Run(s, ops[..n]), ops[n]);
      LabelsStep(Run(s, ops[..n]), ops[n], Forgotten(s, ops[..n]));
      StepIsGood(Run(s, ops[..n]), ops[n]);
    }
  }

  /**
   After any run, the files that a successful save leaves reopen as the tables in memory, exit kinds above 1 read as 0, if
   and only if no label was forgotten since the label flag was last set.
   */
  lemma SavedReopens(d: Disk, ops: seq<Op>, broken: map<File, string>)
    requires Good(ReadTables(d)) && GoodOps(ops) && SaveAll(Run(Open(d), ops), broken).ok
    ensures ReadTables(SaveStep(Run(Open(d), ops), broken).disk) == Reopened(Run(Open(d), ops).t) <==> !Forgotten(Open(d), ops)
  {
    hide Run, Forgotten, SaveAll, SaveStep, LabelsOf, FuncsOf, TableRows, ReadFuncs, KindsFit;
    OpenIsConsistent(d);
    RunLeaves(Open(d), ops);
    SaveOthers(Run(Open(d), ops), broken);
    FewerDiffers(Run(Open(d), ops).t.labels, LabelsOf(SaveStep(Run(Open(d), ops), broken).disk.labels));
  }

  /** So over every run of a project a clear flag is true if and only if no label was forgotten since its flag was set. */
  lemma RunConsistentIff(d: Disk, ops: seq<Op>)
    requires Good(ReadTables(d)) && GoodOps(ops)
    ensures Consistent(Run(Open(d), ops)) <==> !Forgotten(Open(d), ops)
  {
    hide Run, Forgotten, LabelsOf, OthersConsistent, KindsFit;
    OpenIsConsistent(d);
    RunLeaves(Open(d), ops);
    FewerDiffers(Run(Open(d), ops).t.labels, LabelsOf(Run(Open(d), ops).disk.labels));
  }

  lemma FewerDiffers(a: map<nat, Label>, b: map<nat, Label>)
    ensures Fewer(a, b) ==> a != b
  {
  }

  // ----- exit kinds -----

  /** The guard a caller would need: exits of kind 0 and 1 only. */
  predicate Guarded(ops: seq<Op>)
  {
    forall i :: 0 <= i < |ops| ==> GuardedOp(ops[i])
  }

  predicate GuardedOp(op: Op)
  {
    op.NoteFunctionExit? ==> op.kind <= 1
  }

  lemma NotedExitKinds(m: map<nat, FuncInfo>, k: nat, e: Exit, frame: u64)
    ensures var slot := if k in m then m[k] else FuncInfo(0, 0, 0, []);
            KindsFit(m[k := OneExit(slot, k, e, frame)]) <==> KindsFit(m) && e.kind <= 1
  {
    var slot := if k in m then m[k] else FuncInfo(0, 0, 0, []);
    var f := OneExit(slot, k, e, frame);
    var m' := m[k := f];
    SlotKinds(slot, k, e, frame);
    if KindsFit(m') {
      assert k in m' && FuncFits(m'[k]);
      forall j | j in m ensures FuncFits(m[j]) {
        if j == k { assert m[j] == slot; } else { assert j in m' && m'[j] == m[j]; }
      }
    }
  }

  lemma SlotKinds(slot: FuncInfo, k: nat, e: Exit, frame: u64)
    ensures FuncFits(OneExit(slot, k, e, frame)) <==> FuncFits(slot) && e.kind <= 1
  {
    var f := OneExit(slot, k, e, frame);
    if e in slot.exits {
      var j :| 0 <= j < |slot.exits| && slot.exits[j] == e;
      assert f.exits == slot.exits;
    } else {
      assert f.exits[|slot.exits|] == e;
      assert forall i :: 0 <= i < |slot.exits| ==> f.exits[i] == slot.exits[i];
    }
  }

  lemma StepKinds(s: Store, op: Op)
    ensures KindsFit(Step(s, op).t.funcs) <==> KindsFit(s.t.funcs) && GuardedOp(op)
  {
    hide KindsFit, OneExit, SaveStep, FlagsStep, NoteDmaStep, Named;
    match op {
      case NoteFunctionExit(routine, pc, kind, frame) =>
        NotedExitKinds(s.t.funcs, routine % ADDRESSES, Exit(pc % ADDRESSES, kind), frame);
      case RecordEntryFlags(addr, m, x, e, force) => FlagsLeaveFuncs(s, addr % ADDRESSES, m, x, e, force);
      case Save(broken) => SaveKeepsTables(s, broken);
      case _ =>
    }
  }

  lemma FlagsLeaveFuncs(s: Store, addr: nat, m: int, x: int, e: int, force: bool)
    ensures FlagsStep(s, addr, m, x, e, force).t.funcs == s.t.funcs
  {
  }

  /** The exits kept after a run fit the file exactly when every exit noted did. */
  lemma {:induction false} RunKinds(s: Store, ops: seq<Op>)
    requires KindsFit(s.t.funcs)
    ensures KindsFit(Run(s, ops).t.funcs) <==> Guarded(ops)
  {
    hide KindsFit, Step, GuardedOp;
    if ops != [] {
      var n := |ops| - 1;
      RunKinds(s, ops[..n]);
      StepKinds(Run(s, ops[..n]), ops[n]);
      if Guarded(ops) { assert forall i :: 0 <= i < n ==> ops[..n][i] == ops[i]; }
      if Guarded(ops[..n]) && GuardedOp(ops[n]) {
        assert forall i :: 0 <= i < n ==> GuardedOp(ops[..n][i]);
      }
    }
  }

  /**
   The files reopen as exactly the tables in memory if and only if, besides, no exit of a kind above 1 was ever noted.
   */
  lemma SavedReopensExactly(d: Disk, ops: seq<Op>, broken: map<File, string>)
    requires Good(ReadTables(d)) && GoodOps(ops) && SaveAll(Run(Open(d), ops), broken).ok
    ensures ReadTables(SaveStep(Run(Open(d), ops), broken).disk) == Run(Open(d), ops).t
       <==> !Forgotten(Open(d), ops) && Guarded(ops)
  {
    hide Run, Forgotten, SaveAll, SaveStep, LabelsOf, FuncsOf, TableRows, ReadFuncs, KindsFit, Guarded;
    OpenIsConsistent(d);
    RunLeaves(Open(d), ops);
    SaveOthers(Run(Open(d), ops), broken);
    FewerDiffers(Run(Open(d), ops).t.labels, LabelsOf(SaveStep(Run(Open(d), ops), broken).disk.labels));
    RunKinds(Open(d), ops);
    FitsAsItIs(Run(Open(d), ops).t.funcs);
  }

  /** An interrupt handler's return, which has kind 2, comes back from a successful save as one of kind 0. */
  lemma InterruptExitIsMisread(routine: nat, pc: nat, frame: u64)
    requires routine < ADDRESSES && pc < ADDRESSES
    ensures var s := Step(Open(Disk("", "", "", "", "")), NoteFunctionExit(routine, pc, 2, frame));
            var saved := SaveAll(s, map[]);
            && saved.ok && !saved.s.dirty.funcs
            && saved.s.t.funcs == map[routine := FuncInfo(routine, 1, frame, [Exit(pc, 2)])]
            && ReadTables(saved.s.disk).funcs == map[routine := FuncInfo(routine, 1, frame, [Exit(pc, 0)])]
  {
    FirstExit(routine, pc, frame);
    var s := Step(Open(Disk("", "", "", "", "")), NoteFunctionExit(routine, pc, 2, frame));
    FuncsWritten(s);
    OneFuncBack(routine, pc, frame);
    hide Step, Open, SaveAll, FuncsText, FuncsOf, TableRows, LabelsOf, ReadFuncs;
  }

  lemma FirstExit(routine: nat, pc: nat, frame: u64)
    requires routine < ADDRESSES && pc < ADDRESSES
    ensures var s := Step(Open(Disk("", "", "", "", "")), NoteFunctionExit(routine, pc, 2, frame));
            s.t.funcs == map[routine := FuncInfo(routine, 1, frame, [Exit(pc, 2)])] && s.dirty.any && s.dirty.funcs
  {
    EmptyFuncs();
    hide FuncsOf, TableRows, LabelsOf;
    var s0 := Open(Disk("", "", "", "", ""));
    assert s0.t.funcs == map[];
    assert OneExit(FuncInfo(0, 0, 0, []), routine, Exit(pc, 2), frame) == FuncInfo(routine, 1, frame, [Exit(pc, 2)]);
    hide OneExit;
    assert Step(s0, NoteFunctionExit(routine, pc, 2, frame)).t.funcs
        == s0.t.funcs[routine := OneExit(FuncInfo(0, 0, 0, []), routine, Exit(pc, 2), frame)];
  }

  /** A save without failures writes the function file. */
  lemma FuncsWritten(s: Store)
    requires s.dirty.any && s.dirty.funcs
    ensures var saved := SaveAll(s, map[]);
            saved.ok && !saved.s.dirty.funcs && saved.s.t == s.t && saved.s.disk.funcs == FuncsText(s.t.funcs)
  {
    hide LabelsText, BookmarksText, BreakpointsText, FuncsText, DmaText;
  }

  lemma OneFuncBack(routine: nat, pc: nat, frame: u64)
    requires routine < ADDRESSES && pc < ADDRESSES
    ensures FuncsOf(FuncsText(map[routine := FuncInfo(routine, 1, frame, [Exit(pc, 2)])]))
         == map[routine := FuncInfo(routine, 1, frame, [Exit(pc, 0)])]
  {
    hide FuncsOf, FuncsText;
    var m := map[routine := FuncInfo(routine, 1, frame, [Exit(pc, 2)])];
    FuncsBack(m);
    MappedExits([Exit(pc, 2)]);
    assert ReadFunc(m[routine]) == FuncInfo(routine, 1, frame, [Exit(pc, 0)]);
  }

  lemma EmptyFuncs()
    ensures FuncsOf("") == map[]
  {
    assert Split([], '\n') == [[]];
    assert Lines("") == [];
  }

  /** The exception: after a forgetting call, saving and reopening bring the label back. */
  lemma ForgottenReturns(s: Store, op: Op)
    requires Consistent(s) && Good(s.t) && Forgets(s, op)
    ensures var a := op.addr % ADDRESSES;
            var saved := SaveAll(Step(s, op), map[]);
            saved.ok && a !in saved.s.t.labels && a in ReadTables(saved.s.disk).labels
  {
    hide LabelsText, BookmarksText, BreakpointsText, FuncsText, DmaText, TableRows, LabelsOf, FuncsOf;
    var a := op.addr % ADDRESSES;
    assert a in LabelsOf(s.disk.labels);
    assert Step(s, op) == s.(t := s.t.(labels := s.t.labels - {a}));
  }

  /** Such a label is not hard to come by: one with a comment only. */
  lemma CommentOnlyIsForgotten(d: Disk, comment: string)
    requires d == Disk("", "", "", "", "") && Clean(comment)
    ensures var ops := [SetLabel(Label(0x8000, "", "", -1, -1, -1, comment)), Save(map[])];
            Forgets(Run(Open(d), ops), RecordEntryFlags(0x8000, -1, -1, -1, false))
  {
    hide LabelsText, BookmarksText, BreakpointsText, FuncsText, DmaText, TableRows, LabelsOf, FuncsOf;
    var l := Label(0x8000, "", "", -1, -1, -1, comment);
    var ops := [SetLabel(l), Save(map[])];
    var s1 := Step(Open(d), SetLabel(l));
    assert ops[..1] == [SetLabel(l)] && ops[..1][..0] == [];
    assert Run(Open(d), ops[..1]) == s1;
    assert Run(Open(d), ops) == SaveStep(s1, map[]);
    assert s1.t.labels[0x8000] == l;
  }
}
