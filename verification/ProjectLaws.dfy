/** What every run keeps about the tables of a project: no duplicates, exact counts, first writer wins. */
module ProjectLaws {
  import opened Prelude
  import opened ProjectTables
  import opened ProjectStore

  // ----- no duplicates -----

  ghost predicate UniqueNames(b: seq<Bookmark>)
  {
    forall i, j :: 0 <= i < j < |b| ==> b[i].name != b[j].name
  }

  ghost predicate UniqueTransfers(d: seq<DmaProv>)
  {
    forall i, j :: 0 <= i < j < |d| ==> !SameTransfer(d[i], d[j].src, d[j].size, d[j].dst, d[j].caller)
  }

  ghost predicate UniqueExits(m: map<nat, FuncInfo>)
  {
    forall k :: k in m ==> Distinct(m[k].exits)
  }

  ghost predicate Unique(t: Tables)
  {
    UniqueNames(t.bookmarks) && UniqueTransfers(t.dma) && UniqueExits(t.funcs)
  }

  lemma BookmarksStayUnique(b: seq<Bookmark>, r: Bookmark)
    requires UniqueNames(b)
    ensures var i := Named(b, r.name); UniqueNames(if i < |b| then b[i := r] else b + [r])
  {
  }

  lemma FewerBookmarks(b: seq<Bookmark>, i: nat)
    requires UniqueNames(b) && i < |b|
    ensures UniqueNames(b[..i] + b[i + 1..])
  {
  }

  lemma TransfersStayUnique(d: seq<DmaProv>, src: nat, size: u16, dst: byte, caller: nat, frame: u64)
    requires UniqueTransfers(d)
    ensures UniqueTransfers(NoteDmaStep(d, src, size, dst, caller, frame))
  {
    var d' := NoteDmaStep(d, src, size, dst, caller, frame);
    forall i, j | 0 <= i < j < |d'| ensures !SameTransfer(d'[i], d'[j].src, d'[j].size, d'[j].dst, d'[j].caller) {
      if j < |d| { assert !SameTransfer(d[i], d[j].src, d[j].size, d[j].dst, d[j].caller); }
    }
  }

  lemma ExitsStayUnique(m: map<nat, FuncInfo>, k: nat, slot: FuncInfo, e: Exit, frame: u64)
    requires UniqueExits(m) && Distinct(slot.exits)
    ensures UniqueExits(m[k := OneExit(slot, k, e, frame)])
  {
  }

  /** Bookmark names, DMA transfers and the exits of a function stay distinct under every operation. */
  lemma UniqueStep(s: Store, op: Op)
    requires Unique(s.t)
    ensures Unique(Step(s, op).t)
  {
    hide SaveStep, FlagsStep, NoteDmaStep, OneExit, UniqueNames, UniqueTransfers, UniqueExits, Distinct;
    var t := s.t;
    match op {
      case SetBookmark(b) => BookmarksStayUnique(t.bookmarks, b);
      case ClearBookmark(name) =>
        if Named(t.bookmarks, name) < |t.bookmarks| { FewerBookmarks(t.bookmarks, Named(t.bookmarks, name)); }
      case NoteFunctionExit(routine, pc, kind, frame) =>
        var k := routine % ADDRESSES;
        SlotExits(t.funcs, k);
        ExitsStayUnique(t.funcs, k, if k in t.funcs then t.funcs[k] else FuncInfo(0, 0, 0, []), Exit(pc % ADDRESSES, kind), frame);
      case NoteDma(rom, size, dst, caller, frame) =>
        if rom.Some? { TransfersStayUnique(t.dma, rom.value, size, dst, caller % ADDRESSES, frame); }
      case RecordEntryFlags(addr, m, x, e, force) => FlagsOnly(s, addr % ADDRESSES, m, x, e, force);
      case Save(broken) => SaveKeepsTables(s, broken);
      case _ =>
    }
  }

  lemma SlotExits(m: map<nat, FuncInfo>, k: nat)
    requires UniqueExits(m)
    ensures Distinct((if k in m then m[k] else FuncInfo(0, 0, 0, [])).exits)
  {
  }

  lemma FlagsOnly(s: Store, addr: nat, m: int, x: int, e: int, force: bool)
    ensures var t := FlagsStep(s, addr, m, x, e, force).t; t == s.t.(labels := t.labels)
  {
  }

  lemma {:induction false} RunIsUnique(s: Store, ops: seq<Op>)
    requires Unique(s.t)
    ensures Unique(Run(s, ops).t)
  {
    hide Unique, Step;
    if ops != [] {
      RunIsUnique(s, ops[..|ops| - 1]);
      UniqueStep(Run(s, ops[..|ops| - 1]), ops[|ops| - 1]);
    }
  }

  // ----- exact counts -----

  /** How often the transfer was noted. */
  function Noted(ops: seq<Op>, src: nat, size: u16, dst: byte, caller: nat): nat
  {
    if ops == [] then 0
    else
      Noted(ops[..|ops| - 1], src, size, dst, caller) + if Notes(ops[|ops| - 1], src, size, dst, caller) then 1 else 0
  }

  predicate Notes(op: Op, src: nat, size: u16, dst: byte, caller: nat)
  {
    op.NoteDma? && op.rom == Some(src) && op.size == size && op.dst == dst && op.caller % ADDRESSES == caller
  }

  /** Hits modulo 2^32; a transfer without an entry was never noted. */
  ghost predicate HitsCount(d: seq<DmaProv>, ops: seq<Op>)
  {
    && (forall e :: e in d ==> HitsAre(e, Noted(ops, e.src, e.size, e.dst, e.caller)))
    && (forall src: nat, size: u16, dst: byte, caller: nat ::
          Known(d, src, size, dst, caller) == |d| ==> Noted(ops, src, size, dst, caller) == 0)
  }

  ghost predicate HitsAre(e: DmaProv, n: nat) { e.hits == n % U32 }

  lemma NotedSnoc(ops: seq<Op>, src: nat, size: u16, dst: byte, caller: nat)
    requires ops != []
    ensures Noted(ops, src, size, dst, caller)
         == Noted(ops[..|ops| - 1], src, size, dst, caller) + if Notes(ops[|ops| - 1], src, size, dst, caller) then 1 else 0
  {
  }

  lemma NothingNoted(d: seq<DmaProv>, ops: seq<Op>)
    requires ops != [] && HitsCount(d, ops[..|ops| - 1])
    requires ops[|ops| - 1].NoteDma? ==> ops[|ops| - 1].rom == None
    ensures HitsCount(d, ops)
  {
    hide Noted, Known, HitsAre;
    forall src: nat, size: u16, dst: byte, caller: nat
      ensures Noted(ops, src, size, dst, caller) == Noted(ops[..|ops| - 1], src, size, dst, caller)
    {
      NotedSnoc(ops, src, size, dst, caller);
    }
  }

  lemma OneNoted(d: seq<DmaProv>, ops: seq<Op>, op: Op)
    requires ops != [] && HitsCount(d, ops[..|ops| - 1]) && UniqueTransfers(d)
    requires op == ops[|ops| - 1] && op.NoteDma? && op.rom.Some?
    ensures HitsCount(NoteDmaStep(d, op.rom.value, op.size, op.dst, op.caller % ADDRESSES, op.frame), ops)
  {
    hide Noted;
    var src, caller := op.rom.value, op.caller % ADDRESSES;
    var d' := NoteDmaStep(d, src, op.size, op.dst, caller, op.frame);
    forall e | e in d' ensures HitsAre(e, Noted(ops, e.src, e.size, e.dst, e.caller)) {
      NotedSnoc(ops, e.src, e.size, e.dst, e.caller);
      OneNotedEntry(d, ops, op, e);
    }
    forall s: nat, z: u16, t: byte, c: nat | Known(d', s, z, t, c) == |d'| ensures Noted(ops, s, z, t, c) == 0 {
      NotedSnoc(ops, s, z, t, c);
      StaysKnown(d, op, s, z, t, c);
    }
  }

  lemma StaysKnown(d: seq<DmaProv>, op: Op, s: nat, z: u16, t: byte, c: nat)
    requires op.NoteDma? && op.rom.Some?
    ensures var d' := NoteDmaStep(d, op.rom.value, op.size, op.dst, op.caller % ADDRESSES, op.frame);
            Known(d, s, z, t, c) < |d| || Notes(op, s, z, t, c) ==> Known(d', s, z, t, c) < |d'|
  {
    var src, caller := op.rom.value, op.caller % ADDRESSES;
    var i := Known(d, src, op.size, op.dst, caller);
    var d' := NoteDmaStep(d, src, op.size, op.dst, caller, op.frame);
    assert SameTransfer(d'[i], src, op.size, op.dst, caller);
    var j := Known(d, s, z, t, c);
    if j < |d| { assert SameTransfer(d'[j], s, z, t, c); }
  }

  lemma OneNotedEntry(d: seq<DmaProv>, ops: seq<Op>, op: Op, e: DmaProv)
    requires ops != [] && HitsCount(d, ops[..|ops| - 1]) && UniqueTransfers(d)
    requires op == ops[|ops| - 1] && op.NoteDma? && op.rom.Some?
    requires e in NoteDmaStep(d, op.rom.value, op.size, op.dst, op.caller % ADDRESSES, op.frame)
    ensures HitsAre(e, Noted(ops[..|ops| - 1], e.src, e.size, e.dst, e.caller)
                       + if Notes(op, e.src, e.size, e.dst, e.caller) then 1 else 0)
  {
    hide Noted, UniqueTransfers, Known;
    var src, caller := op.rom.value, op.caller % ADDRESSES;
    var i := Known(d, src, op.size, op.dst, caller);
    var d' := NoteDmaStep(d, src, op.size, op.dst, caller, op.frame);
    var j :| 0 <= j < |d'| && d'[j] == e;
    if j == i {
      FoundEntry(d, ops, op, e);
    } else {
      assert d[j] == e && e in d;
      OnlyOne(d, src, op.size, op.dst, caller, j);
      hide NoteDmaStep;
      assert HitsAre(e, Noted(ops[..|ops| - 1], e.src, e.size, e.dst, e.caller));
    }
  }

  /** The entry counted or appended. */
  lemma FoundEntry(d: seq<DmaProv>, ops: seq<Op>, op: Op, e: DmaProv)
    requires ops != [] && HitsCount(d, ops[..|ops| - 1]) && op == ops[|ops| - 1] && op.NoteDma? && op.rom.Some?
    requires var i := Known(d, op.rom.value, op.size, op.dst, op.caller % ADDRESSES);
             e == NoteDmaStep(d, op.rom.value, op.size, op.dst, op.caller % ADDRESSES, op.frame)[i]
    ensures HitsAre(e, Noted(ops[..|ops| - 1], e.src, e.size, e.dst, e.caller)
                       + if Notes(op, e.src, e.size, e.dst, e.caller) then 1 else 0)
  {
    hide Noted, Known;
    var i := Known(d, op.rom.value, op.size, op.dst, op.caller % ADDRESSES);
    if i < |d| { assert d[i] in d; }
  }

  /** No other entry than the one found is of the transfer. */
  lemma OnlyOne(d: seq<DmaProv>, src: nat, size: u16, dst: byte, caller: nat, j: nat)
    requires UniqueTransfers(d) && j < |d| && j != Known(d, src, size, dst, caller)
    ensures !SameTransfer(d[j], src, size, dst, caller)
  {
    var i := Known(d, src, size, dst, caller);
    if i < j { assert !SameTransfer(d[i], d[j].src, d[j].size, d[j].dst, d[j].caller); }
  }

  /** Over every run of a new project, an entry's hits are the number of times its transfer was noted, modulo 2^32. */
  lemma {:induction false} HitsAreExact(s: Store, ops: seq<Op>)
    requires s.t.dma == [] && Unique(s.t)
    ensures HitsCount(Run(s, ops).t.dma, ops)
  {
    hide HitsCount, Step, Unique;
    if ops == [] {
      NoHits();
    } else {
      var n, op := |ops| - 1, ops[|ops| - 1];
      HitsAreExact(s, ops[..n]);
      RunIsUnique(s, ops[..n]);
      var was := Run(s, ops[..n]);
      DmaOfStep(was, op);
      UniqueParts(was.t);
      if op.NoteDma? && op.rom.Some? { OneNoted(was.t.dma, ops, op); } else { NothingNoted(was.t.dma, ops); }
    }
  }

  lemma NoHits()
    ensures HitsCount([], [])
  {
  }

  lemma UniqueParts(t: Tables)
    requires Unique(t)
    ensures UniqueTransfers(t.dma)
  {
  }

  lemma DmaOfStep(s: Store, op: Op)
    ensures Step(s, op).t.dma == if op.NoteDma? && op.rom.Some?
                                 then NoteDmaStep(s.t.dma, op.rom.value, op.size, op.dst, op.caller % ADDRESSES, op.frame)
                                 else s.t.dma
  {
    hide SaveStep, FlagsStep, NoteDmaStep, OneExit, Named;
    match op {
      case Save(broken) => SaveKeepsTables(s, broken);
      case RecordEntryFlags(addr, m, x, e, force) => FlagsOnly(s, addr % ADDRESSES, m, x, e, force);
      case _ =>
    }
  }

  // ----- entry flags -----

  /** Recording the same flags again changes nothing. */
  lemma FlagsTwice(s: Store, addr: nat, m: int, x: int, e: int, force: bool)
    ensures FlagsStep(FlagsStep(s, addr, m, x, e, force), addr, m, x, e, force) == FlagsStep(s, addr, m, x, e, force)
  {
    var t := FlagsStep(s, addr, m, x, e, force);
    if WithFlags(Slot(s.t.labels, addr), m, x, e, force) == Slot(s.t.labels, addr) && Blank(Slot(s.t.labels, addr)) {
      assert s.t.labels - {addr} - {addr} == s.t.labels - {addr};
    }
  }

  /** Without force a flag once set stays, and so do name, type and comment of its label. */
  lemma FirstWriterWins(s: Store, addr: nat, m: int, x: int, e: int)
    requires addr in s.t.labels && !Blank(s.t.labels[addr])
    ensures var was, now := s.t.labels[addr], FlagsStep(s, addr, m, x, e, false).t.labels;
            && addr in now && now[addr] == was.(m := now[addr].m, x := now[addr].x, e := now[addr].e)
            && (was.m >= 0 ==> now[addr].m == was.m) && (was.x >= 0 ==> now[addr].x == was.x)
            && (was.e >= 0 ==> now[addr].e == was.e)
  {
  }
}
