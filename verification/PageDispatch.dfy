/** Debug callbacks behind a page index: 65536 saturating counters tell whether the callback list must be scanned. */
module PageDispatch {
  import opened Prelude

  const PAGES := 0x1_0000
  const ADDRESSES := 0x100_0000

  datatype Callback = Callback(lo: u32, hi: u32, fn: nat, active: bool, halt: bool)

  datatype Op = Add(lo: u32, hi: u32, fn: nat, halt: bool) | Remove(id: int)

  function Page(addr: u32): (p: nat)
    ensures p < PAGES
  {
    addr % ADDRESSES / 0x100
  }

  /** The pages marked for a range. */
  predicate Covers(lo: u32, hi: u32, p: nat)
  {
    Page(lo) <= p <= Page(hi)
  }

  function Clamped(v: int): (c: byte)
  {
    if v < 0 then 0 else if v > 255 then 255 else v
  }

  predicate Hit(cb: Callback, addr: u32)
  {
    cb.active && cb.lo <= addr <= cb.hi
  }

  /** A plain scan: the callbacks called, in order. */
  function Fired(list: seq<Callback>, addr: u32): seq<nat>
  {
    if list == [] then []
    else
      var cb := list[|list| - 1];
      Fired(list[..|list| - 1], addr) + if Hit(cb, addr) then [cb.fn] else []
  }

  /** Whether a called callback asks for a halt. */
  function Halts(list: seq<Callback>, addr: u32): bool
  {
    exists i :: 0 <= i < |list| && Hit(list[i], addr) && list[i].halt
  }

  // ----- what a run of registrations leaves -----

  predicate Removes(list: seq<Callback>, id: int)
  {
    1 <= id <= |list| && list[id - 1].active
  }

  function ListAfter(ops: seq<Op>): seq<Callback>
  {
    if ops == [] then [] else ListStep(ListAfter(ops[..|ops| - 1]), ops[|ops| - 1])
  }

  function ListStep(list: seq<Callback>, op: Op): seq<Callback>
  {
    match op
    case Add(lo, hi, fn, halt) => list + [Callback(lo, hi, fn, true, halt)]
    case Remove(id) => if Removes(list, id) then list[id - 1 := list[id - 1].(active := false)] else list
  }

  /** The counter of a page. */
  function Counter(ops: seq<Op>, p: nat): byte
  {
    if ops == [] then 0
    else CounterStep(ListAfter(ops[..|ops| - 1]), Counter(ops[..|ops| - 1], p), ops[|ops| - 1], p)
  }

  function CounterStep(list: seq<Callback>, c: byte, op: Op, p: nat): byte
  {
    match op
    case Add(lo, hi, _, _) => if Covers(lo, hi, p) then Clamped(c + 1) else c
    case Remove(id) =>
      if Removes(list, id) && Covers(list[id - 1].lo, list[id - 1].hi, p) then Clamped(c - 1) else c
  }

  // ----- the index and the list, updated in place -----

  class Dispatch {
    const pages: array<byte>
    var list: seq<Callback>
    /** The registrations and removals so far. */
    ghost var ops: seq<Op>

    ghost predicate Valid()
      reads this, pages
    {
      && pages.Length == PAGES
      && list == ListAfter(ops)
      && forall p :: 0 <= p < PAGES ==> pages[p] == Counter(ops, p)
    }

    constructor ()
      ensures Valid() && fresh(pages) && ops == []
    {
      pages := new byte[PAGES](_ => 0);
      list, ops := [], [];
    }

    /** markCPages */
    method Mark(lo: u32, hi: u32, delta: int)
      requires pages.Length == PAGES
      modifies pages
      ensures forall p :: 0 <= p < PAGES ==> pages[p] == if Covers(lo, hi, p) then Clamped(old(pages[p]) + delta) else old(pages[p])
    {
      var lpage, hpage := Page(lo), Page(hi);
      var p := lpage;
      while p <= hpage
        invariant lpage <= p <= PAGES && (p <= hpage || lpage > hpage || p == hpage + 1)
        invariant forall q :: 0 <= q < PAGES ==>
          pages[q] == if lpage <= q < p && q <= hpage then Clamped(old(pages[q]) + delta) else old(pages[q])
      {
        pages[p] := Clamped(pages[p] as int + delta);
        p := p + 1;
      }
    }

    /** kintsuki_add_callback_ex */
    method AddCallback(lo: u32, hi: u32, fn: nat, halt: bool) returns (id: nat)
      requires Valid()
      modifies this, pages
      ensures Valid() && ops == old(ops) + [Add(lo, hi, fn, halt)] && id == |list|
    {
      hide Counter, ListAfter;
      list := list + [Callback(lo, hi, fn, true, halt)];
      Mark(lo, hi, 1);
      Appended(ops, Add(lo, hi, fn, halt));
      ops := ops + [Add(lo, hi, fn, halt)];
      id := |list|;
    }

    /** kintsuki_remove_callback */
    method RemoveCallback(id: int)
      requires Valid()
      modifies this, pages
      ensures Valid() && ops == old(ops) + [Remove(id)]
    {
      hide Counter, ListAfter;
      Appended(ops, Remove(id));
      ops := ops + [Remove(id)];
      if id < 1 || id > |list| { return; }
      var cb := list[id - 1];
      if cb.active {
        Mark(cb.lo, cb.hi, -1);
        list := list[id - 1 := cb.(active := false)];
      }
    }

    /** The filter and scan of cOnExec, cOnRead and cOnWrite: the callbacks called, and whether a halt was raised. */
    method OnAccess(addr: u32) returns (fired: seq<nat>, halted: bool)
      requires Valid()
      ensures fired == if Counter(ops, Page(addr)) == 0 then [] else Fired(ListAfter(ops), addr)
      ensures halted <==> Counter(ops, Page(addr)) != 0 && Halts(ListAfter(ops), addr)
    {
      fired, halted := [], false;
      if pages[Page(addr)] == 0 { return; }
      var i := 0;
      while i < |list|
        invariant 0 <= i <= |list|
        invariant fired == Fired(list[..i], addr)
        invariant halted <==> exists j :: 0 <= j < i && Hit(list[j], addr) && list[j].halt
      {
        var cb := list[i];
        assert list[..i + 1][..i] == list[..i];
        if cb.active && !(addr < cb.lo || addr > cb.hi) {
          fired := fired + [cb.fn];
          if cb.halt { halted := true; }
        }
        i := i + 1;
      }
      assert list[..i] == list;
    }
  }

  lemma Appended(ops: seq<Op>, op: Op)
    ensures ListAfter(ops + [op]) == ListStep(ListAfter(ops), op)
    ensures forall p :: 0 <= p < PAGES ==> Counter(ops + [op], p) == CounterStep(ListAfter(ops), Counter(ops, p), op, p)
  {
    hide ListStep, CounterStep;
    assert (ops + [op])[..|ops|] == ops;
  }

  // ----- the index tells the truth -----

  /** Active ranges whose marked pages include `p`. */
  function Covering(list: seq<Callback>, p: nat): nat
  {
    if list == [] then 0
    else
      var cb := list[|list| - 1];
      Covering(list[..|list| - 1], p) + if cb.active && Covers(cb.lo, cb.hi, p) then 1 else 0
  }

  /** At no time more than 255 active ranges on the page. */
  ghost predicate NeverCrowded(ops: seq<Op>, p: nat)
  {
    forall n :: 0 <= n <= |ops| ==> Covering(ListAfter(ops[..n]), p) <= 255
  }

  lemma {:induction false} CoveringUpdate(list: seq<Callback>, i: nat, p: nat)
    requires i < |list| && list[i].active
    ensures var list' := list[i := list[i].(active := false)];
            Covering(list, p) == Covering(list', p) + if Covers(list[i].lo, list[i].hi, p) then 1 else 0
    decreases |list|
  {
    hide Covers;
    var n := |list| - 1;
    var list' := list[i := list[i].(active := false)];
    if i < n {
      CoveringUpdate(list[..n], i, p);
      assert list'[..n] == list[..n][i := list[i].(active := false)];
    } else {
      assert list'[..n] == list[..n];
    }
  }

  lemma CoveringStep(list: seq<Callback>, op: Op, p: nat)
    requires Covering(list, p) <= 255 && Covering(ListStep(list, op), p) <= 255
    ensures Covering(ListStep(list, op), p) == CounterStep(list, Covering(list, p), op, p)
  {
    hide Covers;
    match op {
      case Add(lo, hi, fn, halt) =>
        var list' := list + [Callback(lo, hi, fn, true, halt)];
        assert list'[..|list|] == list;
      case Remove(id) =>
        if Removes(list, id) { CoveringUpdate(list, id - 1, p); }
    }
  }

  /** Each counter is the number of active ranges on its page. */
  lemma {:induction false} CounterIsCovering(ops: seq<Op>, p: nat)
    requires NeverCrowded(ops, p)
    ensures Counter(ops, p) == Covering(ListAfter(ops), p)
  {
    hide Covering, CounterStep, ListStep;
    if ops == [] {
      NothingCovers(p);
    } else {
      var n := |ops| - 1;
      forall k | 0 <= k <= n ensures Covering(ListAfter(ops[..n][..k]), p) <= 255 {
        assert ops[..n][..k] == ops[..k];
      }
      CounterIsCovering(ops[..n], p);
      assert ops[..|ops|] == ops;
      CoveringStep(ListAfter(ops[..n]), ops[n], p);
    }
  }

  lemma NothingCovers(p: nat)
    ensures Covering([], p) == 0
  {
  }

  /** Ranges as callers give them: in order, inside the 24-bit address space. */
  predicate InSpace(cb: Callback)
  {
    cb.lo <= cb.hi < ADDRESSES
  }

  lemma {:induction false} HitIsCovered(list: seq<Callback>, addr: u32)
    requires addr < ADDRESSES && forall cb :: cb in list ==> InSpace(cb)
    ensures Fired(list, addr) != [] || Halts(list, addr) ==> Covering(list, Page(addr)) > 0
  {
    if list != [] {
      var n := |list| - 1;
      assert forall cb :: cb in list[..n] ==> cb in list;
      HitIsCovered(list[..n], addr);
      if Hit(list[n], addr) {
        assert InSpace(list[n]) && list[n] in list;
        assert Covers(list[n].lo, list[n].hi, Page(addr));
      } else if Halts(list, addr) {
        var i :| 0 <= i < |list| && Hit(list[i], addr) && list[i].halt;
        assert list[..n][i] == list[i];
      }
    }
  }

  ghost predicate AllInSpace(ops: seq<Op>)
  {
    forall i :: 0 <= i < |ops| && ops[i].Add? ==> ops[i].lo <= ops[i].hi < ADDRESSES
  }

  lemma {:induction false} ListInSpace(ops: seq<Op>)
    requires AllInSpace(ops)
    ensures forall cb :: cb in ListAfter(ops) ==> InSpace(cb)
  {
    hide ListStep;
    if ops != [] {
      var n := |ops| - 1;
      ListInSpace(ops[..n]);
      StepInSpace(ListAfter(ops[..n]), ops[n]);
    }
  }

  lemma StepInSpace(list: seq<Callback>, op: Op)
    requires forall cb :: cb in list ==> InSpace(cb)
    requires op.Add? ==> op.lo <= op.hi < ADDRESSES
    ensures forall cb :: cb in ListStep(list, op) ==> InSpace(cb)
  {
    if op.Remove? && Removes(list, op.id) {
      var cb := list[op.id - 1];
      assert InSpace(cb) && InSpace(cb.(active := false));
    }
  }

  // ----- exactly when the index tells the truth -----

  /** The most active ranges the page ever had. */
  function Peak(ops: seq<Op>, p: nat): (m: nat)
  {
    var now := Covering(ListAfter(ops), p);
    if ops == [] then now else Max(Peak(ops[..|ops| - 1], p), now)
  }

  /** The page has no active range, or never had 255 more than now. */
  ghost predicate Reached(ops: seq<Op>, p: nat)
  {
    Covering(ListAfter(ops), p) == 0 || Peak(ops, p) < Covering(ListAfter(ops), p) + 255
  }

  ghost predicate AlwaysReached(ops: seq<Op>, p: nat)
  {
    forall n :: 0 <= n <= |ops| ==> Reached(ops[..n], p)
  }

  /** A zero counter means that no active range is on the page. */
  ghost predicate ZeroIsEmpty(ops: seq<Op>, p: nat)
  {
    Counter(ops, p) == 0 ==> Covering(ListAfter(ops), p) == 0
  }

  ghost predicate AlwaysZeroIsEmpty(ops: seq<Op>, p: nat)
  {
    forall n :: 0 <= n <= |ops| ==> ZeroIsEmpty(ops[..n], p)
  }

  lemma OneMoreOp(ops: seq<Op>, p: nat)
    requires ops != []
    ensures AlwaysReached(ops, p) <==> AlwaysReached(ops[..|ops| - 1], p) && Reached(ops, p)
    ensures AlwaysZeroIsEmpty(ops, p) <==> AlwaysZeroIsEmpty(ops[..|ops| - 1], p) && ZeroIsEmpty(ops, p)
  {
    hide Reached, ZeroIsEmpty;
    var n := |ops| - 1;
    assert ops[..|ops|] == ops;
    assert forall k :: 0 <= k <= n ==> ops[..n][..k] == ops[..k];
    if AlwaysReached(ops[..n], p) && Reached(ops, p) {
      forall k | 0 <= k <= |ops| ensures Reached(ops[..k], p) {
        if k <= n { assert Reached(ops[..n][..k], p); }
      }
    }
    if AlwaysReached(ops, p) {
      forall k | 0 <= k <= n ensures Reached(ops[..n][..k], p) { assert Reached(ops[..k], p); }
    }
    if AlwaysZeroIsEmpty(ops[..n], p) && ZeroIsEmpty(ops, p) {
      forall k | 0 <= k <= |ops| ensures ZeroIsEmpty(ops[..k], p) {
        if k <= n { assert ZeroIsEmpty(ops[..n][..k], p); }
      }
    }
    if AlwaysZeroIsEmpty(ops, p) {
      forall k | 0 <= k <= n ensures ZeroIsEmpty(ops[..n][..k], p) { assert ZeroIsEmpty(ops[..k], p); }
    }
  }

  /** What an operation does to the number of active ranges on a page, and to the counter. */
  lemma OpMoves(list: seq<Callback>, op: Op, c: byte, p: nat)
    ensures var n, n' := Covering(list, p), Covering(ListStep(list, op), p);
            var c' := CounterStep(list, c, op, p);
            || (n' == n && c' == c)
            || (n' == n + 1 && c' == if c < 255 then c + 1 else 255)
            || (n' == n - 1 && c' == if c > 0 then c - 1 else 0)
  {
    hide Covers;
    match op {
      case Add(lo, hi, fn, halt) =>
        var list' := list + [Callback(lo, hi, fn, true, halt)];
        assert list'[..|list|] == list;
      case Remove(id) =>
        if Removes(list, id) { CoveringUpdate(list, id - 1, p); }
    }
  }

  /** While every active range is within reach, the counter lags behind by what saturation has lost; one step further. */
  lemma LagStep(n: nat, c: byte, peak: nat, n': nat, c': byte)
    requires peak >= n && c == n - Max(0, peak - 255) && (n == 0 || peak < n + 255)
    requires || (n' == n && c' == c)
             || (n' == n + 1 && c' == if c < 255 then c + 1 else 255)
             || (n' == n - 1 && c' == if c > 0 then c - 1 else 0)
    ensures c' == Max(0, n' - Max(0, Max(peak, n') - 255))
    ensures c' == 0 && n' > 0 <==> !(n' == 0 || Max(peak, n') < n' + 255)
  {
  }

  /** The counter is exact up to what saturation has lost. */
  lemma {:induction false} CounterLags(ops: seq<Op>, p: nat)
    requires AlwaysReached(ops, p)
    ensures Peak(ops, p) >= Covering(ListAfter(ops), p)
    ensures Counter(ops, p) == Covering(ListAfter(ops), p) - Max(0, Peak(ops, p) - 255)
  {
    hide Covering, CounterStep, ListStep, AlwaysReached;
    if ops == [] {
      NothingCovers(p);
    } else {
      var n := |ops| - 1;
      OneMoreOp(ops, p);
      CounterLags(ops[..n], p);
      LastReached(ops[..n], p);
      OpMoves(ListAfter(ops[..n]), ops[n], Counter(ops[..n], p), p);
      LagStep(Covering(ListAfter(ops[..n]), p), Counter(ops[..n], p), Peak(ops[..n], p),
              Covering(ListAfter(ops), p), Counter(ops, p));
    }
  }

  lemma LastReached(ops: seq<Op>, p: nat)
    requires AlwaysReached(ops, p)
    ensures Reached(ops, p)
  {
    assert ops[..|ops|] == ops;
  }

  /**
   A zero counter means an empty page throughout a run if and only if the number of active ranges never falls 255 or
   more below its peak without being zero.
   */
  lemma {:induction false} IndexIsTruthful(ops: seq<Op>, p: nat)
    ensures AlwaysZeroIsEmpty(ops, p) <==> AlwaysReached(ops, p)
  {
    hide Covering, CounterStep, ListStep, AlwaysReached, AlwaysZeroIsEmpty;
    if ops == [] {
      NothingYet(p);
    } else {
      var n := |ops| - 1;
      OneMoreOp(ops, p);
      IndexIsTruthful(ops[..n], p);
      if AlwaysReached(ops[..n], p) {
        CounterLags(ops[..n], p);
        LastReached(ops[..n], p);
        OpMoves(ListAfter(ops[..n]), ops[n], Counter(ops[..n], p), p);
        LagStep(Covering(ListAfter(ops[..n]), p), Counter(ops[..n], p), Peak(ops[..n], p),
                Covering(ListAfter(ops), p), Counter(ops, p));
      }
    }
  }

  lemma NothingYet(p: nat)
    ensures AlwaysReached([], p) && AlwaysZeroIsEmpty([], p)
  {
    NothingCovers(p);
    var none: seq<Op> := [];
    assert none[..0] == [];
  }

  /** A page that never has more than 255 active ranges is always reached. */
  lemma {:induction false} UncrowdedIsReached(ops: seq<Op>, p: nat)
    requires NeverCrowded(ops, p)
    ensures AlwaysReached(ops, p) && Peak(ops, p) <= 255
  {
    hide Covering, ListStep, AlwaysReached, NeverCrowded;
    UncrowdedNow(ops, p);
    if ops == [] {
      NothingYet(p);
    } else {
      UncrowdedBefore(ops, p);
      UncrowdedIsReached(ops[..|ops| - 1], p);
      OneMoreOp(ops, p);
    }
  }

  lemma UncrowdedNow(ops: seq<Op>, p: nat)
    requires NeverCrowded(ops, p)
    ensures Covering(ListAfter(ops), p) <= 255
    ensures ops == [] ==> Covering(ListAfter(ops), p) == 0
  {
    assert ops[..|ops|] == ops;
  }

  lemma UncrowdedBefore(ops: seq<Op>, p: nat)
    requires NeverCrowded(ops, p) && ops != []
    ensures NeverCrowded(ops[..|ops| - 1], p)
  {
    var before := ops[..|ops| - 1];
    forall k | 0 <= k <= |before| ensures Covering(ListAfter(before[..k]), p) <= 255 {
      assert before[..k] == ops[..k];
    }
  }

  /** An active range of a page is hit somewhere on the page, so an empty index there loses a callback. */
  lemma {:induction false} CoveredIsHit(list: seq<Callback>, p: nat) returns (addr: u32)
    requires p < PAGES && Covering(list, p) > 0 && forall cb :: cb in list ==> InSpace(cb)
    ensures addr < ADDRESSES && Page(addr) == p && Fired(list, addr) != []
  {
    var n := |list| - 1;
    var cb := list[n];
    assert cb in list && forall c :: c in list[..n] ==> c in list;
    if cb.active && Covers(cb.lo, cb.hi, p) {
      addr := if Page(cb.lo) == p then cb.lo else 0x100 * p;
      PageStart(cb, p, addr);
      assert Hit(cb, addr);
    } else {
      addr := CoveredIsHit(list[..n], p);
    }
  }

  lemma PageStart(cb: Callback, p: nat, addr: nat)
    requires InSpace(cb) && p < PAGES && Covers(cb.lo, cb.hi, p)
    requires addr == if Page(cb.lo) == p then cb.lo as int else 0x100 * p
    ensures addr < ADDRESSES && cb.lo <= addr <= cb.hi && Page(addr) == p
  {
    assert cb.lo == 0x100 * Page(cb.lo) + cb.lo % 0x100;
    assert cb.hi == 0x100 * Page(cb.hi) + cb.hi % 0x100;
  }

  /** Access through the index calls what a plain scan calls. */
  ghost predicate CallsAll(ops: seq<Op>, addr: u32)
  {
    Counter(ops, Page(addr)) == 0 ==> Fired(ListAfter(ops), addr) == [] && !Halts(ListAfter(ops), addr)
  }

  ghost predicate PageCallsAll(ops: seq<Op>, p: nat)
  {
    forall addr: u32 :: addr < ADDRESSES && Page(addr) == p ==> CallsAll(ops, addr)
  }

  lemma CallsAllIffZeroIsEmpty(ops: seq<Op>, p: nat)
    requires AllInSpace(ops) && p < PAGES
    ensures PageCallsAll(ops, p) <==> ZeroIsEmpty(ops, p)
  {
    hide Counter, Covering, Fired, Halts, ListAfter, AllInSpace, Page;
    ListInSpace(ops);
    var list := ListAfter(ops);
    if ZeroIsEmpty(ops, p) {
      forall addr: u32 | addr < ADDRESSES && Page(addr) == p ensures CallsAll(ops, addr) { HitIsCovered(list, addr); }
    } else {
      var addr := CoveredIsHit(list, p);
      assert !CallsAll(ops, addr);
    }
  }

  /**
   After every step of a run, access to the addresses of a page calls exactly what a plain scan calls, if and only if
   the number of active ranges on the page never falls 255 or more below its peak without being zero.
   */
  lemma FilterIsExactIff(ops: seq<Op>, p: nat)
    requires AllInSpace(ops) && p < PAGES
    ensures (forall n :: 0 <= n <= |ops| ==> PageCallsAll(ops[..n], p)) <==> AlwaysReached(ops, p)
  {
    hide PageCallsAll, ZeroIsEmpty, AlwaysReached;
    IndexIsTruthful(ops, p);
    forall n | 0 <= n <= |ops| ensures PageCallsAll(ops[..n], p) <==> ZeroIsEmpty(ops[..n], p) {
      assert AllInSpace(ops[..n]);
      CallsAllIffZeroIsEmpty(ops[..n], p);
    }
  }

  // ----- any ranges, any run: exactly when the index is blind -----

  /** The number of active ranges on the page. */
  function On(ops: seq<Op>, p: nat): nat { Covering(ListAfter(ops), p) }

  /** What saturation has lost of it. */
  function Lost(ops: seq<Op>, p: nat): nat
  {
    if ops == [] then 0 else Max(Min(Lost(ops[..|ops| - 1], p), On(ops, p)), On(ops, p) - 255)
  }

  /** The counter is what is left, however often it was pinned at either end. */
  lemma {:induction false} CounterIsWhatIsLeft(ops: seq<Op>, p: nat)
    ensures Lost(ops, p) <= On(ops, p) && Counter(ops, p) == On(ops, p) - Lost(ops, p)
  {
    hide Covering, CounterStep, ListStep, On;
    if ops == [] {
      NothingOn(p);
    } else {
      var n := |ops| - 1;
      CounterIsWhatIsLeft(ops[..n], p);
      OnMoves(ops, p);
    }
  }

  lemma NothingOn(p: nat)
    ensures On([], p) == 0
  {
    NothingCovers(p);
  }

  lemma OnMoves(ops: seq<Op>, p: nat)
    requires ops != []
    ensures var before := ops[..|ops| - 1];
            var n, n', c, c' := On(before, p), On(ops, p), Counter(before, p), Counter(ops, p);
            || (n' == n && c' == c)
            || (n' == n + 1 && c' == if c < 255 then c + 1 else 255)
            || (n' == n - 1 && c' == if c > 0 then c - 1 else 0)
  {
    hide Covering, CounterStep, ListStep;
    var n := |ops| - 1;
    OpMoves(ListAfter(ops[..n]), ops[n], Counter(ops[..n], p), p);
  }

  /** Since the page had 255 active ranges more than `v` it never had fewer than `v`. */
  ghost predicate Pinned(ops: seq<Op>, p: nat, v: nat)
  {
    exists s :: 0 <= s <= |ops| && PinnedSince(ops, p, v, s)
  }

  ghost predicate PinnedSince(ops: seq<Op>, p: nat, v: nat, s: nat)
    requires s <= |ops|
  {
    On(ops[..s], p) >= v + 255 && forall u :: s <= u <= |ops| ==> On(ops[..u], p) >= v
  }

  /** That is what makes saturation lose as much as `v`. */
  lemma {:induction false} LostIffPinned(ops: seq<Op>, p: nat, v: nat)
    requires v >= 1
    ensures Lost(ops, p) >= v <==> Pinned(ops, p, v)
  {
    hide On;
    if ops == [] {
      NothingOn(p);
      var none: seq<Op> := [];
      assert none[..0] == [];
    } else {
      var before := ops[..|ops| - 1];
      LostIffPinned(before, p, v);
      OneMorePinned(ops, p, v);
    }
  }

  lemma OneMorePinned(ops: seq<Op>, p: nat, v: nat)
    requires ops != []
    ensures Pinned(ops, p, v) <==> On(ops, p) >= v + 255 || (On(ops, p) >= v && Pinned(ops[..|ops| - 1], p, v))
  {
    hide On;
    var n := |ops| - 1;
    assert ops[..|ops|] == ops;
    assert forall u :: 0 <= u <= n ==> ops[..n][..u] == ops[..u];
    if On(ops, p) >= v + 255 { assert PinnedSince(ops, p, v, |ops|); }
    if On(ops, p) >= v && Pinned(ops[..n], p, v) {
      var s :| 0 <= s <= n && PinnedSince(ops[..n], p, v, s);
      LaterToo(ops, p, v, s);
    }
    if Pinned(ops, p, v) {
      var s :| 0 <= s <= |ops| && PinnedSince(ops, p, v, s);
      if s <= n { EarlierToo(ops, p, v, s); }
    }
  }

  lemma LaterToo(ops: seq<Op>, p: nat, v: nat, s: nat)
    requires s < |ops| && PinnedSince(ops[..|ops| - 1], p, v, s) && On(ops, p) >= v
    ensures PinnedSince(ops, p, v, s)
  {
    hide On;
    var n := |ops| - 1;
    assert ops[..n][..s] == ops[..s] && ops[..|ops|] == ops;
    forall u | s <= u <= |ops| ensures On(ops[..u], p) >= v {
      if u <= n { assert ops[..n][..u] == ops[..u]; }
    }
  }

  lemma EarlierToo(ops: seq<Op>, p: nat, v: nat, s: nat)
    requires s < |ops| && PinnedSince(ops, p, v, s)
    ensures PinnedSince(ops[..|ops| - 1], p, v, s) && On(ops, p) >= v
  {
    hide On;
    var n := |ops| - 1;
    assert ops[..n][..s] == ops[..s] && ops[..|ops|] == ops;
    forall u | s <= u <= n ensures On(ops[..n][..u], p) >= v {
      assert ops[..n][..u] == ops[..u];
    }
  }

  /** The page has no active range, or once had 255 more than now and never fewer since. */
  ghost predicate Blind(ops: seq<Op>, p: nat)
  {
    On(ops, p) == 0 || Pinned(ops, p, On(ops, p))
  }

  /** For every run of any ranges, when the counter of a page is zero. */
  lemma CounterIsZeroIff(ops: seq<Op>, p: nat)
    ensures Counter(ops, p) == 0 <==> Blind(ops, p)
  {
    hide On, Lost, Counter;
    CounterIsWhatIsLeft(ops, p);
    if On(ops, p) >= 1 { LostIffPinned(ops, p, On(ops, p)); }
  }

  /** Is the address in an active range? */
  predicate Watched(ops: seq<Op>, addr: u32)
  {
    exists i :: 0 <= i < |ListAfter(ops)| && Hit(ListAfter(ops)[i], addr)
  }

  lemma {:induction false} FiredIffHit(list: seq<Callback>, addr: u32)
    ensures Fired(list, addr) != [] <==> exists i :: 0 <= i < |list| && Hit(list[i], addr)
  {
    if list != [] {
      var n := |list| - 1;
      FiredIffHit(list[..n], addr);
      if i :| 0 <= i < |list| && Hit(list[i], addr) {
        if i < n { assert Hit(list[..n][i], addr); }
      }
      if i :| 0 <= i < n && Hit(list[..n][i], addr) { assert Hit(list[i], addr); }
    }
  }

  /**
   For every run of any ranges and every address, access through the index calls what a plain scan calls if and only if no
   active range holds the address or its page is not blind.
   */
  lemma FilterIsExact(ops: seq<Op>, addr: u32)
    ensures CallsAll(ops, addr) <==> !Watched(ops, addr) || !Blind(ops, Page(addr))
  {
    hide Blind, Counter, Fired, ListAfter, Page, Hit;
    CounterIsZeroIff(ops, Page(addr));
    FiredIffHit(ListAfter(ops), addr);
  }

  /** The ranges that mark every page of 24 bits they reach: the high end is masked, so one past it must mask to the last page. */
  predicate Marks(lo: u32, hi: u32)
  {
    lo < ADDRESSES <= hi ==> Page(hi) == PAGES - 1
  }

  lemma MarksWhatItReachesIff(lo: u32, hi: u32)
    ensures (forall addr: u32 :: addr < ADDRESSES && lo <= addr <= hi ==> Covers(lo, hi, Page(addr))) <==> Marks(lo, hi)
  {
    if Marks(lo, hi) {
      forall addr: u32 | addr < ADDRESSES && lo <= addr <= hi ensures Covers(lo, hi, Page(addr)) {
        PageGrows(lo, addr);
        if hi < ADDRESSES { PageGrows(addr, hi); }
      }
    } else {
      assert Page(0xFF_FFFF) == PAGES - 1;
      assert !Covers(lo, hi, Page(0xFF_FFFF));
    }
  }

  lemma PageGrows(a: u32, b: u32)
    requires a <= b < ADDRESSES
    ensures Page(a) <= Page(b)
  {
  }

  ghost predicate AllMark(ops: seq<Op>)
  {
    forall i :: 0 <= i < |ops| && ops[i].Add? ==> Marks(ops[i].lo, ops[i].hi)
  }

  lemma {:induction false} ListMarks(ops: seq<Op>)
    requires AllMark(ops)
    ensures forall cb :: cb in ListAfter(ops) ==> Marks(cb.lo, cb.hi)
  {
    hide ListStep, Marks;
    if ops != [] {
      var n := |ops| - 1;
      ListMarks(ops[..n]);
      StepMarks(ListAfter(ops[..n]), ops[n]);
    }
  }

  lemma StepMarks(list: seq<Callback>, op: Op)
    requires forall cb :: cb in list ==> Marks(cb.lo, cb.hi)
    requires op.Add? ==> Marks(op.lo, op.hi)
    ensures forall cb :: cb in ListStep(list, op) ==> Marks(cb.lo, cb.hi)
  {
    hide Marks;
    if op.Remove? && Removes(list, op.id) {
      var cb := list[op.id - 1];
      assert Marks(cb.lo, cb.hi) && Marks(cb.(active := false).lo, cb.(active := false).hi);
    }
  }

  lemma {:induction false} HitIsMarked(list: seq<Callback>, i: nat, addr: u32)
    requires i < |list| && Hit(list[i], addr) && addr < ADDRESSES && Marks(list[i].lo, list[i].hi)
    ensures Covering(list, Page(addr)) > 0
    decreases |list|
  {
    hide Page, Marks;
    var n := |list| - 1;
    if i < n {
      HitIsMarked(list[..n], i, addr);
    } else {
      MarksWhatItReachesIff(list[n].lo, list[n].hi);
    }
  }

  /** Where every range given marks what it reaches, only saturation loses callbacks. */
  lemma OnlySaturationLoses(ops: seq<Op>, addr: u32)
    requires AllMark(ops) && addr < ADDRESSES
    ensures CallsAll(ops, addr) <==> !Watched(ops, addr) || !Pinned(ops, Page(addr), On(ops, Page(addr)))
  {
    hide CallsAll, Pinned, ListAfter, Page, Hit, Marks, Covering;
    FilterIsExact(ops, addr);
    ListMarks(ops);
    if Watched(ops, addr) {
      var i :| 0 <= i < |ListAfter(ops)| && Hit(ListAfter(ops)[i], addr);
      assert ListAfter(ops)[i] in ListAfter(ops);
      HitIsMarked(ListAfter(ops), i, addr);
    }
  }

  lemma OneAdd(op: Op, addr: u32)
    requires op.Add? && op.lo <= addr <= op.hi && !Covers(op.lo, op.hi, Page(addr))
    ensures Watched([op], addr) && Blind([op], Page(addr)) && Fired(ListAfter([op]), addr) == [op.fn]
  {
    hide Covers, Page;
    var list := [Callback(op.lo, op.hi, op.fn, true, op.halt)];
    assert [op][..0] == [] && list[..0] == [];
    assert ListAfter([op]) == list;
    assert Hit(list[0], addr);
    NothingCovers(Page(addr));
    assert On([op], Page(addr)) == Covering(list, Page(addr)) == 0;
  }

  /** A range over the upper half and one address more marks no page at all. */
  lemma HalfIsUnmarked(fn: nat, addr: u32)
    requires 0x80_0000 <= addr <= 0xFF_FFFF
    ensures var ops := [Add(0x80_0000, 0x100_0000, fn, false)];
            Watched(ops, addr) && Blind(ops, Page(addr)) && Fired(ListAfter(ops), addr) == [fn]
  {
    assert Page(0x80_0000) == 0x8000 && Page(0x100_0000) == 0;
    assert !Covers(0x80_0000, 0x100_0000, Page(addr));
    hide *;
    OneAdd(Add(0x80_0000, 0x100_0000, fn, false), addr);
  }

  /** Any registrations and removals, then an access: what a plain scan of the active ranges calls, or nothing where the page is blind. */
  method Replay(ops: seq<Op>, addr: u32) returns (fired: seq<nat>, halted: bool)
    ensures fired == if Blind(ops, Page(addr)) then [] else Fired(ListAfter(ops), addr)
    ensures halted <==> !Blind(ops, Page(addr)) && Halts(ListAfter(ops), addr)
  {
    hide Blind, Fired, Halts, ListAfter, Counter;
    var d := new Dispatch();
    var i := 0;
    while i < |ops|
      invariant 0 <= i <= |ops| && fresh(d) && fresh(d.pages) && d.Valid() && d.ops == ops[..i]
    {
      match ops[i] {
        case Add(lo, hi, fn, halt) => var _ := d.AddCallback(lo, hi, fn, halt);
        case Remove(id) => d.RemoveCallback(id);
      }
      i := i + 1;
    }
    assert ops[..i] == ops;
    fired, halted := d.OnAccess(addr);
    CounterIsZeroIff(ops, Page(addr));
  }

  // ----- saturation -----

  /** `n` registrations of one range, then removals of the first `k`. */
  function AddsThenRemoves(lo: u32, hi: u32, n: nat, k: nat): seq<Op>
  {
    if k > 0 then AddsThenRemoves(lo, hi, n, k - 1) + [Remove(k)]
    else if n > 0 then AddsThenRemoves(lo, hi, n - 1, 0) + [Add(lo, hi, n, false)]
    else []
  }

  lemma {:induction false} AfterAddsThenRemoves(lo: u32, hi: u32, n: nat, k: nat)
    requires k <= n
    ensures var list := ListAfter(AddsThenRemoves(lo, hi, n, k));
            |list| == n && forall i :: 0 <= i < n ==> list[i] == Callback(lo, hi, i + 1, i >= k, false)
    ensures Covers(lo, hi, Page(lo)) ==> Counter(AddsThenRemoves(lo, hi, n, k), Page(lo)) == Max(0, Min(n, 255) - k)
    decreases n, k
  {
    hide Covers, ListAfter, Counter, Page;
    NoOps(Page(lo));
    var ops := AddsThenRemoves(lo, hi, n, k);
    if k > 0 {
      var was := AddsThenRemoves(lo, hi, n, k - 1);
      AfterAddsThenRemoves(lo, hi, n, k - 1);
      Appended(was, Remove(k));
    } else if n > 0 {
      var was := AddsThenRemoves(lo, hi, n - 1, 0);
      AfterAddsThenRemoves(lo, hi, n - 1, 0);
      Appended(was, Add(lo, hi, n, false));
    }
  }

  lemma NoOps(p: nat)
    ensures ListAfter([]) == [] && Counter([], p) == 0
  {
  }

  /** Of `n` equal ranges with the first `k` removed, the others are called exactly when the counter, held at 255, outlasts the removals. */
  lemma SaturatedMisses(lo: u32, hi: u32, n: nat, k: nat)
    requires lo <= hi < ADDRESSES && k < n
    ensures var ops := AddsThenRemoves(lo, hi, n, k);
            && Fired(ListAfter(ops), lo) != []
            && (Counter(ops, Page(lo)) != 0 <==> k < 255)
  {
    hide Counter, ListAfter;
    AfterAddsThenRemoves(lo, hi, n, k);
    var list := ListAfter(AddsThenRemoves(lo, hi, n, k));
    assert Hit(list[n - 1], lo);
    assert list[n - 1] == list[|list| - 1];
  }
}
