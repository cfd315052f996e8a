/** The DMA log: a most-recently-used list of 64 transfers, kept by shifting an array. */
module DmaLog {
  import opened Prelude

  const CAP := 64
  const WRAP := 0x1_0000_0000

  datatype Key = Key(src: u32, dst: byte, size: u16, vram: u16, caller: u32)

  datatype Entry = Entry(key: Key, channel: byte, direction: byte, mode: byte, hits: u32, lastFrame: nat)

  /** One transfer, with what the hook reads at that moment. */
  datatype Transfer = Transfer(key: Key, channel: byte, direction: byte, mode: byte, frame: nat)

  /** A 32-bit count, one up. */
  function Bump(h: u32): (r: u32)
    ensures r == h + 1 || (h == WRAP - 1 && r == 0)
  {
    (h + 1) % WRAP
  }

  // ----- one event -----

  /** Where the key stands; the length when it does not. */
  function Find(log: seq<Entry>, k: Key): (i: nat)
    ensures i <= |log|
    ensures i < |log| ==> log[i].key == k
    ensures forall j :: 0 <= j < i ==> log[j].key != k
  {
    if log == [] then 0 else if log[0].key == k then 0 else 1 + Find(log[1..], k)
  }

  function Touch(log: seq<Entry>, t: Transfer): seq<Entry>
  {
    var i := Find(log, t.key);
    if i < |log| then [log[i].(hits := Bump(log[i].hits), lastFrame := t.frame)] + log[..i] + log[i + 1..]
    else [Entry(t.key, t.channel, t.direction, t.mode, 1, t.frame)] + log[..Min(|log|, CAP - 1)]
  }

  /** The hits lost with the entry that has to go. */
  function Evicted(log: seq<Entry>, t: Transfer): nat
  {
    if Find(log, t.key) == |log| && |log| == CAP then log[CAP - 1].hits else 0
  }

  class Log {
    const entries: array<Entry>
    var size: nat

    ghost predicate Valid()
      reads this
    {
      entries.Length == CAP && size <= CAP
    }

    ghost function Listed(): seq<Entry>
      requires Valid()
      reads this, entries
    {
      entries[..size]
    }

    constructor ()
      ensures Valid() && fresh(entries) && Listed() == []
    {
      entries := new Entry[CAP](_ => Entry(Key(0, 0, 0, 0, 0), 0, 0, 0, 0, 0));
      size := 0;
    }

    method Clear()
      requires Valid()
      modifies `size
      ensures Valid() && Listed() == []
    {
      size := 0;
    }

    /** The first `n` entries move back by one place. */
    method MakeRoom(n: nat)
      requires Valid() && n < CAP
      modifies entries
      ensures forall k :: 1 <= k <= n ==> entries[k] == old(entries[k - 1])
      ensures forall k :: n < k < CAP ==> entries[k] == old(entries[k])
    {
      var j := n;
      while j > 0
        invariant 0 <= j <= n
        invariant forall k :: 0 <= k <= j ==> entries[k] == old(entries[k])
        invariant forall k :: j < k <= n ==> entries[k] == old(entries[k - 1])
        invariant forall k :: n < k < CAP ==> entries[k] == old(entries[k])
      {
        entries[j] := entries[j - 1];
        j := j - 1;
      }
    }

    /** The log's part of dmaHookFn. */
    method Record(t: Transfer)
      requires Valid()
      modifies this, entries
      ensures Valid() && Listed() == Touch(old(Listed()), t)
    {
      hide Touch, Bump;
      ghost var was := Listed();
      var i := 0;
      while i < size
        invariant 0 <= i <= size == old(size) && Listed() == was
        invariant forall k :: 0 <= k < i ==> was[k].key != t.key
      {
        if entries[i].key == t.key {
          var e := entries[i].(hits := Bump(entries[i].hits), lastFrame := t.frame);
          entries[i] := e;
          if i > 0 {
            MakeRoom(i);
            entries[0] := e;
          }
          MovedToFront(was, Listed(), i, t);
          return;
        }
        i := i + 1;
      }
      var insertCount := if size < CAP then size else CAP - 1;
      MakeRoom(insertCount);
      entries[0] := Entry(t.key, t.channel, t.direction, t.mode, 1, t.frame);
      if size < CAP { size := size + 1; }
      PushedInFront(was, Listed(), t);
    }
  }

  lemma PushedInFront(was: seq<Entry>, now: seq<Entry>, t: Transfer)
    requires |was| <= CAP && |now| == Min(|was|, CAP - 1) + 1 && forall k :: 0 <= k < |was| ==> was[k].key != t.key
    requires now[0] == Entry(t.key, t.channel, t.direction, t.mode, 1, t.frame)
    requires forall k :: 1 <= k < |now| ==> now[k] == was[k - 1]
    ensures now == Touch(was, t)
  {
    assert Find(was, t.key) == |was|;
  }

  lemma MovedToFront(was: seq<Entry>, now: seq<Entry>, i: nat, t: Transfer)
    requires i < |was| == |now| && was[i].key == t.key && forall k :: 0 <= k < i ==> was[k].key != t.key
    requires now[0] == was[i].(hits := Bump(was[i].hits), lastFrame := t.frame)
    requires forall k :: 1 <= k <= i ==> now[k] == was[k - 1]
    requires forall k :: i < k < |was| ==> now[k] == was[k]
    ensures now == Touch(was, t)
  {
    assert Find(was, t.key) == i;
  }

  // ----- whole runs -----

  /** The log after the transfers since the last clear, and the hits of the entries that had to go. */
  datatype State = State(log: seq<Entry>, evicted: nat)

  function Run(ts: seq<Transfer>): State
  {
    if ts == [] then State([], 0)
    else
      var s, t := Run(ts[..|ts| - 1]), ts[|ts| - 1];
      State(Touch(s.log, t), s.evicted + Evicted(s.log, t))
  }

  method RecordAll(ts: seq<Transfer>) returns (log: seq<Entry>)
    ensures log == Run(ts).log
  {
    hide Touch;
    var l := new Log();
    var i := 0;
    while i < |ts|
      invariant 0 <= i <= |ts| && fresh(l) && fresh(l.entries) && l.Valid() && l.Listed() == Run(ts[..i]).log
    {
      l.Record(ts[i]);
      assert ts[..i + 1][..i] == ts[..i];
      i := i + 1;
    }
    assert ts[..i] == ts;
    log := l.entries[..l.size];
  }

  /** When the key last came: one more than the position, 0 for never. */
  ghost function LastTime(ts: seq<Transfer>, k: Key): (n: nat)
    ensures n <= |ts| && (n > 0 ==> ts[n - 1].key == k)
  {
    if ts == [] then 0 else if ts[|ts| - 1].key == k then |ts| else LastTime(ts[..|ts| - 1], k)
  }

  ghost function Without(ks: seq<Key>, k: Key): (r: seq<Key>)
    ensures forall x :: x in r <==> x in ks && x != k
  {
    if ks == [] then [] else (if ks[0] == k then [] else [ks[0]]) + Without(ks[1..], k)
  }

  /** All keys seen, the latest first: the list with no bound on its length. */
  ghost function Recent(ts: seq<Transfer>): seq<Key>
  {
    if ts == [] then [] else var k := ts[|ts| - 1].key; [k] + Without(Recent(ts[..|ts| - 1]), k)
  }

  function Keys(log: seq<Entry>): (r: seq<Key>)
    ensures |r| == |log|
  {
    seq(|log|, i requires 0 <= i < |log| => log[i].key)
  }

  function Cut<T>(s: seq<T>, i: nat): seq<T>
    requires i < |s|
  {
    s[..i] + s[i + 1..]
  }

  lemma {:induction false} WithoutAbsent(ks: seq<Key>, k: Key)
    requires k !in ks
    ensures Without(ks, k) == ks
  {
    if ks != [] {
      WithoutAbsent(ks[1..], k);
      assert [ks[0]] + ks[1..] == ks;
    }
  }

  lemma {:induction false} WithoutAt(ks: seq<Key>, i: nat)
    requires Distinct(ks) && i < |ks|
    ensures Without(ks, ks[i]) == Cut(ks, i)
  {
    if i == 0 {
      assert ks[0] !in ks[1..];
      WithoutAbsent(ks[1..], ks[0]);
      assert Cut(ks, 0) == ks[1..];
    } else {
      WithoutAt(ks[1..], i - 1);
      assert Cut(ks, i) == [ks[0]] + Cut(ks[1..], i - 1);
    }
  }

  lemma CutDistinct(ks: seq<Key>, i: nat)
    requires Distinct(ks) && i < |ks|
    ensures Distinct(Cut(ks, i))
  {
    var r := Cut(ks, i);
    forall a, b | 0 <= a < b < |r| ensures r[a] != r[b] {
      assert r[a] == ks[if a < i then a else a + 1] && r[b] == ks[if b < i then b else b + 1];
    }
  }

  lemma {:induction false} RecentIsDistinct(ts: seq<Transfer>)
    ensures Distinct(Recent(ts))
  {
    hide Without;
    if ts != [] {
      var was, k := Recent(ts[..|ts| - 1]), ts[|ts| - 1].key;
      RecentIsDistinct(ts[..|ts| - 1]);
      if k in was {
        var i :| 0 <= i < |was| && was[i] == k;
        WithoutAt(was, i);
        CutDistinct(was, i);
      } else {
        WithoutAbsent(was, k);
      }
    }
  }

  ghost predicate LatestFirst(ts: seq<Transfer>, ks: seq<Key>)
  {
    forall i, j :: 0 <= i < j < |ks| ==> LastTime(ts, ks[i]) > LastTime(ts, ks[j])
  }

  lemma CutLatestFirst(ts: seq<Transfer>, ks: seq<Key>, i: nat)
    requires LatestFirst(ts, ks) && i < |ks|
    ensures LatestFirst(ts, Cut(ks, i))
  {
    hide LastTime;
    var r := Cut(ks, i);
    forall a, b | 0 <= a < b < |r| ensures LastTime(ts, r[a]) > LastTime(ts, r[b]) {
      assert r[a] == ks[if a < i then a else a + 1] && r[b] == ks[if b < i then b else b + 1];
    }
  }

  /** The unbounded list holds exactly the keys seen, ordered by when they last came. */
  lemma {:induction false} RecentByLastTime(ts: seq<Transfer>)
    ensures forall k :: k in Recent(ts) <==> LastTime(ts, k) > 0
    ensures LatestFirst(ts, Recent(ts))
  {
    hide Without;
    if ts != [] {
      var n := |ts| - 1;
      var was, k := Recent(ts[..n]), ts[n].key;
      RecentByLastTime(ts[..n]);
      RecentIsDistinct(ts[..n]);
      var rest := Without(was, k);
      if k in was {
        var i :| 0 <= i < |was| && was[i] == k;
        WithoutAt(was, i);
        CutLatestFirst(ts[..n], was, i);
      } else {
        WithoutAbsent(was, k);
      }
      LatestInFront(ts, rest);
    }
  }

  lemma LatestInFront(ts: seq<Transfer>, rest: seq<Key>)
    requires ts != [] && LatestFirst(ts[..|ts| - 1], rest) && ts[|ts| - 1].key !in rest
    ensures LatestFirst(ts, [ts[|ts| - 1].key] + rest)
  {
    var ks := [ts[|ts| - 1].key] + rest;
    forall i, j | 0 <= i < j < |ks| ensures LastTime(ts, ks[i]) > LastTime(ts, ks[j]) {
      assert ks[j] == rest[j - 1] && ks[j] in rest;
      if i > 0 { assert ks[i] == rest[i - 1] && ks[i] in rest; }
    }
  }

  /** The log lists the 64 most recent distinct transfers, in order. */
  lemma {:induction false} LogIsMostRecent(ts: seq<Transfer>)
    ensures var r := Recent(ts); Keys(Run(ts).log) == r[..Min(|r|, CAP)]
  {
    if ts == [] {
    } else {
      var n := |ts| - 1;
      LogIsMostRecent(ts[..n]);
      RecentIsDistinct(ts[..n]);
      OneMoreRecent(Run(ts[..n]).log, Recent(ts[..n]), ts[n]);
    }
  }

  lemma OneMoreRecent(log: seq<Entry>, r: seq<Key>, t: Transfer)
    requires Distinct(r) && Keys(log) == r[..Min(|r|, CAP)]
    ensures var r' := [t.key] + Without(r, t.key); Keys(Touch(log, t)) == r'[..Min(|r'|, CAP)]
  {
    hide Touch, Without, Find;
    var i := Find(log, t.key);
    KeysAt(log);
    if i < |log| { TouchKeysHit(log, t, i); } else { TouchKeysMiss(log, t, Min(|log|, CAP - 1)); }
    if i < |log| {
      assert Keys(log)[i] == log[i].key && r[..Min(|r|, CAP)][i] == r[i];
      WithoutAt(r, i);
      CutPrefix(r, i, |log|);
      assert ([t.key] + Cut(r, i))[..|log|] == [t.key] + Cut(r, i)[..|log| - 1];
    } else if t.key in r {
      var p :| 0 <= p < |r| && r[p] == t.key;
      InPrefix(log, r, p);
      WithoutAt(r, p);
      assert ([t.key] + Cut(r, p))[..CAP] == [t.key] + r[..CAP - 1];
    } else {
      WithoutAbsent(r, t.key);
      var m := Min(|r|, CAP - 1);
      assert ([t.key] + r)[..m + 1] == [t.key] + r[..m];
    }
  }

  lemma KeysAt(log: seq<Entry>)
    ensures forall i :: 0 <= i < |log| ==> Keys(log)[i] == log[i].key
  {
  }

  lemma CutPrefix(r: seq<Key>, i: nat, n: nat)
    requires i < n <= |r|
    ensures Cut(r[..n], i) == Cut(r, i)[..n - 1]
  {
  }

  lemma InPrefix(log: seq<Entry>, r: seq<Key>, p: nat)
    requires p < |r| && Keys(log) == r[..Min(|r|, CAP)]
    ensures p < CAP ==> Find(log, r[p]) < |log|
  {
    hide Find;
    if p < CAP {
      assert Keys(log)[p] == log[p].key && r[..Min(|r|, CAP)][p] == r[p];
    }
  }

  lemma TouchKeysHit(log: seq<Entry>, t: Transfer, i: nat)
    requires i == Find(log, t.key) < |log|
    ensures Keys(Touch(log, t)) == [t.key] + Cut(Keys(log), i)
  {
    hide Find, Keys, Cut;
    KeysMoved(log, i, log[i].(hits := Bump(log[i].hits), lastFrame := t.frame));
  }

  lemma TouchKeysMiss(log: seq<Entry>, t: Transfer, m: nat)
    requires Find(log, t.key) == |log| && m == Min(|log|, CAP - 1)
    ensures Keys(Touch(log, t)) == [t.key] + Keys(log)[..m]
  {
    hide Find, Keys;
    KeysPushed(log[..m], Entry(t.key, t.channel, t.direction, t.mode, 1, t.frame));
    KeysTake(log, m);
  }

  lemma KeysMoved(log: seq<Entry>, i: nat, e: Entry)
    requires i < |log|
    ensures Keys([e] + log[..i] + log[i + 1..]) == [e.key] + Cut(Keys(log), i)
  {
    hide Keys;
    KeysConcat([e] + log[..i], log[i + 1..]);
    KeysPushed(log[..i], e);
    KeysTake(log, i);
    KeysDrop(log, i + 1);
    ConcatAssoc([e.key], Keys(log)[..i], Keys(log)[i + 1..]);
  }

  lemma KeysPushed(log: seq<Entry>, e: Entry)
    ensures Keys([e] + log) == [e.key] + Keys(log)
  {
    KeysConcat([e], log);
    KeysOne(e);
  }

  lemma KeysOne(e: Entry)
    ensures Keys([e]) == [e.key]
  {
  }

  lemma KeysConcat(a: seq<Entry>, b: seq<Entry>)
    ensures Keys(a + b) == Keys(a) + Keys(b)
  {
  }

  lemma KeysTake(a: seq<Entry>, n: nat)
    requires n <= |a|
    ensures Keys(a[..n]) == Keys(a)[..n]
  {
  }

  lemma KeysDrop(a: seq<Entry>, n: nat)
    requires n <= |a|
    ensures Keys(a[n..]) == Keys(a)[n..]
  {
  }

  lemma LogIsDistinct(ts: seq<Transfer>)
    ensures |Run(ts).log| <= CAP && Distinct(Keys(Run(ts).log))
  {
    LogIsMostRecent(ts);
    RecentIsDistinct(ts);
  }

  ghost predicate LastSeen(ts: seq<Transfer>, e: Entry)
  {
    LastTime(ts, e.key) > 0 && e.lastFrame == ts[LastTime(ts, e.key) - 1].frame
  }

  ghost function Count(ts: seq<Transfer>, k: Key): nat
  {
    if ts == [] then 0 else Count(ts[..|ts| - 1], k) + if ts[|ts| - 1].key == k then 1 else 0
  }

  /** The key is one of the 64 that came last. */
  ghost predicate Kept(ts: seq<Transfer>, k: Key)
  {
    var r := Recent(ts); k in r[..Min(|r|, 64)]
  }

  ghost predicate KeptSince(ts: seq<Transfer>, i: nat, k: Key)
  {
    forall m :: i < m <= |ts| ==> Kept(ts[..m], k)
  }

  /** The key has been kept since transfer `i` brought it, and the entry tells of that transfer and of all with its key since. */
  ghost predicate Tells(ts: seq<Transfer>, i: nat, e: Entry)
  {
    && i < |ts| && ts[i].key == e.key && !Kept(ts[..i], e.key) && KeptSince(ts, i, e.key)
    && (e.channel, e.direction, e.mode) == (ts[i].channel, ts[i].direction, ts[i].mode)
    && e.hits == Count(ts[i..], e.key) % 0x1_0000_0000
    && LastSeen(ts, e)
  }

  ghost predicate Told(ts: seq<Transfer>, e: Entry)
  {
    exists i :: Tells(ts, i, e)
  }

  ghost predicate AllTold(ts: seq<Transfer>)
  {
    forall e :: e in Run(ts).log ==> Told(ts, e)
  }

  /** Every entry of the log tells of its key's transfers since the key last came in. */
  lemma {:induction false} EntriesTell(ts: seq<Transfer>)
    ensures AllTold(ts)
  {
    hide Touch, Told;
    if ts != [] {
      var n := |ts| - 1;
      EntriesTell(ts[..n]);
      forall e | e in Run(ts).log ensures Told(ts, e) {
        if e.key != ts[n].key { OthersTell(ts, e); } else { TouchedTells(ts, e); }
      }
    }
  }

  lemma OthersTell(ts: seq<Transfer>, e: Entry)
    requires ts != [] && e in Run(ts).log && e.key != ts[|ts| - 1].key
    requires AllTold(ts[..|ts| - 1])
    ensures Told(ts, e)
  {
    hide Touch, Tells;
    var n := |ts| - 1;
    LogIsDistinct(ts[..n]);
    TouchOrigin(Run(ts[..n]).log, ts[n], e);
    var i :| Tells(ts[..n], i, e);
    StillTells(ts, i, e, e);
  }

  lemma TouchedTells(ts: seq<Transfer>, e: Entry)
    requires ts != [] && e in Run(ts).log && e.key == ts[|ts| - 1].key
    requires AllTold(ts[..|ts| - 1])
    ensures Told(ts, e)
  {
    hide Touch, Tells, Again;
    var n := |ts| - 1;
    var was, t := Run(ts[..n]).log, ts[n];
    LogIsDistinct(ts[..n]);
    TouchOrigin(was, t, e);
    if f :| f in was && Again(f, t, e) {
      var i :| Tells(ts[..n], i, f);
      StillTells(ts, i, f, e);
    } else {
      ArrivedTells(ts, e);
    }
  }

  lemma LogIsKept(ts: seq<Transfer>, k: Key)
    ensures k in Keys(Run(ts).log) <==> Kept(ts, k)
  {
    hide Run, Recent, Keys;
    LogIsMostRecent(ts);
  }

  lemma InLogIsKept(ts: seq<Transfer>, e: Entry)
    requires e in Run(ts).log
    ensures Kept(ts, e.key)
  {
    hide Run, Kept, Keys;
    var log := Run(ts).log;
    LogIsKept(ts, e.key);
    KeysAt(log);
    var j :| 0 <= j < |log| && log[j] == e;
    assert Keys(log)[j] == e.key;
  }

  lemma StillKept(was: seq<Transfer>, ts: seq<Transfer>, i: nat, k: Key)
    requires ts != [] && was == ts[..|ts| - 1] && i < |ts| && Kept(ts, k)
    requires KeptSince(was, i, k)
    ensures KeptSince(ts, i, k)
  {
    hide Kept;
    forall m | i < m <= |ts| ensures Kept(ts[..m], k) {
      if m == |ts| { assert ts[..m] == ts; } else { assert ts[..m] == was[..m]; }
    }
  }

  lemma StillCounted(ts: seq<Transfer>, i: nat, k: Key)
    requires i < |ts| - 1
    ensures Count(ts[i..], k) == Count(ts[..|ts| - 1][i..], k) + if ts[|ts| - 1].key == k then 1 else 0
  {
    hide Count;
    var n := |ts| - 1;
    CountSnoc(ts[..n][i..], ts[n], k);
    assert ts[..n][i..] + [ts[n]] == ts[i..];
  }

  lemma CountBumped(n: nat, h: u32)
    ensures h == n % 0x1_0000_0000 ==> Bump(h) == (n + 1) % 0x1_0000_0000
  {
    ModPlusOne(n);
  }

  /** One transfer later: of another key, or one more of the entry's own. */
  lemma StillTells(ts: seq<Transfer>, i: nat, f: Entry, e: Entry)
    requires ts != [] && Tells(ts[..|ts| - 1], i, f) && e in Run(ts).log
    requires var t := ts[|ts| - 1]; if e.key == t.key then Again(f, t, e) else e == f
    ensures Tells(ts, i, e)
  {
    hide Run, Kept, KeptSince, Count, LastSeen, Bump;
    var n := |ts| - 1;
    InLogIsKept(ts, e);
    StillLastSeen(ts, e);
    StillCounted(ts, i, e.key);
    CountBumped(Count(ts[..n][i..], e.key), f.hits);
    StillKept(ts[..n], ts, i, e.key);
    assert ts[..n][..i] == ts[..i];
  }

  lemma CountOne(t: Transfer)
    ensures Count([t], t.key) == 1
  {
    assert [t][..0] == [];
  }

  lemma ArrivedTells(ts: seq<Transfer>, e: Entry)
    requires ts != [] && e in Run(ts).log
    requires var t := ts[|ts| - 1];
             t.key !in Keys(Run(ts[..|ts| - 1]).log) && e == Entry(t.key, t.channel, t.direction, t.mode, 1, t.frame)
    ensures Tells(ts, |ts| - 1, e)
  {
    hide Run, Kept, Keys, LastSeen, Count;
    var n := |ts| - 1;
    InLogIsKept(ts, e);
    LogIsKept(ts[..n], e.key);
    StillLastSeen(ts, e);
    assert ts[n..] == [ts[n]];
    CountOne(ts[n]);
    assert ts[..|ts|] == ts;
  }

  lemma StillLastSeen(ts: seq<Transfer>, e: Entry)
    requires ts != []
    requires var t := ts[|ts| - 1];
             if e.key == t.key then e.lastFrame == t.frame else LastSeen(ts[..|ts| - 1], e)
    ensures LastSeen(ts, e)
  {
  }

  /** The entry after one more transfer of its key. */
  ghost predicate Again(f: Entry, t: Transfer, e: Entry)
  {
    f.key == t.key && e == f.(hits := Bump(f.hits), lastFrame := t.frame)
  }

  /** Where an entry after a transfer comes from. */
  lemma TouchOrigin(log: seq<Entry>, t: Transfer, e: Entry)
    requires Distinct(Keys(log)) && e in Touch(log, t)
    ensures e.key != t.key ==> e in log
    ensures e.key == t.key ==>
      (exists f :: f in log && Again(f, t, e)) || (t.key !in Keys(log) && e == Entry(t.key, t.channel, t.direction, t.mode, 1, t.frame))
  {
    hide Find, Bump;
    var i := Find(log, t.key);
    assert forall j :: 0 <= j < |log| ==> Keys(log)[j] == log[j].key;
    if i < |log| { assert e.key == t.key ==> log[i] in log && Again(log[i], t, e); }
  }

  ghost predicate FramesGrow(ts: seq<Transfer>)
  {
    forall i, j :: 0 <= i < j < |ts| ==> ts[i].frame <= ts[j].frame
  }

  /** The log runs from the latest frame to the earliest. */
  lemma NewestFirst(ts: seq<Transfer>, i: nat, j: nat)
    requires FramesGrow(ts) && i < j < |Run(ts).log|
    ensures Run(ts).log[i].lastFrame >= Run(ts).log[j].lastFrame
  {
    var log := Run(ts).log;
    hide Run, Recent, LastTime, Keys, Kept, Count;
    LogIsMostRecent(ts);
    RecentByLastTime(ts);
    EntriesTell(ts);
    KeysAt(log);
    assert log[i] in log && log[j] in log;
    assert log[i].key == Keys(log)[i] == Recent(ts)[i] && log[j].key == Keys(log)[j] == Recent(ts)[j];
  }

  // ----- counting -----

  function Hits(log: seq<Entry>): nat
  {
    if log == [] then 0 else log[0].hits + Hits(log[1..])
  }

  lemma {:induction false} HitsConcat(a: seq<Entry>, b: seq<Entry>)
    ensures Hits(a + b) == Hits(a) + Hits(b)
  {
    if a == [] {
      assert a + b == b;
    } else {
      HitsConcat(a[1..], b);
      assert (a + b)[1..] == a[1..] + b;
    }
  }

  /** Each transfer is counted once, in the log or in what was evicted, as far as 32-bit counts can tell. */
  lemma {:induction false} HitsAreConserved(ts: seq<Transfer>)
    ensures (Hits(Run(ts).log) + Run(ts).evicted) % WRAP == |ts| % WRAP
  {
    hide Hits, Touch, Evicted;
    if ts == [] {
      HitsNone();
    } else {
      var n := |ts| - 1;
      var s, t := Run(ts[..n]), ts[n];
      HitsAreConserved(ts[..n]);
      LogIsDistinct(ts[..n]);
      OneMoreHit(s.log, t);
      ModStep(Hits(s.log) + s.evicted, Hits(Touch(s.log, t)) + s.evicted + Evicted(s.log, t), n);
    }
  }

  lemma ModStep(a: nat, b: nat, n: nat)
    requires a % WRAP == n % WRAP && (b == a + 1 || b == a + 1 - WRAP)
    ensures b % WRAP == (n + 1) % WRAP
  {
    ModPlusOne(a);
    ModPlusOne(n);
    if b == a + 1 - WRAP { assert b == a + 1 + -1 * WRAP; }
  }

  lemma ModPlusOne(a: nat)
    ensures (a + 1) % WRAP == if a % WRAP == WRAP - 1 then 0 else a % WRAP + 1
  {
  }

  lemma OneMoreHit(log: seq<Entry>, t: Transfer)
    requires |log| <= CAP
    ensures var n := Hits(Touch(log, t)) + Evicted(log, t); n == Hits(log) + 1 || n == Hits(log) + 1 - WRAP
  {
    hide Find, Hits, Bump;
    var i := Find(log, t.key);
    if i < |log| {
      HitsMoved(log, i, log[i].(hits := Bump(log[i].hits), lastFrame := t.frame));
    } else {
      HitsPushed(log, Entry(t.key, t.channel, t.direction, t.mode, 1, t.frame));
    }
  }

  lemma HitsMoved(log: seq<Entry>, i: nat, e: Entry)
    requires i < |log|
    ensures Hits([e] + log[..i] + log[i + 1..]) + log[i].hits == Hits(log) + e.hits
  {
    hide Hits;
    assert log == log[..i] + [log[i]] + log[i + 1..];
    HitsConcat(log[..i] + [log[i]], log[i + 1..]);
    HitsConcat(log[..i], [log[i]]);
    HitsConcat([e] + log[..i], log[i + 1..]);
    HitsConcat([e], log[..i]);
    HitsOne(e);
    HitsOne(log[i]);
  }

  lemma HitsPushed(log: seq<Entry>, e: Entry)
    requires |log| <= CAP
    ensures Hits([e] + log[..Min(|log|, CAP - 1)]) + (if |log| == CAP then log[CAP - 1].hits else 0) == Hits(log) + e.hits
  {
    hide Hits;
    var m := Min(|log|, CAP - 1);
    HitsConcat([e], log[..m]);
    HitsConcat(log[..m], log[m..]);
    HitsOne(e);
    assert log == log[..m] + log[m..];
    if m < |log| {
      assert log[m..] == [log[CAP - 1]];
      HitsOne(log[CAP - 1]);
    } else {
      assert log[m..] == [];
      HitsNone();
    }
  }

  lemma HitsOne(e: Entry)
    ensures Hits([e]) == e.hits
  {
    assert [e][1..] == [];
  }

  lemma HitsNone()
    ensures Hits([]) == 0
  {
  }

  ghost predicate Exact(ts: seq<Transfer>, e: Entry)
  {
    e.hits == Count(ts, e.key) % WRAP
  }

  /** While no more than 64 distinct transfers have come, none is forgotten and every hit count is exact. */
  lemma {:induction false} HitsAreExact(ts: seq<Transfer>)
    requires |Recent(ts)| <= CAP
    ensures Run(ts).evicted == 0
    ensures forall e :: e in Run(ts).log ==> Exact(ts, e)
  {
    hide Run, Recent, Tells, Exact;
    NothingEvicted(ts);
    EntriesTell(ts);
    forall e | e in Run(ts).log ensures Exact(ts, e) {
      var i :| Tells(ts, i, e);
      TellsAll(ts, i, e);
    }
  }

  lemma TellsAll(ts: seq<Transfer>, i: nat, e: Entry)
    requires |Recent(ts)| <= CAP && Tells(ts, i, e)
    ensures Exact(ts, e)
  {
    hide Recent, Count;
    RecentLonger(ts, i);
    var r := Recent(ts[..i]);
    assert r[..|r|] == r;
    NeverSeen(ts[..i], e.key);
    CountConcat(ts[..i], ts[i..], e.key);
    assert ts[..i] + ts[i..] == ts;
  }

  lemma {:induction false} RecentLonger(ts: seq<Transfer>, i: nat)
    requires i <= |ts|
    ensures |Recent(ts[..i])| <= |Recent(ts)|
  {
    hide Recent;
    if i == |ts| {
      assert ts[..i] == ts;
    } else {
      RecentGrows(ts);
      RecentLonger(ts[..|ts| - 1], i);
      assert ts[..|ts| - 1][..i] == ts[..i];
    }
  }

  lemma {:induction false} NothingEvicted(ts: seq<Transfer>)
    requires |Recent(ts)| <= CAP
    ensures Run(ts).evicted == 0
  {
    hide Touch, Recent, Keys, Find;
    if ts != [] {
      var n := |ts| - 1;
      var was, r := Run(ts[..n]).log, Recent(ts[..n]);
      RecentGrows(ts);
      NothingEvicted(ts[..n]);
      LogIsMostRecent(ts[..n]);
      assert r[..|r|] == r;
      KeysAt(was);
      if ts[n].key in r {
        var j :| 0 <= j < |r| && r[j] == ts[n].key;
        assert was[j].key == Keys(was)[j];
      }
    }
  }

  lemma RecentGrows(ts: seq<Transfer>)
    requires ts != []
    ensures var was, k := Recent(ts[..|ts| - 1]), ts[|ts| - 1].key;
            |Recent(ts)| == if k in was then |was| else |was| + 1
  {
    hide Without;
    var was, k := Recent(ts[..|ts| - 1]), ts[|ts| - 1].key;
    RecentIsDistinct(ts[..|ts| - 1]);
    if k in was {
      var i :| 0 <= i < |was| && was[i] == k;
      WithoutAt(was, i);
    } else {
      WithoutAbsent(was, k);
    }
  }

  lemma {:induction false} NeverSeen(ts: seq<Transfer>, k: Key)
    requires k !in Recent(ts)
    ensures Count(ts, k) == 0
  {
    hide Without;
    if ts != [] { NeverSeen(ts[..|ts| - 1], k); }
  }

  lemma {:induction false} CountConcat(a: seq<Transfer>, b: seq<Transfer>, k: Key)
    ensures Count(a + b, k) == Count(a, k) + Count(b, k)
  {
    if b == [] {
      assert a + b == a;
    } else {
      CountConcat(a, b[..|b| - 1], k);
      assert (a + b)[..|a + b| - 1] == a + b[..|b| - 1];
    }
  }

  lemma CountSnoc(ts: seq<Transfer>, t: Transfer, k: Key)
    ensures Count(ts + [t], k) == Count(ts, k) + if t.key == k then 1 else 0
  {
    assert (ts + [t])[..|ts|] == ts;
  }
}
