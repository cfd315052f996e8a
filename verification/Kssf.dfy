/** The KSSF footer of a saved state: named values appended behind the emulator's blob, read from the tail. */
module Kssf {
  import opened Prelude
  import opened ByteOrder

  const KSSF_MAGIC: u32 := 0x4653_534b
  const KSSF_VER_MAJOR: u16 := 1
  const KSSF_VER_MINOR: u16 := 0
  const WIDTH := 0x1_0000_0000

  const CART_SRAM: bytes := [0x63, 0x61, 0x72, 0x74, 0x2e, 0x73, 0x72, 0x61, 0x6d]
  const PPU_SHADOW: bytes := [0x70, 0x70, 0x75, 0x2e, 0x73, 0x68, 0x61, 0x64, 0x6f, 0x77]

  lemma NamesSpell()
    ensures CART_SRAM == Ascii("cart.sram") && PPU_SHADOW == Ascii("ppu.shadow")
  {
  }

  datatype Tlv = Tlv(name: bytes, data: bytes)

  ghost predicate WellFormed(t: Tlv)
  {
    1 <= |t.name| <= 255 && |t.data| < WIDTH
  }

  ghost predicate AllWellFormed(ts: seq<Tlv>)
  {
    forall t :: t in ts ==> WellFormed(t)
  }

  datatype Region = Region(offset: u32, length: u32)

  /** A value inside the footer, or one whose length wraps and runs past it from position `at`. */
  datatype Value = Held(data: bytes) | Past(at: nat, length: nat)

  datatype Footer = Footer(present: bool, valid: bool, verMajor: u16, verMinor: u16, aresBlobLen: nat,
                           cartSram: Option<Region>, ppuShadow: Option<Value>)

  // ----- layout -----

  ghost function EncodeTlv(t: Tlv): bytes
    requires WellFormed(t)
  {
    [|t.name|] + t.name + LittleEndian(|t.data|, 4) + t.data
  }

  ghost function EncodeTlvs(ts: seq<Tlv>): bytes
    requires AllWellFormed(ts)
  {
    if ts == [] then [] else EncodeTlv(ts[0]) + EncodeTlvs(ts[1..])
  }

  ghost function Body(minor: u16, ts: seq<Tlv>): bytes
    requires AllWellFormed(ts)
  {
    LittleEndian(KSSF_VER_MAJOR, 2) + LittleEndian(minor, 2) + EncodeTlvs(ts)
  }

  /** A blob followed by a footer, the footer's length and the magic number. */
  ghost function Layout(blob: bytes, minor: u16, ts: seq<Tlv>): bytes
    requires AllWellFormed(ts)
  {
    blob + Body(minor, ts) + LittleEndian(|Body(minor, ts)|, 4) + LittleEndian(KSSF_MAGIC, 4)
  }

  function SramOf(t: Tlv): Option<Region>
  {
    if t.name == CART_SRAM && |t.data| == 8 then Some(Region(U32At(t.data, 0), U32At(t.data, 4))) else None
  }

  function ShadowOf(t: Tlv): Option<Value>
  {
    if t.name == PPU_SHADOW then Some(Held(t.data)) else None
  }

  /** The last `cart.sram` value of the right size. */
  ghost function LastSram(ts: seq<Tlv>): Option<Region>
  {
    if ts == [] then None
    else if LastSram(ts[1..]).Some? then LastSram(ts[1..])
    else SramOf(ts[0])
  }

  ghost function LastShadow(ts: seq<Tlv>): Option<Value>
  {
    if ts == [] then None
    else if LastShadow(ts[1..]).Some? then LastShadow(ts[1..])
    else ShadowOf(ts[0])
  }

  // ----- parsing -----

  /** One value taken into the footer. */
  function Take(f: Footer, name: bytes, v: Value): Footer
  {
    if name == CART_SRAM && v.Held? && |v.data| == 8 then f.(cartSram := Some(Region(U32At(v.data, 0), U32At(v.data, 4))))
    else if name == PPU_SHADOW then f.(ppuShadow := Some(v))
    else f
  }

  /** The entry at a cursor: a broken one ends the walk, the name or the length of a stray one lies past the data. */
  datatype Entry = Broken | Stray | Entry(name: bytes, value: Value, next: nat)

  /** One turn of the loop. Its three sums are 32 bits wide. */
  function NextEntry(footer: bytes, cursor: nat): (e: Entry)
    requires cursor < |footer|
    ensures e.Entry? ==> e.next <= |footer| && (e.value.Held? ==> cursor < e.next)
  {
    var nameLen: nat := footer[cursor];
    var at := cursor + nameLen + 5;
    if nameLen == 0 || at % WIDTH > |footer| then Broken
    else if at >= WIDTH then Stray
    else
      var dataLen := U32At(footer, at - 4);
      var next := (at + dataLen) % WIDTH;
      if next > |footer| then Broken
      else
        var value := if at + dataLen < WIDTH then Held(footer[at..next]) else Past(at, dataLen);
        Entry(footer[cursor + 1..at - 4], value, next)
  }

  datatype Parsed =
    | Ended(footer: Footer)
    | Endless  // the cursor goes round for ever
    | Outside  // bytes outside the data are read

  /** The loop from `cursor` on, endless when `turns` more turns do not end it. */
  function Walk(f: Footer, footer: bytes, cursor: nat, turns: nat): Parsed
    requires cursor <= |footer|
    decreases turns
  {
    if cursor == |footer| then Ended(f.(valid := true))
    else
      match NextEntry(footer, cursor)
      case Broken => Ended(f)
      case Stray => Outside
      case Entry(name, value, next) =>
        if turns == 0 then Endless else Walk(Take(f, name, value), footer, next, turns - 1)
  }

  /** parseKssfFooter. A loop that has not ended after as many turns as the footer has bytes never ends (EndlessForEver). */
  function Parse(data: bytes): Parsed
  {
    var size := |data|;
    var none := Footer(false, false, 0, 0, size, None, None);
    if size < 8 || U32At(data, size - 4) != KSSF_MAGIC then Ended(none)
    else
      var footerLen := U32At(data, size - 8);
      if footerLen < 4 || (footerLen + 8) % WIDTH > size then Ended(none.(present := true))
      else if footerLen + 8 >= WIDTH then Outside
      else
        var footer := data[size - 8 - footerLen..size - 8];
        var f := Footer(true, false, U16At(footer, 0), U16At(footer, 2), size - 8 - footerLen, None, None);
        if f.verMajor != KSSF_VER_MAJOR then Ended(f) else Walk(f, footer, 4, footerLen)
  }

  method ParseKssfFooter(data: bytes) returns (r: Parsed)
    requires |data| < WIDTH
    ensures r == Parse(data)
  {
    hide Walk, NextEntry;
    var size := |data|;
    var f := Footer(false, false, 0, 0, size, None, None);
    if size < 8 { return Ended(f); }
    if U32At(data, size - 4) != KSSF_MAGIC { return Ended(f); }
    var footerLen: nat := U32At(data, size - 8);
    if footerLen < 4 || (footerLen + 8) % WIDTH > size {
      return Ended(f.(present := true));
    }
    if footerLen + 8 >= WIDTH { return Outside; }
    var footer := data[size - 8 - footerLen..size - 8];
    f := Footer(true, false, U16At(footer, 0), U16At(footer, 2), size - 8 - footerLen, None, None);
    if f.verMajor != KSSF_VER_MAJOR { return Ended(f); }
    r := ParseEntries(f, footer);
  }

  /** One turn: the entry's name, its value and where the cursor goes. */
  method ReadEntry(footer: bytes, cursor: nat) returns (e: Entry)
    requires cursor < |footer|
    ensures e == NextEntry(footer, cursor)
  {
    hide U32At;
    var nameLen: nat := footer[cursor];
    var at := cursor + 1;
    if nameLen == 0 || (at + nameLen + 4) % WIDTH > |footer| { return Broken; }
    if at + nameLen + 4 >= WIDTH { return Stray; }
    var name := footer[at..at + nameLen];
    at := at + nameLen;
    var dataLen: nat := U32At(footer, at);
    at := at + 4;
    var next := (at + dataLen) % WIDTH;
    if next > |footer| { return Broken; }
    e := Entry(name, if at + dataLen < WIDTH then Held(footer[at..next]) else Past(at, dataLen), next);
  }

  method ParseEntries(start: Footer, footer: bytes) returns (r: Parsed)
    requires 4 <= |footer| < WIDTH - 8
    ensures r == Walk(start, footer, 4, |footer|)
  {
    hide U32At, FromLittleEndian, NextEntry;
    var f, cursor, turns: nat := start, 4, |footer|;
    while cursor < |footer|
      invariant 0 <= cursor <= |footer| && Walk(f, footer, cursor, turns) == Walk(start, footer, 4, |footer|)
      decreases turns
    {
      var e := ReadEntry(footer, cursor);
      match e {
        case Broken => return Ended(f);
        case Stray => return Outside;
        case Entry(name, value, next) =>
          if turns == 0 { return Endless; }
          ShortValue(footer, cursor);
          if name == CART_SRAM && Length(value) == 8 {
            f := f.(cartSram := Some(Region(U32At(value.data, 0), U32At(value.data, 4))));
          } else if name == PPU_SHADOW {
            f := f.(ppuShadow := Some(value));
          }
          cursor := next;
          turns := turns - 1;
      }
    }
    r := Ended(f.(valid := true));
  }

  function Length(v: Value): nat { if v.Held? then |v.data| else v.length }

  /** A value of eight bytes lies in the footer: its length cannot wrap the cursor. */
  lemma ShortValue(footer: bytes, cursor: nat)
    requires cursor < |footer| < WIDTH - 8 && NextEntry(footer, cursor).Entry?
    ensures Length(NextEntry(footer, cursor).value) == 8 ==> NextEntry(footer, cursor).value.Held?
  {
    hide U32At;
  }

  // ----- the loop that never ends -----

  /** The walk from `cursor` makes another `n` + 1 turns. */
  ghost predicate Goes(footer: bytes, cursor: nat, n: nat)
    decreases n
  {
    && cursor < |footer| && NextEntry(footer, cursor).Entry?
    && (n > 0 ==> Goes(footer, NextEntry(footer, cursor).next, n - 1))
  }

  ghost function Going(footer: bytes, n: nat): set<nat>
  {
    set c: nat | c < |footer| && Goes(footer, c, n)
  }

  lemma GoesOn(footer: bytes, c: nat, n: nat)
    requires c < |footer|
    ensures c in Going(footer, n + 1)
       <==> c in Going(footer, 0) && NextEntry(footer, c).next in Going(footer, n)
  {
    hide NextEntry;
    var e := NextEntry(footer, c);
    if Goes(footer, c, n + 1) {
      assert Goes(footer, e.next, n);
    }
  }

  lemma {:induction false} EndlessGoes(f: Footer, footer: bytes, cursor: nat, n: nat)
    requires cursor <= |footer|
    ensures Walk(f, footer, cursor, n) == Endless <==> cursor in Going(footer, n)
    decreases n
  {
    hide NextEntry, Take;
    if cursor < |footer| && n > 0 {
      var e := NextEntry(footer, cursor);
      GoesOn(footer, cursor, n - 1);
      if e.Entry? { EndlessGoes(Take(f, e.name, e.value), footer, e.next, n - 1); }
    }
  }

  lemma {:induction false} GoingShrinks(footer: bytes, n: nat)
    ensures Going(footer, n + 1) <= Going(footer, n)
  {
    hide NextEntry;
    forall c: nat | c in Going(footer, n + 1) ensures c in Going(footer, n) {
      GoesOn(footer, c, n);
      if n > 0 {
        GoingShrinks(footer, n - 1);
        GoesOn(footer, c, n - 1);
      }
    }
  }

  lemma GoingSteady(footer: bytes, n: nat)
    requires Going(footer, n + 1) == Going(footer, n)
    ensures Going(footer, n + 2) == Going(footer, n + 1)
  {
    hide NextEntry;
    GoingShrinks(footer, n + 1);
    var now, later := Going(footer, n + 1), Going(footer, n + 2);
    forall c: nat | c in now ensures c in later {
      GoesOn(footer, c, n);
      GoesOn(footer, c, n + 1);
    }
  }

  lemma CountBelow(s: set<nat>, n: nat)
    requires forall c :: c in s ==> c < n
    ensures |s| <= n
  {
    if n > 0 {
      var t := s - {n - 1};
      CountBelow(t, n - 1);
      assert s <= t + {n - 1};
      SubsetSize(s, t + {n - 1});
    }
  }

  lemma SubsetSize(a: set<nat>, b: set<nat>)
    requires a <= b
    ensures |a| <= |b|
    ensures |a| == |b| ==> a == b
  {
    assert b == a + (b - a);
  }

  /** Cursors drop out one at a time at least, until none does. */
  lemma {:induction false} GoingSettles(footer: bytes, n: nat)
    ensures Going(footer, n + 1) == Going(footer, n) || |Going(footer, n + 1)| + n < |footer|
  {
    hide Goes;
    GoingShrinks(footer, n);
    SubsetSize(Going(footer, n + 1), Going(footer, n));
    if n == 0 {
      CountBelow(Going(footer, 0), |footer|);
    } else {
      GoingSettles(footer, n - 1);
      if Going(footer, n) == Going(footer, n - 1) { GoingSteady(footer, n - 1); }
    }
  }

  lemma {:induction false} GoingBefore(footer: bytes, n: nat)
    requires n <= |footer|
    ensures Going(footer, |footer|) <= Going(footer, n)
    decreases |footer| - n
  {
    hide Going;
    if n < |footer| {
      GoingShrinks(footer, n);
      GoingBefore(footer, n + 1);
    }
  }

  lemma {:induction false} GoingAfter(footer: bytes, n: nat)
    requires n >= |footer|
    ensures Going(footer, n) == Going(footer, |footer|) && Going(footer, n + 1) == Going(footer, n)
    decreases n
  {
    hide Going;
    if n == |footer| {
      GoingSettles(footer, n);
    } else {
      GoingAfter(footer, n - 1);
      GoingSteady(footer, n - 1);
    }
  }

  /** A walk that ends at all ends within as many turns as the footer has bytes, and how it ends is then settled. */
  lemma EndlessForEver(f: Footer, footer: bytes, n: nat)
    requires 4 <= |footer|
    ensures Walk(f, footer, 4, |footer|) == Endless ==> Walk(f, footer, 4, n) == Endless
    ensures Walk(f, footer, 4, n) != Endless ==> Walk(f, footer, 4, n) == Walk(f, footer, 4, |footer|)
  {
    hide Walk, Going;
    if n < |footer| { GoingBefore(footer, n); } else { GoingAfter(footer, n); }
    EndlessGoes(f, footer, 4, |footer|);
    EndlessGoes(f, footer, 4, n);
    if Walk(f, footer, 4, n) != Endless { WalkSettled(f, footer, 4, n, |footer|); }
  }

  lemma {:induction false} WalkSettled(f: Footer, footer: bytes, cursor: nat, n: nat, m: nat)
    requires cursor <= |footer| && Walk(f, footer, cursor, n) != Endless && Walk(f, footer, cursor, m) != Endless
    ensures Walk(f, footer, cursor, n) == Walk(f, footer, cursor, m)
    decreases n
  {
    hide NextEntry, Take;
    if cursor < |footer| && n > 0 && m > 0 {
      var e := NextEntry(footer, cursor);
      if e.Entry? { WalkSettled(Take(f, e.name, e.value), footer, e.next, n - 1, m - 1); }
    }
  }

  // ----- walks that do not wrap -----

  /** Every entry taken from `cursor` on ends inside the footer. */
  ghost predicate Unwrapped(footer: bytes, cursor: nat)
    requires cursor <= |footer|
    decreases |footer| - cursor
  {
    || cursor == |footer|
    || match NextEntry(footer, cursor)
       case Broken => true
       case Stray => false
       case Entry(_, value, next) => value.Held? && Unwrapped(footer, next)
  }

  /** Neither the footer's length nor an entry of it wraps a 32-bit sum. */
  ghost predicate NoWrap(data: bytes)
  {
    |data| >= 8 && U32At(data, |data| - 4) == KSSF_MAGIC && 4 <= U32At(data, |data| - 8) ==>
      var footerLen := U32At(data, |data| - 8);
      && footerLen + 8 < WIDTH
      && (footerLen + 8 <= |data| ==> Unwrapped(data[|data| - 8 - footerLen..|data| - 8], 4))
  }

  /** Then the loop ends, and inside the data. */
  lemma {:induction false} UnwrappedEnds(f: Footer, footer: bytes, cursor: nat, turns: nat)
    requires cursor <= |footer| <= cursor + turns && Unwrapped(footer, cursor)
    ensures Walk(f, footer, cursor, turns).Ended?
    decreases turns
  {
    hide NextEntry, Take;
    if cursor < |footer| {
      var e := NextEntry(footer, cursor);
      if e.Entry? { UnwrappedEnds(Take(f, e.name, e.value), footer, e.next, turns - 1); }
    }
  }

  lemma NoWrapEnds(data: bytes)
    requires |data| < WIDTH && NoWrap(data)
    ensures Parse(data).Ended?
  {
    hide Walk, Unwrapped, U16At, U32At, FromLittleEndian;
    var size := |data|;
    if size >= 8 && U32At(data, size - 4) == KSSF_MAGIC && 4 <= U32At(data, size - 8) {
      var n := U32At(data, size - 8);
      if n + 8 <= size {
        var footer := data[size - 8 - n..size - 8];
        UnwrappedEnds(Footer(true, false, U16At(footer, 0), U16At(footer, 2), size - 8 - n, None, None), footer, 4, n);
      }
    }
  }

  // ----- reading a layout -----

  lemma Pow4()
    ensures Pow256(2) == 0x1_0000 && Pow256(4) == WIDTH
  {
    assert Pow256(2) == 0x1_0000;
  }

  /** A four-byte number standing at `|before|`. */
  lemma U32Back(before: bytes, v: u32, after: bytes)
    ensures U32At(before + LittleEndian(v, 4) + after, |before|) == v
  {
    hide LittleEndian, FromLittleEndian;
    assert v < Pow256(4) by { Pow4(); }
    LittleEndianBack(v, 4);
    var le := LittleEndian(v, 4);
    var b := before + le + after;
    assert b[|before|..|before| + 4] == le;
  }

  lemma U16Back(before: bytes, v: u16, after: bytes)
    ensures U16At(before + LittleEndian(v, 2) + after, |before|) == v
  {
    hide LittleEndian, FromLittleEndian;
    assert v < Pow256(2) by { Pow4(); }
    LittleEndianBack(v, 2);
    var le := LittleEndian(v, 2);
    var b := before + le + after;
    assert b[|before|..|before| + 2] == le;
  }

  lemma NextEntryBack(footer: bytes, cursor: nat, t: Tlv, more: bytes)
    requires cursor < |footer| < WIDTH && WellFormed(t) && footer[cursor..] == EncodeTlv(t) + more
    ensures NextEntry(footer, cursor) == Entry(t.name, Held(t.data), cursor + |EncodeTlv(t)|)
    ensures footer[cursor + |EncodeTlv(t)|..] == more
  {
    hide LittleEndian, FromLittleEndian, U32At;
    var n, le := |t.name|, LittleEndian(|t.data|, 4);
    var before := footer[..cursor] + [n] + t.name;
    TlvParts(footer, cursor, [n], t.name, le, t.data, more);
    U32Back(before, |t.data|, t.data + more);
    assert EncodeTlv(t) == [n] + t.name + le + t.data;
    hide WellFormed, EncodeTlv;
  }

  lemma TlvParts(s: bytes, i: nat, n: bytes, name: bytes, le: bytes, data: bytes, more: bytes)
    requires |n| == 1 && |le| == 4 && i <= |s| && s[i..] == (n + name + le + data) + more
    ensures s == (s[..i] + n + name) + le + (data + more)
    ensures |s| == i + |name| + 5 + |data| + |more| && s[i] == n[0]
    ensures var at := i + |name| + 5;
            s[i + 1..at - 4] == name && s[at..at + |data|] == data && s[at + |data|..] == more
  {
    var b := s[i..];
    var at := |name| + 5;
    assert s == s[..i] + b;
    assert b[0] == n[0] && b[1..at - 4] == name && b[at..at + |data|] == data && b[at + |data|..] == more;
    assert s[i + at + |data|..] == b[at + |data|..];
  }

  /** Walking well-formed entries takes the last value of each known name. */
  lemma {:induction false} WalkEntries(f: Footer, footer: bytes, cursor: nat, ts: seq<Tlv>, turns: nat)
    requires cursor <= |footer| < WIDTH && |footer| <= cursor + turns
    requires AllWellFormed(ts) && footer[cursor..] == EncodeTlvs(ts)
    ensures Unwrapped(footer, cursor)
    ensures Walk(f, footer, cursor, turns)
         == Ended(f.(valid := true,
                     cartSram := if LastSram(ts).Some? then LastSram(ts) else f.cartSram,
                     ppuShadow := if LastShadow(ts).Some? then LastShadow(ts) else f.ppuShadow))
    decreases |ts|
  {
    hide NextEntry, EncodeTlv, SramOf, ShadowOf, Take;
    if ts == [] {
    } else {
      EncodeTlvSize(ts[0]);
      NextEntryBack(footer, cursor, ts[0], EncodeTlvs(ts[1..]));
      TakeIs(f, ts[0]);
      WalkEntries(Take(f, ts[0].name, Held(ts[0].data)), footer, cursor + |EncodeTlv(ts[0])|, ts[1..], turns - 1);
    }
  }

  lemma TakeIs(f: Footer, t: Tlv)
    ensures Take(f, t.name, Held(t.data))
         == f.(cartSram := if SramOf(t).Some? then SramOf(t) else f.cartSram,
               ppuShadow := if ShadowOf(t).Some? then ShadowOf(t) else f.ppuShadow)
  {
    assert |CART_SRAM| != |PPU_SHADOW|;
  }

  lemma EncodeTlvSize(t: Tlv)
    requires WellFormed(t)
    ensures |EncodeTlv(t)| == |t.name| + 5 + |t.data| > 0
  {
  }

  /** Every footer the writer can lay out, of any minor version and with any entries, is read back. */
  lemma ParseLayout(blob: bytes, minor: u16, ts: seq<Tlv>)
    requires AllWellFormed(ts) && |Layout(blob, minor, ts)| < WIDTH
    ensures NoWrap(Layout(blob, minor, ts))
    ensures Parse(Layout(blob, minor, ts))
         == Ended(Footer(true, true, KSSF_VER_MAJOR, minor, |blob|, LastSram(ts), LastShadow(ts)))
  {
    hide Walk, Unwrapped, LittleEndian, FromLittleEndian, U32At, U16At, EncodeTlvs, LastSram, LastShadow;
    var body, data := Body(minor, ts), Layout(blob, minor, ts);
    var major, mid, tlvs := LittleEndian(KSSF_VER_MAJOR, 2), LittleEndian(minor, 2), EncodeTlvs(ts);
    var size, len, magic := |data|, LittleEndian(|body|, 4), LittleEndian(KSSF_MAGIC, 4);
    U32Back(blob + body + len, KSSF_MAGIC, []);
    assert blob + body + len + magic + [] == data;
    U32Back(blob + body, |body|, magic);
    assert data[size - 8 - |body|..size - 8] == body;
    U16Back([], KSSF_VER_MAJOR, mid + tlvs);
    assert [] + major + (mid + tlvs) == body;
    U16Back(major, minor, tlvs);
    assert body[4..] == tlvs;
    WalkEntries(Footer(true, false, KSSF_VER_MAJOR, minor, |blob|, None, None), body, 4, ts, |body|);
  }

  // ----- a footer accepted as valid was laid out so -----

  lemma EntryParts(footer: bytes, cursor: nat)
    requires cursor < |footer| && NextEntry(footer, cursor).Entry? && NextEntry(footer, cursor).value.Held?
    ensures var e := NextEntry(footer, cursor);
            var at := cursor + |e.name| + 5;
            && 1 <= |e.name| == footer[cursor] && at <= e.next <= |footer| && e.next == at + U32At(footer, at - 4)
            && e.name == footer[cursor + 1..at - 4] && e.value.data == footer[at..e.next]
  {
    hide U32At;
  }

  lemma EntryIsEncoded(footer: bytes, cursor: nat) returns (t: Tlv)
    requires cursor < |footer| && NextEntry(footer, cursor).Entry? && NextEntry(footer, cursor).value.Held?
    ensures WellFormed(t) && footer[cursor..] == EncodeTlv(t) + footer[NextEntry(footer, cursor).next..]
  {
    hide LittleEndian, FromLittleEndian, NextEntry;
    EntryParts(footer, cursor);
    var e := NextEntry(footer, cursor);
    var at := cursor + |e.name| + 5;
    t := Tlv(e.name, e.value.data);
    LittleEndianOf(footer[at - 4..at]);
    FiveParts(footer, cursor, at - 4, at, e.next);
  }

  lemma FiveParts(s: bytes, i: nat, j: nat, k: nat, l: nat)
    requires i < j <= k <= l <= |s|
    ensures s[i..] == [s[i]] + s[i + 1..j] + s[j..k] + s[k..l] + s[l..]
  {
  }

  lemma {:induction false} WalkedIsEncoded(f: Footer, footer: bytes, cursor: nat, turns: nat) returns (ts: seq<Tlv>)
    requires !f.valid && cursor <= |footer| && Unwrapped(footer, cursor)
    requires Walk(f, footer, cursor, turns).Ended? && Walk(f, footer, cursor, turns).footer.valid
    ensures AllWellFormed(ts) && footer[cursor..] == EncodeTlvs(ts)
    decreases turns
  {
    hide NextEntry, EncodeTlv;
    if cursor == |footer| {
      ts := [];
    } else {
      var e := NextEntry(footer, cursor);
      var t := EntryIsEncoded(footer, cursor);
      var more := WalkedIsEncoded(Take(f, e.name, e.value), footer, e.next, turns - 1);
      ts := [t] + more;
      assert ts[1..] == more;
    }
  }

  /** Without a wrap, the bytes behind the blob of a valid footer are a layout of some entries. */
  lemma ValidIsLayout(data: bytes) returns (ts: seq<Tlv>)
    requires |data| < WIDTH && Parse(data).Ended? && Parse(data).footer.valid && NoWrap(data)
    ensures var f := Parse(data).footer;
            f.aresBlobLen <= |data| && AllWellFormed(ts) && data == Layout(data[..f.aresBlobLen], f.verMinor, ts)
  {
    hide Parse, Walk, LittleEndian, FromLittleEndian, EncodeTlvs, U16At, U32At, Unwrapped;
    var blobLen, start := ParseParts(data);
    var footer := data[blobLen..|data| - 8];
    WalkKeeps(start, footer, 4, |footer|);
    ts := WalkedIsEncoded(start, footer, 4, |footer|);
    HeadIsEncoded(footer);
    TailIsEncoded(data);
    FourParts(data, blobLen);
  }

  lemma ParseParts(data: bytes) returns (blobLen: nat, start: Footer)
    requires |data| < WIDTH && Parse(data).Ended? && Parse(data).footer.valid
    ensures blobLen + 12 <= |data| && U32At(data, |data| - 4) == KSSF_MAGIC
    ensures U32At(data, |data| - 8) == |data| - 8 - blobLen
    ensures var footer := data[blobLen..|data| - 8];
            && start == Footer(true, false, U16At(footer, 0), U16At(footer, 2), blobLen, None, None)
            && start.verMajor == KSSF_VER_MAJOR && Walk(start, footer, 4, |footer|) == Parse(data)
  {
    hide Walk, U32At, U16At;
    var size := |data|;
    var footerLen := U32At(data, size - 8);
    blobLen := size - 8 - footerLen;
    var footer := data[blobLen..size - 8];
    start := Footer(true, false, U16At(footer, 0), U16At(footer, 2), blobLen, None, None);
  }

  lemma HeadIsEncoded(footer: bytes)
    requires |footer| >= 4
    ensures footer == LittleEndian(U16At(footer, 0), 2) + LittleEndian(U16At(footer, 2), 2) + footer[4..]
  {
    hide LittleEndian, FromLittleEndian;
    LittleEndianOf(footer[0..2]);
    LittleEndianOf(footer[2..4]);
  }

  lemma TailIsEncoded(data: bytes)
    requires |data| >= 8
    ensures var size := |data|;
            && data[size - 8..size - 4] == LittleEndian(U32At(data, size - 8), 4)
            && data[size - 4..] == LittleEndian(U32At(data, size - 4), 4)
  {
    hide LittleEndian, FromLittleEndian;
    var size := |data|;
    LittleEndianOf(data[size - 8..size - 4]);
    LittleEndianOf(data[size - 4..size]);
    assert data[size - 4..size] == data[size - 4..];
  }

  lemma FourParts(data: bytes, n: nat)
    requires n + 8 <= |data|
    ensures var size := |data|; data == data[..n] + data[n..size - 8] + data[size - 8..size - 4] + data[size - 4..]
  {
  }

  lemma {:induction false} WalkKeeps(f: Footer, footer: bytes, cursor: nat, turns: nat)
    requires cursor <= |footer| && Walk(f, footer, cursor, turns).Ended?
    ensures var g := Walk(f, footer, cursor, turns).footer;
            g.present == f.present && g.verMajor == f.verMajor && g.verMinor == f.verMinor && g.aresBlobLen == f.aresBlobLen
    decreases turns
  {
    hide NextEntry;
    if cursor < |footer| {
      var e := NextEntry(footer, cursor);
      if e.Entry? { WalkKeeps(Take(f, e.name, e.value), footer, e.next, turns - 1); }
    }
  }

  /** A footer is accepted without a wrap exactly when the bytes are a layout: then the blob and the last values come back. */
  lemma ValidIffLayout(data: bytes, f: Footer)
    requires |data| < WIDTH
    ensures Parse(data) == Ended(f) && f.valid && NoWrap(data)
       <==> exists blob: bytes, minor: u16, ts: seq<Tlv> ::
              && AllWellFormed(ts) && data == Layout(blob, minor, ts)
              && f == Footer(true, true, KSSF_VER_MAJOR, minor, |blob|, LastSram(ts), LastShadow(ts))
  {
    hide Parse, Layout, LastSram, LastShadow, NoWrap;
    if Parse(data) == Ended(f) && f.valid && NoWrap(data) {
      var ts := ValidIsLayout(data);
      ParseLayout(data[..f.aresBlobLen], f.verMinor, ts);
    }
    forall blob: bytes, minor: u16, ts: seq<Tlv> | AllWellFormed(ts) && data == Layout(blob, minor, ts)
      ensures NoWrap(data)
      ensures Parse(data) == Ended(Footer(true, true, KSSF_VER_MAJOR, minor, |blob|, LastSram(ts), LastShadow(ts)))
    {
      ParseLayout(blob, minor, ts);
    }
  }

  // ----- two footers that wrap -----

  /** A footer of fifteen bytes whose first entry claims a length of 2^32 - 16 + `low`. */
  function WrappingFooter(low: byte): bytes
  {
    [1, 0, 0, 0, 6, 1, 0x78, 4, 0, 0, 0, low, 0xFF, 0xFF, 0xFF]
  }

  function WrappingData(low: byte): bytes
  {
    WrappingFooter(low) + [15, 0, 0, 0, 0x4B, 0x53, 0x53, 0x46]
  }

  /** The entry's length sends the cursor back to position 5 or 4. */
  lemma WrappingEntry(low: byte)
    requires low == 0xF5 || low == 0xF6
    ensures NextEntry(WrappingFooter(low), 4)
         == Entry([1, 0x78, 4, 0, 0, 0], Past(15, 0xFFFF_FF00 + low), low - 0xF1)
  {
    hide FromLittleEndian;
    var footer := WrappingFooter(low);
    assert footer[11..15] == [low, 0xFF, 0xFF, 0xFF];
    assert footer[5..11] == [1, 0x78, 4, 0, 0, 0];
  }

  lemma WrappingTrailer(low: byte)
    ensures var data := WrappingData(low);
            |data| == 23 && U32At(data, 19) == KSSF_MAGIC && U32At(data, 15) == 15 && data[0..15] == WrappingFooter(low)
  {
    hide FromLittleEndian;
    var data := WrappingData(low);
    assert data[19] == 0x4B && data[15] == 15;
  }

  lemma WrappingVersion(low: byte)
    ensures |WrappingFooter(low)| == 15
    ensures U16At(WrappingFooter(low), 0) == KSSF_VER_MAJOR && U16At(WrappingFooter(low), 2) == 0
  {
    hide FromLittleEndian;
    var footer := WrappingFooter(low);
    assert footer[0] == 1 && footer[2] == 0;
  }

  lemma WrappingHead(low: byte)
    ensures Parse(WrappingData(low)) == Walk(Footer(true, false, 1, 0, 0, None, None), WrappingFooter(low), 4, 15)
  {
    hide Walk, U32At, U16At, WrappingData, WrappingFooter, Parse;
    WrappingTrailer(low);
    WrappingVersion(low);
    ParseIs(WrappingData(low), 15);
  }

  lemma ParseIs(data: bytes, n: nat)
    requires 4 <= n && n + 8 <= |data| < WIDTH && U32At(data, |data| - 4) == KSSF_MAGIC && U32At(data, |data| - 8) == n
    requires U16At(data[|data| - 8 - n..|data| - 8], 0) == KSSF_VER_MAJOR
    ensures var footer := data[|data| - 8 - n..|data| - 8];
            Parse(data) == Walk(Footer(true, false, 1, U16At(footer, 2), |data| - 8 - n, None, None), footer, 4, n)
  {
    hide Walk, U32At, U16At;
  }

  lemma LaterEntry()
    ensures NextEntry(WrappingFooter(0xF6), 5) == Entry([0x78], Held([0xF6, 0xFF, 0xFF, 0xFF]), 15)
  {
    hide FromLittleEndian;
    var footer := WrappingFooter(0xF6);
    assert footer[6..7] == [0x78];
    assert footer[11..15] == [0xF6, 0xFF, 0xFF, 0xFF];
  }

  /** These bytes are accepted although no entries are laid out so. */
  lemma WrapAccepted()
    ensures Parse(WrappingData(0xF6)) == Ended(Footer(true, true, 1, 0, 0, None, None))
    ensures !exists blob: bytes, minor: u16, ts: seq<Tlv> :: AllWellFormed(ts) && WrappingData(0xF6) == Layout(blob, minor, ts)
  {
    hide NextEntry, Parse, NoWrap, WrappingData, Layout, U32At;
    WrappingHead(0xF6);
    WrappingEntry(0xF6);
    LaterEntry();
    WrappingWraps(0xF6);
    forall blob: bytes, minor: u16, ts: seq<Tlv> | AllWellFormed(ts) ensures WrappingData(0xF6) != Layout(blob, minor, ts) {
      WrappingTrailer(0xF6);
      if |Layout(blob, minor, ts)| == 23 { ParseLayout(blob, minor, ts); }
    }
  }

  lemma WrappingWraps(low: byte)
    requires low == 0xF5 || low == 0xF6
    ensures !NoWrap(WrappingData(low))
  {
    hide NextEntry, WrappingData, U32At;
    WrappingTrailer(low);
    WrappingEntry(low);
  }

  /** ... and with 0xF5 for 0xF6 the cursor stays where it is for ever. */
  lemma WrapEndless()
    ensures Parse(WrappingData(0xF5)) == Endless
  {
    hide NextEntry, Parse, WrappingData;
    WrappingHead(0xF5);
    StaysAtFour(Footer(true, false, 1, 0, 0, None, None), 15);
  }

  lemma {:induction false} StaysAtFour(f: Footer, n: nat)
    ensures Walk(f, WrappingFooter(0xF5), 4, n) == Endless
  {
    hide NextEntry;
    WrappingEntry(0xF5);
    if n > 0 { StaysAtFour(f, n - 1); }
  }
}
