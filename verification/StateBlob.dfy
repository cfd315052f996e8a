/** Saving a state with its KSSF footer, and fitting a state's SRAM to the cart it is loaded on. */
module StateBlob {
  import opened Prelude
  import opened ByteOrder
  import opened Kssf

  // ----- saving -----

  /** writeU32LE */
  method WriteU32Le(out: bytes, v: u32) returns (r: bytes)
    ensures r == out + LittleEndian(v, 4)
  {
    LowBytes(v);
    r := out + [v % 0x100] + [v / 0x100 % 0x100] + [v / 0x1_0000 % 0x100] + [v / 0x100_0000 % 0x100];
  }

  /** writeU16LE */
  method WriteU16Le(out: bytes, v: u16) returns (r: bytes)
    ensures r == out + LittleEndian(v, 2)
  {
    r := out + [v % 0x100] + [v / 0x100 % 0x100];
  }

  lemma LowBytes(v: nat)
    ensures LittleEndian(v, 4) == [v % 0x100, v / 0x100 % 0x100, v / 0x1_0000 % 0x100, v / 0x100_0000 % 0x100]
  {
    assert v / 0x100 / 0x100 == v / 0x1_0000;
    assert v / 0x1_0000 / 0x100 == v / 0x100_0000;
    assert LittleEndian(v / 0x1_0000, 2) == [v / 0x1_0000 % 0x100, v / 0x100_0000 % 0x100];
  }

  /** writeTLV: a name that is empty or too long writes nothing. */
  method WriteTlv(out: bytes, name: bytes, data: bytes) returns (r: bytes)
    requires |data| < WIDTH
    ensures r == if 1 <= |name| <= 255 then out + EncodeTlv(Tlv(name, data)) else out
  {
    hide LittleEndian;
    if |name| == 0 || |name| > 255 { return out; }
    r := out + [|name|];
    var i := 0;
    while i < |name|
      invariant 0 <= i <= |name| && r == out + [|name|] + name[..i]
    {
      r := r + [name[i]];
      i := i + 1;
    }
    r := WriteU32Le(r, |data|);
    ghost var head := r;
    i := 0;
    while i < |data|
      invariant 0 <= i <= |data| && r == head + data[..i]
    {
      r := r + [data[i]];
      i := i + 1;
    }
    assert name[..|name|] == name && data[..|data|] == data;
    assert r == out + ([|name|] + name + LittleEndian(|data|, 4) + data);
  }

  ghost function RegionBytes(offset: u32, length: u32): bytes
  {
    LittleEndian(offset, 4) + LittleEndian(length, 4)
  }

  ghost function SavedEntries(offset: u32, length: u32, shadow: bytes): (ts: seq<Tlv>)
    requires |shadow| < WIDTH
    ensures AllWellFormed(ts)
  {
    [Tlv(CART_SRAM, RegionBytes(offset, length)), Tlv(PPU_SHADOW, shadow)]
  }

  /** A footer is written when the cart has SRAM and the probed region lies in the blob. */
  ghost predicate HasFooter(blob: bytes, offset: u32, length: u32)
  {
    length != 0 && (offset + length) % WIDTH <= |blob|
  }

  /** The saved state: the blob, and behind it the footer if it has one. */
  ghost function Saved(blob: bytes, offset: u32, length: u32, shadow: bytes): bytes
    requires |shadow| < WIDTH
  {
    if HasFooter(blob, offset, length) then Layout(blob, KSSF_VER_MINOR, SavedEntries(offset, length, shadow)) else blob
  }

  /** The blob ends in the magic number and in a footer length that passes the bound check. */
  predicate LooksFooted(blob: bytes)
  {
    && |blob| >= 8 && U32At(blob, |blob| - 4) == KSSF_MAGIC
    && var n := U32At(blob, |blob| - 8); 4 <= n && (n + 8) % WIDTH <= |blob|
  }

  method SaveStateBlob(blob: bytes, offset: u32, length: u32, shadow: bytes) returns (out: bytes)
    requires |shadow| < WIDTH - 64
    ensures out == Saved(blob, offset, length, shadow)
  {
    hide LittleEndian, EncodeTlv, EncodeTlvs;
    out := blob;
    if length == 0 { return; }
    if (offset + length) % WIDTH > |out| { return; }
    var footer := WriteU16Le([], KSSF_VER_MAJOR);
    footer := WriteU16Le(footer, KSSF_VER_MINOR);
    ghost var versions := footer;
    var region := WriteU32Le([], offset);
    region := WriteU32Le(region, length);
    footer := WriteTlv(footer, CART_SRAM, region);
    footer := WriteTlv(footer, PPU_SHADOW, shadow);
    assert region == RegionBytes(offset, length);
    FooterIs(versions, offset, length, shadow);
    hide Body;
    var footerLen := |footer|;
    out := out + footer;
    out := WriteU32Le(out, footerLen);
    out := WriteU32Le(out, KSSF_MAGIC);
  }

  /** The versions and the two entries are the body of the footer, whose length fits 32 bits. */
  lemma FooterIs(versions: bytes, offset: u32, length: u32, shadow: bytes)
    requires |shadow| < WIDTH - 64 && versions == LittleEndian(KSSF_VER_MAJOR, 2) + LittleEndian(KSSF_VER_MINOR, 2)
    ensures var footer := versions + EncodeTlv(Tlv(CART_SRAM, RegionBytes(offset, length))) + EncodeTlv(Tlv(PPU_SHADOW, shadow));
            footer == Body(KSSF_VER_MINOR, SavedEntries(offset, length, shadow)) && |footer| < WIDTH
  {
    hide LittleEndian, EncodeTlv, EncodeTlvs;
    var a, b := Tlv(CART_SRAM, RegionBytes(offset, length)), Tlv(PPU_SHADOW, shadow);
    TwoEntries(a, b);
    ConcatAssoc(versions, EncodeTlv(a), EncodeTlv(b));
    EncodeTlvSize(a);
    EncodeTlvSize(b);
  }

  lemma TwoEntries(a: Tlv, b: Tlv)
    requires WellFormed(a) && WellFormed(b)
    ensures AllWellFormed([a, b]) && EncodeTlvs([a, b]) == EncodeTlv(a) + EncodeTlv(b)
  {
    hide EncodeTlv;
    assert [a, b][1..] == [b] && [b][1..] == [];
    assert EncodeTlvs([b]) == EncodeTlv(b) + [];
  }

  /** What was saved is found again: the blob's length, the SRAM region and the shadow registers. */
  lemma SavedReadsBack(blob: bytes, offset: u32, length: u32, shadow: bytes)
    requires |shadow| < WIDTH - 64
    requires |Layout(blob, KSSF_VER_MINOR, SavedEntries(offset, length, shadow))| < WIDTH
    ensures Parse(Layout(blob, KSSF_VER_MINOR, SavedEntries(offset, length, shadow)))
         == Ended(Footer(true, true, KSSF_VER_MAJOR, KSSF_VER_MINOR, |blob|, Some(Region(offset, length)), Some(Held(shadow))))
  {
    hide Parse, Layout, LittleEndian, FromLittleEndian, U32At;
    var ts := SavedEntries(offset, length, shadow);
    U32Back([], offset, LittleEndian(length, 4));
    U32Back(LittleEndian(offset, 4), length, []);
    assert [] + LittleEndian(offset, 4) + LittleEndian(length, 4) == RegionBytes(offset, length);
    assert LittleEndian(offset, 4) + LittleEndian(length, 4) + [] == RegionBytes(offset, length);
    assert |CART_SRAM| != |PPU_SHADOW|;
    LastOfTwo(ts[0], ts[1]);
    ParseLayout(blob, KSSF_VER_MINOR, ts);
  }

  lemma LastOfTwo(a: Tlv, b: Tlv)
    requires SramOf(b) == None && ShadowOf(b).Some?
    ensures LastSram([a, b]) == SramOf(a) && LastShadow([a, b]) == ShadowOf(b)
  {
    hide SramOf, ShadowOf;
    assert [a, b][1..] == [b] && [b][1..] == [];
    assert LastSram([b]) == None && LastShadow([b]) == ShadowOf(b);
  }

  // ----- fitting SRAM -----

  datatype Policy = Refuse | Truncate | Extend | Fit | Clear

  predicate Accepts(p: Policy, len: nat, cap: nat)
  {
    len == cap || p == Fit || p == Clear || (p == Truncate && len > cap) || (p == Extend && len < cap)
  }

  /** Exactly `cap` bytes: the data cut short, or zeros behind it. */
  function Fitted(data: bytes, cap: nat): (out: bytes)
    ensures |out| == cap
  {
    if |data| >= cap then data[..cap] else data + Repeat(0, cap - |data|)
  }

  method FitSram(data: bytes, cap: nat, policy: Policy) returns (ok: bool, out: bytes)
    ensures ok <==> Accepts(policy, |data|, cap)
    ensures policy == Refuse ==> (ok <==> |data| == cap)
    ensures policy == Truncate ==> (ok <==> |data| >= cap)
    ensures policy == Extend ==> (ok <==> |data| <= cap)
    ensures policy == Fit || policy == Clear ==> ok
    ensures ok ==> out == if policy == Clear && |data| != cap then Repeat(0, cap) else Fitted(data, cap)
  {
    var len := |data|;
    out := Repeat(0, cap);
    if len == cap { out := data + out[len..]; return true, out; }
    var longer := len > cap;
    match policy {
      case Clear => return true, out;
      case Fit =>
        var n := if longer then cap else len;
        out := data[..n] + out[n..];
        return true, out;
      case Truncate => if longer { out := data[..cap] + out[cap..]; return true, out; }
      case Extend => if !longer { out := data[..len] + out[len..]; return true, out; }
      case Refuse =>
    }
    ok := false;
  }

  /** Extending and cutting back gives the SRAM again. */
  lemma FitThereAndBack(data: bytes, cap: nat)
    requires |data| <= cap
    ensures Fitted(Fitted(data, cap), |data|) == data
  {
  }

  // ----- loading -----

  datatype Load =
    | Unserialize(state: bytes)  // the bytes handed to the emulator
    | Inject(sram: bytes)  // only the cart's SRAM is written
    | Refused
    | Undefined  // bytes outside the data are read
    | Hangs  // the footer's loop does not end

  /** The state with `region` replaced by `sram`. */
  ghost function Splice(state: bytes, region: Region, sram: bytes): bytes
    requires Inside(region, state)
  {
    state[..region.offset] + sram + state[region.offset + region.length..]
  }

  ghost predicate Inside(region: Region, state: bytes)
  {
    region.offset + region.length <= |state|
  }

  /** The end the bound checks see: the sum is 32 bits wide. */
  ghost function End(region: Region): nat
  {
    (region.offset + region.length) % WIDTH
  }

  /** The bytes of a region that lies inside the state. */
  ghost function SramIn(state: bytes, region: Region): bytes
    requires Inside(region, state)
  {
    state[region.offset..region.offset + region.length]
  }

  /** The region of a footer that can be trusted. */
  function SramRegion(f: Footer): Option<Region>
  {
    if f.valid then f.cartSram else None
  }

  lemma BlobLenBound(data: bytes)
    requires Parse(data).Ended?
    ensures Parse(data).footer.aresBlobLen <= |data|
    ensures !Parse(data).footer.present ==> Parse(data).footer.aresBlobLen == |data|
  {
    hide Walk, U16At, U32At, FromLittleEndian;
    if |data| >= 8 && U32At(data, |data| - 4) == KSSF_MAGIC {
      var n := U32At(data, |data| - 8);
      if 4 <= n && n + 8 <= |data| {
        var footer := data[|data| - 8 - n..|data| - 8];
        var f := Footer(true, false, U16At(footer, 0), U16At(footer, 2), |data| - 8 - n, None, None);
        if f.verMajor == KSSF_VER_MAJOR && Walk(f, footer, 4, n).Ended? { WalkKeeps(f, footer, 4, n); }
      }
    }
  }

  /** The emulator's own state inside a saved one. */
  ghost function AresState(data: bytes): bytes
    requires Parse(data).Ended?
  {
    BlobLenBound(data);
    data[..Parse(data).footer.aresBlobLen]
  }

  ghost function Loaded(data: bytes, cart: nat, policy: Policy): Load
  {
    match Parse(data)
    case Endless => Hangs
    case Outside => Undefined
    case Ended(f) =>
      var region, state := SramRegion(f), AresState(data);
      if region == None || region.value.length == cart then Unserialize(state)
      else if End(region.value) > |state| || !Accepts(policy, region.value.length, cart) then Refused
      else if !Inside(region.value, state) then Undefined
      else if policy == Clear then Unserialize(Splice(state, region.value, Repeat(0, cart)))
      else Unserialize(Splice(state, region.value, Fitted(SramIn(state, region.value), cart)))
  }

  /** A region outside the state that passes the bound check has a sum that wraps: then what policy accepts reads outside. */
  method LoadStateBlob(data: bytes, cart: nat, policy: Policy) returns (r: Load)
    requires |data| + cart < WIDTH
    ensures r == Loaded(data, cart, policy)
  {
    hide Parse, Fitted, Repeat;
    var parsed := ParseKssfFooter(data);
    if parsed.Endless? { return Hangs; }
    if parsed.Outside? { return Undefined; }
    BlobLenBound(data);
    var footer := parsed.footer;
    if footer.valid && footer.cartSram.Some? && footer.cartSram.value.length != cart {
      var srcOff: nat, srcLen: nat := footer.cartSram.value.offset, footer.cartSram.value.length;
      if (srcOff + srcLen) % WIDTH > footer.aresBlobLen { return Refused; }
      if srcOff + srcLen >= WIDTH {
        return if Accepts(policy, srcLen, cart) then Undefined else Refused;
      }
      var ok, sram := FitSram(data[srcOff..srcOff + srcLen], cart, policy);
      if !ok { return Refused; }
      var patched := data[..srcOff] + sram + data[srcOff + srcLen..footer.aresBlobLen];
      SplitState(data, footer.aresBlobLen, srcOff, srcLen);
      return Unserialize(patched);
    }
    var aresLen := if footer.present then footer.aresBlobLen else |data|;
    r := Unserialize(data[..aresLen]);
  }

  lemma SplitState(data: bytes, n: nat, off: nat, len: nat)
    requires off + len <= n <= |data|
    ensures var state := data[..n];
            state[..off] == data[..off] && state[off..off + len] == data[off..off + len] && state[off + len..] == data[off + len..n]
  {
  }

  lemma SliceFits(data: bytes, off: nat, len: nat, cart: nat, n: nat)
    requires off + len <= |data| && n == if len < cart then len else cart
    ensures data[off..off + n] + Repeat(0, cart)[n..] == Fitted(data[off..off + len], cart)
    ensures data[off..off + n] + Repeat(0, cart - n) == Fitted(data[off..off + len], cart)
  {
  }

  datatype Flags = Flags(strict: bool, remap: bool, injectOnly: bool)

  ghost function Injected(data: bytes, aresLen: nat, region: Region, cart: nat, exact: bool): Load
  {
    var n := Min(region.length, cart);
    if End(region) > aresLen then Refused
    else if region.offset + n > |data| then Undefined
    else if exact && region.length != cart then Refused
    else Inject(Fitted(data[region.offset..region.offset + n], cart))
  }

  ghost function Remapped(state: bytes, region: Region, cart: nat): Load
  {
    if End(region) > |state| then Refused
    else if !Inside(region, state) then Undefined
    else Unserialize(Splice(state, region, Fitted(SramIn(state, region), cart)))
  }

  ghost function LoadedEx(data: bytes, cart: nat, flags: Flags, expected: nat): Load
  {
    if data == [] then Refused
    else
      match Parse(data)
      case Endless => Hangs
      case Outside => Undefined
      case Ended(f) =>
        var region, state := SramRegion(f), AresState(data);
        var producer := if expected != 0 then expected else if region.Some? then region.value.length else 0;
        var mismatch := producer != 0 && producer != cart;
        if flags.injectOnly then
          if region == None then Refused
          else Injected(data, |state|, region.value, cart, flags.strict && producer != cart)
        else if flags.strict && (mismatch || producer == 0) then Refused
        else if !mismatch then Unserialize(state)
        else if !flags.remap || region == None then Refused
        else Remapped(state, region.value, cart)
  }

  /** The INJECT_ONLY path: `exact` demands a region of the cart's size, after the copy. */
  method InjectSram(data: bytes, aresLen: nat, region: Region, cart: nat, exact: bool) returns (r: Load)
    requires aresLen <= |data| < WIDTH
    ensures r == Injected(data, aresLen, region, cart, exact)
  {
    hide Fitted, Repeat;
    var srcOff: nat, srcLen: nat := region.offset, region.length;
    if (srcOff + srcLen) % WIDTH > aresLen { return Refused; }
    var slice := Repeat(0, cart);
    var n := if srcLen < cart then srcLen else cart;
    if srcOff + n > |data| { return Undefined; }
    slice := data[srcOff..srcOff + n] + slice[n..];
    if exact && srcLen != cart { return Refused; }
    SliceFits(data, srcOff, n, cart, n);
    r := Inject(slice);
  }

  /** What is injected from a region inside the state is its SRAM, cut short or zero-extended. */
  lemma InjectedIsFitted(data: bytes, aresLen: nat, region: Region, cart: nat)
    requires aresLen <= |data| < WIDTH && Inside(region, data[..aresLen])
    ensures Injected(data, aresLen, region, cart, false) == Inject(Fitted(SramIn(data[..aresLen], region), cart))
  {
    var n := Min(region.length, cart);
    SplitState(data, aresLen, region.offset, region.length);
    SliceFits(data, region.offset, region.length, cart, n);
    SliceFits(data, region.offset, n, cart, n);
  }

  /** The REMAP path. */
  method RemapSram(data: bytes, aresLen: nat, region: Region, cart: nat) returns (r: Load)
    requires aresLen <= |data| < WIDTH
    ensures r == Remapped(data[..aresLen], region, cart)
  {
    hide Fitted, Repeat;
    var srcOff: nat, srcLen: nat := region.offset, region.length;
    if (srcOff + srcLen) % WIDTH > aresLen { return Refused; }
    if srcOff + srcLen >= WIDTH { return Undefined; }
    var patched := data[..srcOff];
    var copyLen := if srcLen < cart then srcLen else cart;
    patched := patched + data[srcOff..srcOff + copyLen];
    if cart > copyLen { patched := patched + Repeat(0, cart - copyLen); }
    SliceFits(data, srcOff, srcLen, cart, copyLen);
    assert patched == data[..srcOff] + (data[srcOff..srcOff + copyLen] + Repeat(0, cart - copyLen));
    patched := patched + data[srcOff + srcLen..aresLen];
    SplitState(data, aresLen, srcOff, srcLen);
    r := Unserialize(patched);
  }

  method LoadStateBlobEx(data: bytes, cart: nat, flags: Flags, expected: u32) returns (r: Load)
    requires |data| + cart < WIDTH
    ensures r == LoadedEx(data, cart, flags, expected)
  {
    hide Parse, Fitted, Injected, Remapped;
    if data == [] { return Refused; }
    var parsed := ParseKssfFooter(data);
    if parsed.Endless? { return Hangs; }
    if parsed.Outside? { return Undefined; }
    BlobLenBound(data);
    var footer := parsed.footer;
    var known := footer.valid && footer.cartSram.Some?;
    var producer: nat := 0;
    if expected != 0 {
      producer := expected;
    } else if known {
      producer := footer.cartSram.value.length;
    }
    if flags.injectOnly {
      if !known { return Refused; }
      r := InjectSram(data, footer.aresBlobLen, footer.cartSram.value, cart, flags.strict && producer != cart);
      return;
    }
    var mismatch := producer != 0 && producer != cart;
    if flags.strict {
      if mismatch { return Refused; }
      if producer == 0 { return Refused; }
    }
    if mismatch && flags.remap {
      if !known { return Refused; }
      r := RemapSram(data, footer.aresBlobLen, footer.cartSram.value, cart);
      return;
    }
    if mismatch { return Refused; }
    var aresLen := if footer.present then footer.aresBlobLen else |data|;
    r := Unserialize(data[..aresLen]);
  }

  // ----- what the flags make of a footer -----

  /** Without a footer that ends inside the data nothing is loaded. */
  lemma NothingToLoad(data: bytes, cart: nat, flags: Flags, expected: u32)
    ensures data == [] ==> LoadedEx(data, cart, flags, expected) == Refused
    ensures data != [] && Parse(data).Endless? ==> LoadedEx(data, cart, flags, expected) == Hangs
    ensures data != [] && Parse(data).Outside? ==> LoadedEx(data, cart, flags, expected) == Undefined
  {
    hide Parse;
  }

  /** The producer's SRAM size is known, from the caller or else from the footer, and is the cart's. */
  predicate KnownToFit(f: Footer, cart: nat, expected: nat)
  {
    if expected != 0 then expected == cart
    else cart != 0 && f.valid && f.cartSram.Some? && f.cartSram.value.length == cart
  }

  /** STRICT hands the emulator the state as it is, and only where the producer's size is known to be the cart's. */
  lemma StrictLoadsItsOwn(data: bytes, cart: nat, flags: Flags, expected: u32)
    requires data != [] && Parse(data).Ended? && flags.strict && !flags.injectOnly
    ensures Parse(data).footer.aresBlobLen <= |data|
    ensures LoadedEx(data, cart, flags, expected)
         == if KnownToFit(Parse(data).footer, cart, expected) then Unserialize(data[..Parse(data).footer.aresBlobLen]) else Refused
  {
    BlobLenBound(data);
    hide Parse;
  }

  /** Otherwise a state is handed over as it is unless its producer's size is known not to be the cart's; without REMAP that is refused. */
  lemma PlainRefusesMismatch(data: bytes, cart: nat, expected: u32, remap: bool)
    requires data != [] && Parse(data).Ended?
    ensures Parse(data).footer.aresBlobLen <= |data|
    ensures var f := Parse(data).footer;
            var other := if expected != 0 then expected != cart
                         else f.valid && f.cartSram.Some? && f.cartSram.value.length != 0 && f.cartSram.value.length != cart;
            var r := LoadedEx(data, cart, Flags(false, remap, false), expected);
            if !other then r == Unserialize(data[..f.aresBlobLen]) else !remap ==> r == Refused
  {
    BlobLenBound(data);
    hide Parse;
  }

  /** REMAP does the same, but where the sizes differ it needs the region, and rewrites it as policy FIT does for its length. */
  lemma RemapNeedsRegion(data: bytes, cart: nat, expected: u32)
    requires data != [] && Parse(data).Ended? && |data| < WIDTH
    requires var f := Parse(data).footer;
             if expected != 0 then expected != cart
             else f.valid && f.cartSram.Some? && f.cartSram.value.length != 0 && f.cartSram.value.length != cart
    ensures Parse(data).footer.aresBlobLen <= |data|
    ensures var f, r := Parse(data).footer, LoadedEx(data, cart, Flags(false, true, false), expected);
            if !f.valid || f.cartSram == None then r == Refused
            else if f.cartSram.value.length != cart then r == Loaded(data, cart, Fit)
            else if f.cartSram.value.offset + cart <= f.aresBlobLen then r == Unserialize(data[..f.aresBlobLen])
            else !r.Unserialize? && !r.Inject?
  {
    BlobLenBound(data);
    hide Parse, Fitted, Splice, SramIn, End;
    var f := Parse(data).footer;
    if f.valid && f.cartSram.Some? {
      var region, state := f.cartSram.value, AresState(data);
      InsideIsBefore(region, state);
      if Inside(region, state) { SpliceLength(state, region, cart); }
    }
  }

  /**
   INJECT_ONLY writes the cart's SRAM and nothing else: the region's bytes, cut short or zeros behind them. STRICT
   refuses when neither the region nor the producer has the cart's size.
   */
  lemma InjectionOutcome(data: bytes, cart: nat, flags: Flags, expected: u32)
    requires data != [] && Parse(data).Ended? && flags.injectOnly
    ensures var f, r := Parse(data).footer, LoadedEx(data, cart, flags, expected);
            if !f.valid || f.cartSram == None then r == Refused
            else
              var offset: nat, length: nat := f.cartSram.value.offset, f.cartSram.value.length;
              if (offset + length) % WIDTH > f.aresBlobLen then r == Refused
              else if offset + Min(length, cart) > |data| then r == Undefined
              else if flags.strict && length != cart && (expected == 0 || expected != cart) then r == Refused
              else r.Inject? && |r.sram| == cart && forall i :: 0 <= i < cart ==> r.sram[i] == if i < length then data[offset + i] else 0
  {
    BlobLenBound(data);
    hide Parse, Injected;
    var f := Parse(data).footer;
    if f.valid && f.cartSram.Some? {
      var producer := if expected != 0 then expected else f.cartSram.value.length;
      InjectedBytes(data, f.aresBlobLen, f.cartSram.value, cart, flags.strict && producer != cart);
    }
  }

  lemma InjectedBytes(data: bytes, aresLen: nat, region: Region, cart: nat, exact: bool)
    ensures var r := Injected(data, aresLen, region, cart, exact);
            var offset: nat, length: nat := region.offset, region.length;
            if (offset + length) % WIDTH > aresLen then r == Refused
            else if offset + Min(length, cart) > |data| then r == Undefined
            else if exact && length != cart then r == Refused
            else r.Inject? && |r.sram| == cart && forall i :: 0 <= i < cart ==> r.sram[i] == if i < length then data[offset + i] else 0
  {
  }

  // ----- what loading hands on -----

  /** A saved state loads on its own cart as the very bytes the emulator wrote, unless it has no footer and looks as if it had. */
  lemma SavedLoadsAsSaved(blob: bytes, offset: u32, length: u32, shadow: bytes, policy: Policy)
    requires |shadow| < WIDTH - 64 && |Saved(blob, offset, length, shadow)| < WIDTH
    ensures Loaded(Saved(blob, offset, length, shadow), length, policy) == Unserialize(blob)
       <==> HasFooter(blob, offset, length) || !LooksFooted(blob)
  {
    hide Parse, LittleEndian, Body, LooksFooted;
    if HasFooter(blob, offset, length) {
      SavedReadsBack(blob, offset, length, shadow);
      assert Saved(blob, offset, length, shadow)[..|blob|] == blob;
    } else {
      BareLoads(blob, length, policy);
    }
  }

  /** On a cart of another size it loads with its SRAM cut or zero-extended in place, everything else untouched. */
  lemma SavedLoadsFitted(blob: bytes, offset: u32, length: u32, shadow: bytes, cart: nat)
    requires |shadow| < WIDTH - 64 && |Saved(blob, offset, length, shadow)| < WIDTH && cart != length
    ensures Loaded(Saved(blob, offset, length, shadow), cart, Fit) ==
            if HasFooter(blob, offset, length) then
              if offset + length > |blob| then Undefined
              else Unserialize(blob[..offset] + Fitted(blob[offset..offset + length], cart) + blob[offset + length..])
            else if LooksFooted(blob) then Loaded(blob, cart, Fit)
            else Unserialize(blob)
  {
    hide Parse, LittleEndian, Body, Fitted, LooksFooted;
    if HasFooter(blob, offset, length) {
      SavedReadsBack(blob, offset, length, shadow);
      assert Saved(blob, offset, length, shadow)[..|blob|] == blob;
    } else {
      BareLoads(blob, cart, Fit);
    }
  }

  /** A state without a footer loads as it is exactly when it does not look like one with a footer. */
  lemma BareLoads(blob: bytes, cart: nat, policy: Policy)
    requires |blob| < WIDTH
    ensures Loaded(blob, cart, policy) == Unserialize(blob) <==> !LooksFooted(blob)
  {
    if !LooksFooted(blob) {
      BareParses(blob);
      hide Parse;
      assert blob[..|blob|] == blob;
    } else if Parse(blob).Ended? {
      FootedParses(blob);
      hide Parse;
      BlobLenBound(blob);
      if Loaded(blob, cart, policy).Unserialize? { ShorterOrSpliced(blob, cart, policy); }
    }
  }

  lemma BareParses(blob: bytes)
    requires !LooksFooted(blob)
    ensures Parse(blob).Ended? && !Parse(blob).footer.valid && Parse(blob).footer.aresBlobLen == |blob|
  {
    hide U32At, Walk;
  }

  lemma FootedParses(blob: bytes)
    requires LooksFooted(blob) && |blob| < WIDTH && Parse(blob).Ended?
    ensures blob != [] && Parse(blob).footer.aresBlobLen < |blob|
    ensures 0x4B in blob[Parse(blob).footer.aresBlobLen..]
  {
    MagicByte(blob);
    FooterStart(blob);
    hide Parse, U32At, LooksFooted;
    var n := Parse(blob).footer.aresBlobLen;
    assert blob[n..][|blob| - 4 - n] == 0x4B;
  }

  lemma FooterStart(blob: bytes)
    requires LooksFooted(blob) && |blob| < WIDTH && Parse(blob).Ended?
    ensures Parse(blob).footer.aresBlobLen == |blob| - 8 - U32At(blob, |blob| - 8)
    ensures Parse(blob).footer.aresBlobLen + 12 <= |blob|
  {
    hide Walk, U16At, U32At;
    var size := |blob|;
    var n := U32At(blob, size - 8);
    var footer := blob[size - 8 - n..size - 8];
    var f := Footer(true, false, U16At(footer, 0), U16At(footer, 2), size - 8 - n, None, None);
    if f.verMajor == KSSF_VER_MAJOR { WalkKeeps(f, footer, 4, n); }
  }

  lemma MagicByte(blob: bytes)
    requires |blob| >= 8 && U32At(blob, |blob| - 4) == KSSF_MAGIC
    ensures blob[|blob| - 4] == 0x4B
  {
    hide FromLittleEndian;
  }

  /** What is handed on is the state without its footer, or that with other SRAM: never the state with its footer. */
  lemma ShorterOrSpliced(blob: bytes, cart: nat, policy: Policy)
    requires Parse(blob).Ended? && Loaded(blob, cart, policy).Unserialize?
    requires Parse(blob).footer.aresBlobLen < |blob| && 0x4B in blob[Parse(blob).footer.aresBlobLen..]
    ensures Loaded(blob, cart, policy) != Unserialize(blob)
  {
    hide Parse, Accepts, Fitted, Repeat;
    var n := Parse(blob).footer.aresBlobLen;
    BlobLenBound(blob);
    var region, state := SramRegion(Parse(blob).footer), AresState(blob);
    if region.Some? && region.value.length != cart {
      SplicedDiffers(state, blob[n..], region.value, Repeat(0, cart), 0x4B);
      SplicedDiffers(state, blob[n..], region.value, Fitted(SramIn(state, region.value), cart), 0x4B);
      assert blob == state + blob[n..];
    }
  }

  /** Zeros or a fitted SRAM in place of a region do not bring in the footer's byte `b`. */
  lemma SplicedDiffers(state: bytes, footer: bytes, region: Region, sram: bytes, b: byte)
    requires Inside(region, state) && b in footer && b != 0
    requires sram == Repeat(0, |sram|) || sram == Fitted(SramIn(state, region), |sram|)
    ensures Splice(state, region, sram) != state + footer
  {
    var before, after := state[..region.offset], state[region.offset + region.length..];
    var was := SramIn(state, region);
    assert state == before + was + after;
    FewOf(was, sram, b);
    CountOf(before, was, after, footer, sram, b);
  }

  lemma FewOf(was: bytes, sram: bytes, b: byte)
    requires b != 0 && (sram == Repeat(0, |sram|) || sram == Fitted(was, |sram|))
    ensures multiset(sram)[b] <= multiset(was)[b]
  {
    if sram == Repeat(0, |sram|) {
      assert b !in sram;
    } else if |was| >= |sram| {
      assert was == was[..|sram|] + was[|sram|..];
    } else {
      assert b !in Repeat(0, |sram| - |was|);
    }
  }

  lemma CountOf(before: bytes, was: bytes, after: bytes, footer: bytes, sram: bytes, b: byte)
    requires b in footer && multiset(sram)[b] <= multiset(was)[b]
    ensures before + sram + after != before + was + after + footer
  {
    assert multiset(footer)[b] > 0;
    assert multiset(before + sram + after)[b] == multiset(before)[b] + multiset(sram)[b] + multiset(after)[b];
    assert multiset(before + was + after + footer)[b]
        == multiset(before)[b] + multiset(was)[b] + multiset(after)[b] + multiset(footer)[b];
  }

  /** A state of a cart without SRAM that ends like a footer loses its last bytes, here all twelve. */
  lemma FootedLookalikeIsCut(policy: Policy)
    ensures var blob: bytes := [9, 0, 0, 0, 4, 0, 0, 0, 0x4B, 0x53, 0x53, 0x46];
            Saved(blob, 0, 0, []) == blob && LooksFooted(blob) && Loaded(blob, 0, policy) == Unserialize([])
  {
    var blob: bytes := [9, 0, 0, 0, 4, 0, 0, 0, 0x4B, 0x53, 0x53, 0x46];
    hide FromLittleEndian, Walk;
    assert U32At(blob, 8) == KSSF_MAGIC && U32At(blob, 4) == 4;
    assert blob[0..4] == [9, 0, 0, 0];
    assert U16At([9, 0, 0, 0], 0) == 9;
  }

  /** Byte by byte, when sizes differ and the state is not refused. */
  lemma FittedBytes(data: bytes, cart: nat, policy: Policy, i: nat)
    requires Loaded(data, cart, policy).Unserialize? && i < |Loaded(data, cart, policy).state|
    requires SramRegion(Parse(data).footer).Some? && SramRegion(Parse(data).footer).value.length != cart
    ensures var f := Parse(data).footer;
            var region := SramRegion(f).value;
            var b := Loaded(data, cart, policy).state;
            && region.offset + region.length <= f.aresBlobLen <= |data|
            && |b| == f.aresBlobLen - region.length + cart
            && b[i] == if i < region.offset then data[i]
                       else if i >= region.offset + cart then data[i - cart + region.length]
                       else if policy != Clear && i < region.offset + region.length then data[i]
                       else 0
  {
    hide Parse;
    BlobLenBound(data);
  }

  /** Whether REMAP builds what policy FIT builds; `expected` is the caller's idea of the producer's SRAM size, 0 for none. */
  predicate RemapFits(region: Option<Region>, stateLen: nat, cart: nat, expected: nat)
  {
    match region
    case None => expected == 0 || expected == cart
    case Some(r) =>
      if r.length == cart then expected == 0 || expected == cart || r.offset + r.length <= stateLen
      else if expected == 0 then r.length != 0
      else expected != cart
  }

  lemma RemapIsFit(data: bytes, cart: nat, expected: u32)
    requires data != [] && |data| + cart < WIDTH && Parse(data).Ended?
    ensures LoadedEx(data, cart, Flags(false, true, false), expected) == Loaded(data, cart, Fit)
       <==> RemapFits(SramRegion(Parse(data).footer), Parse(data).footer.aresBlobLen, cart, expected)
  {
    BlobLenBound(data);
    hide Parse, Fitted, Splice, SramIn, End;
    var region, state := SramRegion(Parse(data).footer), AresState(data);
    if region.Some? {
      InsideIsBefore(region.value, state);
      if Inside(region.value, state) { SpliceLength(state, region.value, cart); }
    }
  }

  lemma InsideIsBefore(region: Region, state: bytes)
    requires |state| < WIDTH
    ensures Inside(region, state) ==> End(region) <= |state|
  {
  }

  lemma SpliceLength(state: bytes, region: Region, cart: nat)
    requires Inside(region, state)
    ensures var b := Splice(state, region, Fitted(SramIn(state, region), cart));
            |b| == |state| - region.length + cart && (region.length == cart ==> b == state)
  {
  }

  /** An expected size that is the cart's own makes REMAP hand over a saved state of another size as it is. */
  lemma ExpectedSizeSkipsRemap(blob: bytes, offset: u32, length: u32, shadow: bytes, cart: u32)
    requires |shadow| < WIDTH - 64 && |Saved(blob, offset, length, shadow)| + cart < WIDTH
    requires HasFooter(blob, offset, length) && cart != 0 && cart != length
    ensures var data := Saved(blob, offset, length, shadow);
            && LoadedEx(data, cart, Flags(false, true, false), cart) == Unserialize(blob)
            && Loaded(data, cart, Fit) != Unserialize(blob)
  {
    hide Parse, LittleEndian, Body, Fitted;
    SavedReadsBack(blob, offset, length, shadow);
    assert Saved(blob, offset, length, shadow)[..|blob|] == blob;
    if offset + length <= |blob| { SpliceLength(blob, Region(offset, length), cart); }
  }
}
