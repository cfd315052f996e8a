/** IPS patches: a validating pass, an applying pass without bounds checks, and what the result is. */
module IpsPatch {
  import opened Prelude

  const MAGIC: bytes := [0x50, 0x41, 0x54, 0x43, 0x48]
  const EOF: bytes := [0x45, 0x4F, 0x46]

  // ----- records and their meaning -----

  datatype Record = Data(off: nat, data: bytes) | Fill(off: nat, len: nat, value: byte) {
    function End(): nat { off + if Data? then |data| else len }

    predicate Covers(p: nat) { off <= p < End() }

    function At(p: nat): byte
      requires Covers(p)
    {
      if Data? then data[p - off] else value
    }

    function Bytes(): (b: bytes)
      ensures |b| == End() - off && forall k :: 0 <= k < |b| ==> b[k] == At(off + k)
    {
      if Data? then data else Repeat(value, len)
    }
  }

  /** What the last record covering position `p` puts there. */
  ghost function LastCover(recs: seq<Record>, p: nat): Option<byte>
  {
    if recs == [] then None
    else
      var last := recs[|recs| - 1];
      if last.Covers(p) then Some(last.At(p)) else LastCover(recs[..|recs| - 1], p)
  }

  /** The largest of `n` and all record ends. */
  ghost function Extent(recs: seq<Record>, n: nat): (e: nat)
    ensures e >= n && forall i :: 0 <= i < |recs| ==> recs[i].End() <= e
  {
    if recs == [] then n
    else
      var e := Extent(recs[..|recs| - 1], n);
      assert forall i :: 0 <= i < |recs| - 1 ==> recs[i] == recs[..|recs| - 1][i];
      Max(e, recs[|recs| - 1].End())
  }

  /** `out` is `rom` patched: every byte the last covering record's, else the original, else zero. */
  ghost predicate IsPatched(rom: bytes, recs: seq<Record>, out: bytes)
  {
    && |out| == Extent(recs, |rom|)
    && forall p :: 0 <= p < |out| ==>
         out[p] == match LastCover(recs, p)
                   case Some(v) => v
                   case None => if p < |rom| then rom[p] else 0
  }

  lemma PatchedIsUnique(rom: bytes, recs: seq<Record>, a: bytes, b: bytes)
    requires IsPatched(rom, recs, a) && IsPatched(rom, recs, b)
    ensures a == b
  {
  }

  /** Patching a patched image again changes nothing. */
  lemma PatchingTwice(rom: bytes, recs: seq<Record>, out: bytes, again: bytes)
    requires IsPatched(rom, recs, out) && IsPatched(out, recs, again)
    ensures again == out
  {
    ExtentStable(recs, |rom|);
  }

  lemma {:induction false} ExtentStable(recs: seq<Record>, n: nat)
    ensures Extent(recs, Extent(recs, n)) == Extent(recs, n)
  {
    ExtentOf(recs, Extent(recs, n));
  }

  lemma {:induction false} ExtentOf(recs: seq<Record>, n: nat)
    requires forall i :: 0 <= i < |recs| ==> recs[i].End() <= n
    ensures Extent(recs, n) == n
  {
    if recs == [] {
    } else {
      ExtentOf(recs[..|recs| - 1], n);
    }
  }

  // ----- the format -----

  function Be16(a: byte, b: byte): nat { 256 * a + b }

  function Be24(a: byte, b: byte, c: byte): nat { 65536 * a + 256 * b + c }

  /** The record at `i` and where the next one starts; None when it does not fit. */
  ghost function ReadRecord(ips: bytes, i: nat): (r: Option<(Record, nat)>)
    requires i + 3 <= |ips|
    ensures r.Some? ==> i < r.value.1 <= |ips|
  {
    if i + 5 > |ips| then None
    else
      var off, len := Be24(ips[i], ips[i + 1], ips[i + 2]), Be16(ips[i + 3], ips[i + 4]);
      if len == 0 then
        if i + 8 > |ips| then None else Some((Fill(off, Be16(ips[i + 5], ips[i + 6]), ips[i + 7]), i + 8))
      else if i + 5 + len > |ips| then None
      else Some((Data(off, ips[i + 5..i + 5 + len]), i + 5 + len))
  }

  /** The records from `i` up to the end marker; None for a malformed or truncated patch. */
  ghost function ReadRecords(ips: bytes, i: nat): Option<seq<Record>>
    decreases |ips| - i
  {
    if i + 3 > |ips| then None
    else if ips[i..i + 3] == EOF then Some([])
    else
      match ReadRecord(ips, i)
      case None => None
      case Some((r, next)) =>
        match ReadRecords(ips, next)
        case None => None
        case Some(more) => Some([r] + more)
  }

  ghost function ReadPatch(ips: bytes): Option<seq<Record>>
  {
    if |ips| < 8 || ips[..5] != MAGIC then None else ReadRecords(ips, 5)
  }

  // ----- writing patches, to read them back -----

  /** What the format can say: an offset of 24 bits that does not spell the end marker, 16-bit sizes. */
  predicate Writable(r: Record)
  {
    && r.off < 0x100_0000 && r.off != 0x454F46
    && (r.Data? ==> 0 < |r.data| < 0x1_0000) && (r.Fill? ==> r.len < 0x1_0000)
  }

  function WriteRecord(r: Record): bytes
    requires Writable(r)
  {
    [r.off / 65536, r.off / 256 % 256, r.off % 256]
    + match r
      case Data(_, data) => [|data| / 256, |data| % 256] + data
      case Fill(_, len, v) => [0, 0, len / 256, len % 256, v]
  }

  function WriteRecords(recs: seq<Record>): bytes
    requires forall i :: 0 <= i < |recs| ==> Writable(recs[i])
  {
    if recs == [] then EOF else WriteRecord(recs[0]) + WriteRecords(recs[1..])
  }

  lemma ReadWrittenRecord(before: bytes, r: Record, rest: bytes)
    requires Writable(r)
    ensures var ips := before + (WriteRecord(r) + rest);
            && |WriteRecord(r)| >= 5 && ips[|before|..|before| + 3] != EOF
            && ReadRecord(ips, |before|) == Some((r, |before| + |WriteRecord(r)|))
  {
    var w := WriteRecord(r);
    var i, ips := |before|, before + (w + rest);
    assert forall k :: 0 <= k < |w| ==> ips[i + k] == w[k];
    assert ips[i..i + 3] == w[..3];
    if r.Data? {
      assert ips[i + 5..i + 5 + |r.data|] == r.data;
    }
  }

  lemma {:induction false} ReadWritten(before: bytes, recs: seq<Record>, junk: bytes)
    requires forall i :: 0 <= i < |recs| ==> Writable(recs[i])
    ensures ReadRecords(before + (WriteRecords(recs) + junk), |before|) == Some(recs)
    decreases |recs|
  {
    hide ReadRecord, WriteRecord, Writable;
    var ips := before + (WriteRecords(recs) + junk);
    if recs == [] {
      assert ips[|before|..|before| + 3] == EOF;
    } else {
      var w, rest := WriteRecord(recs[0]), WriteRecords(recs[1..]) + junk;
      assert WriteRecords(recs) + junk == w + rest;
      assert ips == (before + w) + rest;
      ReadWrittenRecord(before, recs[0], rest);
      ReadWritten(before + w, recs[1..], junk);
      assert [recs[0]] + recs[1..] == recs;
    }
  }

  /** A written patch reads back as its records, whatever follows the end marker. */
  lemma ReadWrittenPatch(recs: seq<Record>, junk: bytes)
    requires forall i :: 0 <= i < |recs| ==> Writable(recs[i])
    ensures ReadPatch(MAGIC + (WriteRecords(recs) + junk)) == Some(recs)
  {
    ReadWritten(MAGIC, recs, junk);
    assert |WriteRecords(recs)| >= 3;
  }

  // ----- applying -----

  class Rom {
    var data: bytes

    /** One record: grow with zeros when it ends past the image, then overwrite. */
    method Write(off: nat, src: bytes)
      modifies this
      ensures data == Overwrite(old(data), off, src)
    {
      if off + |src| > |data| {
        data := data + Repeat(0, off + |src| - |data|);
      }
      data := data[..off] + src + data[off + |src|..];
    }
  }

  function Overwrite(rom: bytes, off: nat, src: bytes): (out: bytes)
    ensures |out| == Max(|rom|, off + |src|)
    ensures forall p :: 0 <= p < |out| ==>
              out[p] == if off <= p < off + |src| then src[p - off] else if p < |rom| then rom[p] else 0
  {
    var grown := if off + |src| > |rom| then rom + Repeat(0, off + |src| - |rom|) else rom;
    grown[..off] + src + grown[off + |src|..]
  }

  lemma {:induction false} NoCoverBeyond(recs: seq<Record>, n: nat, p: nat)
    requires p >= Extent(recs, n)
    ensures LastCover(recs, p) == None
  {
    if recs == [] {
    } else {
      NoCoverBeyond(recs[..|recs| - 1], n, p);
    }
  }

  lemma PatchedNext(rom: bytes, recs: seq<Record>, out: bytes, r: Record)
    requires IsPatched(rom, recs, out)
    ensures IsPatched(rom, recs + [r], Overwrite(out, r.off, r.Bytes()))
  {
    assert (recs + [r])[..|recs|] == recs;
    var next := Overwrite(out, r.off, r.Bytes());
    forall p | 0 <= p < |next|
      ensures next[p] == match LastCover(recs + [r], p)
                         case Some(v) => v
                         case None => if p < |rom| then rom[p] else 0
    {
      if !r.Covers(p) && p >= |out| {
        NoCoverBeyond(recs, |rom|, p);
      }
    }
  }

  /** applyIpsPatch's first pass: does every record fit, and is there an end marker? */
  method Check(ips: bytes) returns (ok: bool)
    ensures ok <==> ReadPatch(ips).Some?
  {
    if |ips| < 8 {
      return false;
    }
    if ips[..5] != MAGIC {
      return false;
    }
    var i := 5;
    var sawEof := false;
    while i + 3 <= |ips|
      invariant 5 <= i <= |ips| && !sawEof
      invariant ReadRecords(ips, 5).Some? <==> ReadRecords(ips, i).Some?
      decreases |ips| - i
    {
      if ips[i..i + 3] == EOF {
        sawEof := true;
        break;
      }
      if i + 5 > |ips| {
        return false;
      }
      var len := Be16(ips[i + 3], ips[i + 4]);
      i := i + 5;
      if len == 0 {
        if i + 3 > |ips| {
          return false;
        }
        i := i + 3;
      } else {
        if i + len > |ips| {
          return false;
        }
        i := i + len;
      }
    }
    return sawEof;
  }

  /** One record of the second pass: no bounds are tested, the first pass vouches for them. */
  method ApplyRecord(rom: Rom, ips: bytes, from: nat, ghost r: Record) returns (i: nat)
    requires from + 3 <= |ips| && ReadRecord(ips, from).Some? && r == ReadRecord(ips, from).value.0
    modifies rom
    ensures i == ReadRecord(ips, from).value.1 && rom.data == Overwrite(old(rom.data), r.off, r.Bytes())
  {
    hide Overwrite;
    i := from;
    var off := Be24(ips[i], ips[i + 1], ips[i + 2]);
    var len := Be16(ips[i + 3], ips[i + 4]);
    i := i + 5;
    if len == 0 {
      var rle, fill := Be16(ips[i], ips[i + 1]), ips[i + 2];
      i := i + 3;
      rom.Write(off, Repeat(fill, rle));
    } else {
      rom.Write(off, ips[i..i + len]);
      i := i + len;
    }
  }

  method Apply(rom: Rom, ips: bytes)
    requires ReadPatch(ips).Some?
    modifies rom
    ensures IsPatched(old(rom.data), ReadPatch(ips).value, rom.data)
  {
    var i := 5;
    ghost var all := ReadPatch(ips).value;
    hide *;
    ghost var done := 0;
    NotPatched(rom.data);
    while true
      invariant 5 <= i <= |ips| && done <= |all| && ReadRecords(ips, i) == Some(all[done..])
      invariant IsPatched(old(rom.data), all[..done], rom.data)
      decreases |ips| - i
    {
      RecordsAt(ips, i, all[done..]);
      if ips[i..i + 3] == EOF {
        assert all[..done] == all;
        return;
      }
      assert all[..done + 1] == all[..done] + [all[done]] && all[done..][1..] == all[done + 1..];
      PatchedNext(old(rom.data), all[..done], rom.data, all[done]);
      i := ApplyRecord(rom, ips, i, all[done]);
      done := done + 1;
    }
  }

  /** A position from which records read: the end marker, or a record that fits and then the others. */
  lemma RecordsAt(ips: bytes, i: nat, recs: seq<Record>)
    requires ReadRecords(ips, i) == Some(recs)
    ensures i + 3 <= |ips|
    ensures ips[i..i + 3] == EOF ==> recs == []
    ensures ips[i..i + 3] != EOF ==>
              && recs != [] && ReadRecord(ips, i).Some? && ReadRecord(ips, i).value.0 == recs[0]
              && ReadRecords(ips, ReadRecord(ips, i).value.1) == Some(recs[1..])
  {
    hide ReadRecord;
  }

  lemma NotPatched(rom: bytes)
    ensures IsPatched(rom, [], rom)
  {
  }

  /** applyIpsPatch: the image is patched as the records say, or left alone. */
  method ApplyIpsPatch(rom: Rom, ips: bytes) returns (ok: bool)
    modifies rom
    ensures ok <==> ReadPatch(ips).Some?
    ensures !ok ==> rom.data == old(rom.data)
    ensures ok ==> IsPatched(old(rom.data), ReadPatch(ips).value, rom.data)
  {
    ok := Check(ips);
    if ok {
      Apply(rom, ips);
    }
  }
}
