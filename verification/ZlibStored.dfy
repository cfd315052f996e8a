/** The fallback form: stored blocks, copied over the compressed attempt. */
module ZlibStored {
  import opened Prelude
  import opened Bits
  import opened BitWriter
  import opened ByteOrder
  import Inflate

  const MAX_STORED := 32767

  function StoredBound(n: nat): nat
  {
    n + 2 + (n + 32766) / MAX_STORED * 5
  }

  /** The stored blocks that hold `data[j..]`. */
  ghost function StoredBlocks(data: bytes, j: nat): bytes
    requires j <= |data|
    decreases |data| - j
  {
    if j == |data| then []
    else
      var len := StoredLength(|data| - j);
      StoredHeader(len, len == |data| - j) + data[j..j + len] + StoredBlocks(data, j + len)
  }

  ghost function StoredHeader(len: nat, final: bool): (h: bytes)
    requires len <= MAX_STORED
    ensures |h| == 5
  {
    [if final then 1 else 0] + LittleEndian(len, 2) + LittleEndian(0xFFFF - len, 2)
  }

  lemma HeaderBytes(len: nat, final: bool)
    requires len <= MAX_STORED
    ensures StoredHeader(len, final)
         == [if final then 1 else 0, len % 256, len / 256 % 256, 255 - len % 256, 255 - len / 256 % 256]
  {
    hide LittleEndian;
    TwoLow(len);
    TwoLow(0xFFFF - len);
  }

  /** One stored block: five header bytes, then an unchecked copy behind the buffer. */
  method StoreBlock(w: Writer, payload: bytes, final: bool)
    requires w.Valid() && w.cap > 0 && |payload| <= MAX_STORED && |w.out| + 5 + |payload| <= w.cap
    modifies w
    ensures w.out == old(w.out) + (StoredHeader(|payload|, final) + payload) && w.cap >= old(w.cap)
    ensures w.bitcount == old(w.bitcount) && w.bitbuf == old(w.bitbuf)
  {
    hide StoredHeader;
    var blocklen := |payload|;
    w.Push(if final then 1 else 0);
    w.Push(blocklen % 256);
    w.Push(blocklen / 256 % 256);
    w.Push(255 - blocklen % 256);
    w.Push(255 - blocklen / 256 % 256);
    HeaderBytes(blocklen, final);
    assert w.out == old(w.out) + StoredHeader(blocklen, final);
    w.Append(payload);
  }

  /** The fallback for data that compression made longer: rewrites the buffer in place. */
  method Store(w: Writer, data: bytes)
    requires w.Valid() && |w.out| > StoredBound(|data|)
    modifies w
    ensures w.out == old(w.out)[..2] + StoredBlocks(data, 0)
    ensures |w.out| <= StoredBound(|data|) < w.cap
  {
    hide StoredBlocks, StoredHeader;
    w.out := w.out[..2];
    ghost var header := w.out;
    var j := 0;
    ghost var blocks := 0;
    while j < |data|
      invariant j <= |data| && StoredBound(|data|) < w.cap && w.Valid()
      invariant |w.out| == 2 + j + 5 * blocks
      invariant if j == |data| then blocks == (|data| + 32766) / MAX_STORED else j == blocks * MAX_STORED
      invariant w.out + StoredBlocks(data, j) == header + StoredBlocks(data, 0)
      decreases |data| - j
    {
      var blocklen := |data| - j;
      if blocklen > MAX_STORED {
        blocklen := MAX_STORED;
      }
      BlockCount(|data|, j, blocks, blocklen);
      NextStoredBlock(data, j, blocklen);
      StoredConcat(w.out, StoredHeader(blocklen, |data| - j == blocklen), data[j..j + blocklen],
                   StoredBlocks(data, j + blocklen));
      StoreBlock(w, data[j..j + blocklen], |data| - j == blocklen);
      j := j + blocklen;
      blocks := blocks + 1;
    }
    NoStoredBlock(data);
  }

  lemma NoStoredBlock(data: bytes)
    ensures StoredBlocks(data, |data|) == []
  {
  }

  lemma NextStoredBlock(data: bytes, j: nat, len: nat)
    requires j < |data| && len == Min(|data| - j, MAX_STORED)
    ensures StoredBlocks(data, j) == StoredHeader(len, |data| - j == len) + data[j..j + len] + StoredBlocks(data, j + len)
  {
    hide StoredHeader;
  }

  lemma StoredConcat(a: bytes, b: bytes, c: bytes, d: bytes)
    ensures a + (b + c + d) == (a + (b + c)) + d
  {
  }

  lemma BlockCount(n: nat, j: nat, blocks: nat, len: nat)
    requires j < n && j == blocks * MAX_STORED && len == Min(n - j, MAX_STORED)
    ensures blocks + 1 <= (n + 32766) / MAX_STORED
    ensures j + len == n ==> blocks + 1 == (n + 32766) / MAX_STORED
    ensures j + len < n ==> j + len == (blocks + 1) * MAX_STORED
  {
  }

  lemma AlignSkips(rest: bits, t: bits)
    requires |rest| < 8 && |t| % 8 == 0
    ensures Inflate.Align(rest + t) == t
  {
    assert |rest + t| % 8 == |rest|;
  }

  /** Stored blocks decode to the data they hold. */
  lemma {:induction false} StoredReadsBack(data: bytes, j: nat, tail: bytes)
    requires j < |data|
    ensures Inflate.ReadBlocks(BitsOf(StoredBlocks(data, j) + tail), data[..j]) == Some((data, BitsOf(tail)))
    decreases |data| - j
  {
    hide *;
    var len := StoredLength(|data| - j);
    var rest := StoredBlocks(data, j + len);
    var payload, out := data[j..j + len], data[..j];
    FirstStoredBlock(data, j, len, tail);
    StoredBlockReads(len, len == |data| - j, payload, rest + tail, out,
                     BitsOf(StoredBlocks(data, j) + tail), BitsOf(rest + tail));
    assert out + payload == data[..j + len];
    if len == |data| - j {
      NoMoreBlocks(data, j + len, tail);
    } else {
      StoredReadsBack(data, j + len, tail);
    }
  }

  function StoredLength(n: nat): (len: nat)
    requires n > 0
    ensures 0 < len <= n && len <= MAX_STORED
  {
    if n > MAX_STORED then MAX_STORED else n
  }

  lemma NoMoreBlocks(data: bytes, j: nat, tail: bytes)
    requires j == |data|
    ensures StoredBlocks(data, j) + tail == tail && data[..j] == data
  {
  }

  lemma FirstStoredBlock(data: bytes, j: nat, len: nat, tail: bytes)
    requires j < |data| && len == StoredLength(|data| - j)
    ensures StoredBlocks(data, j) + tail
         == StoredHeader(len, len == |data| - j) + (data[j..j + len] + (StoredBlocks(data, j + len) + tail))
  {
    hide StoredHeader;
  }

  lemma StoredBlockReads(len: nat, final: bool, payload: bytes, more: bytes, out: bytes, b: bits, rest: bits)
    requires len == |payload| <= MAX_STORED
    requires b == BitsOf(StoredHeader(len, final) + (payload + more)) && rest == BitsOf(more)
    ensures Inflate.ReadBlocks(b, out)
         == if final then Some((out + payload, rest)) else Inflate.ReadBlocks(rest, out + payload)
  {
    hide StoredHeader, Inflate.ReadBlocks, BitsOf, BytesOf, FromLow;
    var a := BitsOf((LittleEndian(len, 2) + LittleEndian(0xFFFF - len, 2)) + (payload + more));
    StoredHeaderBits(len, final, payload + more);
    StoredPayload(a, LittleEndian(len, 2), LittleEndian(0xFFFF - len, 2), payload, more);
    SixteenBits(len);
    SixteenBits(0xFFFF - len);
    BytesOfBitsOf(payload);
    StoredBitsRead(b, final, a, len, payload, rest, out);
  }

  lemma StoredHeaderBits(len: nat, final: bool, rest: bytes)
    requires len <= MAX_STORED
    ensures BitsOf(StoredHeader(len, final) + rest)
         == [final, false, false, false, false, false, false, false]
            + BitsOf((LittleEndian(len, 2) + LittleEndian(0xFFFF - len, 2)) + rest)
  {
    var sizes := LittleEndian(len, 2) + LittleEndian(0xFFFF - len, 2);
    var first := if final then 1 else 0;
    assert StoredHeader(len, final) + rest == [first] + (sizes + rest);
    BitsOfConcat([first], sizes + rest);
    BitsOfOne(first);
    FinalByte(final);
  }

  lemma StoredBitsRead(b: bits, final: bool, a: bits, len: nat, payload: bytes, rest: bits, out: bytes)
    requires b == [final, false, false, false, false, false, false, false] + a && |a| % 8 == 0
    requires |a| >= 32 + 8 * len && FromLow(a[..16]) == len && FromLow(a[16..32]) == 0xFFFF - len
    requires BytesOf(a[32..32 + 8 * len]) == payload && a[32 + 8 * len..] == rest
    ensures Inflate.ReadBlocks(b, out)
         == if final then Some((out + payload, rest)) else Inflate.ReadBlocks(rest, out + payload)
  {
    assert b[0] == final && b[1..3] == [false, false];
    assert b[3..] == [false, false, false, false, false] + a;
    AlignSkips([false, false, false, false, false], a);
    assert Inflate.ReadStored(b[3..], out) == Some((out + payload, rest));
  }

  lemma FinalByte(final: bool)
    ensures LowBits(if final then 1 else 0, 8) == [final, false, false, false, false, false, false, false]
  {
    var v := if final then 1 else 0;
    assert LowBits(0, 4) == [false, false, false, false];
    assert LowBits(0, 7) == [false, false, false] + LowBits(0, 4);
  }

  /** The aligned part of a stored block: both lengths and the bytes. */
  lemma StoredPayload(a: bits, x: bytes, y: bytes, payload: bytes, more: bytes)
    requires |x| == |y| == 2 && a == BitsOf((x + y) + (payload + more))
    ensures var n := 32 + 8 * |payload|;
            && |a| >= n && |a| % 8 == 0
            && a[..16] == BitsOf(x) && a[16..32] == BitsOf(y) && a[32..n] == BitsOf(payload) && a[n..] == BitsOf(more)
  {
    hide BitsOf;
    BitsOfConcat(x + y, payload + more);
    BitsOfConcat(x, y);
    BitsOfConcat(payload, more);
  }

  lemma SixteenBits(v: u16)
    ensures FromLow(BitsOf(LittleEndian(v, 2))) == v
  {
    TwoLow(v);
    hide LittleEndian;
    LowBitsSplitByte(v, 16);
    BitsOfOne(v % 256);
    BitsOfOne(v / 256);
    BitsOfConcat([v % 256], [v / 256]);
    assert LittleEndian(v, 2) == [v % 256] + [v / 256];
    assert Pow2(16) == 65536 by { Pow2Byte(16); SmallShifts(0); }
    FromLowLowBits(v, 16);
  }
}
