/** Finding matches: hash chains over earlier positions, with one byte of lookahead. */
module Lz77 {
  import opened Prelude
  import opened Bits

  const ZHASH: nat := 16384

  /** The `len` bytes at `a` and at `b` are the same. */
  ghost predicate Matches(data: bytes, a: nat, b: nat, len: nat)
  {
    && a <= b && b + len <= |data|
    && forall t :: b <= t < b + len ==> data[t] == data[t - (b - a)]
  }

  /** stbiw__zhash: three bytes mixed into 32 bits. */
  function Hash(a: byte, b: byte, c: byte): nat
  {
    var h := a + 256 * b + 65536 * c;
    var h := BitXor(h, 8 * h % 0x1_0000_0000);
    var h := (h + h / 32) % 0x1_0000_0000;
    var h := BitXor(h, 16 * h % 0x1_0000_0000);
    var h := (h + h / 0x2_0000) % 0x1_0000_0000;
    var h := BitXor(h, 0x200_0000 * h % 0x1_0000_0000);
    (h + h / 64) % 0x1_0000_0000
  }

  function Bucket(data: bytes, i: nat): nat
    requires i + 2 < |data|
  {
    Hash(data[i], data[i + 1], data[i + 2]) % ZHASH
  }

  /** stbiw__zlib_countm: length of the common prefix, capped at `limit` and 258. */
  method CountMatch(data: bytes, a: nat, b: nat, limit: nat) returns (i: nat)
    requires a <= b && b + limit <= |data|
    ensures i <= limit && i <= 258 && Matches(data, a, b, i)
    ensures forall len :: i < len <= Min(limit, 258) ==> !Matches(data, a, b, len)
  {
    i := 0;
    while i < limit && i < 258
      invariant i <= limit && i <= 258
      invariant Matches(data, a, b, i)
    {
      if data[a + i] != data[b + i] {
        assert data[b + i] != data[b + i - (b - a)];
        return;
      }
      i := i + 1;
    }
  }

  ghost predicate InWindow(p: nat, i: nat)
  {
    p > i - 32768
  }

  /** No match of `i` in the window reached from `chain` is longer than `best`. */
  ghost predicate NoneLonger(data: bytes, chain: seq<nat>, i: nat, best: nat)
  {
    forall j, len :: 0 <= j < |chain| && InWindow(chain[j], i) && best < len <= 258 ==> !Matches(data, chain[j], i, len)
  }

  /** The bucket scan: the longest match of at least three bytes, the latest among equals. */
  method FindMatch(data: bytes, chain: seq<nat>, i: nat) returns (best: nat, bestloc: Option<nat>)
    requires i < |data| && forall j :: 0 <= j < |chain| ==> chain[j] < i
    ensures 3 <= best <= 258
    ensures bestloc.Some? ==>
              bestloc.value < i && i - bestloc.value <= 32767 && Matches(data, bestloc.value, i, best)
    ensures NoneLonger(data, chain, i, if bestloc.Some? then best else 2)
  {
    best, bestloc := 3, None;
    var j := 0;
    while j < |chain|
      invariant 0 <= j <= |chain|
      invariant 3 <= best <= 258 && (bestloc.None? ==> best == 3)
      invariant bestloc.Some? ==>
                  bestloc.value < i && i - bestloc.value <= 32767 && Matches(data, bestloc.value, i, best)
      invariant NoneLonger(data, chain[..j], i, if bestloc.Some? then best else 2)
    {
      if chain[j] > i - 32768 {
        var d := CountMatch(data, chain[j], i, |data| - i);
        if d >= best {
          best, bestloc := d, Some(chain[j]);
        }
      }
      j := j + 1;
    }
    assert chain[..j] == chain;
  }

  /** Lazy matching: is there a match longer than `best` at the next byte? */
  method BetterNext(data: bytes, chain: seq<nat>, i: nat, best: nat) returns (better: bool)
    requires i + 1 < |data| && forall j :: 0 <= j < |chain| ==> chain[j] <= i
    ensures best <= 258 ==> (!better <==> NoneLonger(data, chain, i + 1, best))
  {
    better := false;
    var j := 0;
    while j < |chain|
      invariant 0 <= j <= |chain|
      invariant NoneLonger(data, chain[..j], i + 1, best)
    {
      if chain[j] > i - 32767 {
        var e := CountMatch(data, chain[j], i + 1, |data| - i - 1);
        if e > best {
          assert InWindow(chain[j], i + 1) && Matches(data, chain[j], i + 1, e);
          better := true;
          break;
        }
      }
      j := j + 1;
    }
    assert chain[..|chain|] == chain;
  }

  /** Every bucket holds earlier positions only. */
  ghost predicate EarlierOnly(table: seq<seq<nat>>, i: nat)
  {
    forall h, j :: 0 <= h < |table| && 0 <= j < |table[h]| ==> table[h][j] < i
  }

  ghost predicate TableOk(table: array<seq<nat>>, i: nat, quality: nat)
    reads table
  {
    && table.Length == ZHASH && EarlierOnly(table[..], i)
    && forall k :: 0 <= k < table.Length ==> |table[k]| <= 2 * quality
  }

  lemma TableLater(table: array<seq<nat>>, i: nat, i': nat, quality: nat)
    requires TableOk(table, i, quality) && i <= i'
    ensures TableOk(table, i', quality)
  {
  }

  method NewTable(quality: nat) returns (table: array<seq<nat>>)
    ensures fresh(table) && TableOk(table, 0, quality)
  {
    table := new seq<nat>[ZHASH](_ => []);
  }

  /** A full bucket loses its older half before position `i` goes in. */
  method Remember(table: array<seq<nat>>, h: nat, i: nat, quality: nat)
    requires h < table.Length && EarlierOnly(table[..], i)
    requires forall k :: 0 <= k < table.Length ==> |table[k]| <= 2 * quality
    requires quality >= 1
    modifies table
    ensures EarlierOnly(table[..], i + 1)
    ensures forall k :: 0 <= k < table.Length ==> |table[k]| <= 2 * quality
    ensures forall k :: 0 <= k < table.Length && k != h ==> table[k] == old(table[k])
    ensures table[h] == (if |old(table[h])| == 2 * quality then old(table[h])[quality..] else old(table[h])) + [i]
  {
    assert forall k, j :: 0 <= k < table.Length && 0 <= j < |table[k]| ==> table[..][k][j] < i;
    if |table[h]| == 2 * quality {
      table[h] := table[h][quality..];
    }
    table[h] := table[h] + [i];
  }

  /** The match to use at `i`, after the lazy look at the next byte; the position is remembered. */
  method ChooseMatch(data: bytes, table: array<seq<nat>>, i: nat, quality: nat) returns (best: nat, bestloc: Option<nat>)
    requires i + 3 < |data| && quality >= 1 && TableOk(table, i, quality)
    modifies table
    ensures TableOk(table, i + 1, quality)
    ensures bestloc.Some? ==>
              && 3 <= best <= 258 && bestloc.value < i && i - bestloc.value <= 32767
              && Matches(data, bestloc.value, i, best)
    ensures bestloc.Some? ==>
              && NoneLonger(data, old(table[Bucket(data, i)]), i, best)
              && NoneLonger(data, table[Bucket(data, i + 1)], i + 1, best)
    ensures bestloc.None? ==>
              || NoneLonger(data, old(table[Bucket(data, i)]), i, 2)
              || exists b :: && 3 <= b <= 258 && NoneLonger(data, old(table[Bucket(data, i)]), i, b)
                             && !NoneLonger(data, table[Bucket(data, i + 1)], i + 1, b)
  {
    var h := Bucket(data, i);
    assert table[..][h] == table[h];
    best, bestloc := FindMatch(data, table[h], i);
    Remember(table, h, i, quality);
    if bestloc.Some? {
      h := Bucket(data, i + 1);
      assert table[..][h] == table[h];
      var better := BetterNext(data, table[h], i, best);
      if better {
        bestloc := None;
      }
    }
  }
}
