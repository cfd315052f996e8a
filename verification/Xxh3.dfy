/**
 XXH3's long hash: what one call computes. The arithmetic (one stripe into the
 accumulators, the scramble, the final merge, the short-input hashes, the seeded secret)
 is a parameter, as the accumulate and scramble steps are in the source.
 */
module Xxh3 {
  import opened Prelude

  const STRIPE_LEN := 64
  const CONSUME_RATE := 8
  const SECRET_SIZE_MIN := 136
  const SECRET_DEFAULT_SIZE := 192
  const MIDSIZE_MAX := 240
  const LASTACC_START := 7
  const MERGEACCS_START := 11

  datatype Kernel<!A> = Kernel(
    init: A,
    accumulate: (A, bytes, bytes) -> A,    // accumulators, stripe, 64 bytes of secret
    scramble: (A, bytes) -> A,
    merge: (A, bytes, nat) -> u64,         // accumulators, 64 bytes of secret, input length
    short: (bytes, bytes, u64) -> u64,     // input of at most 240 bytes, secret, seed
    defaultSecret: bytes,
    seededSecret: u64 -> bytes)
  {
    ghost predicate Valid() {
      && |defaultSecret| == SECRET_DEFAULT_SIZE
      && forall seed :: |seededSecret(seed)| == SECRET_DEFAULT_SIZE
    }
  }

  /** Stripes hashed between two scrambles. */
  function StripesPerBlock(secret: bytes): (n: nat)
    requires |secret| >= SECRET_SIZE_MIN
    ensures n >= 9 && CONSUME_RATE * (n - 1) + STRIPE_LEN <= |secret|
  {
    (|secret| - STRIPE_LEN) / CONSUME_RATE
  }

  function Key(secret: bytes, j: nat): bytes
    requires |secret| >= SECRET_SIZE_MIN && j < StripesPerBlock(secret)
  {
    secret[CONSUME_RATE * j..CONSUME_RATE * j + STRIPE_LEN]
  }

  function ScrambleKey(secret: bytes): bytes
    requires |secret| >= SECRET_SIZE_MIN
  {
    secret[|secret| - STRIPE_LEN..]
  }

  /** Accumulators and the number of stripes taken since the last scramble. */
  datatype Progress<A> = Progress(acc: A, soFar: nat)

  ghost predicate InBlock<A>(secret: bytes, p: Progress<A>)
  {
    |secret| >= SECRET_SIZE_MIN && p.soFar < StripesPerBlock(secret)
  }

  /** One stripe: accumulate, and scramble when it ends a block. */
  ghost function Absorb<A>(k: Kernel<A>, secret: bytes, p: Progress<A>, stripe: bytes): (q: Progress<A>)
    requires InBlock(secret, p)
    ensures InBlock(secret, q)
  {
    var acc := k.accumulate(p.acc, stripe, Key(secret, p.soFar));
    if p.soFar + 1 == StripesPerBlock(secret) then Progress(k.scramble(acc, ScrambleKey(secret)), 0)
    else Progress(acc, p.soFar + 1)
  }

  /** All whole stripes of `s`, in order. */
  ghost function AbsorbAll<A>(k: Kernel<A>, secret: bytes, p: Progress<A>, s: bytes): (q: Progress<A>)
    requires InBlock(secret, p)
    ensures InBlock(secret, q)
    decreases |s|
  {
    if |s| < STRIPE_LEN then p
    else AbsorbAll(k, secret, Absorb(k, secret, p, s[..STRIPE_LEN]), s[STRIPE_LEN..])
  }

  lemma {:induction false} AbsorbConcat<A>(k: Kernel<A>, secret: bytes, p: Progress<A>, s: bytes, t: bytes)
    requires InBlock(secret, p) && |s| % STRIPE_LEN == 0
    ensures AbsorbAll(k, secret, p, s + t) == AbsorbAll(k, secret, AbsorbAll(k, secret, p, s), t)
    decreases |s|
  {
    hide Absorb;
    if s == [] {
      assert s + t == t;
    } else {
      assert (s + t)[..STRIPE_LEN] == s[..STRIPE_LEN] && (s + t)[STRIPE_LEN..] == s[STRIPE_LEN..] + t;
      AbsorbConcat(k, secret, Absorb(k, secret, p, s[..STRIPE_LEN]), s[STRIPE_LEN..], t);
    }
  }

  /** Number of stripes hashed before the last one: the final byte is always left over. */
  function BulkLength(len: nat): (n: nat)
    requires len > 0
    ensures n % STRIPE_LEN == 0 && n < len <= n + STRIPE_LEN
  {
    (len - 1) / STRIPE_LEN * STRIPE_LEN
  }

  /** The last stripe, which may overlap the one before it, and the merge. */
  ghost function Finish<A>(k: Kernel<A>, secret: bytes, acc: A, lastStripe: bytes, len: nat): u64
    requires |secret| >= SECRET_SIZE_MIN
  {
    var key := secret[|secret| - STRIPE_LEN - LASTACC_START..|secret| - LASTACC_START];
    k.merge(k.accumulate(acc, lastStripe, key), secret[MERGEACCS_START..MERGEACCS_START + STRIPE_LEN], len)
  }

  /** The hash of a long input. */
  ghost function HashLong<A>(k: Kernel<A>, secret: bytes, data: bytes): u64
    requires |secret| >= SECRET_SIZE_MIN && |data| >= STRIPE_LEN
  {
    var p := AbsorbAll(k, secret, Progress(k.init, 0), data[..BulkLength(|data|)]);
    Finish(k, secret, p.acc, data[|data| - STRIPE_LEN..], |data|)
  }

  // ----- the entry points -----

  datatype Mode = Default | WithSecret(secret: bytes) | WithSeed(seed: u64) | WithSecretAndSeed(secret: bytes, seed: u64) {
    predicate Valid() {
      (WithSecret? || WithSecretAndSeed?) ==> |secret| >= SECRET_SIZE_MIN
    }

    predicate Sized() {
      (WithSecret? || WithSecretAndSeed?) ==> |secret| < 0x1_0000_0000_0000_0000
    }
  }

  /** The secret that long inputs use. */
  ghost function LongSecret<A>(k: Kernel<A>, m: Mode): bytes
  {
    match m
    case Default => k.defaultSecret
    case WithSecret(s) => s
    case WithSeed(v) => if v == 0 then k.defaultSecret else k.seededSecret(v)
    case WithSecretAndSeed(s, _) => s
  }

  ghost function ShortHash<A>(k: Kernel<A>, m: Mode, data: bytes): u64
  {
    match m
    case Default => k.short(data, k.defaultSecret, 0)
    case WithSecret(s) => k.short(data, s, 0)
    case WithSeed(v) => k.short(data, k.defaultSecret, v)
    case WithSecretAndSeed(_, v) => k.short(data, k.defaultSecret, v)
  }

  /** What XXH3_64bits and its variants return. */
  ghost function OneShot<A>(k: Kernel<A>, m: Mode, data: bytes): u64
    requires k.Valid() && m.Valid()
  {
    if |data| <= MIDSIZE_MAX then ShortHash(k, m, data) else HashLong(k, LongSecret(k, m), data)
  }

  // ----- the same, by position -----

  /**
   The accumulators after the first `n` stripes of 64 bytes. With a secret of 64 + 8 * b bytes or up to 7 more, stripe
   `i` is taken with the 64 bytes of secret from 8 * (i % b) on, and after every `b` stripes comes a scramble with the
   secret's last 64 bytes.
   */
  ghost function AfterStripes<A>(k: Kernel<A>, secret: bytes, data: bytes, n: nat): A
    requires |secret| >= 136 && 64 * n <= |data|
  {
    if n == 0 then k.init
    else
      var b := (|secret| - 64) / 8;
      var i := Place(n - 1, b);
      var acc := k.accumulate(AfterStripes(k, secret, data, n - 1), data[64 * n - 64..64 * n], secret[8 * i..8 * i + 64]);
      if i == b - 1 then k.scramble(acc, secret[|secret| - 64..]) else acc
  }

  /** The place of stripe `n` in its block of `b`: 0 to b - 1, over and over. */
  ghost function Place(n: nat, b: nat): (i: nat)
    requires b > 0
    ensures i < b
  {
    if n == 0 || Place(n - 1, b) == b - 1 then 0 else Place(n - 1, b) + 1
  }

  lemma {:induction false} AbsorbedByPlace<A>(k: Kernel<A>, secret: bytes, data: bytes, n: nat)
    requires |secret| >= 136 && 64 * n <= |data|
    ensures AbsorbAll(k, secret, Progress(k.init, 0), data[..64 * n])
         == Progress(AfterStripes(k, secret, data, n), Place(n, (|secret| - 64) / 8))
  {
    hide Place, AbsorbAll, Absorb, AfterStripes;
    var b := (|secret| - 64) / 8;
    NoStripes(k, secret, data);
    if n > 0 {
      AbsorbedByPlace(k, secret, data, n - 1);
      var stripe := data[64 * n - 64..64 * n];
      assert data[..64 * n] == data[..64 * (n - 1)] + stripe;
      AbsorbConcat(k, secret, Progress(k.init, 0), data[..64 * (n - 1)], stripe);
      AbsorbOne(k, secret, data, n);
    }
  }

  lemma NoStripes<A>(k: Kernel<A>, secret: bytes, data: bytes)
    requires |secret| >= 136
    ensures AbsorbAll(k, secret, Progress(k.init, 0), data[..0])
         == Progress(AfterStripes(k, secret, data, 0), Place(0, (|secret| - 64) / 8))
  {
  }

  lemma AbsorbOne<A>(k: Kernel<A>, secret: bytes, data: bytes, n: nat)
    requires |secret| >= 136 && 0 < n && 64 * n <= |data|
    ensures var b := (|secret| - 64) / 8;
            var p := Progress(AfterStripes(k, secret, data, n - 1), Place(n - 1, b));
            var q := Progress(AfterStripes(k, secret, data, n), Place(n, b));
            AbsorbAll(k, secret, p, data[64 * n - 64..64 * n]) == q
  {
    var stripe := data[64 * n - 64..64 * n];
    assert stripe[..64] == stripe && stripe[64..] == [];
  }

  /**
   What every entry point hashes, by position: all stripes but the last, which is the last 64 bytes and is taken with
   the secret from 71 bytes before its end, merged with the secret from byte 11 on. Inputs of up to 240 bytes go to the
   short hash; a secret given with a seed is for longer ones only.
   */
  lemma OneShotIs<A>(k: Kernel<A>, m: Mode, data: bytes)
    requires k.Valid() && m.Valid()
    ensures |data| <= 240 ==>
      var s := if m.WithSecret? then m.secret else k.defaultSecret;
      OneShot(k, m, data) == k.short(data, s, if m.WithSeed? || m.WithSecretAndSeed? then m.seed else 0)
    ensures |data| > 240 ==>
      var s := if m.WithSecret? || m.WithSecretAndSeed? then m.secret
               else if m.WithSeed? && m.seed != 0 then k.seededSecret(m.seed) else k.defaultSecret;
      var acc := AfterStripes(k, s, data, (|data| - 1) / 64);
      OneShot(k, m, data) == k.merge(k.accumulate(acc, data[|data| - 64..], s[|s| - 71..|s| - 7]), s[11..75], |data|)
  {
    hide AfterStripes, Place, AbsorbAll;
    if |data| > 240 {
      var s := LongSecret(k, m);
      assert BulkLength(|data|) == 64 * ((|data| - 1) / 64);
      AbsorbedByPlace(k, s, data, (|data| - 1) / 64);
    }
  }

  // ----- the loops -----

  /** Stripes accumulated with consecutive keys and no scramble. */
  ghost function Plain<A>(k: Kernel<A>, secret: bytes, acc: A, j: nat, s: bytes): A
    requires |secret| >= SECRET_SIZE_MIN && j + |s| / STRIPE_LEN <= StripesPerBlock(secret)
    decreases |s|
  {
    if |s| < STRIPE_LEN then acc
    else Plain(k, secret, k.accumulate(acc, s[..STRIPE_LEN], Key(secret, j)), j + 1, s[STRIPE_LEN..])
  }

  lemma NextStripe(input: bytes, n: nat, total: nat)
    requires n < total && STRIPE_LEN * total <= |input|
    ensures var s := input[..STRIPE_LEN * total][STRIPE_LEN * n..];
            && |s| >= STRIPE_LEN && s[..STRIPE_LEN] == input[n * STRIPE_LEN..n * STRIPE_LEN + STRIPE_LEN]
            && s[STRIPE_LEN..] == input[..STRIPE_LEN * total][STRIPE_LEN * (n + 1)..]
  {
  }

  /** XXH3_accumulate, from key `j` on. */
  method Accumulate<A>(k: Kernel<A>, acc: A, input: bytes, secret: bytes, j: nat, nbStripes: nat) returns (r: A)
    requires |secret| >= SECRET_SIZE_MIN && j + nbStripes <= StripesPerBlock(secret)
    requires STRIPE_LEN * nbStripes <= |input|
    ensures r == Plain(k, secret, acc, j, input[..STRIPE_LEN * nbStripes])
  {
    r := acc;
    var n := 0;
    ghost var s := input[..STRIPE_LEN * nbStripes];
    while n < nbStripes
      invariant 0 <= n <= nbStripes
      invariant Plain(k, secret, r, j + n, s[STRIPE_LEN * n..]) == Plain(k, secret, acc, j, s)
    {
      var stripe := input[n * STRIPE_LEN..n * STRIPE_LEN + STRIPE_LEN];
      NextStripe(input, n, nbStripes);
      r := k.accumulate(r, stripe, secret[(j + n) * CONSUME_RATE..(j + n) * CONSUME_RATE + STRIPE_LEN]);
      n := n + 1;
    }
  }

  /** Plain accumulation inside a block is absorption... */
  lemma {:induction false} PlainInside<A>(k: Kernel<A>, secret: bytes, acc: A, j: nat, s: bytes)
    requires |secret| >= SECRET_SIZE_MIN && |s| % STRIPE_LEN == 0 && j + |s| / STRIPE_LEN < StripesPerBlock(secret)
    ensures AbsorbAll(k, secret, Progress(acc, j), s) == Progress(Plain(k, secret, acc, j, s), j + |s| / STRIPE_LEN)
    decreases |s|
  {
    if s == [] {
    } else {
      PlainInside(k, secret, k.accumulate(acc, s[..STRIPE_LEN], Key(secret, j)), j + 1, s[STRIPE_LEN..]);
    }
  }

  /** ... and with a scramble after it when it ends exactly at the end of the block. */
  lemma {:induction false} PlainToEnd<A>(k: Kernel<A>, secret: bytes, acc: A, j: nat, s: bytes)
    requires |secret| >= SECRET_SIZE_MIN && |s| % STRIPE_LEN == 0 && s != []
    requires j + |s| / STRIPE_LEN == StripesPerBlock(secret)
    ensures AbsorbAll(k, secret, Progress(acc, j), s)
         == Progress(k.scramble(Plain(k, secret, acc, j, s), ScrambleKey(secret)), 0)
    decreases |s|
  {
    var a := k.accumulate(acc, s[..STRIPE_LEN], Key(secret, j));
    var t := s[STRIPE_LEN..];
    if t == [] {
      assert AbsorbAll(k, secret, Absorb(k, secret, Progress(acc, j), s[..STRIPE_LEN]), t)
          == Absorb(k, secret, Progress(acc, j), s[..STRIPE_LEN]);
    } else {
      PlainToEnd(k, secret, a, j + 1, t);
    }
  }

  /** A run of stripes that fills a block from its start, then the scramble. */
  method AccumulateBlock<A>(k: Kernel<A>, acc: A, input: bytes, secret: bytes, j: nat, nbStripes: nat) returns (r: A)
    requires |secret| >= SECRET_SIZE_MIN && nbStripes > 0 && j + nbStripes == StripesPerBlock(secret)
    requires STRIPE_LEN * nbStripes <= |input|
    ensures Progress(r, 0) == AbsorbAll(k, secret, Progress(acc, j), input[..STRIPE_LEN * nbStripes])
  {
    r := Accumulate(k, acc, input, secret, j, nbStripes);
    r := k.scramble(r, secret[|secret| - STRIPE_LEN..]);
    PlainToEnd(k, secret, acc, j, input[..STRIPE_LEN * nbStripes]);
  }

  method AccumulatePart<A>(k: Kernel<A>, acc: A, input: bytes, secret: bytes, j: nat, nbStripes: nat) returns (r: A)
    requires |secret| >= SECRET_SIZE_MIN && j + nbStripes < StripesPerBlock(secret)
    requires STRIPE_LEN * nbStripes <= |input|
    ensures Progress(r, j + nbStripes) == AbsorbAll(k, secret, Progress(acc, j), input[..STRIPE_LEN * nbStripes])
  {
    r := Accumulate(k, acc, input, secret, j, nbStripes);
    PlainInside(k, secret, acc, j, input[..STRIPE_LEN * nbStripes]);
  }

  lemma AbsorbNext<A>(k: Kernel<A>, secret: bytes, p: Progress<A>, data: bytes, pos: nat, len: nat)
    requires InBlock(secret, p) && pos + len <= |data| && pos % STRIPE_LEN == 0
    ensures AbsorbAll(k, secret, p, data[..pos + len])
         == AbsorbAll(k, secret, AbsorbAll(k, secret, p, data[..pos]), data[pos..][..len])
  {
    hide *;
    assert data[..pos + len] == data[..pos] + data[pos..][..len];
    AbsorbConcat(k, secret, p, data[..pos], data[pos..][..len]);
  }

  /** The whole blocks of XXH3_hashLong_internal_loop. */
  method HashBlocks<A>(k: Kernel<A>, data: bytes, secret: bytes, blockLen: nat, nbBlocks: nat) returns (acc: A, pos: nat)
    requires |secret| >= SECRET_SIZE_MIN && |data| > STRIPE_LEN
    requires blockLen == STRIPE_LEN * StripesPerBlock(secret) && nbBlocks == (|data| - 1) / blockLen
    ensures pos == nbBlocks * blockLen && pos <= |data| && pos % STRIPE_LEN == 0
    ensures Progress(acc, 0) == AbsorbAll(k, secret, Progress(k.init, 0), data[..pos])
  {
    hide AbsorbAll, StripesPerBlock;
    var perBlock := StripesPerBlock(secret);
    ghost var start := Progress(k.init, 0);
    acc := k.init;
    var n := 0;
    pos := 0;
    AbsorbNone(k, secret, start, data);
    while n < nbBlocks
      invariant 0 <= n <= nbBlocks && pos == n * blockLen
      invariant pos <= |data| && pos % STRIPE_LEN == 0
      invariant Progress(acc, 0) == AbsorbAll(k, secret, start, data[..pos])
    {
      BlockFits(|data| - 1, perBlock, nbBlocks, n);
      AbsorbNext(k, secret, start, data, pos, blockLen);
      acc := AccumulateBlock(k, acc, data[pos..], secret, 0, perBlock);
      n, pos := n + 1, pos + blockLen;
    }
  }

  /** XXH3_hashLong_internal_loop up to the last stripe: whole blocks, then a partial one. */
  method HashBulk<A>(k: Kernel<A>, data: bytes, secret: bytes) returns (acc: A)
    requires |secret| >= SECRET_SIZE_MIN && |data| > STRIPE_LEN
    ensures acc == AbsorbAll(k, secret, Progress(k.init, 0), data[..BulkLength(|data|)]).acc
  {
    var nbStripesPerBlock := (|secret| - STRIPE_LEN) / CONSUME_RATE;
    assert nbStripesPerBlock == StripesPerBlock(secret);
    hide AbsorbAll, StripesPerBlock, BulkLength;
    var blockLen := STRIPE_LEN * nbStripesPerBlock;
    var nbBlocks := (|data| - 1) / blockLen;
    var pos;
    acc, pos := HashBlocks(k, data, secret, blockLen, nbBlocks);
    var nbStripes := ((|data| - 1) - blockLen * nbBlocks) / STRIPE_LEN;
    BlocksLeave(|data| - 1, nbStripesPerBlock, nbBlocks);
    AbsorbNext(k, secret, Progress(k.init, 0), data, pos, STRIPE_LEN * nbStripes);
    acc := AccumulatePart(k, acc, data[pos..], secret, 0, nbStripes);
  }

  lemma AbsorbNone<A>(k: Kernel<A>, secret: bytes, p: Progress<A>, data: bytes)
    requires InBlock(secret, p)
    ensures AbsorbAll(k, secret, p, data[..0]) == p
  {
  }

  lemma BlockFits(m: nat, perBlock: nat, nbBlocks: nat, n: nat)
    requires perBlock > 0 && nbBlocks == m / (STRIPE_LEN * perBlock) && n < nbBlocks
    ensures n * (STRIPE_LEN * perBlock) + STRIPE_LEN * perBlock <= m
    ensures (n + 1) * (STRIPE_LEN * perBlock) == n * (STRIPE_LEN * perBlock) + STRIPE_LEN * perBlock
    ensures (n * (STRIPE_LEN * perBlock) + STRIPE_LEN * perBlock) % STRIPE_LEN == 0
  {
    var b := STRIPE_LEN * perBlock;
    assert (n + 1) * b == n * b + b;
    assert (n + 1) * b <= nbBlocks * b <= m;
    assert n * b + b == STRIPE_LEN * ((n + 1) * perBlock);
  }

  /** What the blocks leave is fewer stripes than a block, and stops at the bulk length. */
  lemma BlocksLeave(m: nat, perBlock: nat, nbBlocks: nat)
    requires perBlock > 0 && nbBlocks == m / (STRIPE_LEN * perBlock)
    ensures var b := STRIPE_LEN * perBlock;
            && 0 <= m - b * nbBlocks && (m - b * nbBlocks) / STRIPE_LEN < perBlock
            && nbBlocks * b + STRIPE_LEN * ((m - b * nbBlocks) / STRIPE_LEN) == BulkLength(m + 1)
  {
    var b := STRIPE_LEN * perBlock;
    var q := perBlock * nbBlocks;
    assert b * nbBlocks == STRIPE_LEN * q == nbBlocks * b;
    assert m - b * nbBlocks == m % b;
  }

  /** XXH3_hashLong_64b_internal */
  method HashLong64<A>(k: Kernel<A>, data: bytes, secret: bytes) returns (h: u64)
    requires |secret| >= SECRET_SIZE_MIN && |data| > STRIPE_LEN
    ensures h == HashLong(k, secret, data)
  {
    var acc := HashBulk(k, data, secret);
    var p := data[|data| - STRIPE_LEN..];
    acc := k.accumulate(acc, p, secret[|secret| - STRIPE_LEN - LASTACC_START..][..STRIPE_LEN]);
    assert secret[|secret| - STRIPE_LEN - LASTACC_START..][..STRIPE_LEN]
        == secret[|secret| - STRIPE_LEN - LASTACC_START..|secret| - LASTACC_START];
    h := k.merge(acc, secret[MERGEACCS_START..MERGEACCS_START + STRIPE_LEN], |data|);
  }

  /** XXH3_64bits, XXH3_64bits_withSecret, _withSeed and _withSecretandSeed. */
  method Hash64<A>(k: Kernel<A>, m: Mode, data: bytes) returns (h: u64)
    requires k.Valid() && m.Valid()
    ensures h == OneShot(k, m, data)
  {
    hide HashLong;
    match m {
      case Default =>
        if |data| <= MIDSIZE_MAX { h := k.short(data, k.defaultSecret, 0); } else { h := HashLong64(k, data, k.defaultSecret); }
      case WithSecret(s) =>
        if |data| <= MIDSIZE_MAX { h := k.short(data, s, 0); } else { h := HashLong64(k, data, s); }
      case WithSeed(v) =>
        if |data| <= MIDSIZE_MAX {
          h := k.short(data, k.defaultSecret, v);
        } else {
          h := HashLong64(k, data, if v == 0 then k.defaultSecret else k.seededSecret(v));
        }
      case WithSecretAndSeed(s, v) =>
        if |data| <= MIDSIZE_MAX { h := k.short(data, k.defaultSecret, v); } else { h := HashLong64(k, data, s); }
    }
  }
}
