/**
 XXH3's streaming state: a 256-byte buffer in front of the accumulators. While fewer than
 64 bytes are buffered after something was hashed, the tail of the buffer still holds the
 end of the last hashed stripe, which the digest needs.
 */
module Xxh3Stream {
  import opened Prelude
  import opened Xxh3

  const BUFFER_SIZE := 256
  const BUFFER_STRIPES := 4

  /** memcpy into the buffer. */
  method Copy(dst: array<byte>, at: nat, src: bytes)
    requires at + |src| <= dst.Length
    modifies dst
    ensures dst[..] == old(dst[..at]) + src + old(dst[at + |src|..])
  {
    forall i | 0 <= i < |src| {
      dst[at + i] := src[i];
    }
  }

  /** XXH3_consumeStripes: at most one scramble per call. */
  method ConsumeStripes<A>(k: Kernel<A>, acc: A, soFar: nat, input: bytes, nbStripes: nat, secret: bytes)
    returns (r: A, soFar': nat)
    requires InBlock(secret, Progress(acc, soFar)) && nbStripes <= StripesPerBlock(secret)
    requires STRIPE_LEN * nbStripes <= |input|
    ensures Progress(r, soFar') == AbsorbAll(k, secret, Progress(acc, soFar), input[..STRIPE_LEN * nbStripes])
  {
    hide AbsorbAll;
    var nbStripesPerBlock := (|secret| - STRIPE_LEN) / CONSUME_RATE;
    if nbStripesPerBlock - soFar <= nbStripes {
      var toEnd := nbStripesPerBlock - soFar;
      var after := nbStripes - toEnd;
      AbsorbNext(k, secret, Progress(acc, soFar), input, STRIPE_LEN * toEnd, STRIPE_LEN * after);
      r := AccumulateBlock(k, acc, input, secret, soFar, toEnd);
      r := AccumulatePart(k, r, input[STRIPE_LEN * toEnd..], secret, 0, after);
      soFar' := after;
    } else {
      r := AccumulatePart(k, acc, input, secret, soFar, nbStripes);
      soFar' := soFar + nbStripes;
    }
  }

  /** size_t arithmetic. */
  function Wrap64(v: int): (r: u64)
    ensures 0 <= v < 0x1_0000_0000_0000_0000 ==> r == v
  {
    v % 0x1_0000_0000_0000_0000
  }

  class State<A> {
    var acc: A
    var customSecret: bytes
    var buffer: array<byte>
    var bufferedSize: nat
    var nbStripesSoFar: nat
    var totalLen: nat
    var nbStripesPerBlock: nat
    var secretLimit: nat
    var seed: u64
    var useSeed: bool
    var extSecret: Option<bytes>   // None for the null pointer

    const k: Kernel<A>
    ghost var mode: Mode
    ghost var input: bytes         // everything hashed since the reset

    /** What every reset may rely on: a seed is remembered only with its secret in place. */
    ghost predicate Resettable()
      reads `buffer, `extSecret, `seed, `customSecret
    {
      && k.Valid() && buffer.Length == BUFFER_SIZE
      && (extSecret == None && seed != 0 ==> customSecret == k.seededSecret(seed))
    }

    function Secret(): bytes
      reads `extSecret, `customSecret
    {
      if extSecret == None then customSecret else extSecret.value
    }

    ghost predicate MatchesMode()
      reads `mode, `extSecret, `seed, `useSeed, `customSecret
    {
      && mode.Valid()
      && match mode
         case Default => extSecret == Some(k.defaultSecret) && seed == 0 && !useSeed
         case WithSecret(s) => extSecret == Some(s) && seed == 0 && !useSeed
         case WithSeed(v) =>
           if v == 0 then extSecret == Some(k.defaultSecret) && seed == 0 && !useSeed
           else extSecret == None && customSecret == k.seededSecret(v) && seed == v && useSeed
         case WithSecretAndSeed(s, v) => extSecret == Some(s) && seed == v && useSeed
    }

    /** The part of the input that has gone into the accumulators. */
    ghost function Consumed(): bytes
      reads `input, `bufferedSize
      requires bufferedSize <= |input|
    {
      input[..|input| - bufferedSize]
    }

    ghost predicate AccumulatorsOk()
      reads `acc, `nbStripesSoFar, `input, `bufferedSize, `extSecret, `customSecret
    {
      && |Secret()| >= SECRET_SIZE_MIN && bufferedSize <= |input|
      && |Consumed()| % STRIPE_LEN == 0
      && Progress(acc, nbStripesSoFar) == AbsorbAll(k, Secret(), Progress(k.init, 0), Consumed())
    }

    ghost predicate BufferOk()
      reads `buffer, `bufferedSize, `input, buffer
    {
      && buffer.Length == BUFFER_SIZE && bufferedSize <= BUFFER_SIZE && bufferedSize <= |input|
      && buffer[..bufferedSize] == input[|input| - bufferedSize..]
    }

    /** The end of the last stripe hashed is still in the tail of the buffer, unless overwritten. */
    ghost predicate TailOk()
      reads `buffer, `bufferedSize, `input, buffer
      requires buffer.Length == BUFFER_SIZE && bufferedSize <= |input|
    {
      |Consumed()| >= STRIPE_LEN && bufferedSize <= BUFFER_SIZE - STRIPE_LEN ==>
        buffer[BUFFER_SIZE - STRIPE_LEN..] == Consumed()[|Consumed()| - STRIPE_LEN..]
    }

    /** The secret in use and the counters derived from it. */
    ghost predicate SetUp()
      reads `buffer, `extSecret, `seed, `customSecret, `mode, `useSeed, `secretLimit, `nbStripesPerBlock
    {
      && Resettable() && MatchesMode()
      && |Secret()| >= SECRET_SIZE_MIN && Secret() == LongSecret(k, mode)
      && secretLimit == |Secret()| - STRIPE_LEN && nbStripesPerBlock == StripesPerBlock(Secret())
    }

    /** The invariant inside an update. */
    ghost predicate Working()
      reads `acc, `nbStripesSoFar, `buffer, `bufferedSize, `input, `extSecret, `customSecret, `seed, `mode, `useSeed, `secretLimit,
            `nbStripesPerBlock, buffer
    {
      SetUp() && BufferOk() && AccumulatorsOk()
    }

    /** Between updates: some input is always held back once anything has been hashed. */
    ghost predicate Ready()
      reads `acc, `nbStripesSoFar, `buffer, `bufferedSize, `input, `extSecret, `customSecret, `seed, `mode, `useSeed, `secretLimit,
            `nbStripesPerBlock, buffer
    {
      && Working() && TailOk()
      && (Consumed() != [] ==> bufferedSize > 0 && |input| > BUFFER_SIZE)
    }

    ghost predicate Valid()
      reads this, buffer
    {
      Ready() && totalLen == |input|
    }

    /** XXH3_createState: only the seed is initialised. */
    constructor (k: Kernel<A>)
      requires k.Valid()
      ensures Resettable() && this.k == k && fresh(buffer)
    {
      this.k := k;
      acc := k.init;
      customSecret, extSecret := [], None;
      buffer := new byte[BUFFER_SIZE](_ => 0);
      seed, useSeed := 0, false;
      bufferedSize, nbStripesSoFar, totalLen, nbStripesPerBlock, secretLimit := 0, 0, 0, 0, 0;
      mode, input := Default, [];
    }

    /** XXH3_reset_internal */
    method ResetInternal(seed: u64, secret: Option<bytes>, secretSize: nat)
      modifies `acc, `bufferedSize, `nbStripesSoFar, `totalLen, `seed, `useSeed, `extSecret
      modifies `secretLimit, `nbStripesPerBlock, `input
      ensures Cleared() && this.seed == seed && useSeed == (seed != 0) && extSecret == secret
      ensures secretLimit == Wrap64(secretSize - STRIPE_LEN)
    {
      hide Wrap64;
      bufferedSize, nbStripesSoFar, totalLen := 0, 0, 0;
      acc := k.init;
      this.seed, useSeed, extSecret := seed, seed != 0, secret;
      secretLimit := Wrap64(secretSize - STRIPE_LEN);
      nbStripesPerBlock := secretLimit / CONSUME_RATE;
      input := [];
    }

    ghost predicate Cleared()
      reads `acc, `bufferedSize, `nbStripesSoFar, `totalLen, `input, `secretLimit, `nbStripesPerBlock
    {
      && acc == k.init && bufferedSize == 0 && nbStripesSoFar == 0 && totalLen == 0 && input == []
      && nbStripesPerBlock == secretLimit / CONSUME_RATE
    }

    lemma FreshIsValid()
      requires Resettable() && MatchesMode() && Cleared()
      requires |Secret()| >= SECRET_SIZE_MIN && Secret() == LongSecret(k, mode) && secretLimit == |Secret()| - STRIPE_LEN
      ensures Valid()
    {
      assert buffer[..bufferedSize] == [];
    }

    /** XXH3_64bits_reset, also what a zero seed resets to. */
    method ResetUnseeded(ghost m: Mode)
      requires Resettable() && (m == Default || m == WithSeed(0))
      modifies this
      ensures Valid() && mode == m && input == [] && buffer == old(buffer)
    {
      hide Wrap64, Valid;
      ResetInternal(0, Some(k.defaultSecret), SECRET_DEFAULT_SIZE);
      mode := m;
      FreshIsValid();
    }

    method Reset()
      requires Resettable()
      modifies this
      ensures Valid() && mode == Default && input == [] && buffer == old(buffer)
    {
      hide *;
      ResetUnseeded(Default);
    }

    /** XXH3_64bits_reset_withSecret: a bad secret is reported only after the reset. */
    method ResetWithSecret(secret: Option<bytes>) returns (ok: bool)
      requires Resettable() && (secret.Some? ==> |secret.value| < 0x1_0000_0000_0000_0000)
      modifies this
      ensures Resettable() && buffer == old(buffer)
      ensures ok <==> secret.Some? && |secret.value| >= SECRET_SIZE_MIN
      ensures ok ==> Valid() && mode == WithSecret(secret.value) && input == []
    {
      hide Wrap64, Valid;
      var size := if secret.Some? then |secret.value| else 0;
      ResetInternal(0, secret, size);
      if secret == None {
        return false;
      }
      if size < SECRET_SIZE_MIN {
        return false;
      }
      mode := WithSecret(secret.value);
      FreshIsValid();
      return true;
    }

    /** XXH3_64bits_reset_withSeed: the seeded secret is kept when the seed has not changed. */
    method ResetWithSeed(seed: u64)
      requires Resettable()
      modifies this
      ensures Valid() && mode == WithSeed(seed) && input == [] && buffer == old(buffer)
    {
      hide Wrap64, Valid;
      if seed == 0 {
        ResetUnseeded(WithSeed(0));
        return;
      }
      if seed != this.seed || extSecret != None {
        customSecret := k.seededSecret(seed);
      }
      ResetInternal(seed, None, SECRET_DEFAULT_SIZE);
      mode := WithSeed(seed);
      FreshIsValid();
    }

    /** XXH3_64bits_reset_withSecretandSeed */
    method ResetWithSecretAndSeed(secret: Option<bytes>, seed: u64) returns (ok: bool)
      requires Resettable() && (secret.Some? ==> |secret.value| < 0x1_0000_0000_0000_0000)
      modifies this
      ensures Resettable() && buffer == old(buffer)
      ensures ok <==> secret.Some? && |secret.value| >= SECRET_SIZE_MIN
      ensures ok ==> Valid() && mode == WithSecretAndSeed(secret.value, seed) && input == []
    {
      hide Wrap64, Valid;
      if secret == None {
        return false;
      }
      if |secret.value| < SECRET_SIZE_MIN {
        return false;
      }
      ResetInternal(seed, secret, |secret.value|);
      useSeed := true;
      mode := WithSecretAndSeed(secret.value, seed);
      FreshIsValid();
      return true;
    }

    /** Extends the hashed input by a run of stripes that the accumulators have just taken. */
    ghost method NoteConsumed(before: Progress<A>, chunk: bytes)
      requires |Secret()| >= SECRET_SIZE_MIN && bufferedSize == 0 && InBlock(Secret(), before)
      requires |input| % STRIPE_LEN == 0 && |chunk| % STRIPE_LEN == 0
      requires before == AbsorbAll(k, Secret(), Progress(k.init, 0), input)
      requires Progress(acc, nbStripesSoFar) == AbsorbAll(k, Secret(), before, chunk)
      modifies this`input
      ensures input == old(input) + chunk && AccumulatorsOk()
    {
      hide AbsorbAll;
      AbsorbConcat(k, Secret(), Progress(k.init, 0), input, chunk);
      input := input + chunk;
      assert Consumed() == input;
    }

    /** The hashed input ends in the 64 bytes before position `pos` of `data`. */
    static ghost predicate EndsAt(input: bytes, data: bytes, pos: nat)
    {
      STRIPE_LEN <= pos <= |data| && STRIPE_LEN <= |input| && input[|input| - STRIPE_LEN..] == data[pos - STRIPE_LEN..pos]
    }

    static lemma Advance(input: bytes, data: bytes, pos: nat, len: nat)
      requires pos + len <= |data| && (len >= STRIPE_LEN || (len == 0 && EndsAt(input, data, pos)))
      ensures data[pos..][..len] == data[pos..pos + len]
      ensures (input + data[pos..pos + len]) + data[pos + len..] == input + data[pos..]
      ensures EndsAt(input + data[pos..pos + len], data, pos + len)
    {
      var t := input + data[pos..pos + len];
      if len == 0 {
        assert t == input;
      } else {
        assert t[|t| - STRIPE_LEN..] == data[pos + len - STRIPE_LEN..pos + len];
      }
    }

    /** Takes one buffer's worth of stripes. */
    method TakeBuffer(data: bytes, pos: nat)
      requires SetUp() && AccumulatorsOk() && bufferedSize == 0 && pos + BUFFER_SIZE <= |data|
      modifies `acc, `nbStripesSoFar, `input
      ensures SetUp() && AccumulatorsOk() && EndsAt(input, data, pos + BUFFER_SIZE)
      ensures input + data[pos + BUFFER_SIZE..] == old(input) + data[pos..]
    {
      assert |Secret()| >= SECRET_SIZE_MIN && nbStripesPerBlock == StripesPerBlock(Secret());
      hide AbsorbAll, SetUp, EndsAt, StripesPerBlock;
      assert Consumed() == input;
      ghost var before := Progress(acc, nbStripesSoFar);
      acc, nbStripesSoFar := ConsumeStripes(k, acc, nbStripesSoFar, data[pos..], BUFFER_STRIPES, Secret());
      Advance(input, data, pos, BUFFER_SIZE);
      NoteConsumed(before, data[pos..pos + STRIPE_LEN * BUFFER_STRIPES]);
    }

    /** Takes stripes up to the end of the current block. */
    method TakeToEnd(data: bytes, pos: nat, nbStripes: nat)
      requires SetUp() && AccumulatorsOk() && bufferedSize == 0
      requires nbStripes > 0 && nbStripesSoFar + nbStripes == nbStripesPerBlock && pos + STRIPE_LEN * nbStripes <= |data|
      modifies `acc, `nbStripesSoFar, `input
      ensures SetUp() && AccumulatorsOk() && nbStripesSoFar == 0 && EndsAt(input, data, pos + STRIPE_LEN * nbStripes)
      ensures input + data[pos + STRIPE_LEN * nbStripes..] == old(input) + data[pos..]
    {
      assert |Secret()| >= SECRET_SIZE_MIN && nbStripesPerBlock == StripesPerBlock(Secret());
      hide AbsorbAll, SetUp, EndsAt, StripesPerBlock;
      assert Consumed() == input;
      ghost var before := Progress(acc, nbStripesSoFar);
      acc := AccumulateBlock(k, acc, data[pos..], Secret(), nbStripesSoFar, nbStripes);
      nbStripesSoFar := 0;
      Advance(input, data, pos, STRIPE_LEN * nbStripes);
      NoteConsumed(before, data[pos..pos + STRIPE_LEN * nbStripes]);
    }

    /** Takes fewer stripes than the current block still has room for. */
    method TakePart(data: bytes, pos: nat, nbStripes: nat)
      requires SetUp() && AccumulatorsOk() && bufferedSize == 0 && EndsAt(input, data, pos)
      requires nbStripesSoFar == 0 && nbStripes < nbStripesPerBlock && pos + STRIPE_LEN * nbStripes <= |data|
      modifies `acc, `nbStripesSoFar, `input
      ensures SetUp() && AccumulatorsOk() && EndsAt(input, data, pos + STRIPE_LEN * nbStripes)
      ensures input + data[pos + STRIPE_LEN * nbStripes..] == old(input) + data[pos..]
    {
      assert |Secret()| >= SECRET_SIZE_MIN && nbStripesPerBlock == StripesPerBlock(Secret());
      hide AbsorbAll, SetUp, EndsAt, StripesPerBlock;
      assert Consumed() == input;
      ghost var before := Progress(acc, nbStripesSoFar);
      acc := AccumulatePart(k, acc, data[pos..], Secret(), 0, nbStripes);
      nbStripesSoFar := nbStripes;
      Advance(input, data, pos, STRIPE_LEN * nbStripes);
      NoteConsumed(before, data[pos..pos + STRIPE_LEN * nbStripes]);
    }

    /** Keeps the end of the hashed input where a short remainder's digest will look for it. */
    method KeepTail(data: bytes, pos: nat)
      requires SetUp() && AccumulatorsOk() && BufferOk() && bufferedSize == 0 && EndsAt(input, data, pos)
      modifies buffer
      ensures Working() && TailOk()
    {
      hide AbsorbAll, SetUp, AccumulatorsOk;
      Copy(buffer, BUFFER_SIZE - STRIPE_LEN, data[pos - STRIPE_LEN..pos]);
      assert Consumed() == input;
    }

    /** The first step of an update too long for the buffer: fill a partial buffer and hash it. */
    method FillBuffer(data: bytes) returns (pos: nat)
      requires Ready() && bufferedSize + |data| > BUFFER_SIZE
      modifies `acc, `nbStripesSoFar, `bufferedSize, `input, buffer
      ensures Working() && bufferedSize == 0 && pos < |data| && TailOk()
      ensures input + data[pos..] == old(input) + data
    {
      hide AbsorbAll, SetUp;
      pos := 0;
      if bufferedSize > 0 {
        pos := BUFFER_SIZE - bufferedSize;
        Append(data[..pos]);
        Split(old(input), data, pos);
        HashBuffer();
      }
    }

    static lemma Split(a: bytes, data: bytes, pos: nat)
      requires pos <= |data|
      ensures (a + data[..pos]) + data[pos..] == a + data
    {
    }

    /** Hashes a full buffer. */
    method HashBuffer()
      requires Working() && bufferedSize == BUFFER_SIZE
      modifies `acc, `nbStripesSoFar, `bufferedSize, `input
      ensures Working() && bufferedSize == 0 && TailOk() && input == old(input)
    {
      hide AbsorbAll, SetUp;
      ghost var consumed := Consumed();
      bufferedSize := 0;
      input := consumed;
      assert Consumed() == consumed;
      assert AccumulatorsOk();
      hide AccumulatorsOk, EndsAt;
      var full := buffer[..];
      assert buffer[..BUFFER_SIZE] == full;
      assert old(input) == consumed + full;
      TakeBuffer(full, 0);
      NoRest(input, consumed, full);
      EmptyBuffer();
    }

    /** An empty buffer whose tail is the end of the input. */
    lemma EmptyBuffer()
      requires buffer.Length == BUFFER_SIZE && bufferedSize == 0 && EndsAt(input, buffer[..], BUFFER_SIZE)
      ensures BufferOk() && TailOk()
    {
      assert Consumed() == input;
      assert buffer[BUFFER_SIZE - STRIPE_LEN..] == buffer[..][BUFFER_SIZE - STRIPE_LEN..BUFFER_SIZE];
    }

    static lemma NoRest(input: bytes, consumed: bytes, full: bytes)
      requires |full| == BUFFER_SIZE && input + full[BUFFER_SIZE..] == consumed + full[0..]
      ensures input == consumed + full
    {
      assert full[BUFFER_SIZE..] == [] && full[0..] == full;
    }

    /** Whole blocks, as long as they leave at least one byte. */
    method TakeBlocks(data: bytes, from: nat, stripes: nat) returns (pos: nat, nbStripes: nat)
      requires SetUp() && AccumulatorsOk() && bufferedSize == 0 && nbStripesSoFar == 0 && nbStripesPerBlock > 0
      requires from + STRIPE_LEN * stripes < |data| <= from + STRIPE_LEN * stripes + STRIPE_LEN && EndsAt(input, data, from)
      modifies `acc, `nbStripesSoFar, `input
      ensures SetUp() && AccumulatorsOk() && nbStripesSoFar == 0 && nbStripes < nbStripesPerBlock
      ensures pos + STRIPE_LEN * nbStripes < |data| <= pos + STRIPE_LEN * nbStripes + STRIPE_LEN && EndsAt(input, data, pos)
      ensures from <= pos && input + data[pos..] == old(input) + data[from..]
    {
      hide AbsorbAll, SetUp, AccumulatorsOk, EndsAt;
      pos, nbStripes := from, stripes;
      while nbStripes >= nbStripesPerBlock
        invariant from <= pos
        invariant pos + STRIPE_LEN * nbStripes < |data| <= pos + STRIPE_LEN * nbStripes + STRIPE_LEN && EndsAt(input, data, pos)
        invariant SetUp() && AccumulatorsOk() && nbStripesSoFar == 0
        invariant input + data[pos..] == old(input) + data[from..]
        decreases nbStripes
      {
        TakeToEnd(data, pos, nbStripesPerBlock);
        pos := pos + nbStripesPerBlock * STRIPE_LEN;
        nbStripes := nbStripes - nbStripesPerBlock;
      }
    }

    /** Large input: to the end of the current block, whole blocks, then a partial block. */
    method ConsumeBlocks(data: bytes, from: nat) returns (pos: nat)
      requires SetUp() && AccumulatorsOk() && BufferOk() && bufferedSize == 0
      requires nbStripesSoFar < nbStripesPerBlock && |data| > from + nbStripesPerBlock * STRIPE_LEN
      modifies `acc, `nbStripesSoFar, `input, buffer
      ensures Working() && TailOk() && pos < |data| <= pos + STRIPE_LEN
      ensures input + data[pos..] == old(input) + data[from..]
    {
      hide AbsorbAll, SetUp, AccumulatorsOk, TailOk, EndsAt, Working;
      var nbStripes := (|data| - 1 - from) / STRIPE_LEN;
      var toEnd := nbStripesPerBlock - nbStripesSoFar;
      TakeToEnd(data, from, toEnd);
      pos, nbStripes := TakeBlocks(data, from + toEnd * STRIPE_LEN, nbStripes - toEnd);
      TakePart(data, pos, nbStripes);
      pos := pos + nbStripes * STRIPE_LEN;
      KeepTail(data, pos);
    }

    /** Input of at most a block: whole buffers straight from the input. */
    method ConsumeBuffers(data: bytes, from: nat) returns (pos: nat)
      requires SetUp() && AccumulatorsOk() && BufferOk() && bufferedSize == 0 && |data| > from + BUFFER_SIZE
      modifies `acc, `nbStripesSoFar, `input, buffer
      ensures Working() && TailOk() && pos < |data| <= pos + BUFFER_SIZE
      ensures input + data[pos..] == old(input) + data[from..]
    {
      hide AbsorbAll, SetUp, AccumulatorsOk, TailOk, EndsAt, Working;
      var limit := |data| - BUFFER_SIZE;
      TakeBuffer(data, from);
      pos := from + BUFFER_SIZE;
      while pos < limit
        invariant from <= pos < |data| && input + data[pos..] == old(input) + data[from..]
        invariant SetUp() && AccumulatorsOk() && EndsAt(input, data, pos)
      {
        TakeBuffer(data, pos);
        pos := pos + BUFFER_SIZE;
      }
      KeepTail(data, pos);
    }

    /** Buffers input that fits behind what is buffered already. */
    method Append(data: bytes)
      requires Working() && bufferedSize + |data| <= BUFFER_SIZE
      requires TailOk() || bufferedSize + |data| > BUFFER_SIZE - STRIPE_LEN
      modifies `bufferedSize, `input, buffer
      ensures Working() && TailOk() && Consumed() == old(Consumed())
      ensures bufferedSize == old(bufferedSize) + |data| && input == old(input) + data
    {
      hide AbsorbAll;
      ghost var consumed, tail := Consumed(), buffer[BUFFER_SIZE - STRIPE_LEN..];
      Copy(buffer, bufferedSize, data);
      bufferedSize := bufferedSize + |data|;
      input := input + data;
      assert Consumed() == consumed;
      assert bufferedSize <= BUFFER_SIZE - STRIPE_LEN ==> buffer[BUFFER_SIZE - STRIPE_LEN..] == tail;
    }

    /** Everything in an update too long for the buffer, up to the rest that is buffered. */
    method Consume(data: bytes) returns (pos: nat)
      requires Ready() && bufferedSize + |data| > BUFFER_SIZE
      modifies `acc, `nbStripesSoFar, `bufferedSize, `input, buffer
      ensures Working() && TailOk() && bufferedSize == 0 && pos < |data| <= pos + BUFFER_SIZE
      ensures input + data[pos..] == old(input) + data
    {
      hide AbsorbAll, Ready, SetUp, BufferOk, TailOk;
      pos := FillBuffer(data);
      CounterInBlock();
      if |data| - pos > nbStripesPerBlock * STRIPE_LEN {
        pos := ConsumeBlocks(data, pos);
      } else if |data| - pos > BUFFER_SIZE {
        pos := ConsumeBuffers(data, pos);
      }
    }

    lemma CounterInBlock()
      requires Working()
      ensures nbStripesSoFar < nbStripesPerBlock
    {
      hide AbsorbAll;
    }

    /** Input that fits the buffer. */
    method BufferAll(data: bytes)
      requires Ready() && bufferedSize + |data| <= BUFFER_SIZE
      modifies `bufferedSize, `input, buffer
      ensures Ready() && input == old(input) + data
    {
      hide Working, TailOk, AbsorbAll;
      Append(data);
    }

    /** Input that does not. */
    method ConsumeAll(data: bytes)
      requires Ready() && bufferedSize + |data| > BUFFER_SIZE
      modifies `acc, `nbStripesSoFar, `bufferedSize, `input, buffer
      ensures Ready() && input == old(input) + data
    {
      assert bufferedSize <= |input|;
      hide Working, TailOk, AbsorbAll;
      var pos := Consume(data);
      Append(data[pos..]);
    }

    /** XXH3_update */
    method Update(data: bytes)
      requires Valid()
      modifies this, buffer
      ensures Valid() && input == old(input) + data && mode == old(mode) && buffer == old(buffer)
    {
      hide Ready;
      totalLen := totalLen + |data|;
      if bufferedSize + |data| <= BUFFER_SIZE {
        BufferAll(data);
      } else {
        ConsumeAll(data);
      }
    }

    /** A remainder of at least a stripe: all but the last stripe goes in from the buffer. */
    method DigestBuffered() returns (r: A, lastStripe: bytes)
      requires Valid() && bufferedSize >= STRIPE_LEN
      ensures exists soFar :: Progress(r, soFar) == AbsorbAll(k, Secret(), Progress(k.init, 0), input[..BulkLength(|input|)])
      ensures lastStripe == input[|input| - STRIPE_LEN..]
    {
      hide AbsorbAll;
      var nbStripes := (bufferedSize - 1) / STRIPE_LEN;
      BulkPosition(|input|, bufferedSize);
      var soFar;
      r, soFar := ConsumeStripes(k, acc, nbStripesSoFar, buffer[..bufferedSize], nbStripes, Secret());
      BufferedSplit(input, bufferedSize, STRIPE_LEN * nbStripes);
      AbsorbConcat(k, Secret(), Progress(k.init, 0), Consumed(), buffer[..bufferedSize][..STRIPE_LEN * nbStripes]);
      lastStripe := buffer[bufferedSize - STRIPE_LEN..bufferedSize];
      assert lastStripe == buffer[..bufferedSize][bufferedSize - STRIPE_LEN..];
    }

    static lemma BufferedSplit(input: bytes, buffered: nat, len: nat)
      requires len <= buffered <= |input|
      ensures input[..|input| - buffered] + input[|input| - buffered..][..len] == input[..|input| - buffered + len]
    {
    }

    /** A shorter remainder: the last stripe starts with the end of the one before it. */
    method DigestTail() returns (lastStripe: bytes)
      requires Valid() && totalLen > MIDSIZE_MAX && bufferedSize < STRIPE_LEN
      ensures Progress(acc, nbStripesSoFar) == AbsorbAll(k, Secret(), Progress(k.init, 0), input[..BulkLength(|input|)])
      ensures lastStripe == input[|input| - STRIPE_LEN..]
    {
      hide AbsorbAll;
      BulkPosition(|input|, bufferedSize);
      var catchup := STRIPE_LEN - bufferedSize;
      lastStripe := buffer[BUFFER_SIZE - catchup..] + buffer[..bufferedSize];
      assert buffer[BUFFER_SIZE - catchup..] == buffer[BUFFER_SIZE - STRIPE_LEN..][bufferedSize..];
    }

    /** XXH3_digest_long: the accumulators with the last stripe in. */
    method DigestLong() returns (r: A)
      requires Valid() && totalLen > MIDSIZE_MAX
      ensures k.merge(r, Secret()[MERGEACCS_START..MERGEACCS_START + STRIPE_LEN], |input|) == HashLong(k, Secret(), input)
    {
      hide AbsorbAll;
      assert |Secret()| >= SECRET_SIZE_MIN && secretLimit == |Secret()| - STRIPE_LEN && totalLen == |input|;
      hide Valid;
      var lastStripe;
      if bufferedSize >= STRIPE_LEN {
        r, lastStripe := DigestBuffered();
      } else {
        r := acc;
        lastStripe := DigestTail();
      }
      r := k.accumulate(r, lastStripe, Secret()[secretLimit - LASTACC_START..secretLimit - LASTACC_START + STRIPE_LEN]);
    }

    /** XXH3_64bits_digest: the hash of everything fed in since the reset. */
    method Digest() returns (h: u64)
      requires Valid()
      ensures h == OneShot(k, mode, input)
    {
      hide HashLong, AbsorbAll;
      if totalLen > MIDSIZE_MAX {
        var r := DigestLong();
        h := k.merge(r, Secret()[MERGEACCS_START..MERGEACCS_START + STRIPE_LEN], totalLen);
      } else if useSeed {
        assert buffer[..totalLen] == input;
        h := k.short(buffer[..totalLen], k.defaultSecret, seed);
      } else {
        assert buffer[..totalLen] == input;
        assert Secret()[..secretLimit + STRIPE_LEN] == Secret();
        h := k.short(buffer[..totalLen], Secret()[..secretLimit + STRIPE_LEN], 0);
      }
    }
  }

  /** Where the bulk of the input ends, seen from the buffer. */
  lemma BulkPosition(len: nat, buffered: nat)
    requires 0 < buffered <= len && (len - buffered) % STRIPE_LEN == 0
    ensures BulkLength(len) == len - buffered + STRIPE_LEN * ((buffered - 1) / STRIPE_LEN)
    ensures buffered < STRIPE_LEN ==> BulkLength(len) == len - buffered
  {
  }

  function Flatten(chunks: seq<bytes>): bytes
  {
    if chunks == [] then [] else Flatten(chunks[..|chunks| - 1]) + chunks[|chunks| - 1]
  }

  /**
   Streaming agrees with the one-shot hash for every way of cutting the input, every kind of
   reset and every kernel.
   */
  method HashChunks<A>(k: Kernel<A>, mode: Mode, chunks: seq<bytes>) returns (h: u64)
    requires k.Valid() && mode.Valid() && mode.Sized()
    ensures h == OneShot(k, mode, Flatten(chunks))
  {
    hide *;
    var s := NewState(k, mode);
    var i := 0;
    FlattenStep(chunks, 0);
    while i < |chunks|
      invariant 0 <= i <= |chunks| && fresh(s) && fresh(s.buffer)
      invariant s.Valid() && s.k == k && s.mode == mode && s.input == Flatten(chunks[..i])
    {
      FlattenStep(chunks, i);
      s.Update(chunks[i]);
      i := i + 1;
    }
    assert chunks[..i] == chunks;
    h := s.Digest();
  }

  method NewState<A>(k: Kernel<A>, mode: Mode) returns (s: State<A>)
    requires k.Valid() && mode.Valid() && mode.Sized()
    ensures fresh(s) && fresh(s.buffer) && s.Valid() && s.k == k && s.mode == mode && s.input == []
  {
    hide State.Valid, State.Resettable;
    s := new State(k);
    match mode {
      case Default => s.Reset();
      case WithSecret(secret) => var ok := s.ResetWithSecret(Some(secret));
      case WithSeed(seed) => s.ResetWithSeed(seed);
      case WithSecretAndSeed(secret, seed) => var ok := s.ResetWithSecretAndSeed(Some(secret), seed);
    }
  }

  lemma FlattenStep(chunks: seq<bytes>, i: nat)
    requires i <= |chunks|
    ensures i == 0 ==> Flatten(chunks[..i]) == []
    ensures i < |chunks| ==> Flatten(chunks[..i + 1]) == Flatten(chunks[..i]) + chunks[i]
  {
    if i < |chunks| {
      assert chunks[..i + 1][..i] == chunks[..i];
    }
  }
}
