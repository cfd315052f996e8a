# Verified models of Kintsuki's in-memory algorithms

These Dafny modules model the algorithms of the Kintsuki front end that other code relies on
without looking, and prove what callers expect of them on every input or in every run.

* **PNG, TGA and HDR writing** (`Bits`, `BitWriter`, `Lz77`, `DeflateCodes`, `ZlibBlock`,
  `ZlibStored`, `ZlibCompress`, `Adler32`, `PngFilter`, `PngWriter`, `TgaRle`, `HdrRle`). `Inflate`
  is a reader written from RFC 1950 and RFC 1951, `PngFilter` holds one for section 6 of RFC 2083;
  the writers are proved to be undone by them. The one exception is empty input, for which the
  compressor writes a stream without a block; `ZlibCompress.Compress` states it as an equivalence.
* **XXH3 streaming** (`Xxh3`, `Xxh3Stream`). The 256-byte buffer, the stripe and block counters
  and the predecessor stripe in the buffer tail, against the one-shot hash. The round, scramble,
  merge and short-input arithmetic is a parameter, so the result holds for any of it.
* **Shadow call stacks and the profiler** (`ShadowStacks`, `StackLaws`, `ProfilerLaws`,
  `ProfilerTime`, `CallHistory`, `Profiler`). A state machine over calls, returns, stack switches and profile
  windows, with a ghost ledger of live time, tied to true time as long as events read the counter
  once a wrap; `CallHistory` tells stacks and profile from the events alone and proves that every run
  shows just that; the class `Profiler` holds the globals and refines the machine step by step.
* **The DMA log and callback dispatch** (`DmaLog`, `PageDispatch`). An array shifted in place
  against a most-recently-used list, and page counters in front of a callback scan. The counters
  saturate at 255; `PageDispatch.FilterIsExact` says for every run of any ranges exactly when an
  access loses a callback to that or to a range that marks too little, and
  `PageDispatch.SaturatedMisses` and `HalfIsUnmarked` are runs that do.
* **The audio ring** (`AudioRing`, `AudioFlush`). Every load, slot access and store of a push, a
  read and a flush is a step of its own. `AudioRing` keeps flushes out of reads; `AudioFlush`
  lets them fall anywhere and proves exactly when that is safe, and when the flush is undone.
* **Saved states** (`ByteOrder`, `Kssf`, `StateBlob`). The KSSF footer's writer and parser, and the
  SRAM fitted on load. The parser's sums are 32 bits wide: a length that wraps them can make it
  accept bytes that are no layout, or loop for ever (`Kssf.WrapAccepted`, `Kssf.WrapEndless`);
  `Kssf.ValidIffLayout` and `Kssf.NoWrapEnds` hold wherever none does. A recorded SRAM length of
  zero, or an expected size given by the caller, makes the two ways of loading differ;
  `StateBlob.RemapIsFit` gives the exact condition for every expected size. A cart without SRAM
  saves no footer, and a state that then happens to end like one is cut on loading
  (`StateBlob.SavedLoadsAsSaved`, `StateBlob.FootedLookalikeIsCut`).
* **IPS patches** (`IpsPatch`). A validating pass and an applying pass that tests nothing.
* **Perfetto traces** (`ByteOrder`, `Protobuf`, `TraceReader`, `PerfettoTrace`, `TraceRun`). The
  writer's files are read back with an independent protobuf reader, names resolved as they come.
  Tracks declared while no file is open wait for the next one with their old ids, which can
  collide with new ones (`TraceRun.WaitingTrackCollides`); `TraceRun.IdsDistinctIff` says exactly when.
* **The project store** (`Text`, `ProjectTables`, `ProjectStore`, `ProjectLaws`,
  `ProjectEffects`, `ProjectObject`). Five tables, their dirty flags, and the text files they are kept in, with writes that may fail. Recording no
  flags at a label that has only a comment drops it without setting the dirty flag. The function
  file cannot hold the exit kind 2 that every `RTI` records
  (ares/ares/component/processor/wdc65816/instructions-pc.cpp:128, noted at
  target-kintsuki/libkintsuki.cpp:477): it is written as 2 (target-kintsuki/project.cpp:414) and
  read as 0 (project.cpp:300-303). `ProjectStore.ConsistentUnlessForgotten` proves that these two
  are all that keeps a clear flag from being true, `ProjectStore.SavedReopensExactly` that, over
  every run, a successful save reopens as memory exactly when no such exit was noted and no label
  was dropped so since the label flag was last set. The only caller of
  `record_entry_flags` passes flags of 0 and 1 (target-kintsuki/libkintsuki.cpp:457).

Where the source changes state in place there is a class or an array method, proved against a
pure function of the old state; the laws are lemmas about that function. Many small lemmas hide
the functions they do not need, which keeps each proof quick.

## Model

| member | source | states |
|---|---|---|
| BitWriter.BitReverse | target-kintsuki/stb_image_write.h:849-857 | the reversed code, written low bit first, is the code word written high bit first |
| BitWriter.Writer.Push | target-kintsuki/stb_image_write.h:818-837 | appends one byte; there is always room left afterwards and the allocation never shrinks |
| BitWriter.Writer.Flush | target-kintsuki/stb_image_write.h:839-847 | moves whole bytes out of the bit buffer; the stream of all bits written so far does not change |
| BitWriter.Writer.Add | target-kintsuki/stb_image_write.h:880-881 | appends exactly the low bits of the code to the bit stream; the shifted code never leaves 32 bits |
| BitWriter.Writer.AddSymbol | target-kintsuki/stb_image_write.h:884-889 | appends the fixed code word of a literal/length symbol as section 3.2.6 of RFC 1951 defines it |
| Lz77.CountMatch | target-kintsuki/stb_image_write.h:859-865 | the longest common prefix within the limit and 258 bytes, and no longer match exists |
| Lz77.FindMatch | target-kintsuki/stb_image_write.h:924-933 | a match of 3 to 258 bytes at distance 1 to 32767, none longer in the bucket; none reported exactly when no three bytes match |
| Lz77.Remember | target-kintsuki/stb_image_write.h:934-939 | a full bucket drops its older half; buckets hold earlier positions only and never more than twice the quality |
| Lz77.BetterNext | target-kintsuki/stb_image_write.h:941-955 | says exactly whether the next byte has a longer match in its bucket |
| Lz77.ChooseMatch | target-kintsuki/stb_image_write.h:923-955 | the match finally used is longest at this byte and not beaten at the next one; a match is refused only for a longer one there |
| DeflateCodes.WriteMatch | target-kintsuki/stb_image_write.h:957-966 | the bits written make a reader copy exactly the match, for every length 3 to 258 and distance 1 to 32767 |
| ZlibBlock.WriteMatches | target-kintsuki/stb_image_write.h:921-971 | invariant of the match loop: what is written decodes to the input consumed so far |
| ZlibBlock.Pad | target-kintsuki/stb_image_write.h:976-978 | fewer than eight bits, all zero, up to a byte boundary |
| ZlibBlock.WriteBlock | target-kintsuki/stb_image_write.h:913-978 | the buffer is the zlib header and one final fixed-Huffman block that decodes to the whole input |
| ZlibBlock.BlockReadsBack | target-kintsuki/stb_image_write.h:913-978 | an independent reader of section 3.2 of RFC 1951 turns that block, whatever follows it, back into the input |
| ZlibStored.Store | target-kintsuki/stb_image_write.h:984-999 | rewrites the buffer as stored blocks; the result is no longer than the bound and every unchecked copy fits the allocation |
| ZlibStored.StoredReadsBack | target-kintsuki/stb_image_write.h:984-999 | stored blocks with their length complements read back as the data |
| Adler32.AddBlock | target-kintsuki/stb_image_write.h:1007-1008 | unreduced 32-bit sums over at most 5552 bytes equal the per-byte-modulo sums and never wrap |
| Adler32.Deferred | target-kintsuki/stb_image_write.h:1001-1016 | the deferred sums equal the definition of section 2.2 of RFC 1950 for every input; the loop ends although its first block may be empty |
| ZlibCompress.Compress | target-kintsuki/stb_image_write.h:896-1016 | for every input and quality: reading the zlib stream gives the input back if and only if the input is not empty; the size bound of the fallback holds |
| ZlibCompress.EmptyStreamIsNoStream | target-kintsuki/stb_image_write.h:984-999 | the stream written for empty input holds no block and no reader accepts it |
| PngFilter.Paeth | target-kintsuki/stb_image_write.h:1083-1089 | one of the three neighbours, none nearer to left + up - upper left; equal distances go to the left one, then the upper one |
| PngFilter.EncodeLine | target-kintsuki/stb_image_write.h:1092-1126 | for strides of either sign the line buffer holds the residues the standard defines for the recorded filter, first-row remapping included |
| PngFilter.ChooseFilter | target-kintsuki/stb_image_write.h:1151-1169 | the first of the five filters with the least sum of absolute residues, and its residues in the buffer, as long as no such sum leaves an int |
| PngFilter.NarrowSumsFit | target-kintsuki/stb_image_write.h:1157-1161 | no row of up to 16777215 bytes has such a sum |
| PngFilter.FilterImage | target-kintsuki/stb_image_write.h:1140-1173 | every row is preceded by its filter, forced or best, and followed by the matching residues |
| PngFilter.UnfilterEncoded | target-kintsuki/stb_image_write.h:1092-1173 | a reader of section 6 of RFC 2083 recovers every row from any choice of filters |
| PngWriter.ImageData | target-kintsuki/stb_image_write.h:1128-1175 | inflating the image data and undoing its filters gives exactly y rows; from the top down they are the image’s rows from the first pixel on, a stride apart, or the last one first when flipping is on |
| PngWriter.RowsAreTheImages | target-kintsuki/stb_image_write.h:1097-1101 | row k of the decoded image is the x * n bytes at first + stride * k, or at first + stride * (y - 1 - k) when flipped, a stride of zero leaving no gaps |
| PngWriter.PackedIsItsPixels | target-kintsuki/stb_image_write.h:1097-1136 | the rows of an image without gaps, not flipped, are its pixels in order |
| TgaRle.NextPacket | target-kintsuki/stb_image_write.h:564-591 | where a packet ends: runs are maximal up to 128, a raw packet stops with the first pixel that comes again two places later |
| TgaRle.EncodeRow | target-kintsuki/stb_image_write.h:563-604 | the row is covered exactly once by packets of 1 to 128 pixels |
| TgaRle.ReadRowBack | target-kintsuki/stb_image_write.h:563-604 | a TGA decoder reads the packets back as the row and stops where the next row starts |
| TgaRle.WriteTga | target-kintsuki/stb_image_write.h:532-609 | decoding the file with a reader that knows image types, alpha bits and the order of colours gives the image back, turned upside down when flipping is on, if and only if both dimensions are below 65536 |
| HdrRle.FirstRun | target-kintsuki/stb_image_write.h:728-735 | the first place where three equal bytes follow each other |
| HdrRle.EncodeComponent | target-kintsuki/stb_image_write.h:725-756 | a component is covered exactly once by dumps of 1 to 128 and runs of 1 to 127 bytes |
| HdrRle.ComponentReadsBack | target-kintsuki/stb_image_write.h:725-756 | an RLE decoder reads those packets back as the component and takes no byte more |
| HdrRle.WriteScanline | target-kintsuki/stb_image_write.h:672-759 | for every width, flat or run-length encoded, the scanline reads back as its pixels |
| Xxh3.Accumulate | ares/thirdparty/xxhash.h:4826-4841 | stripes taken with consecutive keys |
| Xxh3.PlainInside | ares/thirdparty/xxhash.h:4826-4841 | a run of stripes that stays inside a block is stripe-by-stripe absorption |
| Xxh3.PlainToEnd | ares/thirdparty/xxhash.h:4858-4861 | a run that ends with its block, followed by a scramble, is too |
| Xxh3.AbsorbConcat | ares/thirdparty/xxhash.h:4843-4874 | absorption of stripes does not depend on where the input is cut |
| Xxh3.HashBlocks | ares/thirdparty/xxhash.h:4843-4861 | the whole blocks absorb a prefix of the input and end on a scramble |
| Xxh3.HashBulk | ares/thirdparty/xxhash.h:4843-4867 | the block loop absorbs all stripes before the last one, in order |
| Xxh3.HashLong64 | ares/thirdparty/xxhash.h:4914-4930 | the long hash for every secret of at least 136 bytes and every input above 64 |
| Xxh3.Hash64 | ares/thirdparty/xxhash.h:5006-5057 | the four one-shot entry points, by length and mode |
| Xxh3.OneShotIs | ares/thirdparty/xxhash.h:4843-4930 | by position and in numbers: which 64 bytes of input meet which 64 of the secret, when accumulators are scrambled, what is merged, and which secret and seed short and long inputs get in each mode |
| Xxh3.AbsorbedByPlace | ares/thirdparty/xxhash.h:4843-4874 | the accumulators after n stripes by position, against absorption one stripe after the other |
| Xxh3Stream.ConsumeStripes | ares/thirdparty/xxhash.h:5224-5251 | absorbs the stripes with at most one scramble, wherever the block ends |
| Xxh3Stream.State.constructor | ares/thirdparty/xxhash.h:5127-5134 | a created state can be reset |
| Xxh3Stream.State.ResetInternal | ares/thirdparty/xxhash.h:5150-5175 | clears the counters and sets seed, secret and limits |
| Xxh3Stream.State.Reset | ares/thirdparty/xxhash.h:5177-5184 | a valid state with no input |
| Xxh3Stream.State.ResetWithSecret | ares/thirdparty/xxhash.h:5186-5195 | fails exactly for a missing or short secret, otherwise a valid state with no input |
| Xxh3Stream.State.ResetWithSeed | ares/thirdparty/xxhash.h:5197-5207 | a valid state with the seeded secret in place, also when the old one is kept |
| Xxh3Stream.State.ResetWithSecretAndSeed | ares/thirdparty/xxhash.h:5209-5219 | fails exactly for a missing or short secret, otherwise a valid state for both |
| Xxh3Stream.State.ConsumeBlocks | ares/thirdparty/xxhash.h:5310-5337 | the large-input branch keeps accumulators, counters and the predecessor stripe of everything absorbed |
| Xxh3Stream.State.ConsumeBuffers | ares/thirdparty/xxhash.h:5338-5354 | the other branch keeps them too |
| Xxh3Stream.State.Update | ares/thirdparty/xxhash.h:5256-5369 | the state stands for its old input with the new one appended, whatever the lengths |
| Xxh3Stream.State.DigestLong | ares/thirdparty/xxhash.h:5380-5412 | the digest of a long input is the one-shot hash of it, with the last stripe rebuilt from the buffer tail when needed |
| Xxh3Stream.State.Digest | ares/thirdparty/xxhash.h:5414-5430 | the digest is the one-shot hash of everything fed in, and leaves the state alone |
| Xxh3Stream.HashChunks | ares/thirdparty/xxhash.h:5177-5430 | for every reset mode and every cutting of an input into updates, streaming equals the one-shot hash of the concatenation |
| ShadowStacks.BestOf | target-kintsuki/libkintsuki.cpp:216-224 | the parked stack with the smallest gap in 0 to 128, the first among equals |
| ShadowStacks.OnCall | target-kintsuki/libkintsuki.cpp:438-448 | pushes the frame, and a profiler frame while the profiler is on; past 256 call frames the oldest is forgotten; parked stacks stay |
| ShadowStacks.OnSwitch | target-kintsuki/libkintsuki.cpp:214-246 | keeps stacks well formed, so only stacks with call frames are ever parked; which stack resumes, as what, is said by StacksAreThreads over runs |
| Profiler.Profiler.MasterCycles | target-kintsuki/libkintsuki.cpp:145-152 | the widened clock is one sample step |
| Profiler.Profiler.ProfileOnCall | target-kintsuki/libkintsuki.cpp:154-163 | refines the profiler part of a call |
| Profiler.Profiler.ProfileOnReturn | target-kintsuki/libkintsuki.cpp:165-184 | refines the profiler part of a return; what that adds up to is said by ProfileIsTally over runs |
| Profiler.Profiler.CallHook | target-kintsuki/libkintsuki.cpp:438-448 | refines a call step |
| Profiler.Profiler.ReturnHook | target-kintsuki/libkintsuki.cpp:463-470 | refines a return step |
| Profiler.Profiler.FindParked | target-kintsuki/libkintsuki.cpp:216-224 | the scan finds the stack the specification names |
| Profiler.Profiler.SwitchShadowStack | target-kintsuki/libkintsuki.cpp:214-246 | refines a stack switch, shifted clocks included; what that leaves is said by StacksAreThreads over runs |
| Profiler.Profiler.ClearShadowStacks | target-kintsuki/libkintsuki.cpp:250-255 | refines clearing the stacks |
| Profiler.Profiler.ClearProfileFrames | target-kintsuki/libkintsuki.cpp:259-262 | refines dropping all profiler frames |
| Profiler.Profiler.ProfileStart | target-kintsuki/libkintsuki.cpp:2044-2054 | refines starting a profile window |
| Profiler.Profiler.ProfileStop | target-kintsuki/libkintsuki.cpp:2056-2067 | refines stopping it |
| Profiler.Profiler.ProfileReset | target-kintsuki/libkintsuki.cpp:2069-2073 | refines resetting it |
| ProfilerLaws.NestedStep | target-kintsuki/libkintsuki.cpp:154-262 | every event keeps each frame started after its caller and its children disjoint in time |
| ProfilerLaws.LiveTimesStep | target-kintsuki/libkintsuki.cpp:182-246 | every event keeps push clocks equal to the time the frame’s own stack was live: parked time is never charged |
| ProfilerLaws.BalancedStep | target-kintsuki/libkintsuki.cpp:154-262 | every event keeps the books of exclusive, child, root, filtered and lost time balanced |
| ProfilerLaws.Conservation | target-kintsuki/libkintsuki.cpp:154-262 | over every run: exclusive cycles of all buckets and filtered ones equal completed root time plus child time held or lost |
| ProfilerLaws.UnfilteredConservation | target-kintsuki/libkintsuki.cpp:154-262 | the same with nothing filtered when no start sets a range |
| ProfilerLaws.ReturnRecordsLiveTime | target-kintsuki/libkintsuki.cpp:165-184 | in every reachable state a return adds one call, the live time since the call on the widened clock and the same less its callees’ to the routine’s bucket, moves the extremes by the former alone, charges the caller with it and leaves every other bucket |
| ProfilerLaws.WideningIsExact | target-kintsuki/libkintsuki.cpp:145-152 | the widened clock is right if and only if less than a full wrap has passed since the last sample |
| ProfilerLaws.SampledOncePerWrap | target-kintsuki/libkintsuki.cpp:145-152 | a list of readings at least once a wrap leaves the widened clock at the last true time |
| ProfilerTime.ClockIsTrue | target-kintsuki/libkintsuki.cpp:145-152 | in every run whose events read the counter at least once a wrap, the clock shows the true time of the last event that read it |
| ProfilerTime.LivedLags | target-kintsuki/libkintsuki.cpp:154-246 | in such a run the live times on the clock lag behind the true ones by the time since the last reading, and parked ones do not |
| ProfilerTime.ReturnRecordsTrueTime | target-kintsuki/libkintsuki.cpp:165-184 | in such a run these are the true time for which the frame’s own stack was live, and that less its callees’ |
| StackLaws.AlignedStep | target-kintsuki/libkintsuki.cpp:154-262 | every event keeps call frames and profiler frames of every stack naming the same routines from the top down, and no profiler frame while the profiler is off |
| StackLaws.ReturnChargesReturningRoutine | target-kintsuki/libkintsuki.cpp:463-470 | in every run a return is charged to the routine whose call frame it pops, however frames were forgotten, parked or cleared |
| StackLaws.ShadowIsTop | target-kintsuki/libkintsuki.cpp:438-470 | without switches the shadow stack is the top of the true call stack, and all of it while that is never deeper than 256 |
| CallHistory.RunShowsHistory | target-kintsuki/libkintsuki.cpp:154-262 | every run of any events shows the history told from the events alone: live and parked stacks with their calls, profiled calls with the time their stack ran and their callees took, and the completed visits since the last start or reset |
| CallHistory.ProfileIsTally | target-kintsuki/libkintsuki.cpp:165-184 | over every run: a routine has a bucket exactly when it has completed visits in the window; calls is their number, incl and excl the sums of their live times and of those less callees, max and min attained extremes |
| CallHistory.StacksAreThreads | target-kintsuki/libkintsuki.cpp:214-246 | over every run, through any switches: the live and each parked stack hold exactly the calls of their thread, a resumed thread those it was parked with; the parked one is the live one, the others stay in order, and past 64 the oldest goes |
| CallHistory.VisitsTakeTrueTime | target-kintsuki/libkintsuki.cpp:145-184 | in a run whose events read the counter at least once a wrap, a completed visit took the true time its stack was live |
| DmaLog.Log.Record | target-kintsuki/libkintsuki.cpp:2235-2263 | one transfer on the shifted array is one move-to-front or insert-and-evict step of the list |
| DmaLog.Log.Clear | target-kintsuki/libkintsuki.cpp:2337-2340 | empties the log |
| DmaLog.LogIsMostRecent | target-kintsuki/libkintsuki.cpp:2235-2263 | over every run the log lists the 64 most recent distinct keys, latest first |
| DmaLog.RecentByLastTime | target-kintsuki/libkintsuki.cpp:2182-2187 | that order is by last occurrence, over exactly the keys seen |
| DmaLog.LogIsDistinct | target-kintsuki/libkintsuki.cpp:2235-2263 | keys stay distinct, at most 64 |
| DmaLog.NewestFirst | target-kintsuki/libkintsuki.cpp:2235-2263 | frames never increase down the log when frame numbers never decrease |
| DmaLog.HitsAreConserved | target-kintsuki/libkintsuki.cpp:2235-2263 | hits in the log and hits evicted add up to the transfers since the clear, modulo 2^32 |
| DmaLog.HitsAreExact | target-kintsuki/libkintsuki.cpp:2235-2263 | up to 64 distinct transfers every hit count is the number of that transfer, modulo 2^32 |
| DmaLog.EntriesTell | target-kintsuki/libkintsuki.cpp:2235-2263 | over every run of any length: an entry has channel, direction and mode of the transfer that brought its key in, counts that and all later ones of the key modulo 2^32, and carries the frame of the last; the key has been among the latest 64 since and was not before |
| DmaLog.RecordAll | target-kintsuki/libkintsuki.cpp:2235-2263 | the array after any sequence of transfers is the list of the run |
| PageDispatch.Dispatch.Mark | target-kintsuki/libkintsuki.cpp:1270-1280 | moves the saturating counter of every page of the range by one and no other |
| PageDispatch.Dispatch.AddCallback | target-kintsuki/libkintsuki.cpp:1509-1522 | appends an active callback and marks its pages |
| PageDispatch.Dispatch.RemoveCallback | target-kintsuki/libkintsuki.cpp:1524-1535 | deactivates a known active callback and unmarks its pages; any other id changes nothing |
| PageDispatch.Dispatch.OnAccess | target-kintsuki/libkintsuki.cpp:1282-1331 | behind the page test: calls in list order exactly the active callbacks whose range holds the address, raising a halt if one asks |
| PageDispatch.CounterIsCovering | target-kintsuki/libkintsuki.cpp:1270-1280 | while a page never has more than 255 active ranges its counter is their number |
| PageDispatch.CounterIsZeroIff | target-kintsuki/libkintsuki.cpp:1270-1280 | for every run of any ranges: the counter of a page is zero if and only if the page has no active range, or once had 255 more than now and never fewer since |
| PageDispatch.FilterIsExact | target-kintsuki/libkintsuki.cpp:1282-1331 | for every run of any ranges and every address: access calls exactly what a plain scan calls, if and only if no active range holds the address or that is not so of its page |
| PageDispatch.MarksWhatItReachesIff | target-kintsuki/libkintsuki.cpp:1270-1273 | a range marks every 24-bit page it reaches if and only if it does not cross 2^24, or its masked high end is in the last page |
| PageDispatch.OnlySaturationLoses | target-kintsuki/libkintsuki.cpp:1270-1331 | where every range does, callbacks are lost if and only if an active range holds the address and its page once had 255 more active ranges than now and never fewer since |
| PageDispatch.HalfIsUnmarked | target-kintsuki/libkintsuki.cpp:1270-1273 | the range 0x800000 to 0x1000000 marks no page: no address of the upper half is called |
| PageDispatch.UncrowdedIsReached | target-kintsuki/libkintsuki.cpp:1270-1280 | a page that never has more than 255 active ranges meets it |
| PageDispatch.CounterLags | target-kintsuki/libkintsuki.cpp:1270-1280 | under the same condition the counter is the number of active ranges less what their peak exceeded 255 by |
| PageDispatch.IndexIsTruthful | target-kintsuki/libkintsuki.cpp:1270-1280 | for every run: a zero counter always means no active range if and only if after every step there is none or the peak is less than 255 above their number |
| PageDispatch.FilterIsExactIff | target-kintsuki/libkintsuki.cpp:1282-1331 | for every page and every run of ranges in order below 2^24: access calls exactly what a plain scan calls after every step, if and only if that holds |
| PageDispatch.Replay | target-kintsuki/libkintsuki.cpp:1500-1535 | after any registrations and removals of any ranges, access through the index calls what a plain scan calls, or nothing where the counter is zero by CounterIsZeroIff |
| PageDispatch.SaturatedMisses | target-kintsuki/libkintsuki.cpp:1274-1279 | a witness of the loss: of n equal ranges with k removed, the rest is reached if and only if k < 255 |
| AudioRing.InvStep | target-kintsuki/program.cpp:133-174 | each load, slot access and store keeps the ring invariant, a flush outside reads included |
| AudioRing.EveryStateIsLawful | target-kintsuki/program.cpp:133-174 | so every interleaving does in which no flush meets a read |
| AudioRing.NoSharedSlot | target-kintsuki/program.cpp:139-156 | in those the slot being written is never the slot being read |
| AudioRing.TrueDepth | target-kintsuki/program.cpp:133-165 | the difference of the wrapping indices is the true depth, 0 to 8192 |
| AudioRing.AvailableInRangeIff | target-kintsuki/program.cpp:161-165 | of the two loads: the emulator’s and the audio thread see a depth of 0 to 8192; a third thread does if and only if no more was taken at its second load than accepted at its first, unless it sleeps for 2^32 - 8192 frames |
| AudioRing.ThirdThreadSeesTooMany | target-kintsuki/program.cpp:161-165 | a third thread can see 2^32 - 1 |
| AudioRing.OutputIsAcceptedStream | target-kintsuki/program.cpp:146-159 | what the host reads is the accepted stream since the last flush, in order without gaps; a prefix of it if never flushed |
| AudioFlush.StartIsSound | target-kintsuki/program.cpp:133-174 | the idle ring is sound |
| AudioFlush.SoundStep | target-kintsuki/program.cpp:133-174 | with flushes anywhere: each step keeps the state sound, a flush’s store if it is harmless |
| AudioFlush.HarmlessRunNeverShares | target-kintsuki/program.cpp:133-174 | in every interleaving whose flushes store harmlessly no slot is written and read at once |
| AudioFlush.HarmfulStoreShares | target-kintsuki/program.cpp:133-174 | after a flush that stores otherwise, some pushes and reads bring both sides to one slot |
| AudioFlush.HarmlessIffNeverShares | target-kintsuki/program.cpp:167-174 | so from every sound state, with the indices compared modulo 2^32: a flush leaves the sides apart for ever if and only if it is harmless: outside a read, a push under way writes less than a ring past the flush’s index; inside one, that index is not past the next frame to copy, or leaves the ring full |
| AudioFlush.StartIsKept | target-kintsuki/program.cpp:133-174 | the idle ring has its frames in their slots |
| AudioFlush.OutputSinceFlush | target-kintsuki/program.cpp:133-174 | in every interleaving of clean flushes the frames out since the last one are the accepted ones from where the reader then stood, whole and in order |
| AudioFlush.StaleFramesComeOutIff | target-kintsuki/program.cpp:146-174 | after any flush of such a run, harmless or not, frames accepted before it can come out if and only if a read is in flight that has not copied up to the count accepted at the flush |
| AudioFlush.StoreUndoesFlushIff | target-kintsuki/program.cpp:157-174 | there, whatever is pushed meanwhile, the store of a read a flush fell into exposes older frames again if and only if rd + n is below the count accepted at the flush, rd + frames for a read that had yet to load the write index |
| AudioFlush.QuietFlushIsHarmless | target-kintsuki/program.cpp:167-174 | from every sound state a flush with no read from its load to its store is harmless |
| AudioFlush.OrderlyFlushIsClean | target-kintsuki/program.cpp:167-174 | in every run without a flush in a read each flush is clean as well, so nothing stale comes out |
| AudioFlush.FlushDuringReadIsUndone | target-kintsuki/program.cpp:167-174 | a flush in the middle of a read that is overwritten by the read’s own store |
| StateBlob.WriteTlv | target-kintsuki/program.cpp:779-787 | appends one entry; a name that is empty or over 255 bytes writes nothing |
| Kssf.NamesSpell | target-kintsuki/program.cpp:1136-1146 | the entries are named cart.sram and ppu.shadow |
| StateBlob.SaveStateBlob | target-kintsuki/program.cpp:1110-1153 | the blob unchanged without SRAM or when the region’s end, modulo 2^32, lies outside it, else the blob, the two entries, the footer length and the magic number |
| StateBlob.SavedReadsBack | target-kintsuki/program.cpp:820-864 | what was saved parses to the exact blob length, SRAM region and shadow bytes |
| Kssf.ParseKssfFooter | target-kintsuki/program.cpp:820-864 | the cursor loop with 32-bit sums computes the parse, endless walks and reads outside the data included |
| Kssf.EndlessForEver | target-kintsuki/program.cpp:840-861 | a walk that has not ended after as many turns as the footer has bytes never ends |
| Kssf.NoWrapEnds | target-kintsuki/program.cpp:820-864 | if neither the footer’s length nor an entry wraps a sum, the loop ends and reads nothing outside |
| Kssf.ParseLayout | target-kintsuki/program.cpp:820-864 | every layout of any minor version and any well-formed entries is read back, unknown names skipped, the last of each known name kept |
| Kssf.ValidIffLayout | target-kintsuki/program.cpp:820-864 | a footer is accepted with no sum wrapped if and only if the bytes are such a layout, whose last values come back |
| Kssf.WrapAccepted | target-kintsuki/program.cpp:840-864 | 23 bytes whose entry length wraps the cursor are accepted although they are no layout |
| Kssf.WrapEndless | target-kintsuki/program.cpp:840-861 | with one byte less in that length the loop never ends |
| StateBlob.FitSram | target-kintsuki/program.cpp:544-566 | by policy: FIT takes every size and cuts or zero-extends, TRUNCATE no smaller and EXTEND no larger region, the default the cart’s size only, CLEAR every size with zeros for another; the exact bytes of each |
| StateBlob.FitThereAndBack | target-kintsuki/program.cpp:544-566 | extending and cutting back restores the SRAM |
| StateBlob.LoadStateBlob | target-kintsuki/program.cpp:1177-1204 | the bytes handed to the emulator, the refusal, or that bytes outside the data are read |
| StateBlob.LoadStateBlobEx | target-kintsuki/program.cpp:1213-1304 | the same for the flags strict, remap and inject-only; the lemmas below say what each of them lets through |
| StateBlob.NothingToLoad | target-kintsuki/program.cpp:1213-1215 | for all flags: no data is refused, an endless walk does not end, a read outside is one |
| StateBlob.StrictLoadsItsOwn | target-kintsuki/program.cpp:1267-1270 | STRICT, with or without REMAP: the emulator gets the state unchanged if and only if the producer’s size, given or recorded, is known and is the cart’s; every other state is refused |
| StateBlob.PlainRefusesMismatch | target-kintsuki/program.cpp:1220-1304 | without STRICT the state is handed over unchanged unless the producer’s size is known not to be the cart’s; without REMAP that is refused |
| StateBlob.RemapNeedsRegion | target-kintsuki/program.cpp:1272-1296 | REMAP on a known mismatch is refused without a region, and else does what policy FIT does for the recorded length |
| StateBlob.InjectionOutcome | target-kintsuki/program.cpp:1232-1253 | INJECT_ONLY is refused without a region in the state, under STRICT also when neither region nor producer has the cart’s size; else exactly the cart’s size of SRAM is written, the region’s bytes and zeros behind them |
| StateBlob.InjectedIsFitted | target-kintsuki/program.cpp:1236-1252 | what is injected from a region inside the state is its SRAM, cut or zero-extended to the cart |
| StateBlob.FittedBytes | target-kintsuki/program.cpp:1178-1194 | byte by byte: unchanged prefix, SRAM of exactly the cart’s size, unchanged suffix |
| StateBlob.SavedLoadsAsSaved | target-kintsuki/program.cpp:1155-1204 | on its own cart what was saved loads as the very bytes the emulator wrote, if and only if it has a footer or its blob does not end in the magic number behind a length that passes the bound check |
| StateBlob.FootedLookalikeIsCut | target-kintsuki/program.cpp:820-864 | a blob of twelve bytes without a footer that ends so loads as nothing |
| StateBlob.SavedLoadsFitted | target-kintsuki/program.cpp:1155-1204 | on another cart under FIT what was saved with a footer loads with the SRAM fitted in place and nothing else changed, or reads outside when the region’s end wrapped; without one as it is, unless it ends like one |
| StateBlob.RemapIsFit | target-kintsuki/program.cpp:1220-1296 | for every expected size, REMAP builds what FIT builds if and only if: without a region that size is 0 or the cart’s; with one of the cart’s size so too or the region lies in the state; with any other size it is neither 0 nor the cart’s, or it is 0 and the recorded one is not 0 |
| StateBlob.ExpectedSizeSkipsRemap | target-kintsuki/program.cpp:1220-1296 | an expected size equal to the cart’s hands over a saved state of another size unpatched, which FIT never does |
| IpsPatch.Check | target-kintsuki/heuristics.cpp:186-208 | accepts exactly the well-formed patches |
| IpsPatch.ApplyRecord | target-kintsuki/heuristics.cpp:216-231 | one record, with every read inside the patch though nothing is tested |
| IpsPatch.Apply | target-kintsuki/heuristics.cpp:213-233 | terminates with the image patched |
| IpsPatch.ApplyIpsPatch | target-kintsuki/heuristics.cpp:176-233 | false and untouched exactly for a malformed patch; else every byte is the last covering record’s, the original, or zero, and the size the largest of all ends |
| IpsPatch.PatchedIsUnique | target-kintsuki/heuristics.cpp:176-233 | that description leaves one image only |
| IpsPatch.PatchingTwice | target-kintsuki/heuristics.cpp:176-233 | applying a patch twice is applying it once |
| IpsPatch.ReadWrittenPatch | target-kintsuki/heuristics.cpp:177-183 | records written in the format are read back, whatever follows the end marker |
| Protobuf.AppendVarint | target-kintsuki/perfetto.cpp:39-45 | appends the base-128 form of any number |
| Protobuf.AppendUint | target-kintsuki/perfetto.cpp:47-52 | appends one varint field |
| Protobuf.AppendDouble | target-kintsuki/perfetto.cpp:54-59 | appends one fixed64 field, least significant byte first |
| Protobuf.AppendBytes | target-kintsuki/perfetto.cpp:61-65 | appends one length-delimited field |
| Protobuf.ReadMessage | target-kintsuki/perfetto.cpp:37-65 | a message reader gives back the fields written |
| PerfettoTrace.TrackEvent | target-kintsuki/perfetto.cpp:148-173 | the event message with its annotations in order |
| PerfettoTrace.EventPacketReads | target-kintsuki/perfetto.cpp:141-176 | an event packet reads back as the call, its name resolved from this or an earlier packet |
| PerfettoTrace.TrackPacketReads | target-kintsuki/perfetto.cpp:99-110 | a descriptor packet reads back as the declaration |
| PerfettoTrace.Writer.Open | target-kintsuki/perfetto.cpp:70-82 | closes the old file; the new one reads as what was declared since, with ids from 1 and no names |
| PerfettoTrace.Writer.Close | target-kintsuki/perfetto.cpp:84-89 | the closed file decodes to exactly the calls logged for it |
| PerfettoTrace.Writer.Declare | target-kintsuki/perfetto.cpp:99-110 | hands out the next id and logs the track, with or without a file |
| PerfettoTrace.Writer.Event | target-kintsuki/perfetto.cpp:141-176 | logs the event if a file is open, otherwise nothing |
| PerfettoTrace.Writer.Begin | target-kintsuki/perfetto.cpp:112-115 | logs a slice begin with name and arguments |
| PerfettoTrace.Writer.End | target-kintsuki/perfetto.cpp:117-119 | logs a slice end |
| PerfettoTrace.Writer.Instant | target-kintsuki/perfetto.cpp:121-124 | logs an instant with name and arguments |
| PerfettoTrace.Writer.Counter | target-kintsuki/perfetto.cpp:126-130 | logs a counter value, bit for bit |
| PerfettoTrace.Writer.Screenshot | target-kintsuki/perfetto.cpp:132-139 | logs a screenshot instant with its category and image |
| PerfettoTrace.Writer.Track | target-kintsuki/perfetto.cpp:91-93 | declares a plain track |
| PerfettoTrace.Writer.CounterTrack | target-kintsuki/perfetto.cpp:95-97 | declares a counter track |
| PerfettoTrace.Writer.Size | target-kintsuki/perfetto.hpp:26-26 | the size of everything written to the open file so far, buffered or not |
| PerfettoTrace.Writer.Packet | target-kintsuki/perfetto.cpp:178-181 | appends a packet and empties the buffer into an open file exactly when it is long; the meaning of file and buffer grows by the packet’s calls |
| PerfettoTrace.Writer.Flush | target-kintsuki/perfetto.cpp:183-188 | moves the buffer to an open file without changing what both say |
| TraceRun.Record | target-kintsuki/perfetto.cpp:70-188 | every run of requests over any number of files, with flushes anywhere: each file decodes to exactly the calls made for it, and shows what was asked for: slices begun and ended, instants, counter values, pictures and tracks |
| TraceRun.RunMeans | target-kintsuki/perfetto.cpp:91-139 | over every run the calls logged, read by the numbers of the format, mean the requests: event types 1 to 4 for slice begin, slice end, instant and counter, field 44 for the value, 22 and 50 for a picture |
| TraceRun.TracksCountFromOne | target-kintsuki/perfetto.cpp:70-110 | tracks declared after opening are numbered 1, 2, 3 behind those that were waiting |
| TraceRun.RunWaits | target-kintsuki/perfetto.cpp:70-110 | in every run the tracks that wait for a file have increasing ids |
| TraceRun.IdsDistinctIff | target-kintsuki/perfetto.cpp:70-110 | for every run: the track ids of a file are pairwise distinct if and only if no waiting track has an id as low as the number of tracks declared after opening |
| TraceRun.WaitingTrackCollides | target-kintsuki/perfetto.cpp:70-110 | a track declared before opening and one after can share an id |
| Text.SplitAt | target-kintsuki/project.cpp:101-111 | the fields between the separators, empty ones included |
| Text.TableReadsBack | target-kintsuki/project.cpp:253-371 | a table of sound rows reads back as its rows, the heading skipped |
| Text.HexReadsBack | target-kintsuki/project.cpp:382-500 | a fixed-width hexadecimal number is read back |
| Text.DecimalReadsBack | target-kintsuki/project.cpp:382-500 | a decimal number is read back with automatic base: it never looks octal |
| ProjectTables.LabelBack | target-kintsuki/project.cpp:353-371 | a label line reads back as the label |
| ProjectTables.BookmarkBack | target-kintsuki/project.cpp:314-329 | a bookmark line reads back as the bookmark |
| ProjectTables.BreakpointBack | target-kintsuki/project.cpp:331-351 | a breakpoint line reads back as the breakpoint |
| ProjectTables.FuncBack | target-kintsuki/project.cpp:279-312 | a function line reads back as the function with every exit kind but 1 read as 0 |
| ProjectTables.DmaBack | target-kintsuki/project.cpp:260-277 | a provenance line reads back as the entry |
| ProjectStore.LabelsBack | target-kintsuki/project.cpp:478-498 | a whole label file reads back as the label map |
| ProjectStore.FuncsBack | target-kintsuki/project.cpp:401-421 | a whole function file reads back as the function map with every exit kind but 1 read as 0 |
| ProjectStore.SaveConsistent | target-kintsuki/project.cpp:376-502 | a save, failed or not, keeps every clear flag truthful as far as the file can hold the table, and the tables unchanged; one that succeeds clears all flags |
| ProjectStore.StepIsGood | target-kintsuki/project.cpp:593-839 | clean text and 24-bit addresses stay so under every operation, exits of any kind included |
| ProjectStore.ConsistentUnlessForgotten | target-kintsuki/project.cpp:593-839 | every operation keeps "clear flag means the file agrees, exit kinds above 1 read as 0" if and only if it is not recording no flags at a saved blank label |
| ProjectStore.ForgottenReturns | target-kintsuki/project.cpp:826-838 | after such a call, saving and reopening bring the dropped label back |
| ProjectStore.CommentOnlyIsForgotten | target-kintsuki/project.cpp:826-838 | a label with a comment only is such a label |
| ProjectStore.SavedReopens | target-kintsuki/project.cpp:199-502 | for every run: a successful save reopens as the tables in memory, with every exit kind but 1 read as 0, if and only if no label was forgotten since the label flag was last set |
| ProjectStore.RunConsistentIff | target-kintsuki/project.cpp:593-839 | for every run: the invariant holds at its end if and only if no label was forgotten since that flag was last set |
| ProjectStore.RunKinds | target-kintsuki/project.cpp:661-685 | over every run the functions hold exit kinds 0 and 1 only if and only if only those were noted |
| ProjectStore.SavedReopensExactly | target-kintsuki/project.cpp:199-502 | for every run: it reopens as exactly the tables in memory if and only if moreover no exit of a kind above 1 was ever noted |
| ProjectStore.InterruptExitIsMisread | target-kintsuki/project.cpp:279-421 | the exit of an interrupt handler, kind 2, comes back from a successful save as kind 0, and all other functions as they are |
| ProjectLaws.UniqueStep | target-kintsuki/project.cpp:593-738 | bookmark names, DMA transfers and the exits of a function stay distinct |
| ProjectLaws.HitsAreExact | target-kintsuki/project.cpp:707-738 | over every run of a new project an entry’s hits are the number of times its transfer was noted, modulo 2^32 |
| ProjectLaws.FlagsTwice | target-kintsuki/project.cpp:812-839 | recording the same flags twice is recording them once, forced or not |
| ProjectLaws.FirstWriterWins | target-kintsuki/project.cpp:812-839 | without force a flag once set stays, and so does the rest of the label |
| ProjectEffects.OthersStay | target-kintsuki/project.cpp:593-839 | every operation leaves the tables it is not about alone, and all but a save the files |
| ProjectEffects.FlagsFollowChanges | target-kintsuki/project.cpp:593-782 | a table’s flag is set where the table changes and stays where it does not |
| ProjectEffects.RecordsFlags | target-kintsuki/project.cpp:812-839 | M, X and E each become their own argument exactly when it is not negative and the flag was unset or is forced; name, type and comment and all other labels stay; there is no label afterwards exactly when no flag was passed and it had neither name, type nor flag |
| ProjectEffects.RecordedIsNoticed | target-kintsuki/project.cpp:831-838 | the label flag is set exactly when a flag of the label changed |
| ProjectEffects.FlagComesFrom | target-kintsuki/project.cpp:767-839 | over every run a set M flag was there at the start, or comes from a label set or from an M argument for that address; the same for X and E |
| ProjectEffects.SetsAndClearsLabel | target-kintsuki/project.cpp:767-782 | setting puts the label at its 24-bit address, clearing removes what is there, both keep the others |
| ProjectEffects.SetsAndClearsBookmark | target-kintsuki/project.cpp:593-609 | a bookmark replaces the first of its name or comes last; clearing removes that one and keeps the order |
| ProjectEffects.Breakpoints | target-kintsuki/project.cpp:627-648 | breakpoints keep the order they were added in; removing one moves the later ones up |
| ProjectEffects.FuncsAreExact | target-kintsuki/project.cpp:661-685 | over every run a function’s calls are counted modulo 2^32, its last frame is that of the last exit, and its exits are exactly those noted for it and those there before |
| ProjectEffects.NotesTransfer | target-kintsuki/project.cpp:707-738 | a known transfer is counted where it stands, with its new frame; a new one comes last |
| ProjectEffects.FirstFailureStops | target-kintsuki/project.cpp:401-502 | functions, bookmarks, breakpoints, DMA, labels: a save writes up to the first failure and touches nothing after it |
| ProjectEffects.NothingWritten | target-kintsuki/project.cpp:376-400 | without changes, or when the project or map file fails, no table is written |
| ProjectEffects.ColumnsAreNamed | target-kintsuki/project.cpp:401-498 | every row has as many fields as its heading, each under the name of what it says |
| ProjectObject.Project.Open | target-kintsuki/project.cpp:199-374 | reads the five table files |
| ProjectObject.Project.Save | target-kintsuki/project.cpp:376-502 | refines the save up to the first write that fails |
| ProjectObject.Project.SetLabel | target-kintsuki/project.cpp:767-774 | refines the step of the same name |
| ProjectObject.Project.ClearLabel | target-kintsuki/project.cpp:776-782 | refines the step of the same name |
| ProjectObject.Project.RecordEntryFlags | target-kintsuki/project.cpp:812-839 | refines the step, the silent removal of a blank slot included; what the step does is said by RecordsFlags |
| ProjectObject.Project.SetBookmark | target-kintsuki/project.cpp:593-601 | replaces the bookmark of that name in place or appends it |
| ProjectObject.Project.ClearBookmark | target-kintsuki/project.cpp:603-609 | removes the bookmark of that name, if any |
| ProjectObject.Project.AddBreakpoint | target-kintsuki/project.cpp:627-632 | refines the step of the same name |
| ProjectObject.Project.RemoveBreakpoint | target-kintsuki/project.cpp:634-640 | refines the step of the same name |
| ProjectObject.Project.ClearBreakpoints | target-kintsuki/project.cpp:642-648 | refines the step of the same name |
| ProjectObject.Project.NoteFunctionExit | target-kintsuki/project.cpp:661-685 | counts the call and adds an exit not seen before |
| ProjectObject.Project.NoteDma | target-kintsuki/project.cpp:707-738 | counts a known transfer or appends a new one |
| ProjectObject.UseAndSave | target-kintsuki/project.cpp:199-839 | open, any operations, save: both equivalences for the files and tables of the object |

## Left out

- ZlibCompress.Compress: `int` overflow for inputs near 2 GiB and failing allocations are not modelled.
- Lz77.Hash: collisions and the quality of compression are not discussed; only what a bucket may hold matters.
- Inflate: dynamic Huffman blocks are not read, since the writer emits none.
- PngWriter.ImageData: the signature, the chunk layout with its CRC-32 and the allocation of the file buffer are not modelled; nor are automatic filter choices whose sum of residues leaves an `int`, which no row of up to 16777215 bytes does.
- TgaRle.WriteTga: the image is a sequence of rows of pixels, not one strided buffer; the uncompressed TGA form is left out.
- HdrRle.WriteScanline: starts from RGBE pixels, the floating-point conversion before it is left out; so are the file header and the JPEG and BMP writers.
- Xxh3.Hash64: the rounds, scrambles, avalanches, the short-input hashes and the derivation of a seeded secret are parameters of the kernel, so no concrete hash value follows; SIMD variants, prefetching, the 128-bit hash, XXH32 and XXH64 are left out.
- Xxh3Stream.State.Update: the total length is an unbounded integer, so inputs of 2^64 bytes are not modelled; null inputs and states are not either.
- Profiler.Profiler.ProfileOnReturn: call counts, times and the clock base are unbounded integers where the source has 64-bit ones.
- Profiler.Profiler.CallHook: the trace and project work done in the same hooks is left out; the project's part is modelled in its own module.
- DmaLog.Log.Record: VMADDR, the calling routine and the frame number come in as parts of the transfer; tracing, project marking and the HDMA trace are left out.
- PageDispatch.Dispatch.AddCallback: one instance stands for one of the three kinds; arming of the hook pointers, null callbacks, unknown kinds, user data and callbacks that change the list while it is scanned are left out.
- AudioRing.OutputIsAcceptedStream: the acquire and release orders are taken as sequential consistency, here and in `AudioFlush`; the enabling flag, the stream that feeds the ring and a missing output buffer are left out.
- Kssf.ParseKssfFooter: a parse that reads outside the data, or a loop that does not end, is an outcome of its own; which bytes lie outside is not modelled.
- StateBlob.LoadStateBlob: the exchange of the PPU implementation, the emulator's own parsing of the state, and what becomes of the shadow bytes are left out; the patched state is smaller than 4 GiB.
- StateBlob.LoadStateBlobEx: the same; whether a ROM is loaded is left out too.
- StateBlob.SaveStateBlob: the emulator's blob and the probed SRAM offset are parameters.
- IpsPatch.ApplyIpsPatch: BPS patches and the reading of patch files are left out.
- PerfettoTrace.Writer.Packet: a file is the bytes written to it, and writing to an open file never fails; ids, times and sizes are unbounded where the source has 64 bits.
- Protobuf.AppendDouble: takes the bit pattern of the double.
- ProjectObject.Project.Save: project.toml, manifest.bml and the contents of map.bin are left out, except that the first and the last can fail to be written; a failed write may leave any text in its file.
- ProjectObject.Project.NoteDma: the mapping of bus addresses to ROM offsets comes in as its result; byte classification is left out except for the dirty flag it sets.
- ProjectTables.ParseExits: the exit list of a function line, like the other row conversions, is a recursive function where the source loops.
- SHA-256, Lua, the command line, the disassembler, label lookups, crash dumps and everything in the emulator core are left out: other code or short searches.
