# Verified models of Microgarbage OS

A Dafny model of the parts of Microgarbage OS whose correctness is hardest to see by reading: the audio service's
lifetime protocol, the lock-free ring, the preemptive scheduler, the video encoder and demuxer, the fixed-point
arithmetic, and the shell's byte-stream state machines. `dafny verify dfyconfig.toml` checks all of it.

Code that changes state in place is modelled by classes and methods over arrays and fields; each is proved against a
specification function or predicate, and the laws are then proved of that specification. Pure code is modelled by
functions. Words are integers with their ranges; where a C word can wrap, the wrap-around is written out, save for the
exceptions under Left out.

| file | what it models |
|---|---|
| Arith.dfy, Bytes.dfy | arithmetic facts, bytes and buffers the others share |
| ChainBytes.dfy, AudioPool.dfy | the block pool: chains, handles and generations, reference counts, sweeps, reading and writing through a chain |
| Bitset.dfy | the free map with its rolling scan hint |
| AudioArbiter.dfy | voices over the pool: play, stop, reap, sweep, and the reference-count books over all runs |
| SpscRing.dfy | the ring as a concurrent protocol, one memory access at a time, and as an object |
| Scheduler.dfy | strict priority, round robin, sleep and wake as a transition system, and as a kernel object |
| Pixels.dfy, MedianCut.dfy, Lloyd.dfy, Rebuild.dfy, Refine.dfy | colour quantization: median cut, Lloyd passes, rebuilding the palettes from their tiles, reassigning and re-seeding tiles |
| Planes.dfy | bit-plane packing and the de-duplicated tile table |
| FmvBlock.dfy, FmvMux.dfy, FmvDemux.dfy | a frame's video block, and the FMV2 file written and taken apart |
| FixedPoint.dfy, WideArith.dfy, Matrices.dfy | roots and normalisation, 64-bit products and quotients, affine maps |
| Telnet.dfy | the Telnet filter and the newline cooking |
| ShellHistory.dfy, ShellEditor.dfy, ShellTokens.dfy, ShellComplete.dfy | history ring, raw line editor, tokenizer, completion list |

## Where code and documentation disagree

The model follows the code; the lemmas named at each point say when the promise holds, and show inputs where it does not.

- Stale object handles collide after a multiple of 65535 frees of a slot, not 65536, because generation 0 is skipped (`AudioPool.StaleHandleCollision`, `AudioArbiter.StaleHandleSinceInit`).
- Allocations within a block of 2^32 bytes wrap the block count and get a single block (`AudioPool.BlocksNeededIsCeiling`, `AudioPool.TransferAsDocumented`).
- The pool's header promises that an object stays alive while any machine holds it or any voice plays it, and that a sweep drops all references a dying machine holds. The sweep takes one reference from each object the machine created, and from no other. It takes somebody else's reference exactly if the machine has dropped its own before (`AudioArbiter.SweepSparesOthersIff`, `AudioArbiter.SweepKeepsBooksIff`), and can so free an object that another machine holds or a voice plays (`AudioArbiter.SweepFreesHeldIff`, `AudioArbiter.SweepAfterDropFreesAHeldObject`, `AudioArbiter.SweepCutsVoiceIff`, `AudioArbiter.SweepAfterDropCutsAVoice`). References the machine took besides, on its own or others' objects, stay in the counts (`AudioArbiter.SweepDropsAllIff`, `AudioArbiter.SweepLeavesAReference`). Both halves of the promise hold exactly if the machine held just its creation references (`AudioArbiter.SweepIsExactIff`).
- Sleeping 0 ticks before the first tick never ends, since deadline 0 means "none" (`Scheduler.SleeperWakesIff`); and the rotation restarts behind task 0 after a block, so among equals only the first one behind task 0 is sure of its turn when tasks block; one that keeps sleeping can starve all others (`Scheduler.GetsItsTurn`, `Scheduler.OthersStarve`, `Scheduler.BlockingStarves`).
- `q32_div` is exact exactly when the remainder is a signed 32-bit number; the comment's |a| < 2^32 is twice too wide (`WideArith.Q32DivExactIff`, `WideArith.Q32DivCommentTooWide`).
- `vec3_q16_normalize` is not "correct for any representable vector": it scales exactly the vectors with a sum of squares from 2^16 on and below 2^63 and returns all others unchanged, not just zero (`FixedPoint.Normalize`). The scaled ones come out longer than k / (k + 1) whenever k * k times the sum of squares over 2^16 is at most 2^48, which is exactly when the reciprocal has k units or more (`FixedPoint.NormalizePrecisionIff`); where 4 times it is above 2^48 the squared length is less than a half (`FixedPoint.NormalizeOneDigit`, `FixedPoint.NormalizeFallsShort`).
- A Telnet subnegotiation whose payload holds 255, 240 anywhere but at its end leaks the rest into the data (`Telnet.FilterUndoesEncodingIff`, `Telnet.NoLeakIff`).
- The byte count returned by `tcp_t_write` leaves out text that stands before a bare newline, and counts bytes that a short send did not take (`Telnet.TcpCtx.Write`, `Telnet.WireIsWholeIff`).
- A recalled line of LINE_CAP - 1 bytes is submitted at once, so its draft cannot be brought back (`ShellEditor.UpsThenDownsIff`).
- The FMV1 header and the WAV sizes are stale for truncated input and for sizes beyond 32 bits (`FmvDemux.CountIsTrueIff`, `FmvDemux.SizesMatchIff`).
- With one argument the demuxer derives the output's name from the input's. For an input ending in `.fmv` it is the input's own name, and opening it for writing empties the input before the frames are read (`FmvDemux.OverwritesInputIff`); if less than a frame was read ahead, no frame comes out (`FmvDemux.CutInputHasNoFrames`).

No text promises that a Lloyd pass lowers the error, and it need not: `Lloyd.PassRaisesError` is a pass that raises it, `Lloyd.MeanRaisesErrorIff` says when a single move does, and `Lloyd.PassNearlyMonotone` bounds what a pass can lose.

## Assumptions

- Each `do_sleep` and each task completion of the scheduler reference is one step; its separate stores are not interleaved with a tick. The scheduler is modelled for any number of tasks and any priorities.
- The ring's acquire and release accesses are modelled by their guarantee: a side sees some published value of the other's index that is no older than what it saw last, and everything written before it. `seen` in a step is that choice.
- The callbacks of the audio sink are inputs: `starts` is its answer to a start request, `done` its list of finished tracks, `fits`, `head` and `nblocks` of a `Create` step what the block map decides.
- Null pointers, failed memory allocation and failed system calls other than those named are outside the model. Block size, table sizes, palette sizes and image sizes are parameters; where C fixes them, the fixed values are among those covered.
- Signed overflow in `vec3_q16_normalize` and in the 64-bit sums is taken to wrap.
- `qsort` is any routine that sorts by the channel; a sorted permutation is all the cut uses.
- What tab completion appends in the line editor is an input of each tab byte, constrained as `apply_completion` constrains it.

## Model

| member | source | states |
|---|---|---|
| AudioPool.PackedHandleResolves | src/audio/audio_pool.c:22-44 | A handle packed from a slot and a generation resolves to that slot exactly while the slot is live in that generation, and is never the null handle |
| AudioPool.ResolvedHandleIsPacked | src/audio/audio_pool.c:25-44 | Whatever resolves was packed from the slot it resolves to, so no two handles name one live object |
| AudioPool.StaleHandleCollision | src/audio/audio_pool.c:209-211 | A stale handle is mistaken for a live one exactly after a multiple of 65535 frees of its slot; the comment at line 10 says 65536 |
| AudioPool.GenerationClosedForm | src/audio/audio_pool.c:209-211 | The generation after k frees, in closed form: the sixteen-bit counter skips 0 |
| AudioPool.ChainAcyclic | src/audio/audio_pool.c:152-160 | A chain that ends in the null block visits no block twice |
| AudioPool.ChainsDisjoint | src/audio/audio_pool.c:152-160 | No block is in two chains or twice in one |
| AudioPool.LinkBlockKeeps | src/audio/audio_pool.c:152-160 | Linking a free block at the end of a chain keeps every block either free or in exactly one chain, with `owner`, `next`, the free map and the free count agreeing |
| AudioPool.FreeBlockKeeps | src/audio/audio_pool.c:60-78 | Freeing the head of a chain keeps the same invariant, and `next` of that head is the rest of the chain |
| AudioPool.BlocksNeededIsCeiling | src/audio/audio_pool.c:142-143 | The object gets ceil(size / block size) blocks, one for size 0, exactly if rounding up stays below 2^32; otherwise the sum wraps and it gets one block |
| AudioPool.TransferAsDocumented | src/audio/audio_pool.c:280-282 | Reads and writes transfer exactly min(n, size - offset) bytes for every offset and n if and only if the block count did not wrap |
| AudioPool.SweepSlot | src/audio/audio_pool.c:243-251 | A sweep drops one reference of every live slot the machine owns, each judged by its state before the sweep, and touches no other slot |
| AudioPool.SweptAll | src/audio/audio_pool.c:243-251 | In the descriptors' fields: exactly the live slots with this owner lose one reference, and with the last one their chain and generation; the number returned is by how many the live objects become fewer |
| AudioPool.DropRefKeepsTable | src/audio/audio_pool.c:232-235 | Dropping a reference keeps descriptor table and chains consistent: the chain goes exactly with the last reference |
| AudioPool.RefFields | src/audio/audio_pool.c:217-237 | In the descriptor's fields: ref adds one, unref takes one and with the last one frees the slot and moves its generation on; every other slot stays |
| AudioPool.FreshUnrefFrees | src/audio/audio_pool.c:162-170 | The handle of a new object is good for exactly one unref, which frees it |
| AudioPool.AddRefKeepsTable | src/audio/audio_pool.c:219-222 | Adding a reference keeps descriptor table and chains consistent |
| AudioPool.AllocKeepsTable | src/audio/audio_pool.c:162-170 | Entering a new object in a free slot with its chain keeps the table consistent |
| AudioPool.FreeSlotKeepsTable | src/audio/audio_pool.c:206-215 | Clearing a slot together with its chain, and moving its generation on, keeps the table consistent |
| AudioPool.SurvivorsTransitive | src/audio/audio_pool.c:239-254 | Objects that keep their chains over one stretch of frees and over the next keep them over both: the step by which the sweep loop carries them |
| AudioPool.GatheredGrows | src/audio/audio_pool.c:288-295 | One turn of the read loop extends the copied stretch of the object as a flat byte array |
| AudioPool.ScatteredGrows | src/audio/audio_pool.c:316-323 | One turn of the write loop extends the overwritten stretch of the object as a flat byte array |
| AudioPool.WroteGrows | src/audio/audio_pool.c:316-323 | One turn of the write loop leaves the bytes of every other object alone |
| AudioPool.Pool.Init | src/audio/audio_pool.c:82-119 | A fresh pool has all blocks free, no live object, all generations 1, and satisfies the whole invariant |
| AudioPool.InitPool | src/audio/audio_pool.c:82-119 | The region is carved into floor(size / block size) blocks, cut to 32 bits; there is no pool exactly if that is none |
| AudioPool.Pool.AllocOneBlock | src/audio/audio_pool.c:51-58 | Although the scan starts at the free map's rolling hint, the lowest free block is taken, or none exactly if the free count is 0 |
| AudioPool.FreeMap | src/audio/audio_pool.c:106-109 | Whatever the map's words held, the new free map has every bit clear |
| AudioPool.Pool.FreeOneBlock | src/audio/audio_pool.c:60-68 | The block's bit, owner and link are cleared and it is counted as free once; a number past the end changes nothing |
| AudioPool.Pool.FindFreeSlot | src/audio/audio_pool.c:129-134 | The lowest slot that is not in use, or none if all are |
| AudioPool.Pool.ExtendChain | src/audio/audio_pool.c:152-160 | One turn of the chain-building loop keeps the block invariant and takes the lowest free block |
| AudioPool.Pool.BuildChain | src/audio/audio_pool.c:151-160 | The new chain has exactly the needed length, lowest free blocks in rising order; all other chains stay |
| AudioPool.Pool.Alloc | src/audio/audio_pool.c:136-174 | Too few free blocks, no free slot or success, and nothing else; on failure nothing changes; on success the lowest free slot holds the asked size and machine, one reference and the head of a new chain, and every other slot and chain stays |
| AudioPool.Pool.FreeHead | src/audio/audio_pool.c:60-78 | One turn of free_chain returns one block to the map and yields the next |
| AudioPool.Pool.FreeChain | src/audio/audio_pool.c:71-78 | All blocks of one chain, and no others, return to the free map |
| AudioPool.Pool.FreeObject | src/audio/audio_pool.c:206-215 | The slot is cleared, its generation moved on, its chain freed; all other slots and chains stay |
| AudioPool.Pool.Ref | src/audio/audio_pool.c:217-223 | Exactly a resolving handle gains a reference |
| AudioPool.Pool.DropReference | src/audio/audio_pool.c:232-235 | Frees the object exactly if the count was 1; otherwise no block changes |
| AudioPool.Pool.Unref | src/audio/audio_pool.c:225-237 | A bad handle changes nothing; a good one loses a reference, and all other objects keep their chains |
| AudioPool.Pool.SweepVm | src/audio/audio_pool.c:239-254 | For every slot by its fields before: a live object of this owner loses one reference or is freed with its chain, any other slot stays; the number returned is by how many the live objects become fewer; surviving objects keep their chains |
| AudioPool.Pool.SweepSlotStep | src/audio/audio_pool.c:243-251 | One turn of the sweep |
| AudioPool.Pool.SeekBlock | src/audio/audio_pool.c:261-270 | Finds the block of the chain that holds the byte, or none past the end |
| AudioPool.Pool.ReadBlock | src/audio/audio_pool.c:288-295 | One turn of the read loop |
| AudioPool.Pool.ReadChain | src/audio/audio_pool.c:284-295 | Gathers the chain's bytes from the offset on |
| AudioPool.Pool.Read | src/audio/audio_pool.c:272-298 | The destination receives the bytes of the object seen as one flat array, from the offset on, clamped, wherever the blocks lie; the rest of the destination stays |
| AudioPool.Pool.WriteBlock | src/audio/audio_pool.c:316-323 | One turn of the write loop |
| AudioPool.Pool.WriteChain | src/audio/audio_pool.c:312-323 | Overwrites the chain's bytes from the offset on |
| AudioPool.Pool.Write | src/audio/audio_pool.c:300-326 | Exactly the addressed bytes of this one object change; every other object reads as before |
| ChainBytes.LocateInBlock | src/audio/audio_pool.c:261-270 | Byte r of the i-th block of a chain is byte i * block size + r of the object |
| ChainBytes.BlockOf | src/audio/audio_pool.c:261-270 | Every byte of an object lies in one block of its chain, at quotient and remainder of its offset |
| ChainBytes.SpellAfterWrite | src/audio/audio_pool.c:319-322 | Writing into one block of a chain changes that stretch of the object and nothing else |
| ChainBytes.SpellElsewhere | src/audio/audio_pool.c:319-322 | Writing into a block leaves every chain without it alone |
| Bitset.Bitset.Set | src/containers/bitset.c:43-46 | Exactly bit i is set; an index past the end changes nothing |
| Bitset.Bitset.Clear | src/containers/bitset.c:48-55 | Exactly bit i is cleared, and the hint is wound back so that no word before it has a clear bit |
| Bitset.Bitset.Test | src/containers/bitset.c:57-60 | The bit, false past the end |
| Bitset.Bitset.ClearAll | src/containers/bitset.c:29-33 | All bits clear |
| Bitset.Bitset.LowestClear | src/containers/bitset.c:90-95 | The lowest clear bit of a word, tail bits ignored |
| Bitset.Bitset.Pass | src/containers/bitset.c:89-96 | One pass finds the first clear bit of its words and moves the hint there |
| Bitset.Bitset.FindFirstClear | src/containers/bitset.c:80-99 | Although it starts at the rolling hint, the scan returns the lowest clear bit of the whole set, and none exactly if all are set, in every reachable state |
| AudioArbiter.HandlesDistinct | src/audio/audio_pool.c:22-24 | Two live object handles are equal only if they name one slot |
| AudioArbiter.VoiceSlot | src/audio/audio_arbiter.c:102-108 | A voice on a pool object names the current handle of exactly one live slot |
| AudioArbiter.StopTrackKeeps | src/audio/audio_arbiter.c:148-164 | Stopping a track keeps the books: each refcount equals client references plus active voices on the object |
| AudioArbiter.StopWhereKeeps | src/audio/audio_arbiter.c:183-211 | So does stopping any selection of tracks |
| AudioArbiter.StopWhereTrack | src/audio/audio_arbiter.c:183-211 | The reap and sweep loops stop each selected track once, with its generation moved on, and touch no other |
| AudioArbiter.ClaimKeeps | src/audio/audio_arbiter.c:87-108 | Starting a voice, with or without a pool object, keeps the books |
| AudioArbiter.AllocKeeps | src/audio/audio_pool.c:162-170 | A fresh object, one client reference and no voice, keeps the books |
| AudioArbiter.CreateIsAlloc | src/audio/audio_pool.c:162-173 | The change allocation makes to the table, field by field, is the Create step the runs below are made of |
| AudioArbiter.DropHeldKeeps | src/audio/audio_pool.c:225-237 | A machine dropping a reference it holds itself keeps the books |
| AudioArbiter.AddHeldKeeps | src/audio/audio_pool.c:217-223 | A machine taking a reference keeps the books |
| AudioArbiter.RefThenUnref | src/audio/audio_arbiter.c:87-100 | A reference taken for a refused start and given back leaves the table as it was and frees nothing |
| AudioArbiter.SweepSparesOthersIff | src/audio/audio_pool.c:239-254 | A pool sweep takes no other machine's and no voice's reference, on any object, exactly if the dying machine still has a reference of its own, the creation reference, on every live object it created |
| AudioArbiter.SweepKeepsBooksIff | src/audio/audio_pool.c:239-254 | Under exactly the same condition each refcount still equals the machines' references plus active voices after the sweep |
| AudioArbiter.SweepFreesHeldIff | src/audio/audio_pool.c:239-254 | The sweep frees an object another machine holds exactly if the dying machine created it and that machine's is the only reference left |
| AudioArbiter.SweepDropsAllIff | src/audio/audio_pool.c:239-254 | No count the sweep leaves still contains a reference of the dying machine exactly if the machine held at most one on each object it created and none on any other |
| AudioArbiter.SweepIsExactIff | src/audio/audio_pool.c:239-254 | Every live object's count becomes exactly what is owed to other machines and voices, and only objects nobody else has are freed, if and only if the machine held just one reference on each live object it created and none on any other |
| AudioArbiter.SweepLeavesAReference | src/audio/audio_pool.c:239-254 | A concrete history: machine 1 creates, 2 takes a reference and dies; the count stays 2 although one reference is owed |
| AudioArbiter.SweepAfterDropFreesAHeldObject | src/audio/audio_pool.c:239-254 | A concrete history, each step allowed to its machine: machine 1 creates, 2 takes a reference, 1 drops its own and dies; the object is freed while 2 holds it |
| AudioArbiter.SweepCutsVoiceIff | src/audio/audio_pool.c:239-254 | The sweep frees an object under a playing voice exactly if the object is the machine's, no machine holds it and this voice is its only one |
| AudioArbiter.SweepAfterDropCutsAVoice | src/audio/audio_pool.c:239-254 | A concrete history: create, play by another machine, drop, sweep; the object is freed while it plays |
| AudioArbiter.StepKeepsBooks | src/audio/audio_arbiter.c:71-211 | Every operation keeps the books, if machines drop only references they hold themselves and a dying machine still has its creation references |
| AudioArbiter.OthersCannotFree | src/audio/audio_pool.c:217-254 | No allowed request of anybody else frees an object while a machine holds it: its handle stays good and its count covers the machine's references |
| AudioArbiter.HeldObjectStays | src/audio/audio_pool.c:217-254 | Nor does any allowed history of others' requests |
| AudioArbiter.EveryRunKeepsBooks | src/audio/audio_arbiter.c:71-211 | Over every such history since init each refcount equals the machines' references plus active voices, so every object a machine holds or a voice plays is live |
| AudioArbiter.StepGeneration | src/audio/audio_pool.c:206-215 | Every request, allowed or not, moves a slot's generation on exactly when its object is freed, and the object in the slot carries that generation |
| AudioArbiter.StaleHandleOverRun | src/audio/audio_pool.c:34-44 | Over every history of requests, allowed or not, a handle is good again after its slot was freed exactly if the slot is live and the number of frees is a multiple of 65535 |
| AudioArbiter.StaleHandleSinceInit | src/audio/audio_pool.c:34-44 | That is so of every handle the pool has given out since init |
| AudioArbiter.PackedVoiceResolves | src/audio/audio_arbiter.c:18-41 | A voice handle names its track exactly while the track is active in its generation |
| AudioArbiter.VoiceHandleOverRun | src/audio/audio_arbiter.c:30-41 | Over every history of requests a voice handle is good again after its track was stopped exactly if the track is active and the number of stops is a multiple of 65535 |
| AudioArbiter.Arbiter.Init | src/audio/audio_arbiter.c:43-60 | No voice active, all generations 1 |
| AudioArbiter.InitArbiter | src/audio/audio_arbiter.c:43-60 | No arbiter for 0 tracks; otherwise it serves the tracks asked for, at most 16, all idle |
| AudioArbiter.Arbiter.FindFreeTrack | src/audio/audio_arbiter.c:64-69 | The lowest idle track, or the number of tracks |
| AudioArbiter.Arbiter.TakeReference | src/audio/audio_arbiter.c:87-100 | The reference stays with a started voice and is given back on refusal |
| AudioArbiter.Arbiter.Play | src/audio/audio_arbiter.c:71-114 | Bad object exactly if the handle does not resolve, done exactly if it does, a track is idle and the sink starts it; on success the lowest idle track holds object, kind, machine and generation and the handle names it, on refusal nothing changes |
| AudioArbiter.Arbiter.PlayExternal | src/audio/audio_arbiter.c:114-144 | The same for a voice without a pool object |
| AudioArbiter.StopFields | src/audio/audio_arbiter.c:148-164 | Stopping a track over its fields: idle, generation moved on, one reference of the object it played less or that object freed, nothing else changed |
| AudioArbiter.Arbiter.StopTrackAt | src/audio/audio_arbiter.c:148-164 | The in-place stop has the specified effect on tracks and pool, nothing on an idle track |
| AudioArbiter.Arbiter.Stop | src/audio/audio_arbiter.c:166-181 | A stale or null voice handle changes nothing; a live one stops its track |
| AudioArbiter.Arbiter.StopSelected | src/audio/audio_arbiter.c:183-211 | The loop shared by reap and sweep stops the selected tracks and counts them |
| AudioArbiter.Arbiter.Reap | src/audio/audio_arbiter.c:183-197 | Exactly the active one-shot tracks the sink reports done become idle with their generation moved on, every other track stays, and the number returned is by how many active tracks become fewer |
| AudioArbiter.Arbiter.SweepVm | src/audio/audio_arbiter.c:199-211 | Exactly the active tracks of this machine become idle with their generation moved on, every other track stays, and the number returned is by how many active tracks become fewer |
| SpscRing.MaskedIncrement | src/containers/spsc_ring.c:74-76 | For every capacity init accepts, the masked increment is the wrap-around the model uses |
| SpscRing.AdvanceMeets | src/containers/spsc_ring.c:71-106 | Positions up to a turn apart share a slot only if equal or exactly a turn apart |
| SpscRing.BeginPushKeeps | src/containers/spsc_ring.c:74-80 | A push refuses exactly if, by the tail it saw, capacity - 1 slots are taken; either way the invariant stays |
| SpscRing.WriteByteKeeps | src/containers/spsc_ring.c:82-83 | Each byte copied into the slot keeps the invariant, whatever the consumer does in between |
| SpscRing.PublishPushKeeps | src/containers/spsc_ring.c:85-86 | Publishing the head adds exactly the written element to the queue |
| SpscRing.BeginPopKeeps | src/containers/spsc_ring.c:94-99 | A pop refuses exactly if, by the head it saw, everything was taken |
| SpscRing.ReadByteKeeps | src/containers/spsc_ring.c:101-102 | Each byte copied out is the oldest element's |
| SpscRing.PublishPopKeeps | src/containers/spsc_ring.c:104-105 | Publishing the tail removes exactly the element that was read |
| SpscRing.StepKeeps | src/containers/spsc_ring.c:71-106 | Every memory access of either side keeps the invariant |
| SpscRing.EveryRunIsFifo | src/containers/spsc_ring.c:4-32 | In every interleaving, with indices as stale as acquire loads allow, the popped sequence is a prefix of the pushed one, at most capacity - 1 elements are live, and a slot being written is never the one being read |
| SpscRing.Ring.Init | src/containers/spsc_ring.c:54-59 | An empty ring over flat storage |
| SpscRing.InitRing | src/containers/spsc_ring.c:43-61 | No ring exactly for a zero element size or a capacity that is not a power of two; otherwise an empty one |
| SpscRing.AndBits | src/containers/spsc_ring.c:43-45 | The conjunction used in the test and in the mask has exactly the bits both numbers have |
| SpscRing.PowerOfTwoIff | src/containers/spsc_ring.c:43-45 | The capacities that pass the test x & (x - 1) == 0 from 2 on are exactly 2 to the power 1, 2, 3 and so on |
| SpscRing.Ring.Push | src/containers/spsc_ring.c:71-87 | Succeeds exactly with room for one more and appends the element; a refusal changes nothing |
| SpscRing.Ring.Pop | src/containers/spsc_ring.c:91-106 | Succeeds exactly if not empty and yields the oldest element; a refusal leaves the output alone |
| SpscRing.OtherSlotKept | src/containers/spsc_ring.c:82-83 | Writing one slot leaves the bytes of every other slot alone |
| Scheduler.HiIsMax | docs/reference/presched_step3_scheduler_thread_proof.c:38 | `hi` is the greatest non-negative priority of a runnable task, -1 if there is none |
| Scheduler.PickFindsHighest | docs/reference/presched_step3_scheduler_thread_proof.c:39 | `pick` finds a runnable task of that priority whenever there is one, and the first one after `from` in the cycle |
| Scheduler.CyclicIsMod | docs/reference/presched_step3_scheduler_thread_proof.c:39 | The cyclic index is (from + k) % N |
| Scheduler.DispatchKeeps | docs/reference/presched_step3_scheduler_thread_proof.c:51-56 | Dispatching keeps at most one task running and runs one of highest priority |
| Scheduler.WakeKeeps | docs/reference/presched_step3_scheduler_thread_proof.c:48-50 | Waking the due tasks keeps the invariant and the processor |
| Scheduler.StepKeeps | docs/reference/presched_step3_scheduler_thread_proof.c:44-65 | Tick, sleep and completion keep the invariant |
| Scheduler.AtMostOneRuns | docs/reference/presched_step3_scheduler_thread_proof.c:44-76 | In every state reachable from the first dispatch at most one task is running and `current` names it |
| Scheduler.TickRunsTheHighest | docs/reference/presched_step3_scheduler_thread_proof.c:46-57 | Right after every tick the current task has the highest priority of all runnable ones, and one runs if any can |
| Scheduler.BootIs | docs/reference/presched_step3_scheduler_thread_proof.c:68-76 | After the first dispatch every task is ready or running, none has a deadline, and a task of the highest priority has the processor if that is not negative |
| Scheduler.StepTouches | docs/reference/presched_step3_scheduler_thread_proof.c:46-63 | What each step may do to each task: sleep and completion touch the current task alone, a tick wakes exactly the due sleepers and moves the processor |
| Scheduler.FinishedForGood | docs/reference/presched_step3_scheduler_thread_proof.c:63 | A task whose function has returned is never ready, running or current again, in any run |
| Scheduler.RunningCounts | docs/reference/presched_step3_scheduler_thread_proof.c:46-63 | Over every run the number of tasks to finish falls by one with each completion and the clock advances by one with each tick, and by nothing else |
| Scheduler.RoundRobin | docs/reference/presched_step3_scheduler_thread_proof.c:38-55 | A runnable task of top priority becomes current within as many ticks as it lies behind in the cycle, at most N, unless a task blocks or a higher one wakes meanwhile |
| Scheduler.StepNears | docs/reference/presched_step3_scheduler_thread_proof.c:38-78 | Each step brings a waiting task nearer to the processor: a tick always, a block if the task is the first of its equals behind task 0 |
| Scheduler.GetsItsTurn | docs/reference/presched_step3_scheduler_thread_proof.c:38-78 | Over every run of ticks, sleeps and completions with nothing of higher priority runnable, a waiting task gets the processor within a bounded number of ticks, if no task blocks meanwhile or it is the first of its equals |
| Scheduler.OthersStarve | docs/reference/presched_step3_scheduler_thread_proof.c:51 | For every other task that condition is needed: while the first of the top tasks sleeps one tick each time it runs, no other task gets the processor, in any number of ticks |
| Scheduler.BlockingStarves | docs/reference/presched_step3_scheduler_thread_proof.c:51 | The condition on blocking is needed: with two equal tasks, one that keeps sleeping one tick keeps the processor through any number of ticks |
| Scheduler.StaysAsleep | docs/reference/presched_step3_scheduler_thread_proof.c:48-50 | A blocked task stays blocked through every run that ends before its deadline |
| Scheduler.WakesAtDeadline | docs/reference/presched_step3_scheduler_thread_proof.c:48-56 | The tick that reaches a deadline makes the task runnable, and current if its priority is strictly highest |
| Scheduler.SleeperWakesExactlyOnTime | docs/reference/presched_step3_scheduler_thread_proof.c:5-8 | A task of strictly highest priority that sleeps n >= 1 ticks is not current before its deadline, whatever the others do, and is current right after the tick that reaches it |
| Scheduler.SleeperWakesIff | docs/reference/presched_step3_scheduler_thread_proof.c:48-61 | A sleeper is runnable again after max(n, 1) ticks if and only if its deadline is not 0: sleeping 0 ticks before the first tick is for ever |
| Scheduler.Kernel.Highest | docs/reference/presched_step3_scheduler_thread_proof.c:38 | The scanning loop computes the specified maximum |
| Scheduler.Kernel.PickNext | docs/reference/presched_step3_scheduler_thread_proof.c:39 | The scanning loop computes the specified choice |
| Scheduler.Kernel.WakeDue | docs/reference/presched_step3_scheduler_thread_proof.c:48-50 | The wake-up loop, in place |
| Scheduler.Kernel.OnTick | docs/reference/presched_step3_scheduler_thread_proof.c:46-57 | One turn of the scheduler thread, in place |
| Scheduler.Kernel.GoToSleep | docs/reference/presched_step3_scheduler_thread_proof.c:60-61 | do_sleep as one step |
| Scheduler.Kernel.Exit | docs/reference/presched_step3_scheduler_thread_proof.c:63 | Completion as one step |
| Scheduler.Kernel.Start | docs/reference/presched_step3_scheduler_thread_proof.c:67-76 | main up to the first dispatch |
| MedianCut.BoxRange | tools/fmv_encode.c:134-143 | The range is the sum of the three channels' spreads and the axis is the channel of greatest spread, the first one on a tie |
| MedianCut.SpreadIs | tools/fmv_encode.c:135-140 | For RGB pixels a channel's spread is the greatest difference of two pixels in it |
| MedianCut.BestFromIsWidest | tools/fmv_encode.c:148-153 | The box chosen has at least two pixels and is the first with the greatest range of all such boxes |
| MedianCut.BestIsWidest | tools/fmv_encode.c:148-153 | The same over the pixels' spreads: no box of two pixels or more has a greater sum, no earlier one as great a sum |
| MedianCut.SplitKeepsPixels | tools/fmv_encode.c:155-159 | A split permutes the pixels |
| MedianCut.SplitKeepsPartition | tools/fmv_encode.c:155-159 | A split keeps non-empty boxes that cover every pixel once, one box more |
| MedianCut.SplitSeparates | tools/fmv_encode.c:155-159 | The halves of a split differ by at most one pixel, and along the channel in which the box's pixels differ most no pixel of the lower half exceeds one of the upper half |
| MedianCut.TraceKeeps | tools/fmv_encode.c:146-160 | Every history of splits keeps a partition and the multiset of pixels |
| MedianCut.MeanBetween | tools/fmv_encode.c:163-165 | A box's truncated mean lies, channel by channel, between its least and greatest value |
| MedianCut.PaletteInBoxes | tools/fmv_encode.c:161-167 | So does every output colour |
| MedianCut.StopsAtSingletons | tools/fmv_encode.c:154 | The loop stops early exactly if every box is a single pixel |
| MedianCut.SortSorts | tools/fmv_encode.c:126-133 | The sort specification: sorted along the channel and a permutation |
| MedianCut.QSort | tools/fmv_encode.c:156 | Sorts the stretch in place and leaves the rest of the array alone |
| MedianCut.FindBest | tools/fmv_encode.c:148-153 | The search loop computes the specified choice |
| MedianCut.SplitBox | tools/fmv_encode.c:155-159 | One turn of the loop is a split |
| MedianCut.SplitAll | tools/fmv_encode.c:146-160 | The loop ends with k boxes, or fewer when all are single pixels, over a permutation of the pixels |
| MedianCut.MedianCut | tools/fmv_encode.c:144-168 | For 1 <= k <= 256: terminates with a partition reached by splits, a permuted pixel array, k boxes or all single pixels, and the boxes' means as output; black for an empty pool |
| Lloyd.ShiftCentre | tools/fmv_encode.c:196 | How the squared error of a cluster changes when its centre moves |
| Lloyd.TruncatedMeanLoss | tools/fmv_encode.c:196 | In one channel the truncated mean's error exceeds any other integer centre's by at most the stated loss, and the next integer attains it |
| Lloyd.TruncatedMeanOptimalIff | tools/fmv_encode.c:196 | The truncated mean is the best integer centre exactly if the remainder of the division is at most half the count |
| Lloyd.MeanRaisesErrorIff | tools/fmv_encode.c:196 | Moving a cluster's colour to the truncated mean raises its squared error exactly if the three channels' gains add up to less than 0 |
| Lloyd.GainIs | tools/fmv_encode.c:196 | A channel loses exactly if the colour stood at the next integer above the truncated mean and the remainder is more than half the count |
| Lloyd.PassRaisesError | tools/fmv_encode.c:188-197 | A concrete pass that raises the error, from 1 to 2 |
| Lloyd.MeanNearlyOptimal | tools/fmv_encode.c:188-197 | Over a colour's assigned pixels the new centre's error exceeds that of any other integer centre, the old colour included, by strictly less than 3 per pixel |
| Lloyd.MoveOne | tools/fmv_encode.c:196 | Moving one colour changes the total error by the change of its own cluster's |
| Lloyd.PassNearlyMonotone | tools/fmv_encode.c:188-197 | A whole pass, pixels choosing again afterwards, raises the pool's error by less than 3 per pixel, and by no more than the sum of the losses |
| Lloyd.PassServesBest | tools/fmv_encode.c:196 | Every colour that has pixels ends where no other integer colour serves them better by 3 or more per pixel |
| Lloyd.FindColour | tools/fmv_encode.c:191-192 | The nearest colour, the first one on a tie |
| Lloyd.LabelIs | tools/fmv_encode.c:191-193 | A pixel belongs to the backdrop exactly if that is strictly nearer than every colour, and otherwise to the first of the nearest colours |
| Lloyd.MembersAre | tools/fmv_encode.c:190-195 | A colour's cluster holds exactly the pixels with its label, each as often as the pool does |
| Lloyd.CollectSums | tools/fmv_encode.c:189-195 | Sums and counts per colour over the pixels that are not nearer to the backdrop |
| Lloyd.LloydPass | tools/fmv_encode.c:189-196 | The in-place pass moves every colour that owns a pixel to the truncated mean of its pixels and leaves the others |
| Rebuild.PassesNearlyMonotone | tools/fmv_encode.c:188-197 | n passes raise the error by at most 3n per pixel |
| Rebuild.PoolErrPermutes | tools/fmv_encode.c:172-180 | The error of a pool does not depend on the order of its pixels |
| Rebuild.LloydPasses | tools/fmv_encode.c:188-197 | The loop goes through as many palettes as passes, in each of which every colour with pixels stands at the mean its pixels had under the palette before |
| Rebuild.FitPalette | tools/fmv_encode.c:187-198 | Median cut and then Lloyd passes on a gathered pool: the colours are the passes' image of the cut's colours, and the error over the pool is at most the cut's plus 3 per pixel and pass |
| Rebuild.PoolAppends | tools/fmv_encode.c:184-186 | One tile more at the end appends its pixels to the pool of its palette and nothing to any other |
| Rebuild.GatherPool | tools/fmv_encode.c:184-186 | The pool is the pixels of exactly the palette's tiles, in tile order |
| Rebuild.BuildPalette | tools/fmv_encode.c:183-199 | The rebuilt palette is black if it has no tiles, and otherwise some median cut of its tiles' pixels after the passes, with an error over them of at most the cut's plus 3 per pixel and pass |
| Rebuild.PoolsPartition | tools/fmv_encode.c:184-186 | The pools of all palettes hold every tile's pixels once: their errors add up to the tiles' error and their sizes to the image |
| Rebuild.BuildAll | tools/fmv_encode.c:218 | Rebuilding all palettes in place leaves the whole image an error of at most that of the cuts' colours plus 3 per pixel and pass |
| Refine.TileErr | tools/fmv_encode.c:172-180 | The summed distance of a tile's pixels to the nearest of backdrop and palette |
| Pixels.NearestIsLeast | tools/fmv_encode.c:174-177 | That distance is the least over the backdrop and all colours, and attained |
| Refine.BestPaletteIsBest | tools/fmv_encode.c:227-228 | The search finds the first palette of least error |
| Refine.ReassignedToBest | tools/fmv_encode.c:226-229 | Every tile ends on the first palette of least error |
| Refine.ReassignmentIsOptimal | tools/fmv_encode.c:226-229 | Reassignment reaches the least summed error any assignment has, so never raises it |
| Refine.WorstIsWorst | tools/fmv_encode.c:232-234 | The donor tile comes from a group of several and is the first of those that fit worst among all such tiles |
| Refine.ReseedMovesFew | tools/fmv_encode.c:231-235 | Re-seeding moves a tile only to a palette that had none, at most one tile to each, and none if every palette has a tile |
| Refine.MovesIs | tools/fmv_encode.c:229-235 | The count of moved tiles is the number of tiles whose palette differs |
| Refine.ReseedCounts | tools/fmv_encode.c:231-235 | No tile is taken twice: the re-seedings counted are the tiles that end elsewhere |
| Refine.DonorExists | tools/fmv_encode.c:231-235 | With at least as many tiles as palettes an empty palette always finds a donor |
| Refine.StealKeepsCounts | tools/fmv_encode.c:235 | Moving the donor keeps `cnt` equal to the true member counts |
| Refine.ReseedFillsIff | tools/fmv_encode.c:231-235 | After re-seeding `cnt` holds the true counts, and every palette has a tile if and only if there are at least as many tiles as palettes |
| Refine.FindBestPalette | tools/fmv_encode.c:227-228 | The in-place search computes the specified choice |
| Refine.Reassign | tools/fmv_encode.c:226-229 | The loop in place, with the number of tiles that moved |
| Refine.CountTiles | tools/fmv_encode.c:230 | `cnt` holds the true member counts |
| Refine.FindWorst | tools/fmv_encode.c:232-234 | The search for the donor |
| Refine.ReseedTurn | tools/fmv_encode.c:231-235 | One turn of the re-seeding loop |
| Refine.Reseed | tools/fmv_encode.c:231-235 | The loop in place, with the number of tiles it takes |
| Refine.RefinePass | tools/fmv_encode.c:224-237 | One pass: optimal reassignment, then tiles moved only to palettes left without one, at most one to each; true counts, no empty palette exactly if there are enough tiles, `changed` counts the tiles that moved to their best and those re-seeded |
| Planes.TileFromPixels | tools/gen_probe_dog.c:110-119 | Packed tiles with the same pixels are the same 32 bytes |
| Planes.OrPixelPlaces | tools/gen_probe_dog.c:112-118 | OR-ing a pixel into an empty place puts its four bits there and leaves every other pixel alone |
| Planes.PlanesOf | tools/gen_probe_dog.c:110-119 | In masks: the leftmost pixel is in the top bit, and its value's four bits are in bytes 2y, 2y + 1, 16 + 2y and 17 + 2y |
| Planes.SwizzleTile | tools/gen_probe_dog.c:110-119 | Unpacking the result gives back the low four bits of every pixel |
| Planes.OrInto | tools/fmv_encode.c:251-254 | The four OR-assignments, which the encoder's packing loop shares |
| Planes.PackedAlike | tools/gen_probe_dog.c:110-119 | Two cells pack to equal bytes exactly if their pixels are equal |
| Planes.SharedIffEqual | tools/gen_probe_dog.c:138-145 | Two cells share a table entry exactly if they show the same pixels |
| Planes.TableStep | tools/gen_probe_dog.c:139-145 | Mapping one more cell keeps the table free of duplicates, every tile used and every visited cell mapped |
| Planes.FindTile | tools/gen_probe_dog.c:141-142 | The known tile with the same bytes, or none if there is none |
| Planes.MapCell | tools/gen_probe_dog.c:139-145 | One turn of the inner loop |
| Planes.BuildMap | tools/gen_probe_dog.c:133-146 | For every image of at most 32 by 32 cells: no duplicate tile, no unused tile, every cell mapped to its pixels, other map entries 0 |
| Planes.LookupReproduces | tools/gen_probe_dog.c:133-146 | Looking any cell up in the finished table gives back its pixels |
| FmvMux.Reads16 | tools/fmv_demux.c:28-32 | Reading a little-endian 16-bit field gives back what was written, cut to 16 bits |
| FmvMux.Reads32 | tools/fmv_demux.c:29-36 | The same for 32 bits |
| FmvBlock.WriteBlock | tools/fmv_encode.c:259-268 | The block is the colour words of every palette with the shared backdrop first, the tile map and the tiles, each at its place, and nothing else |
| FmvBlock.WritePalettes | tools/fmv_encode.c:260-265 | The two nested loops write 16 colour words for each palette |
| FmvBlock.ColourBack | tools/fmv_encode.c:262-264 | A reader of the block finds the top five bits of every channel of every colour |
| FmvBlock.TileBack | tools/fmv_encode.c:266-267 | A reader of the block finds every tile's number and palette in the map and the tile's 32 bytes |
| FmvBlock.SameBlockIff | tools/fmv_encode.c:259-268 | Two frames of one shape have the same block exactly if they agree in tiles, map and the top five bits of every channel of every colour |
| FmvBlock.TileEntry | tools/fmv_encode.c:266 | On 16-bit words the shift and OR of a tile map entry is the sum that keeps tile number and palette apart, for at most 1024 tiles and 8 palettes |
| FmvBlock.ColourWord | tools/fmv_encode.c:263 | On 16-bit words the shifts and ORs of a colour are the sum that keeps the top five bits of each channel |
| FmvMux.WriteAudio | tools/fmv_encode.c:296-301 | A chunk is the next bytes of the source, silence once it has run out |
| FmvMux.BodyGrows | tools/fmv_encode.c:355-356 | A frame appended keeps all earlier frames in place |
| FmvMux.Mux | tools/fmv_encode.c:353-366 | The file is the header with the true frame count and then each frame's audio and video |
| FmvMux.ClipLayout | tools/fmv_encode.c:353-366 | A clip byte by byte: frame f behind the header and f frames, its audio first, silent where the source has run out, then its block |
| FmvDemux.ReadFrame | tools/fmv_demux.c:125-132 | Both parts of a frame, or none if either is short |
| FmvDemux.DemuxFrames | tools/fmv_demux.c:123-136 | Exactly the complete frames are split, at most as many as the header says |
| FmvDemux.Demux | tools/fmv_demux.c:61-144 | For any input bytes: refusal of short or foreign files, both headers, the complete frames split, the WAV sizes patched |
| FmvDemux.HeaderFields | tools/fmv_encode.c:287-293 | The demuxer reads back every field the encoder wrote |
| FmvDemux.VideoBack | tools/fmv_demux.c:129-134 | The video output of a muxed clip is its blocks, one after the other |
| FmvDemux.AudioBack | tools/fmv_demux.c:125-133 | The audio output of a muxed clip is the source, truncated or padded with silence |
| FmvDemux.RoundTrip | tools/fmv_demux.c:61-144 | Demuxing a muxed clip of any number of frames gives back header fields, blocks and audio |
| FmvDemux.SplitsAllFrames | tools/fmv_demux.c:118-136 | The number of frames written is the least of the header's count and the complete frames in the input |
| FmvDemux.SizesMatchIff | tools/fmv_demux.c:138-144 | The patched WAV sizes are the numbers of bytes written if and only if 36 plus the audio of the complete frames in the input is below 2^32 |
| FmvDemux.OverwritesInputIff | tools/fmv_demux.c:48-85 | With one argument the video goes to the input's own path exactly if that path ends in .fmv |
| FmvDemux.CutInputHasNoFrames | tools/fmv_demux.c:59-136 | If all that is left of the input is a header and less than one frame, the outputs hold their headers and nothing else |
| FmvDemux.CountIsTrueIff | tools/fmv_demux.c:96-97 | The FMV1 header counts the frames that follow it if and only if the input held all it announced |
| FmvDemux.Fmv1Fields | tools/fmv_demux.c:90-97 | The FMV1 header's name, width, height, rate and count, each at its place |
| FmvDemux.WavFields | tools/fmv_demux.c:99-116 | Every field of the WAV header at its place, with block size and byte rate that follow from channels, bits and rate |
| FmvDemux.OutputFields | tools/fmv_demux.c:66-116 | For any input that is split, the fields of both outputs are the input's own |
| FmvDemux.SplitLayout | tools/fmv_demux.c:123-136 | The outputs byte by byte: each frame's audio and block behind the headers, in frame order, and nothing else |
| FixedPoint.Isqrt64 | include/math/fixed_point.h:96-105 | The floor of the square root for every 64-bit number; no 64-bit operation on the way overflows |
| FixedPoint.DecideBit | include/math/fixed_point.h:99-103 | One turn decides one bit of the root |
| FixedPoint.RootUnique | include/math/fixed_point.h:92-95 | There is only one floor of a square root |
| FixedPoint.Sqrt | include/math/fixed_point.h:213-216 | The floor of the root in 2^-16ths, 0 up to 0 |
| FixedPoint.PerfectSquareExact | include/math/fixed_point.h:210-211 | Exact for perfect squares |
| FixedPoint.Rsqrt | include/math/fixed_point.h:218-227 | r^2 * x <= 2^48 < (r+1)^2 * x for x > 0, with r at least 362: the promised one per cent |
| FixedPoint.Normalize | include/math/vec3_q16.h:71-81 | Scaled by the reciprocal root if and only if 2^16 <= sum of squares < 2^63; otherwise unchanged |
| FixedPoint.NormalizeIsTight | include/math/vec3_q16.h:75-81 | The scaled vector is no longer than 1, up to the rounding of s, and a scale one unit larger would make it longer than 1 |
| FixedPoint.NormalizeOutputs | include/math/vec3_q16.h:46-48 | Each output is its scaled value rounded down; the cut to 32 bits loses nothing |
| FixedPoint.NormalizePrecisionIff | include/math/vec3_q16.h:71-81 | The reciprocal has at least k units exactly if k * k * s <= 2^48, with s the sum of squares over 2^16, and then the result is longer than k / (k + 1) |
| FixedPoint.NormalizeOneDigit | include/math/vec3_q16.h:71-81 | It has one unit exactly if 4 * s > 2^48, and then the squared length of the result is less than a half |
| FixedPoint.NormalizeFallsShort | include/math/vec3_q16.h:71-74 | Two vectors that come out short: one unscaled, one with length 0.7071 |
| WideArith.PartialsFit | include/math/fixed_point.h:268-280 | None of the four partial products leaves its word |
| WideArith.Q32MulIsFloor | include/math/fixed_point.h:271-283 | floor(a * b / 2^32) modulo 2^64, for all words |
| WideArith.Q48MulIsFloor | include/math/fixed_point.h:363-378 | floor(a * b / 2^16) modulo 2^64, for all words |
| WideArith.Q32ScaleRounds | include/math/fixed_point.h:289-303 | The floor for a scale of at least 0, the ceiling for a negative one, modulo 2^64 |
| WideArith.Q32ScaleOdd | include/math/fixed_point.h:289-303 | Odd in the scale |
| WideArith.LongDivision | include/math/fixed_point.h:305-313 | The truncated quotient of a * f splits into quotient and remainder parts |
| WideArith.DivExactIff | include/math/fixed_point.h:305-313 | The division is the truncated quotient of a * f by b, modulo 2^64, if and only if the remainder times f is a 64-bit word |
| WideArith.Q32DivExactIff | include/math/fixed_point.h:305-313 | For q32_div: if and only if the remainder is a signed 32-bit number |
| WideArith.Q48DivExactIff | include/math/fixed_point.h:380-385 | For q48_div: if and only if it is a signed 48-bit number |
| WideArith.Q32DivSafe | include/math/fixed_point.h:305-313 | Exact whenever |a| < 2^31 or |b| <= 2^31 |
| WideArith.Q32DivCommentTooWide | include/math/fixed_point.h:306-307 | The comment's |a| < 2^32 is too wide: 2^31 divided by 2^32 comes out negative |
| Matrices.MatMul | include/math/mat_q16.h:95-103 | Entry (i, j) of the product is row i applied to column j |
| Matrices.Compose | include/math/mat_q16.h:142-147 | The matrix is the product and the offset is A applied to B's offset |
| Matrices.ApplyIs | include/math/mat_q16.h:138-140 | Each component is the sum of floored products, cut to 32 bits once |
| Matrices.ApplyEntries | include/math/mat_q16.h:138-140 | The three components over the nine stored entries, row by row |
| Matrices.ProductEntry | include/math/mat_q16.h:95-103 | An entry of a product over the stored entries of both factors |
| Matrices.RowError | include/math/mat_q16.h:95-103 | Before any cut, the two orders of evaluation differ by less than the stated bound |
| Matrices.ComposeIsClose | include/math/mat_q16.h:138-147 | Absent 32-bit wrap, 65536 * |compose(A,B)(v) - A(B(v))| < 3 * size of v + 3 * size of A's row + 6 * 65536 in each component |
| Matrices.SmallMapsDoNotWrap | include/math/mat_q16.h:138-147 | With matrix entries up to 2.0 and coordinates up to 256.0 in magnitude nothing wraps, so the bound applies |
| Telnet.SplitAnywhere | examples/05_shell/host_tcp.c:33-38 | However the stream is cut into reads, output, replies and final state are the same |
| Telnet.NeverGrows | examples/05_shell/host_tcp.c:89-91 | The output grows by at most one byte for each byte read |
| Telnet.PayloadRun | examples/05_shell/host_tcp.c:70-77 | Inside a subnegotiation, a doubled 255 followed by 240 ends it and the rest of the payload is taken for data |
| Telnet.NoLeakIff | examples/05_shell/host_tcp.c:70-77 | Nothing leaks exactly if every adjacent 255, 240 in the payload is its very end |
| Telnet.StreamRun | examples/05_shell/host_tcp.c:39-81 | For any stream of data, commands, negotiations and subnegotiations: the output is the data plus what leaks, and each WILL and DO is answered by one refusal, in order |
| Telnet.FilterUndoesEncodingIff | examples/05_shell/host_tcp.c:39-81 | The filter undoes the encoding, with reads split anywhere, if and only if no subnegotiation leaks |
| Telnet.AnswersAreFinal | examples/05_shell/host_tcp.c:61-68 | The replies of one filter draw neither reply nor data from another |
| Telnet.CookedHasNoBareLf | examples/05_shell/host_tcp.c:128-151 | Whatever is written, in whatever pieces, no LF goes out without a CR before it |
| Telnet.CookedOnce | examples/05_shell/host_tcp.c:128-151 | Text that already has CR LF is sent as it is |
| Telnet.CookedIs | examples/05_shell/host_tcp.c:128-151 | The cooked output is the input, byte by byte in order, with one CR before each bare LF and nothing else |
| Telnet.CommandBytes | examples/05_shell/host_tcp.c:39-85 | In bytes: what every command does to the filter, what it answers, and that a subnegotiation ends at 255 240 alone |
| Telnet.TcpCtx.Filter | examples/05_shell/host_tcp.c:39-81 | The in-place filter is the specified fold, writes at most as many bytes as it reads and leaves the rest of the buffer alone |
| Telnet.TcpCtx.FilterByte | examples/05_shell/host_tcp.c:45-78 | The switch is one step of the fold |
| Telnet.TcpCtx.Read | examples/05_shell/host_tcp.c:83-119 | Return value and effect for every outcome of recv; a read of commands only returns 0 |
| Telnet.TcpCtx.Write | examples/05_shell/host_tcp.c:121-162 | A closed socket gives -5 and so does exactly the first send that fails for good; otherwise the bytes offered are the cooked input, and the return value is the number of bare LFs plus the length of the text after the last of them, which is n if and only if every bare LF comes before any other byte |
| Telnet.WireIsWholeIff | examples/05_shell/host_tcp.c:130-159 | What is offered reaches the wire whole exactly if every send takes all it is offered; no send is repeated |
| ShellHistory.History.Add | examples/05_shell/shell.c:487-492 | The newest entry of the log is the line, cut to its row; an empty line changes nothing |
| ShellHistory.History.Get | examples/05_shell/shell.c:494-501 | The i-th most recent non-empty line for every i below min(adds, HIST_N), nothing from there on, after any run of adds |
| ShellHistory.History.Fill | examples/05_shell/shell.c:287-291 | scpy into one row: the text cut to the row, NUL-terminated, other rows untouched |
| ShellEditor.StepKeeps | examples/05_shell/shell.c:1045-1208 | After every byte the text is a string that fits the buffer |
| ShellEditor.UpsShow | examples/05_shell/shell.c:1085-1100 | n Ups from a draft show entry min(n, count) - 1, unless a full entry comes first and is submitted |
| ShellEditor.DownsRestore | examples/05_shell/shell.c:1101-1111 | m Downs or more from entry m - 1 bring the draft back |
| ShellEditor.TypingAppends | examples/05_shell/shell.c:1198-1205 | Typing printable bytes appends them, and the byte that fills the buffer submits the line |
| ShellEditor.TypedLineIsSubmitted | examples/05_shell/shell.c:1125-1132 | A printable line and Enter submit exactly that line |
| ShellEditor.BackspaceUndoes | examples/05_shell/shell.c:1133-1145 | A byte typed and taken back leaves no trace, unless it filled the buffer |
| ShellEditor.ControlKeys | examples/05_shell/shell.c:1125-1207 | What Enter, backspace on an empty line, Ctrl-C, Ctrl-D, Ctrl-U and every other control byte leave |
| ShellEditor.TabAppends | examples/05_shell/shell.c:1165-1180 | A tab appends what completion found and submits the line exactly if that fills it |
| ShellEditor.OtherSequencesIgnored | examples/05_shell/shell.c:1070-1116 | A control sequence of any length whose final byte is neither Up nor Down changes nothing |
| ShellEditor.UpsThenDownsIff | examples/05_shell/shell.c:1034-1119 | k Ups and at least min(k, count) Downs, byte by byte through the escape parser, give the draft back and keep editing if and only if every entry passed is shorter than LINE_CAP - 1 |
| ShellEditor.Editor.LinesAreOk | examples/05_shell/shell.c:483-501 | Every line that can be recalled is a string that fits the buffer |
| ShellEditor.Editor.SetLine | examples/05_shell/shell.c:552-567 | The buffer holds the recalled text, NUL-terminated, and the length is its length |
| ShellEditor.Editor.RestoreDraft | examples/05_shell/shell.c:1106 | The same from the draft |
| ShellEditor.Editor.SaveDraft | examples/05_shell/shell.c:1091 | The draft holds the working text |
| ShellEditor.Editor.Up | examples/05_shell/shell.c:1085-1100 | The Up branch in place |
| ShellEditor.Editor.Down | examples/05_shell/shell.c:1101-1111 | The Down branch in place |
| ShellEditor.Editor.EscapeByte | examples/05_shell/shell.c:1070-1123 | The escape parser in place |
| ShellEditor.Editor.PlainByte | examples/05_shell/shell.c:1125-1207 | The editing keys in place |
| ShellEditor.Editor.ReadLine | examples/05_shell/shell.c:1034-1209 | The loop is the specified fold over the bytes; no byte is read after the line ends |
| ShellEditor.Editor.Prompt | examples/05_shell/shell.c:1921-1933 | A submitted line joins the history unless it is empty, as a cancelled one is |
| ShellTokens.WordsAreRuns | examples/05_shell/shell.c:1211-1226 | The words are maximal runs of non-blank bytes, in order |
| ShellTokens.EveryByteCovered | examples/05_shell/shell.c:1211-1226 | Every non-blank byte is in a word |
| ShellTokens.Tokenize | examples/05_shell/shell.c:1214-1226 | The first max_argv words are cut off in place: argv points at them, their ends are NUL, no other byte changes |
| ShellTokens.TakeWord | examples/05_shell/shell.c:1221-1223 | One turn of the loop |
| ShellTokens.TokenString | examples/05_shell/shell.c:1214-1226 | Each argv entry is its word as a NUL-terminated string |
| ShellTokens.TokenBytes | examples/05_shell/shell.c:1214-1226 | The same over raw bytes: an entry is where its word starts, the word's bytes stand there and a NUL where it ended |
| ShellTokens.FindTokenStart | examples/05_shell/shell.c:867-874 | Where the word at the cursor starts, or the cursor |
| ShellTokens.FindTokenIndex | examples/05_shell/shell.c:876-890 | The number of words before the one at the cursor |
| ShellTokens.CursorAgrees | examples/05_shell/shell.c:870-890 | Both agree with tokenizing the text before the cursor |
| ShellTokens.SplitUndoesJoin | examples/05_shell/shell.c:1214-1226 | Splitting any words joined by blanks gives the words back |
| ShellComplete.CompList.Add | examples/05_shell/shell.c:732-759 | The name joins the list unless the list or the pool is full or it is there; earlier names stay intact and distinct |
| ShellComplete.CompList.Has | examples/05_shell/shell.c:739-752 | Whether the name is in the list |
| ShellComplete.CompList.CommonPrefixLen | examples/05_shell/shell.c:789-805 | How far all candidates agree, and no further |
| ShellComplete.AgreementIsLongest | examples/05_shell/shell.c:789-805 | Exactly the prefixes of that length or less are common prefixes |

## Left out

- Bitset.Bitset.LowestClear: a word is 32 flags, so the bit tricks of `bits_ctz32` and of the masks are not modelled; population count and first-set search are not either.
- Of the ring, `spsc_ring_count`, `_empty` and `_full` are best-effort observers and left out.
- Scheduler.Kernel.GoToSleep: interleavings of a tick between the stores of `do_sleep`, the semaphores and the idle task's polling loop are not modelled; ticks do not wrap.
- AudioArbiter.Arbiter.Play: gain, pan, loop and priority parameters pass through to the sink and are not modelled; reference counts do not wrap.
- FixedPoint.Normalize: signed overflow is undefined in C; the model wraps.
- ShellEditor.Editor.ReadLine: echo and redraw output, waiting for input and read errors are not modelled.
- The sample-rate setter and getters of the pool, the arbiter's introspection calls, and its planned priorities and muting.
- The encoder's frame sources, copying a tile's pixels out of the image, the initial clustering of tiles by average colour, dithering, the error statistic, previews and progress output; the encoder's packing loop beyond the OR step it shares with the tile generator.
- Reading candidates from directories, splitting a partial path, and applying a completion to the line.
- Floating-point conversions, CORDIC trigonometry, 16- and 31-bit formats, saturating operations, and `q32_reciprocal`, which inherits the overflow of `q32_div`.
- The virtual machine, file system, tree containers, mixer, picture processing unit, and everything that only forwards to the host.
