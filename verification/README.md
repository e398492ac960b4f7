# Verified models of the DMA compiler and the serial boot loader

This project models, in Dafny, the parts of the repository whose correctness is hardest to see from the code, and proves what they promise.

- **The DMA arithmetic compiler** (`bcm2835/dma`). Its emitters write chains of DMA control blocks that change their own later blocks: operand bytes are scattered into SRC fields, so that each later copy becomes a table lookup, and carries travel as selector bytes. The model has a DMA machine after section 4.2.1 of the BCM2835 ARM Peripherals manual and `bcm2835/errata.txt` (a block without SRC_INC draws its bytes from one 128-bit line; the row field is one less than the rows), the tables and the loops that fill them, the emit context, the arena and the emitters. The main theorem, `ArithRuns.ArithmeticRuns`, is compiler correctness over self-modifying code for any sequence of library calls.
- **The LZMA2 decoder** (`pup/xz-embedded`, multi-call mode with the ARM filter, as built). A ring dictionary that refines an unbounded history, an adaptive range decoder with a tight bound on its input, the symbol decoder, the resumable chunk layer, and the resumable branch filter. The range decoder is proved against an encoder's interval arithmetic, so that the results are round trips: a stream written by an encoder decodes to what it means, is never refused, and ends exactly, however its bytes arrive and its output is taken (`Lzma2.Decoder.Decode`, and with the filter on top `Bcj.Filter.Run`).
- **The wire protocol** (`pup/fsm.c`): checksums, frames and acknowledgements as byte strings, and the transfer as steps of host, device and a channel that loses, duplicates and reorders: what every run keeps, and that from wherever a run has led the upload can still succeed.
- **Placement on the device** (`pup/bcm2835.c`, `pup/elf_loader.c`): streaming an image over the running loader, its CRC, the memory map and the ELF loader operations.
- **Two kernels**: the software-pipelined memory hash, and the reconstruction of cycle counts.

## Layout

| files | what they hold |
|---|---|
| `Shared` | optional values, slices |
| `Memory`, `DmaMachine`, `Chains`, `Walks`, `Scatter` | memory, the DMA engine, blocks in memory with SRC bytes left open, and walks over chains |
| `Numbers`, `Tables`, `TableInit` | numbers as byte strings, what the tables hold, the initializers |
| `Arith*` , `DmaProgram`, `DmaCompound` | what each chain does when it runs; lists of chains; negation and long shifts |
| `Emit`, `Emitters`, `EmitProgram`, `Arena`, `ArithProgram`, `EmitArith`, `ArithRuns` | emission, allocation, and emission followed by execution |
| `Dictionary`, `RangeCoder`, `RangeDecoder`, `LzmaCode`, `LzmaSymbols`, `LzmaContexts`, `LzmaDecoder`, `LzmaStreams`, `LzmaHonest`, `LzmaEncoder`, `Lzma2Format`, `Lzma2`, `Lzma2Runs`, `Bcj` | the decoder, with the encoder it is measured against |
| `Crc`, `Fcs`, `Frame`, `Protocol`, `ProtocolRuns`, `WireExamples` | the wire |
| `Placement`, `MemoryMap`, `ElfLoad` | the device side |
| `HashKernel`, `HashTells`, `CycleTime` | the kernels |

Objects that the source updates in place are classes whose methods state their whole new state; the ghost fields (`hist`, `sent`, `delivered`, `chunk`, `syms`, `data`) are the histories that the properties speak about.

## Findings

Some properties that one would expect do not hold of the code. Each is kept as the code has it, with the exact condition under which it does hold.

- `SET_TRUTH_TABLES` stores one entry unscaled: a comparison with `ICF_X4` and without `ICF_INV` yields 4 or 0 as promised if and only if it is not a `Geu` that holds, which yields 1 (`ArithCmp.ScaledUnlessGeu`, over the macro's stores in `TableInit.SetTruthTables`).
- `Add` and `Sub` accept width 1, where they also write the byte behind their result: it survives if and only if it was the selector that the lookup yields (`ArithInt.AddOneSpills`). The sum is right at every width (`ArithInt.AddRuns`).
- `Srl` shifts in the upper half of its buffer; it is right exactly when the bytes shifted in are zero (`DmaCompound.SrlCorrectIff`), as they stay in the zeroed arena (`ArithRuns.ArithmeticRuns`).
- `Neg` asks for an alignment of 3 at width 3, which the arena refuses (`Arenas.NegWidths`).
- Chunk numbers are 16 bits wide: a file arrives whole in all runs if and only if it has at most 65535 * 65536 bytes (`Protocol.WholeExactlyBelowLimit`).
- The relocation stub is aligned after the space check. An accepted image makes it end behind memory if and only if the padding exceeds what the check found left, which some image does if and only if the stub's size modulo 4 is 1 or 2 (`Placement.StubFits`, `Placement.StubSticksOut`, `Placement.StubSafeExactly`). A stub of whole ARM instructions never meets this.
- `allocate_space` subtracts unsigned and may return an address behind the allowed range (`MemoryMap.BeyondTheEnd`): where nothing wraps around, if and only if the last range straddles the end, every gap before it is too small, and the block would end inside from where the search stands in front of it (`MemoryMap.SearchIsRight`, `MemoryMap.FooledByStraddler`). A segment over the start of the running loader then puts the second stage into the loader (`ElfLoad.SecondStageInLoader`); if no segment, and not the copy of the file, crosses an edge of the loader, it is apart from all three (`ElfLoad.BootSpotIsRight`).
- The memory hash reads bytes in front of its region unless the region touches a multiple of 32 (`HashKernel.HashMemory`).
- The comment in `xz_dec_lzma2.c` says that `pos <= limit` always holds. One stored byte behind a reset breaks it (`Dictionary.PastTheLimit`); after `dict_uncompressed` it holds if and only if the place reached around the ring is within the old limit (`Dictionary.Dict.Uncompressed`), and after `dict_limit`, `dict_put`, `dict_repeat` and `dict_flush` it holds (`Dictionary.Dict.Limit`, `Put`, `Repeat`, `Flush`).
- The comment on `is_rep0_long` in `xz_dec_lzma2.c` says that a one stands for a copy of one byte; in the code, and here, a zero does (`LzmaContexts.RepContext`).
- A dictionary reset keeps the kind of the last symbol: behind a chunk that ends in a copy, control byte 1 leaves a state that is no literal's and no byte for rep0 to reach (`Lzma2Runs.ResetBehindChunk`, `Lzma2Runs.RepeatedByte`). Until the next properties byte rep0 < full holds behind a copy if and only if enough bytes have been stored since (`Lzma2.Decoder.ReachesExactly`); in every other state it holds (`Lzma2.Decoder.NonLiteralReaches`).

## Model

| member | source | states |
|---|---|---|
| `DmaMachine.RunCompose` | bcm2835/dma/private.h:96-133 | Running j and then k blocks is running j + k blocks: the machine that fetches a block, transfers byte by byte and goes on to `next_cb` until that is 0 |
| `Emit.PutBlocksIsCode` | bcm2835/dma/emit.h:158-217 | Whatever memory held before, the emitted words read back as the blocks that were meant, and nothing outside them moved |
| `Emit.StoredLoads` | bcm2835/dma/emit.h:158-217 | Clearing a block and then storing its six words is the block meant, and the engine loads it there |
| `Emit.EmitCtx.EmitWith` | bcm2835/dma/emit.h:202-217 | After clearing the block and storing its fields, the engine loads exactly these words there, with the place behind the block as successor and no stride, and no other byte moved |
| `Emit.EmitCtx.EmitStridedWith` | bcm2835/dma/emit.h:158-184 | The same in 2D mode: the row field holds one less than the rows, and the strides are packed modulo 2^16 |
| `Emit.EmitCtx.Emit` | bcm2835/dma/emit.h:220-224 | When the engine comes to the block, one step copies `len` bytes with both addresses counting up and goes on behind it |
| `Emit.EmitCtx.EmitStrided` | bcm2835/dma/emit.h:186-197 | When the engine comes to the block, one step moves the rows, each start one row and the signed stride behind the last, and goes on behind it |
| `Emit.EmitCtx.Branch` | bcm2835/dma/emit.h:144-148 | From the last block the engine goes on at the target; the rest of that block is loaded as before, and no byte outside its successor moved |
| `Emit.EmitCtx.End` | bcm2835/dma/emit.h:149-153 | Behind the last block the engine halts: no further step does anything, and no byte outside its successor moved |
| `Emit.RebranchLast` | bcm2835/dma/emit.h:144-153 | Redirecting the last block afterwards gives the same memory as emitting it with the other successor |
| `Scatter.ScatterStep` | bcm2835/dma/emit.h:186-197 | One 2D block puts byte k of an operand into the chosen SRC byte of the k-th target block and touches nothing else |
| `Walks.ChainRun` | bcm2835/dma/arith_int.c:68-85 | The carry walk over self-modified blocks: each lookup writes its digit and the next selector, the selector is copied into the next lookup, and every block is visited once |
| `Numbers.RippleCorrect` | bcm2835/dma/arith_int.c:56-105 | Digits produced byte by byte with carries (or borrows) in selectors form lhs + rhs (or lhs - rhs) modulo 256^w |
| `Numbers.LastCarry` | bcm2835/dma/arith_int.c:56-105 | The final carry is the quotient by 256^w |
| `Numbers.BorrowIsLess` | bcm2835/dma/arith_cmp.c:24-32 | The final borrow says whether lhs < rhs |
| `Numbers.GesCorrect` | bcm2835/dma/arith_cmp.c:100-134 | The four-state automaton run from the high byte down ends in less, greater or equal as two's-complement comparison says |
| `Numbers.SignedIsTwosComplement` | bcm2835/dma/arith.h:121-145 | The signed value used above is the unsigned one, less 256^w if the top bit is set |
| `Numbers.BitwiseCorrect` | bcm2835/dma/arith_bit.c:52-128 | And, or and xor byte by byte are and, or and xor of the whole numbers, and every bit of the result is "and", "or" or "differ" of the bits at its place |
| `Numbers.BitwiseBits` | bcm2835/dma/arith_bit.c:52-128 | On numbers of any size, bit by bit |
| `Numbers.OnBytesIs` | bcm2835/dma/arith_bit.c:52-128 | The operators `&`, `|` and `^` on bytes are these operations on numbers |
| `Numbers.NotCorrect` | bcm2835/dma/arith_bit.c:16-41 | Complementing every byte gives 256^w - 1 - x |
| `Numbers.SllCorrect` | bcm2835/dma/arith_sxx.c:17-56 | Byte pairs looked up by shift amount form the number times 2^s modulo 256^w |
| `Numbers.SrlCorrect` | bcm2835/dma/arith_sxx.c:93-127 | Byte pairs looked up by shift amount form the floor of the number by 2^s, for any top byte shifted in |
| `Numbers.ShiftSplit` | bcm2835/dma/arith_sxx.c:59-80 | A shift by (shift mod 8w) is a shift by (shift mod 8) bits and by (shift / 8 mod w) bytes |
| `ArithBit.NotRuns` | bcm2835/dma/arith_bit.c:22-41 | Running the emitted chain stores the complement, visits its blocks once each, and changes only the result and its own SRC bytes |
| `ArithBit.BitRuns` | bcm2835/dma/arith_bit.c:59-128 | The same for and, or and xor, also when the result lies on an operand: every bit of every byte stored is "and", "or" or "differ" of the operands' bits at its place |
| `ArithInt.IncRuns` | bcm2835/dma/arith_int.c:28-45 | The same for x + 1 modulo 256^w |
| `ArithInt.AddRuns` | bcm2835/dma/arith_int.c:67-125 | The same for lhs + rhs and lhs - rhs modulo 256^w, for every width from 1 on, also when the result lies on an operand; at width 1 the last copy takes the selector along, so the byte behind the result is written too |
| `ArithInt.AddOneRuns` | bcm2835/dma/arith_int.c:67-125 | At width 1 the two bytes written are the digit and the selector that the lookup yields |
| `ArithInt.AddOneSpills` | bcm2835/dma/arith_int.c:67-125 | So the byte behind a one-byte result survives if and only if it was that selector |
| `ArithCmp.CmpCorrect` | bcm2835/dma/arith_cmp.c:24-134 | Each selector automaton accepts exactly when the comparison holds, both directions |
| `ArithCmp.CmpRuns` | bcm2835/dma/arith_cmp.c:34-164 | Running `Geu`, `Equ` or `Ges` (the last through backward branches) stores the table's verdict for the compared numbers |
| `ArithCmp.ScaledUnlessGeu` | bcm2835/dma/arith_cmp.c:9-32 | In the tables that the macro leaves, the entry a comparison reads is the promised one (4 or 1 if it holds, the other way round if inverted, 0 otherwise) if and only if it is not a scaled, uninverted `Geu` that holds: that entry is 1 |
| `ArithCmp.EntryIsVerdict` | bcm2835/dma/arith_cmp.c:9-32 | Entry by entry: what the stores of `SET_TRUTH_TABLES` and of `Ges` leave is the verdict, except the one entry stored unscaled |
| `ArithCmp.CmpResultIs` | bcm2835/dma/arith_cmp.c:24-134 | The entry at the automaton's last state, in terms of the numbers compared |
| `ArithShift.ShiftRuns` | bcm2835/dma/arith_sxx.c:27-56 | `Sll8`, `Srl8` and `Sra8` store the number shifted by (shift mod 8) bits, for every width from 2 on |
| `ArithPick.ZeroRuns` | bcm2835/dma/arith_sxx.c:73-73 | The clearing block stores zeros |
| `ArithPick.SignFillRuns` | bcm2835/dma/arith_sxx.c:230-235 | The sign bytes are drawn from the sixteen bytes that a block without SRC_INC reads over and over, so any width below 128 is filled |
| `ArithPick.PickRuns` | bcm2835/dma/arith_sxx.c:76-79 | The three blocks that look up the byte shift and then copy a window of the double-width buffer |
| `DmaProgram.OpRuns` | bcm2835/dma/arith.h:55-145 | Every single chain performs its integer operation on memory |
| `DmaProgram.ProgramRuns` | bcm2835/dma/emit.h:123-224 | Any list of chains closed by `End`: the engine halts after visiting every block exactly once, memory outside the code is as if the integer operations had been done in order, the code changed in SRC bytes only, and it is a program again |
| `DmaProgram.ProgramReruns` | bcm2835/dma/arith_int.c:67-125 | The chains left by a run are again correct for fresh operands |
| `DmaCompound.NegComputes` | bcm2835/dma/arith_int.c:136-151 | `Neg` stores the two's complement |
| `DmaCompound.SllComputes` | bcm2835/dma/arith_sxx.c:58-80 | `Sll` stores x * 2^(shift mod 8w) modulo 256^w, for every shift byte |
| `DmaCompound.SrlComputes` | bcm2835/dma/arith_sxx.c:129-153 | `Srl` stores the quotient with whatever the upper half of its buffer held above it |
| `DmaCompound.SrlCorrectIff` | bcm2835/dma/arith_sxx.c:129-153 | `Srl` stores x / 2^(shift mod 8w) if and only if the bytes shifted in from the upper half are zero |
| `DmaCompound.SraComputes` | bcm2835/dma/arith_sxx.c:212-243 | `Sra` stores the floor of the signed quotient by 2^(shift mod 8w) |
| `Emitters.EmitNot` | bcm2835/dma/arith_bit.c:22-41 | The emitter leaves exactly the blocks of the chain, linked behind one another |
| `Emitters.EmitBitwise` | bcm2835/dma/arith_bit.c:59-128 | The same for and, or, xor |
| `Emitters.EmitInc` | bcm2835/dma/arith_int.c:28-45 | The same for `Inc` |
| `Emitters.EmitAddSub` | bcm2835/dma/arith_int.c:67-125 | The same for `Add` and `Sub` |
| `Emitters.EmitForward` | bcm2835/dma/arith_cmp.c:34-95 | The same for `Geu` and `Equ` |
| `Emitters.EmitGes` | bcm2835/dma/arith_cmp.c:136-164 | The same for `Ges`, whose blocks are redirected backwards after they are emitted |
| `Emitters.EmitShift8` | bcm2835/dma/arith_sxx.c:27-210 | The same for `Sll8`, `Srl8`, `Sra8` |
| `EmitProgram.EmitAll` | bcm2835/dma/emit.h:123-224 | Emitting operations one by one and calling `End` leaves the compiled program |
| `EmitProgram.EmittedRuns` | bcm2835/dma/emit.h:123-224 | From emission to execution: over ready tables, running what was emitted performs the operations |
| `Arenas.MaskRoundsDown` | bcm2835/dma/emit.h:281-282 | Masking with the negated power of two rounds down to a multiple |
| `Arenas.Arena.Alloc` | bcm2835/dma/emit.h:273-295 | The piece handed out is the first aligned one from the pointer on, the pointer moves behind it, so pieces never overlap |
| `Arenas.MakeSelect` | bcm2835/dma/arith_sxx.c:66-71 | The loop fills the table of byte shifts for a width |
| `Arenas.SelectMade` | bcm2835/dma/arith_sxx.c:66-71 | A table made in free arena space joins the tables that the chains rely on |
| `Arenas.EmitShift` | bcm2835/dma/arith_sxx.c:58-243 | `Sll`, `Srl`, `Sra`: the table is filled, the buffer allocated, and the three operations emitted behind one another |
| `Arenas.EmitNeg` | bcm2835/dma/arith_int.c:136-151 | `Neg`: the buffer is allocated and the two operations emitted |
| `Arenas.NegWidths` | bcm2835/dma/arith_int.c:145-147 | The alignment that `Neg` asks for is a power of two exactly when the width is not 3 |
| `ArithProgram.LoweredAgrees` | bcm2835/dma/arith_sxx.c:58-243 | Seen by a client, the lowered operations with their buffers do what the calls promise, and `Srl` finds its upper half clear again |
| `EmitArith.EmitProgramOf` | bcm2835/dma/arith.h:55-145 | Any sequence of library calls, with tables and buffers allocated in between, leaves one program over the tables made |
| `ArithRuns.ImageLoaded` | bcm2835/dma/private.c:125-131 | Emission over ready tables and a zeroed arena leaves a program in working order and no client byte changed |
| `ArithRuns.ArithmeticRuns` | bcm2835/dma/arith.h:55-145 | Any sequence of calls of the whole library (single chains, `Neg`, `Sll`, `Srl`, `Sra`): the engine halts after each block once, the client's memory is as if the calls had been done in order, and the program is in working order again |
| `ArithRuns.LoadedStays` | bcm2835/dma/emit.h:123-224 | Client data written between runs keep it in working order |
| `TableInit.FillHyper` | bcm2835/dma/arith_int.c:56-105 | The nested loops store the formulas as written (shifted 16-bit pairs, truncated to bytes), and with that one column group of HYPER holds what the chains rely on, in all 65536 rows; nothing else changes |
| `TableInit.StoredIsContent` | bcm2835/dma/arith_int.c:56-105 | The formulas stored (`(r >> 8)`, `(i << s) >> 8`, 16-bit wrap-around, `&`, `|`, `^`) are digit, carry, borrow, bit operation, shifted byte and automaton transition |
| `TableInit.FillInc` | bcm2835/dma/arith_int.c:16-26 | The loop fills the increment rows of SUPER |
| `TableInit.FillNot` | bcm2835/dma/arith_bit.c:16-20 | The loop fills NOT |
| `TableInit.FillTruth` | bcm2835/dma/arith_cmp.c:9-134 | The macro with the arguments of each comparison, and the stores of `Ges`, leave the truth tables of that comparison in all four forms |
| `TableInit.SetTruthTables` | bcm2835/dma/arith_cmp.c:9-19 | The eight stores of the macro, as written: in the scaled, uninverted table `b0` is stored unscaled |
| `TableInit.FillPages` | bcm2835/dma/arith_sxx.c:17-173 | The select and sign tables of the shifts |
| `TableInit.FillSra` | bcm2835/dma/arith_sxx.c:177-183 | The table of arithmetic shifts of the top byte |
| `TableInit.FootDisjoint` | bcm2835/dma/private.c:8-20 | Different initializers write different addresses |
| `TableInit.RunInitializers` | bcm2835/dma/private.c:8-20 | Run in any order, each initializer's table holds at the end |
| `TableInit.AllFactsReady` | bcm2835/dma/private.c:8-20 | Together they establish everything the chains rely on |
| `Dictionary.Dict.Reset` | pup/xz-embedded/xz_dec_lzma2.c:289-297 | The history becomes empty |
| `Dictionary.Dict.Limit` | pup/xz-embedded/xz_dec_lzma2.c:303-309 | The room up to the limit is the lesser of the room in the ring and the wanted amount; the position is within it |
| `Dictionary.Dict.Get` | pup/xz-embedded/xz_dec_lzma2.c:323-331 | The ring yields the byte of the unbounded history at that distance, and 0 for an empty one |
| `Dictionary.Dict.Put` | pup/xz-embedded/xz_dec_lzma2.c:336-342 | The history grows by the byte |
| `Dictionary.Dict.Repeat` | pup/xz-embedded/xz_dec_lzma2.c:349-374 | Fails exactly when the distance reaches outside history or ring; otherwise the history grows by the LZ77 copy, self-overlap and wrap-around included, cut at the limit |
| `Dictionary.Dict.Uncompressed` | pup/xz-embedded/xz_dec_lzma2.c:377-428 | Input passes to output and history alike until one of the three is exhausted, exactly as many bytes as the least of them; the position ends that far around the ring, and within the limit if and only if that place is |
| `Dictionary.PastTheLimit` | pup/xz-embedded/xz_dec_lzma2.c:377-428 | One stored byte behind a reset leaves position 1 and limit 0 |
| `Dictionary.Dict.Flush` | pup/xz-embedded/xz_dec_lzma2.c:436-452 | Everything of the history that was not delivered goes to the output, and the ring starts over when it is full |
| `Dictionary.CopyPeriodic` | pup/xz-embedded/xz_dec_lzma2.c:349-374 | What a copy appends repeats the byte dist + 1 places before, also where it reads its own output |
| `Dictionary.CopySplit` | pup/xz-embedded/xz_dec_lzma2.c:349-374 | A copy interrupted at the limit and resumed is the whole copy |
| `RangeCoder.SymbolBytes` | pup/xz-embedded/xz_dec_lzma2.c:18-25 | From any reachable range and any probabilities, the decisions of a symbol take at most 20 bytes, and the normalization behind it at most one more |
| `LzmaContexts.ZeroShare` | pup/xz-embedded/xz_dec_lzma2.c:528-547 | A probability is the share of a zero in 2048 parts of the range, but for rounding, and the two shares leave nothing else |
| `LzmaContexts.PartsOfInterval` | pup/xz-embedded/xz_dec_lzma2.c:528-596 | A zero takes the lower part of the interval and a one all the rest; even odds take a half each |
| `LzmaContexts.Adapts` | pup/xz-embedded/xz_dec_lzma2.c:528-547 | The two ways to learn mirror one another; exactly 2017 and 31 are where they stand still |
| `LzmaContexts.TeachesItsOwn` | pup/xz-embedded/xz_dec_lzma2.c:528-547 | A decision moves the probability it was taken under towards itself, and no other |
| `RangeCoder.StepTracks` | pup/xz-embedded/xz_dec_lzma2.c:509-596 | A decoder in step with the encoder reads a bit exactly when the input lies in the encoder's narrowed interval |
| `RangeCoder.DecodesEncoded` | pup/xz-embedded/xz_dec_lzma2.c:509-596 | The round trip of the range coder: on every input in the final interval the decoder takes the encoder's decisions one by one |
| `LzmaCode.SlotRound` | pup/xz-embedded/xz_dec_lzma2.c:683-712 | Slots and low bits of distances fit together |
| `LzmaSymbols.SymbolPiece` | pup/xz-embedded/xz_dec_lzma2.c:603-747 | Every symbol is at most 22 modelled and 26 direct decisions, or 23 modelled ones, inside the probability table |
| `LzmaContexts.TableTiled` | pup/xz-embedded/xz_dec_lzma2.c:156-212 | The arrays of probabilities follow one another and fill the table |
| `LzmaContexts.DistContext` | pup/xz-embedded/xz_lzma2.h:135-151 | Two matches look up their slots under the same probability if and only if their lengths are equal or both at least 5 |
| `LzmaContexts.LenContext` | pup/xz-embedded/xz_lzma2.h:110-122 | Lengths take 4, 5 or 10 decisions by their range; two of them end in the same tree if and only if they are of one range, and of one place modulo 2^pb unless they are long |
| `LzmaContexts.KindContext` | pup/xz-embedded/xz_dec_lzma2.c:761-783 | Literal or copy is asked under the same probability if and only if the last kinds are the same and the places agree modulo 2^pb |
| `LzmaContexts.RepContext` | pup/xz-embedded/xz_dec_lzma2.c:719-750 | Likewise for whether a distance is new, which one is used again, and whether for one byte only |
| `LzmaContexts.LiteralContext` | pup/xz-embedded/xz_dec_lzma2.c:603-609 | Two literals use the same coder if and only if the lc highest bits of the bytes before and the lp lowest bits of the places agree; different coders share nothing |
| `LzmaContexts.MatchedContext` | pup/xz-embedded/xz_dec_lzma2.c:612-647 | Where each bit of a literal behind a copy is looked up: it follows the byte that the copy would have gone on with as long as the bits agree |
| `LzmaContexts.TreeDescends` | pup/xz-embedded/xz_dec_lzma2.c:550-563 | A tree is walked from its root to the child chosen, and tells the bits from the highest to the lowest |
| `LzmaContexts.ReverseDescends` | pup/xz-embedded/xz_dec_lzma2.c:566-580 | A reverse tree from the lowest to the highest |
| `LzmaContexts.SlotIs` | pup/xz-embedded/xz_lzma2.h:153-159 | A slot is twice the place of the highest bit of the distance, and one more if the bit below is set |
| `LzmaContexts.SpecialTiled` | pup/xz-embedded/xz_dec_lzma2.c:683-712 | The trees for the low bits of distances below 128 follow one another and fill their array |
| `LzmaContexts.RestContext` | pup/xz-embedded/xz_dec_lzma2.c:683-712 | Distances below 128 are told by learned decisions alone, the others by even ones down to the last four bits |
| `LzmaContexts.StateIsName` | pup/xz-embedded/xz_lzma2.h:41-99 | Behind any symbols the state is the one whose name says what the last kinds were |
| `LzmaContexts.MovesToFront` | pup/xz-embedded/xz_dec_lzma2.c:677-750 | A new distance comes in front of the recent four and the oldest is lost; one that is used again moves to the front |
| `LzmaContexts.SymbolMeans` | pup/xz-embedded/xz_dec_lzma2.c:753-792 | What each symbol does to the history: a byte, one repeated byte, or a stretch each byte of which is the one that far back |
| `LzmaContexts.PropsExactly` | pup/xz-embedded/xz_dec_lzma2.c:831-871 | The properties that are taken are exactly those for which sixteen literal coders and sixteen places are enough |
| `LzmaSymbols.SymbolIsShort` | pup/xz-embedded/xz_dec_lzma2.c:18-25 | No symbol takes more than 20 bytes of input, and 21 with the closing normalization |
| `LzmaSymbols.SymbolUnique` | pup/xz-embedded/xz_dec_lzma2.c:753-792 | No input spells two different symbols |
| `LzmaSymbols.StreamUnique` | pup/xz-embedded/xz_dec_lzma2.c:753-792 | Of two streams that one input spells, one is a prefix of the other |
| `LzmaSymbols.DecodesWhatWasSent` | pup/xz-embedded/xz_dec_lzma2.c:753-792 | What a decoder finds in an encoder's bytes is what was sent |
| `RangeDecoder.Rc.NormalizeRange` | pup/xz-embedded/xz_dec_lzma2.c:509-516 | One byte at most, after which the range is at least 2^24 |
| `RangeDecoder.Rc.Bit` | pup/xz-embedded/xz_dec_lzma2.c:528-547 | One modelled decision, with the probability moved |
| `RangeDecoder.Rc.BitTree` | pup/xz-embedded/xz_dec_lzma2.c:550-563 | The tree decisions that spell the symbol returned |
| `RangeDecoder.Rc.BitTreeReverse` | pup/xz-embedded/xz_dec_lzma2.c:566-580 | The reverse tree decisions that spell the value |
| `RangeDecoder.Rc.Direct` | pup/xz-embedded/xz_dec_lzma2.c:583-596 | The even decisions that spell the value appended |
| `LzmaDecoder.Lzma.LiteralProbs` | pup/xz-embedded/xz_dec_lzma2.c:603-609 | The literal coder for position and previous byte, inside the table |
| `LzmaDecoder.Lzma.Literal` | pup/xz-embedded/xz_dec_lzma2.c:612-647 | The decisions spell the byte put, with or without a match byte, and the state moves on |
| `LzmaDecoder.Lzma.Len` | pup/xz-embedded/xz_dec_lzma2.c:650-674 | The decisions spell a length from 2 to 273 |
| `LzmaDecoder.Lzma.Match` | pup/xz-embedded/xz_dec_lzma2.c:677-713 | The decisions spell length and distance, with a tree of slots for each of the lengths 2, 3 and 4 and one for all others; the older distances move down |
| `LzmaDecoder.Lzma.RepMatch` | pup/xz-embedded/xz_dec_lzma2.c:719-750 | The decisions spell which of the four distances is repeated; it moves to the front |
| `LzmaDecoder.Lzma.Round` | pup/xz-embedded/xz_dec_lzma2.c:761-783 | One symbol is read and carried out; it fails exactly for a copy from outside the window |
| `LzmaDecoder.Lzma.RunSymbols` | pup/xz-embedded/xz_dec_lzma2.c:753-792 | `lzma_main`: the input spells the symbols carried out, one after the other up to the dictionary or input limit, or a copy from outside the window; nothing behind 21 bytes past the limit is read |
| `LzmaStreams.RunMoved` | pup/xz-embedded/xz_dec_lzma2.c:878-957 | Only the bytes that were taken matter, wherever they lie |
| `LzmaStreams.DecodedOn` | pup/xz-embedded/xz_dec_lzma2.c:878-957 | A piece that begins behind a normalization continues the piece before it |
| `LzmaStreams.Absorb` | pup/xz-embedded/xz_dec_lzma2.c:878-957 | What a run over any buffer adds to a chunk |
| `LzmaHonest.BlockedIsNotGenuine` | pup/xz-embedded/xz_dec_lzma2.c:878-957 | If decoding stops at a copy from outside the window, no encoder wrote the chunk |
| `LzmaHonest.RunFindsSent` | pup/xz-embedded/xz_dec_lzma2.c:878-957 | In an encoder's chunk a run finds what was sent and takes no byte from behind the chunk |
| `LzmaHonest.AllFound` | pup/xz-embedded/xz_dec_lzma2.c:1108-1119 | Once all announced bytes are there, all symbols have been found, all of the chunk is taken, and the code is zero |
| `Lzma2.Decoder.LzmaChunk` | pup/xz-embedded/xz_dec_lzma2.c:878-957 | `lzma2_lzma`: however the input is cut, the bytes of the chunk are taken one after the other, what has been decoded is what they spell, and a chunk that an encoder wrote is never refused |
| `Lzma2.Decoder.ControlByte` | pup/xz-embedded/xz_dec_lzma2.c:970-1046 | Which control bytes are refused, exactly, and what each of the others resets and expects next |
| `Lzma2.Decoder.UncompressedByte` | pup/xz-embedded/xz_dec_lzma2.c:1048-1058 | The announced size, most significant part first |
| `Lzma2.Decoder.CompressedByte` | pup/xz-embedded/xz_dec_lzma2.c:1060-1070 | The compressed size, and where the header leads |
| `Lzma2.Decoder.PropsByte` | pup/xz-embedded/xz_dec_lzma2.c:831-871 | Accepted exactly for pb, lp, lc in range; the state is reset |
| `Lzma2.PropsUnique` | pup/xz-embedded/xz_dec_lzma2.c:831-871 | The properties byte determines lc, lp and pb |
| `Lzma2.Decoder.ReadInit` | pup/xz-embedded/xz_dec_lzma2.c:480-491 | Five bytes, resumable at any of them |
| `Lzma2.Decoder.RunStep` | pup/xz-embedded/xz_dec_lzma2.c:1092-1125 | A chunk that an encoder wrote for the announced size is never an error, stays one across calls, and ends with exactly its symbols, its bytes and its history |
| `Lzma2.Decoder.CopyStep` | pup/xz-embedded/xz_dec_lzma2.c:1127-1135 | Stored bytes pass to output and history |
| `Lzma2Format.ControlTaken` | pup/xz-embedded/xz_dec_lzma2.c:970-1046 | In front of a stream that an encoder wrote, the next byte is the closing zero and everything has been delivered, or it opens the next chunk and is accepted |
| `Lzma2Format.ControlExactly` | pup/xz-embedded/xz_dec_lzma2.c:970-1046 | A control byte is refused if and only if no chunk that may come next begins with it |
| `Lzma2Format.StoredExample` | pup/xz-embedded/xz_dec_lzma2.c:970-1078 | A stream of one stored chunk byte by byte, sizes high byte first |
| `Lzma2Format.PackedExample` | pup/xz-embedded/xz_dec_lzma2.c:970-1078 | And of one compressed chunk, with its properties |
| `Lzma2Format.AtControlSplits` | pup/xz-embedded/xz_dec_lzma2.c:970-1046 | The rest of a stream is the next control byte, the rest of its chunk, and the rest of the stream |
| `Lzma2.Decoder.StreamExpected` | pup/xz-embedded/xz_dec_lzma2.c:963-968 | A decoder between two chunks expects of any stream that an encoder writes from its state exactly what the stream means |
| `Lzma2.Decoder.StoredStep` | pup/xz-embedded/xz_dec_lzma2.c:1127-1135 | Stored bytes of an encoder's stream are taken and delivered, in pieces of any size |
| `Lzma2.Decoder.UnpackStep` | pup/xz-embedded/xz_dec_lzma2.c:1092-1125 | A piece of a compressed chunk of an encoder's stream: never an error, and the rest of the stream is expected afterwards |
| `Lzma2.Decoder.PrepareStep` | pup/xz-embedded/xz_dec_lzma2.c:1080-1090 | The first five bytes of the range decoder, in pieces of any size, and the start of the symbols |
| `Lzma2.Decoder.Step` | pup/xz-embedded/xz_dec_lzma2.c:970-1135 | Every turn of the loop keeps its place in the stream |
| `Lzma2.Decoder.Decode` | pup/xz-embedded/xz_dec_lzma2.c:963-1135 | `xz_dec_lzma2_run`, the round trip for whole streams: over any sequence of calls, pieces of input and room for output, a stream that an encoder wrote (stored and compressed chunks with any resets) is never an error, its bytes are taken in order, the end is reported only with all of its data delivered, and always once the rest of the stream and room for the rest of the data are given; otherwise a call stops only for want of input or room; it always returns |
| `Lzma2.Decoder.MoreOfStream` | pup/xz-embedded/xz_dec_lzma2.c:963-1135 | Until the end is reported at least one more byte of the stream is to come, and in the middle of a chunk at least one more byte of output |
| `LzmaEncoder.EncoderWrites` | pup/xz-embedded/xz_dec_lzma2.c:509-596 | For all symbols that fit there is a chunk that an encoder writes for them, so the theorems about such chunks are about something |
| `Lzma2.Decoder.NonLiteralReaches` | pup/xz-embedded/xz_dec_lzma2.c:612-647 | In every valid state in which no properties byte is due (none is missing and no header leads to one), a last symbol that was no literal leaves rep0 < full |
| `Lzma2.Decoder.ReachesExactly` | pup/xz-embedded/xz_dec_lzma2.c:612-647 | In every other state it does so if and only if the last symbol was a literal or enough bytes have been stored since the reset |
| `Lzma2Runs.ResetBehindChunk` | pup/xz-embedded/xz_dec_lzma2.c:970-1046 | Any first chunk that an encoder writes, followed by control byte 1: the history is empty, the last kind of symbol is kept, and rep0 < full behind a symbol that was no literal is false exactly then |
| `Lzma2Runs.RepeatedByte` | pup/xz-embedded/xz_dec_lzma2.c:970-1046 | Such a chunk exists under all properties: a literal and its repetition |
| `Lzma2.Decoder.ChunkIsWhatWasSent` | pup/xz-embedded/xz_dec_lzma2.c:878-957 | The symbols found so far are the first that the encoder sent |
| `Bcj.RelativeUndoesAbsolute` | pup/xz-embedded/xz_dec_bcj.c:270-291 | The filter inverts the conversion to absolute addresses |
| `Bcj.ArmUndoesLinked` | pup/xz-embedded/xz_dec_bcj.c:270-291 | On whole programs of any length: the filter gives back what the compressing side converted |
| `Bcj.LinkedInstr` | pup/xz-embedded/xz_dec_bcj.c:270-291 | In terms of instructions: the compressing side puts the target of each `bl`, eight bytes ahead of it plus four times its operand, in place of the operand, and leaves all others alone |
| `Bcj.ArmInstr` | pup/xz-embedded/xz_dec_bcj.c:270-291 | The filter makes of each `bl` one whose target is the address that stood in it, and leaves all others alone |
| `Bcj.ArmSuffix` | pup/xz-embedded/xz_dec_bcj.c:493-508 | Filtering what follows a multiple of four, at its position, is the rest of filtering everything |
| `Bcj.ArmPrefix` | pup/xz-embedded/xz_dec_bcj.c:493-508 | What is filtered does not depend on what follows |
| `Bcj.GrowStep` | pup/xz-embedded/xz_dec_bcj.c:575-683 | New data behind an unfiltered rest of fewer than four bytes |
| `Bcj.Filter.Group` | pup/xz-embedded/xz_dec_bcj.c:270-291 | One instruction is converted in place |
| `Bcj.Filter.Apply` | pup/xz-embedded/xz_dec_bcj.c:493-552 | All whole groups are filtered in place and the position moves on |
| `Bcj.Filter.Flush` | pup/xz-embedded/xz_dec_bcj.c:557-568 | As much filtered data as fits is delivered, and the rest moves to the front |
| `Bcj.Source.Read` | pup/xz-embedded/xz_dec_bcj.c:615-666 | A call of the LZMA2 decoder from within the filter, for as much as fits behind what is there |
| `Bcj.Filter.Run` | pup/xz-embedded/xz_dec_bcj.c:575-683 | Over the LZMA2 decoder: for any pieces of input and output the bytes delivered are a prefix of what was decoded, filtered once from position 0, and all of it at the end; an error is reported exactly when the decoder fails; a stream that an encoder wrote never fails, its bytes are taken in order, the end is reported only with all of its data delivered and filtered, and always once the rest of the stream and room for the rest of the data are given |
| `Bcj.Filter.ProgramComing` | pup/xz-embedded/xz_dec_bcj.c:575-683 | In front of a stream that compresses a converted program, what the calls deliver in the end is that program |
| `Crc.Crc32Concat` | pup/crc.c:55-60 | The CRC composes over concatenation |
| `Crc.BitsAreShift8` | pup/crc.c:55-60 | Feeding eight bits serially is eight shifts with polynomial 0xEDB88320 |
| `Crc.ByteStep` | pup/crc.c:55-60 | Eight shifts split into table entry and remainder |
| `Crc.EntryIsShift8` | pup/crc.c:3-53 | All 256 table entries are eight shifts of their index |
| `Crc.Crc32` | pup/crc.c:55-60 | The table-driven CRC is the bit-serial one on every input |
| `WireExamples.CrcCheckValue` | pup/crc.c:55-60 | "123456789" has the published check value 0xCBF43926 |
| `Crc.InitTable` | pup/xz-embedded/xz_crc32.c:29-45 | The nested loops build the same table |
| `Crc.XzCrc32` | pup/xz-embedded/xz_crc32.c:47-58 | `xz_crc32` is the same bit-serial CRC |
| `Fcs.EntryIsShift8` | pup/fcs.c:3-39 | All 256 table entries are eight shifts with polynomial 0x8408 |
| `Fcs.Fcs16` | pup/fcs.c:41-46 | The table-driven FCS is the bit-serial one |
| `WireExamples.FcsCheckValue` | pup/fcs.c:41-46 | "123456789" has the published check value 0x906E |
| `Fcs.Residue` | pup/common.h:172-179 | Appending the complemented FCS to any message gives the residue 0xf0b8 |
| `Fcs.OnlyTrailer` | pup/common.h:172-179 | Only the complemented FCS does |
| `Frames.Line.Send` | pup/fsm.c:293-324 | The bytes put on the line are the encoded frame |
| `Frames.Line.SendAck` | pup/fsm.c:326-337 | The bytes put on the line are the encoded acknowledgement |
| `Frames.Recv` | pup/fsm.c:136-223 | The receiver's loop computes the parse of the byte string: what it receives is exactly the first frame behind spoilt pieces |
| `Frames.FrameRoundTrip` | pup/fsm.c:136-223 | After any noise without SOH every frame that was sent is received as it was |
| `Frames.ReceivedWasSent` | pup/fsm.c:136-223 | Whatever is received is the encoding of a valid frame in the bytes consumed last |
| `Frames.ReceivedExactly` | pup/fsm.c:136-223 | A frame is received if and only if it ends there and nothing but spoilt pieces stands before it: bytes that begin no frame, damaged headers, frames wrongly framed or with a damaged text, in any number |
| `Frames.ResendIsReceived` | pup/fsm.c:136-223 | The ordinary recovery: a frame whose text arrives damaged is left behind, and its repetition is received |
| `Frames.RecvAck` | pup/fsm.c:228-290 | The loop of `fsm_recv_ack` computes the parse for the awaited number: what it takes is exactly the first acknowledgement for it |
| `Frames.AckRoundTrip` | pup/fsm.c:228-290 | An acknowledgement is received if it bears the awaited number, and passed over otherwise |
| `Frames.AckedWasSent` | pup/fsm.c:228-290 | Whatever counts as acknowledgement is the encoding of one for that number |
| `Frames.AckedExactly` | pup/fsm.c:228-290 | An acknowledgement is taken if and only if nothing but single bytes that begin none, and six bytes that are not the right ones, stands before it |
| `WireExamples.FrameExample` | pup/fsm.c:293-324 | A frame byte by byte as it goes over the line |
| `WireExamples.AckExample` | pup/fsm.c:326-337 | And an acknowledgement |
| `Protocol.RunInv` | pup/fsm.c:353-618 | Every run of host, device and a channel that loses, duplicates and reorders keeps the invariant |
| `Protocol.FedIsFile` | pup/fsm.c:399-437 | Whenever the device has left its chunk loop, what it fed since the last reset is the file |
| `Protocol.ChunksKeepTheirNumbers` | pup/fsm.c:565-585 | Every CHNK frame with number k carries chunk k |
| `Protocol.SuccessMeansLoaded` | pup/fsm.c:586-618 | The host reports success only after a session loaded the image |
| `ProtocolRuns.VerdictIsDevices` | pup/fsm.c:586-618 | What the host reports, success or failure, is what some BOOT frame of the device said |
| `ProtocolRuns.CanFinish` | pup/fsm.c:353-618 | From wherever a run has led, host and device can still both finish with the image loaded, as long as the host has not ended |
| `ProtocolRuns.UploadSucceeds` | pup/fsm.c:353-618 | So every file up to the limit can be uploaded |
| `ProtocolRuns.SuccessStillPossible` | pup/fsm.c:489-618 | The host can still come to report success if and only if it has not ended otherwise |
| `ProtocolRuns.NeverGone` | pup/fsm.c:565-585 | Below the limit the host is never asked for a chunk beyond the file |
| `ProtocolRuns.GivesUpLate` | pup/fsm.c:514-527 | The host gives up only after more resets than it had retries |
| `ProtocolRuns.GivesUpExactly` | pup/fsm.c:514-527 | And left alone at exactly that reset |
| `ProtocolRuns.ResetBeginsAgain` | pup/fsm.c:517-542 | As long as the host has not ended, its reset timer makes it poll again, or give up when no retry is left |
| `ProtocolRuns.ResendRepeats` | pup/fsm.c:353-618 | Whoever waits repeats its pending request and nothing else when the resend timer fires |
| `ProtocolRuns.WrongFrameAsksAgain` | pup/fsm.c:399-437 | A frame that is not the awaited chunk makes the device ask for it again |
| `Protocol.LeavesAcknowledged` | pup/fsm.c:439-458 | The device leaves only after an acknowledgement of a BOOT frame that it sent |
| `Protocol.NoStaleFrame` | pup/fsm.c:548-618 | The host never repeats a frame of an earlier request |
| `Protocol.NothingAsked` | pup/fsm.c:399-437 | A file of two or more bytes over the limit can be taken for complete too early |
| `Protocol.FirstChunkAgain` | pup/fsm.c:399-437 | One byte over the limit, the first chunk can be fed again |
| `Protocol.WholeExactlyBelowLimit` | pup/fsm.c:399-437 | In all runs the file arrives whole if and only if it has at most 65535 * 65536 bytes |
| `Placement.PlaceImage` | pup/bcm2835.c:161-214 | Accepted exactly when the overlap fits behind image and loader; then image, buffer and stub are apart |
| `Placement.AcceptedExactly` | pup/bcm2835.c:95-216 | A flat image is taken on if and only if it is aligned, ends inside memory, is plain or compressed in the one known way, and shares nothing with the loader, or there is room behind both for what it shares and the stub |
| `Placement.NothingCollides` | pup/bcm2835.c:161-214 | No byte of the image waits in the loader or the stub, and no two in one place |
| `Placement.StubFits` | pup/bcm2835.c:170-186 | For every accepted image that needs the stub: it ends behind memory if and only if the padding in front of it exceeds what the space check found left, and then by at most two bytes; never if its size leaves the rest 0 or 3 modulo 4 |
| `Placement.StubSticksOut` | pup/bcm2835.c:170-186 | For the other sizes an accepted image whose stub ends behind memory |
| `Placement.StubSafeExactly` | pup/bcm2835.c:170-186 | So the check protects every accepted image if and only if the size of the stub leaves the rest 0 or 3 modulo 4 |
| `Placement.Loader.InitMeta` | pup/bcm2835.c:95-216 | For flat binaries: accepted exactly when compression, alignment, size and relocation allow it |
| `Placement.Loader.Feed` | pup/bcm2835.c:228-259 | Any split of the data into calls: the bytes reach their places, and the running program is not touched |
| `Placement.Loader.CrcWithHeartbeat` | pup/bcm2835.c:325-341 | The block-wise CRC is the CRC of the range, with a heartbeat for each block |
| `Placement.Loader.LoadImage` | pup/bcm2835.c:343-400 | True exactly when the image is complete and its CRC, over the pieces, is the announced one |
| `Placement.Loader.Jump` | pup/bcm2835.c:430-456 | After the trampoline's copy the image in memory is the concatenated data |
| `MemoryMap.InsertedOrdered` | pup/elf_loader.c:61-80 | Claiming a disjoint range keeps the map sorted and disjoint |
| `MemoryMap.SearchIsRight` | pup/elf_loader.c:82-120 | For every list of claimed ranges and every start: the search yields the least free address, or none if there is none, if and only if the ranges do not mislead it, a condition on their starts and ends (`Fooled`, `Misled`) |
| `MemoryMap.StaysInside` | pup/elf_loader.c:82-120 | No list in which no range crosses the end fools it |
| `MemoryMap.FooledByStraddler` | pup/elf_loader.c:82-120 | Where no 32-bit sum wraps around, it is fooled if and only if the last range starts before the end and ends behind it, every gap before it is too small, and the block would end inside from where the search stands there |
| `MemoryMap.AllEndInside` | pup/elf_loader.c:82-120 | Nor any list in which all ranges end inside |
| `MemoryMap.BeyondTheEnd` | pup/elf_loader.c:82-120 | A map for which it does |
| `MemoryMap.Map.Claim` | pup/elf_loader.c:61-80 | The range is inserted in order whatever stale entries lie behind the count |
| `MemoryMap.Map.Allocate` | pup/elf_loader.c:82-120 | The search on the claimed ranges, right if and only if they do not mislead it, and the claim of what it found |
| `ElfLoad.SegmentLoads` | pup/trampoline.h:44-64 | The operations of a segment give it its file bytes and zeros, and touch nothing else |
| `ElfLoad.OpsLoadAll` | pup/trampoline.h:44-64 | The operations of all segments load each of them and never alter the copy of the file |
| `ElfLoad.ElfLoader.Register` | pup/elf_loader.c:124-144 | At most sixteen operations |
| `ElfLoad.ElfLoader.RecordOps` | pup/elf_loader.c:211-231 | The operations recorded are those of the loadable segments in order, unless they are too many |
| `ElfLoad.ElfLoader.Load` | pup/elf_loader.c:148-252 | The place for the file is the least one apart from all segments; running the operations loads every segment and keeps the copy of the file, whatever memory held; unless a segment or the copy of the file crosses an edge of the running loader, the second stage goes to the least place apart from segments, copy and loader, and the operations spare it; each failure has its reason |
| `ElfLoad.BootSpotIsRight` | pup/elf_loader.c:234-249 | The two searches for the second stage together find the least place below or above the running loader, unless an edge of the loader is crossed |
| `ElfLoad.OpsFill` | pup/trampoline.h:44-64 | From any memory the operations load every segment from the file that lies there |
| `ElfLoad.OpsSpare` | pup/trampoline.h:44-64 | And they spare everything apart from the segments |
| `ElfLoad.SecondStageInLoader` | pup/elf_loader.c:234-249 | A segment over the start of the loader makes the second stage go into the loader |
| `HashKernel.PipelinedLanes` | bcm2835/240-integ/hash.c:117-220 | The peeled loop with deferred multiplications computes the lanes of the plain loop |
| `HashKernel.PlainLanes` | bcm2835/240-integ/hash.c:206-221 | The plain loop computes the lanes |
| `HashKernel.HashMemory` | bcm2835/240-integ/hash.c:47-251 | The five loops read each byte of the region exactly once and nothing else if and only if the region touches a multiple of 32; then the result is the hash of the region, final mixing included, by either version of the lane loop |
| `HashTells.HashTellsApart` | bcm2835/240-integ/hash.c:47-251 | Two memories that differ in one aligned word of the region, or in one byte of it, have different hashes |
| `HashTells.StepTells` | bcm2835/240-integ/hash.c:206-221 | From different words, or from different states, a lane comes to different states |
| `HashTells.LaneTells` | bcm2835/240-integ/hash.c:206-221 | A change of one word changes the lane that takes it, and no other |
| `HashTells.AvalancheTells` | bcm2835/240-integ/hash.c:245-249 | The final mixing loses nothing |
| `HashTells.WorkedExample` | bcm2835/240-integ/hash.c:47-251 | The hash of one region with bytes, words and a block, as a number |
| `HashKernel.Shares` | bcm2835/240-integ/hash.c:229-243 | How the five loops share the region, in both cases |
| `HashKernel.Touching` | bcm2835/240-integ/hash.c:229-243 | The condition of the last two rows: a multiple of 32 lies in the region or right behind it |
| `CycleTime.NearIsRecovered` | bcm2835/dma/private.c:202-214 | The rounding step recovers every true count within 2^31 of the estimate, also below it |
| `CycleTime.RecoveredIsNear` | bcm2835/dma/private.c:202-214 | And no other |
| `CycleTime.RecoveredExactly` | bcm2835/dma/private.c:202-214 | The count is recovered if and only if it is within 2^31 of the estimate |
| `CycleTime.GetTimeNs` | bcm2835/dma/private.c:190-218 | The result is the floor of count * 10^9 / frequency for every true count meant by the readings |
| `CycleTime.TrueReadings` | bcm2835/dma/private.c:190-218 | Readings of two true clocks mean the count that passed |

## Left out

- `UmulWide` and its tables: unfinished, it never stores a product.
- `MonomorphizeOn`: each use is modelled as a fresh allocation.
- `arm_to_bus`, `bus_to_arm` and `SkipToAlign`: addresses are bus addresses throughout.
- The panics for a full block buffer or arena appear as preconditions (`Room`, `Fits`); widths that an emitter's assertions refuse are excluded in the same way.
- DmaProgram.ProgramRuns: asks of `Add` and `Sub` a width of at least 2, although they accept 1, because at width 1 they write a byte that is not theirs; the single chain is proved for every width (`ArithInt.AddRuns`).
- Concurrency between the processor and a running DMA chain, bus timing, and the other DMA modes.
- `xz_dec_stream.c`, the other branch filters, single-call mode and MicroLZMA: outside the decoder core, or not compiled in.
- The output buffer of the LZMA2 decoder is modelled as the bytes written so far and its capacity.
- Dictionary.Dict: the dictionary is preallocated; allocation and its size limit are not modelled.
- Lzma2.Decoder.Decode: says of streams that an encoder wrote that they are decoded, and of other input only that the decoder stays within its invariants; which corrupt streams are detected is said byte by byte for headers (`ControlByte`, `PropsByte`) and for copies from outside the window (`RunSymbols`), not for streams as a whole.
- Bcj.Filter.Run: the decoder below writes its output behind what is there through a copy, as its output is modelled by the bytes written.
- Protocol.RunInv: timers may fire at any time while they are active; real time, symbol timeouts inside a frame, and a second file are not modelled. Frames that arrive are frames that were sent, as `Frames.ReceivedWasSent` says of the bytes.
- Placement.Loader.InitMeta: flat binaries only; the placement of a raw ELF file behind the loader is not modelled.
- ElfLoad.ElfLoader.Load: assumes the file header has been checked, at most 15 loadable, disjoint, non-empty segments inside memory; with 16 the claim for the file would shift an entry out of the array.
- MemoryMap.Map.Claim: needs room for one more entry, which at most 16 ranges leave.
- HashKernel.HashMemory: addresses do not wrap around. That single changes always show is proved (`HashTells.HashTellsApart`); nothing is said about how often larger ones cancel out.
- CycleTime.GetTimeNs: the frequency is a multiple of one megahertz, as the code rounds it, and products stay below 2^64.
- UART, GPIO, mailbox, MMU, caches, the host's operating-system layer, option parsing, progress display, the vendored C library, and the assembly trampolines, whose copying is taken from the arguments that C passes them.
