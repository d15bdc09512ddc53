# RVComp: models and proofs

RVComp is a small RISC-V system: a five-stage RV32 core with caches, an MMU and peripherals in Verilog, and the boot ROM, Linux drivers, test environment and host tools that go with it. This project models the parts of it where mistakes hide best and proves what they are for.

Hardware modules are state machines with one step per clock edge. Each has a value-level `Step` function, the theorems about whole runs of it, and a class with the module's own registers and RAMs whose clock method is proved to do exactly that step. Whatever surrounds a module (the bus, memory, the other clock, the other execution units, the branch predictor) is arbitrary, within a contract that is stated as a predicate (`Allowed`). Software is modelled as classes and methods over arrays, with the other side of a shared structure interfering between any two of its steps.

| files | what |
|---|---|
| `FlatMemory`, `L2Cache`, `L2System`, `L2Invariant`, `L2Theorem`, `L2Progress`, `L2Devices`, `L2Module` | the write-back L2 cache, cycle by cycle, against a flat byte memory, and the devices behind it |
| `Bru`, `Cpu`, `CpuProof`, `CpuJourney`, `CpuModule` | pipeline control, squashing and forwarding, against a sequential machine |
| `GrayCode`, `AsyncFifo`, `AsyncFifoProof`, `AsyncFifoModule` | the dual-clock FIFO, under every interleaving of the clocks |
| `Divider`, `Multiplier`, `ExecUnits`, `ExecModule` | the divider and multiplier units and how their results reach write-back |
| `CpuUnits` | pipeline and units together, against a sequential machine with the M extension |
| `Lfsr`, `VmPager` | the demand pager of the virtual-memory test environment |
| `TxRecords`, `TxRing`, `BufferSize`, `RxCopy` | the Ethernet rings |
| `MmcRequest`, `MmcDriver` | block requests and image loading through the 4 KiB card window |
| `LoadSignal`, `StoreAck` | the terminal's acknowledgement protocol |
| `Number`, `StringC` | integer formatting and parsing; memcpy, memset, memcmp |
| `Powers`, `Words`, `Bytes` | powers of two, 32-bit words, bytes |

## Assumptions

- L2 cache: out of reset every way is invalid, `hit_q`, `cpu_bvalid_q` and `cpu_rvalid_q` are low; the bus answers only what was asked, with OKAY for cached lines; memory ignores the low four address bits, as `src/dram/dram_controller.v` lines 230 and 257 do. Addresses are 34 bits wide (`PLEN`), so the two width parameters in the peripheral decode agree.
- CPU: the decoder raises `rf_we` only for a nonzero destination (`src/cpu/decoder.v` line 300); `eret` and `csr_flush` are raised only for a valid instruction in write-back; the load/store unit is idle while no access is in write-back; instruction memory does not change during a run.
- FIFO: ADDR_WIDTH is at least 2 (the slice `[ADDR_WIDTH-2:0]` in line 61 needs it); a flop that samples a changing bit catches its old or its new value; a RAM word read while it is written is arbitrary.
- Pager: no user page overlaps the kernel's own data; accesses are aligned; the page-fault and trap filters are the default ones.
- Ethernet ring: words written before the END register are visible to the transmitter when it sees END (the fences in the source); waiting in `ether_tx` ends because the transmitter makes progress.
- Card: the segments of a request lie inside memory and the request inside the card; a card of up to 2 TiB, which is exactly as far as the page register reaches (`WindowReaches`).

Every lemma switches Dafny's automatic induction off; inductive proofs call themselves.

The `Cpu` modules take the contract of the execution units as an assumption; `CpuUnits` discharges it for multiplications and divisions. The value of a memory access is whatever the load/store unit leaves in the side register.

Five things the code does that one might not expect are stated as results. A CSR immediate is forwarded like a register (`CsrImmediateExactly` says when that is harmless, `CsrImmediateGoesWrong` runs a two-instruction program on which it is not). `skip_atoi` adds the character code before it subtracts `'0'`, so it leaves the range of `int` on exactly the last 48 ints (`ReadableInts`). An error on the bus during a write-back or a fetch is answered on the channel of the bus transaction, which is the wrong one for a load in WRITE_BACK and a store in ALLOCATE (`ErrorsAnswer`). Card addresses from 2 TiB on reach another byte than the one they name (`WindowReaches`). The exit loop of the pager clears the frame address of a node before it appends the node, and with 62 pages mapped, when the free list has no tail, its first append replaces the head (`Append`); nothing takes a frame after that.

## Model

| member | source | states |
|---|---|---|
| L2Theorem.CacheIsFlatMemory | src/cache/l2_cache.v:152-442 | in every run the responses answer the accepted requests one by one and in order, and every cacheable load gets, byte for byte, what a flat memory holds, for any bus delays and any victims |
| L2Theorem.ReachableSets | src/cache/l2_cache.v:210-442 | in every reachable state, a pending write included: no tag twice in a set, clean lines equal memory, `hit_q` at most one-hot, compared tags and data are the RAM contents of the indexed set |
| L2Theorem.VictimDoesNotMove | src/cache/l2_cache.v:232-280 | the victim chosen at a miss is unchanged to the end of ALLOCATE, whatever the replacement tree holds |
| L2Theorem.StepKeeps | src/cache/l2_cache.v:152-363 | every clock edge keeps the invariant that ties each FSM state to the RAMs, the bus and the requests |
| L2Theorem.RunKeeps | src/cache/l2_cache.v:331-363 | the invariant holds in every state of every run |
| L2Theorem.IdleContents | src/cache/l2_cache.v:177-205 | accepting a request changes the flat view by exactly the bytes of an accepted store |
| L2Theorem.ReturnKeeps | src/cache/l2_cache.v:310-323 | a response leaves once, and only when it is taken |
| L2Invariant.StoreIntoHit | src/cache/l2_cache.v:222-227 | writing the strobed bytes into the hit way changes the view of that line alone and keeps the sets coherent |
| L2Invariant.StoreLands | src/cache/l2_cache.v:418-441 | a pending store becomes part of the RAMs without changing the flat view |
| L2Invariant.FillVictim | src/cache/l2_cache.v:262-280 | filling a clean victim with the fetched line changes no line's view |
| L2Invariant.CommitVictim | src/cache/l2_cache.v:232-254 | committing the dirty victim to memory changes no line's view |
| L2Invariant.HitMoves | src/cache/l2_cache.v:216-231 | a hit leads to RET with the response a flat memory gives |
| L2Invariant.HitContents | src/cache/l2_cache.v:216-231 | a hit keeps the flat view: the bytes of a store enter it in the hit way as they leave the pending store |
| L2Invariant.MissContents | src/cache/l2_cache.v:232-245 | starting a write-back or a fetch keeps the flat view |
| L2Invariant.WriteBackContents | src/cache/l2_cache.v:246-261 | every cycle of a write-back, however slow the bus, keeps the flat view |
| L2Invariant.AllocateMoves | src/cache/l2_cache.v:262-280 | the fetched line answers a load as a flat memory does; for a store it leads to WRITE_CACHE with the hit vector on the way that is being filled |
| L2Invariant.AllocateContents | src/cache/l2_cache.v:262-280 | every cycle of a fetch, the fill included, keeps the flat view |
| L2Invariant.WriteCacheMoves | src/cache/l2_cache.v:281-288 | the store after a fill is answered |
| L2Invariant.WriteCacheContents | src/cache/l2_cache.v:281-288 | the bytes of that store enter the flat view as they leave the pending store |
| L2Progress.ResponseIsOffered | src/cache/l2_cache.v:152-329 | from every reachable state with a request in hand, if the bus accepts, commits or responds at least once in any d cycles that the cache is on it, the response to that request is offered within 5d + 4 cycles |
| L2Progress.RequestIsAnswered | src/cache/l2_cache.v:310-323 | and taken, with the cache idle again, one cycle later if the requester is ready |
| L2Progress.RankDrops | src/cache/l2_cache.v:152-329 | in every state and for all inputs, one cycle brings the request nearer to RET or uses up one cycle of the bus's patience |
| L2Devices.RequestOnBus | src/cache/l2_cache.v:181-196 | while a device request is offered to the bus, address, data and strobes are those of the request in hand |
| L2Devices.EachRequestOnce | src/cache/l2_cache.v:177-309 | in every run the transactions that reach devices are exactly the device requests accepted, each once, in order and unchanged; no write-back and no fetch reaches a device |
| L2Devices.ResponseIsTheDevices | src/cache/l2_cache.v:289-309 | in every run each response to a device request carries the data and status with which the bus answered that request |
| L2Cache.MissesGoAround | src/cache/l2_cache.v:366-391 | four misses in a row take all four ways, whatever was used before |
| L2Cache.UsedIsSafe | src/cache/l2_cache.v:366-391 | the way used last is not the next victim |
| L2Cache.UseIsRecorded | src/cache/l2_cache.v:369-390 | every hit and every fill writes a tree that names another way |
| L2Cache.ErrorsAnswer | src/cache/l2_cache.v:255-279 | a bus error ends the request with the bus's status and no write to the RAMs, on the right channel exactly for a store in WRITE_BACK and a load in ALLOCATE |
| L2Module.Cache.Accept | src/cache/l2_cache.v:178-205 | what a request in IDLE does to the control registers, as the model's IDLE |
| L2Module.Cache.ServeDevice | src/cache/l2_cache.v:289-309 | the device states, as the model's PERIPH_WRITE and PERIPH_READ |
| L2Module.Cache.Return | src/cache/l2_cache.v:310-323 | the response is taken, as the model's RET |
| L2Module.Cache.Clock | src/cache/l2_cache.v:331-442 | the module with its RAMs and registers takes exactly one model step per edge |
| L2Module.Cache.NextRegisters | src/cache/l2_cache.v:152-329 | the combinational block computes the model's next control registers |
| L2Module.Cache.CompareTags | src/cache/l2_cache.v:210-215 | the loop sets exactly the hit bits of valid ways with the tag |
| L2Module.Cache.SelectData | src/cache/l2_cache.v:218-220 | the loop yields the data of the hit way, and the old register without a hit |
| L2Module.Cache.CheckHit | src/cache/l2_cache.v:216-245 | hit, write-back or fetch, as the model's CHECK_VALID |
| L2Module.Cache.ServeMiss | src/cache/l2_cache.v:246-280 | the memory side of a miss, as the model's WRITE_BACK and ALLOCATE |
| L2Module.Cache.WriteWays | src/cache/l2_cache.v:418-441 | each enabled way takes the meta word and the strobed bytes, no other way or set changes |
| L2Module.Cache.ClockArrays | src/cache/l2_cache.v:365-442 | read pipeline, replacement tree and RAM writes move together |
| FlatMemory.LineAfterIsBytes | src/cache/l2_cache.v:420-422 | the line-wise reference is the byte-wise one: each byte is that of the last store that strobed it |
| FlatMemory.PeripheralIsAddressDecode | src/cache/l2_cache.v:180-191 | deciding on line numbers is deciding on the address bits |
| FlatMemory.AddressesAreBytes | src/cache/l2_cache.v:153-212 | address fields and numeric addresses correspond one to one |
| CpuProof.RefinesSequential | src/cpu/cpu.v:216-262 | whatever is predicted and however it stalls, the pcs retired are the sequential machine's path, the register file is its register file after each retirement, and valid stages are contiguous |
| CpuProof.CommandsAreSequential | src/cpu/cpu.v:703-763 | the commands given to the execution units are exactly those of the sequential machine, with its operands: none for a squashed instruction |
| CpuProof.OperandsInEx | src/cpu/cpu.v:499-626 | every register operand used in EX is the sequential register value at that instruction |
| CpuProof.CsrImmediateExactly | src/cpu/cpu.v:509-626 | the CSR unit gets the immediate if and only if the instruction ahead does not write the register of that number, or writes just that value |
| CpuProof.CsrImmediateGoesWrong | src/cpu/cpu.v:509-626 | a run from reset, at the end of which an unsquashed CSR write behind `addi x5, x0, 7` leaves EX with 7 in place of its immediate 5 |
| CpuProof.StepKeeps | src/cpu/cpu.v:264-282 | every cycle, stalled or not, keeps pipeline and sequential machine together |
| CpuProof.WriteBackIsExecute | src/cpu/cpu.v:255-262 | registers and next pc move as one sequential instruction does, also on traps, returns, replays and mispredictions |
| CpuProof.OperandsAreSequential | src/cpu/cpu.v:625-626 | the operands after the EX multiplexers are those after the retirement in the same cycle |
| CpuProof.ForwardedIsWritten | src/cpu/cpu.v:500-501 | the value forwarded from write-back is what the register holds afterwards |
| CpuProof.NextOperandsOk | src/cpu/cpu.v:499-516 | operands entering EX are current or flagged for the bypass |
| CpuProof.NextResultOk | src/cpu/cpu.v:669-701 | what enters write-back is what the sequential machine computes |
| CpuProof.MoveKeeps | src/cpu/cpu.v:221-225 | an edge that squashes or shifts keeps the pipeline behind the sequential machine |
| CpuJourney.Journey | src/cpu/cpu.v:409-698 | from ID to write-back an instruction keeps its pc, dies exactly if something squashes it, carries the exceptions that ID and OF found and the CSR value that OF read, and is marked for replay exactly if an older write of that CSR was pending |
| CpuJourney.StaleCsrIsReplayed | src/cpu/cpu.v:184-258 | an instruction whose CSR value may be stale changes no register and is fetched again, unless a trap takes it |
| CpuJourney.ExceptionIsTaken | src/cpu/cpu.v:225-256 | an exception found in ID or OF squashes everything and leads to the trap vector |
| CpuJourney.PlainWrites | src/cpu/cpu.v:669 | an instruction without transfer writes its destination with the ALU result of the numbers in its operands, the CSR value or the unit result, and goes on at pc + 4 |
| CpuJourney.BranchGoes | src/cpu/cpu.v:632-670 | a branch or jump goes to the ISA's target if the ISA's condition holds, traps if that is not a multiple of four, and else goes on |
| CpuJourney.JumpLinks | src/cpu/bru.v:47 | a jump writes the address of the next instruction |
| CpuJourney.RegistersAre | src/cpu/cpu.v:430-452 | x0 reads as zero, the others as they stand |
| CpuModule.Pipeline.Clock | src/cpu/cpu.v:264-282 | the stage registers and the register file take exactly one model step per edge |
| CpuModule.Pipeline.Redirect | src/cpu/cpu.v:216-262 | the priority of trap, return, replay, flush, misprediction and prediction |
| CpuModule.Pipeline.SelectOperand1 | src/cpu/cpu.v:509-512 | immediate, bypass or register file |
| CpuModule.Pipeline.SelectOperand2 | src/cpu/cpu.v:513-516 | pc-relative, immediate, bypass or register file |
| CpuModule.Pipeline.FetchOperands | src/cpu/cpu.v:584-619 | what OF hands to EX, flags included |
| CpuModule.Pipeline.Execute | src/cpu/cpu.v:625-701 | bypass, branch resolution and result, as handed to write-back |
| CpuModule.Pipeline.WriteBack | src/cpu/cpu.v:430-444 | exactly the destination of a retiring instruction changes |
| Bru.TakenIsTheIsa | src/cpu/bru.v:30-35 | for every branch kind and operands, the decision is the instruction's condition |
| Bru.TargetIsTheIsa | src/cpu/bru.v:37-39 | the target is pc + imm, for JALR rs1 + imm, modulo 2^32 and with bit 0 cleared |
| Bru.LinkIsTheIsa | src/cpu/bru.v:46 | JAL and JALR link pc + 4, the branches nothing |
| AsyncFifoProof.FifoOrder | src/async_fifo.v:34-107 | under every interleaving of the clocks the reader has accepted a prefix of what the writer handed over, never more than 2^ADDR_WIDTH words are in flight, and what is offered is the next word |
| AsyncFifoProof.OfferIsStable | src/async_fifo.v:89-107 | an offered word that is not taken is still offered, unchanged |
| AsyncFifoProof.OffersAfterThreeReadEdges | src/async_fifo.v:40-60 | a FIFO that is not empty offers data after three read edges without acceptance |
| AsyncFifoProof.AcceptsAfterTwoWriteEdges | src/async_fifo.v:50-64 | a FIFO that is not full is ready after two write edges without a write |
| AsyncFifoProof.StepKeeps | src/async_fifo.v:40-107 | every edge of either clock, or of both, keeps the invariant |
| AsyncFifoProof.TestsAreExact | src/async_fifo.v:60-61 | full and empty mean exactly that for the pointers each side can see |
| AsyncFifoProof.FetchIsClean | src/async_fifo.v:73-99 | the word that is offered was never being written while it was read |
| AsyncFifo.Comparisons | src/async_fifo.v:60-61 | the three comparisons on codes decide emptiness, fullness and slot conflicts of counts |
| GrayCode.NeighboursAreOneBitApart | src/async_fifo.v:37-38 | for every width, consecutive pointers, wrap included, differ in one bit |
| GrayCode.SampleIsOldOrNew | src/async_fifo.v:40-58 | a sample that mixes old and new bits is the old or the new pointer |
| GrayCode.GrayInjective | src/async_fifo.v:60 | equal codes mean equal pointers |
| GrayCode.FlipIsHalfTurn | src/async_fifo.v:61 | inverting the top two bits moves the pointer by half the range |
| GrayCode.FullPattern | src/async_fifo.v:61 | the full test holds exactly when the pointers are 2^ADDR_WIDTH apart |
| AsyncFifoModule.DualClockFifo.WriteClock | src/async_fifo.v:50-82 | the write-clock domain takes exactly one model step |
| AsyncFifoModule.DualClockFifo.ReadClock | src/async_fifo.v:40-48 | the read-clock domain takes exactly one model step |
| AsyncFifoModule.DualClockFifo.Tick | src/async_fifo.v:40-107 | any instant at which one or both clocks rise is one model step |
| Divider.DividesLikeTheIsa | src/cpu/divider.v:71-131 | for all operands and all four modes: silent while working, then the ISA's quotient or remainder (zero divisor and overflow included) until it is taken, 2 or 34 cycles after issue |
| Divider.UnsignedIsTheIsa | src/cpu/decoder.v:235-237 | DIVU and REMU on numbers: quotient and remainder make up the dividend; a zero divisor gives all ones and the dividend |
| Divider.SignedIsTheIsa | src/cpu/decoder.v:234-236 | DIV and REM in two's complement: they make up the dividend, the remainder is smaller than the divisor and has the dividend's sign; zero divisor and overflow as the ISA says |
| Divider.IterateKeeps | src/cpu/divider.v:97-104 | after k steps: dividend prefix = quotient bits * divisor + remainder |
| Divider.RestoringStep | src/cpu/divider.v:49-50 | shifting the remainder's top bit out loses nothing, and the new quotient bit is right |
| Divider.CheckKeeps | src/cpu/divider.v:84-96 | magnitudes are loaded, and a zero divisor is answered at once |
| Divider.SignFixUp | src/cpu/divider.v:105-107 | negating by the sign flags gives the ISA's result |
| Divider.QuotOfMagnitudes | src/cpu/divider.v:78-79 | rounding towards zero: the quotient takes both signs, the remainder the dividend's |
| Multiplier.MultipliesLikeTheIsa | src/cpu/decoder.v:230-233 | MUL, MULH, MULHSU and MULHU on numbers: high and low word make up the product of the operands as each instruction reads them |
| Multiplier.MultipliesInTwo | src/cpu/multiplier.v:53-88 | for all operands: silent for one cycle, then the result until it is taken |
| Multiplier.WordsOfProduct | src/cpu/multiplier.v:62-67 | both words of the wrapped 64-bit product are those of the exact product |
| Multiplier.StepKeeps | src/cpu/multiplier.v:53-88 | the unit works on the operands it captured until its result is taken |
| ExecUnits.RetiresExactlyOnce | src/cpu/cpu.v:746-789 | however long the other units hold ready back, the results retired are the ISA's results of the operations issued, each once and in order; a unit stalls exactly when it is not idle |
| ExecUnits.SideResultIsRight | src/cpu/cpu.v:781-789 | when the pipeline moves, the side register holds the result of the command in write-back, and is cleared for the next |
| ExecUnits.UnitsKeep | src/cpu/cpu.v:747-788 | at most one unit is active and it works for the instruction in write-back |
| ExecUnits.UnitsWaitForEachOther | src/cpu/cpu.v:746-776 | a unit starts on its own valid command while no other stalls, and keeps its result until all others are ready |
| CpuUnits.MultiplyWrites | src/cpu/cpu.v:746-789 | the four multiply instructions write the word of the product and go on at pc + 4 |
| CpuUnits.DivideWrites | src/cpu/cpu.v:764-789 | the four divide instructions write quotient or remainder and go on at pc + 4 |
| CpuUnits.RefinesWithUnits | src/cpu/cpu.v:703-789 | pipeline, multiplier and divider together execute the sequential machine whose multiply and divide instructions have the M extension's meaning: same pcs, same registers, whatever stalls or is squashed |
| CpuUnits.ResultsAreTheIsa | src/cpu/cpu.v:746-789 | every multiplication and division that left write-back took along the ISA's result for the sequential machine's operands at that instruction |
| CpuUnits.BothHalvesAreRuns | src/cpu/cpu.v:703-789 | what the pipeline's model assumes of the units and the units' model of the pipeline, each gets from the other |
| CpuUnits.DemandIsAsked | src/cpu/cpu.v:703-779 | the command on the unit pins is what the sequential machine asks for at the instruction that enters write-back |
| CpuUnits.StepKeeps | src/cpu/cpu.v:703-789 | every cycle keeps the units at work for the instruction in write-back, with the result its history expects |
| ExecModule.DividerUnit.Clock | src/cpu/divider.v:59-131 | the divider's registers take exactly one model step per edge |
| ExecModule.DividerUnit.Restore | src/cpu/divider.v:97-104 | one restoring iteration on the registers |
| ExecModule.MultiplierUnit.Clock | src/cpu/multiplier.v:48-88 | the multiplier's registers take exactly one model step per edge |
| VmPager.BootRunExit | prog/riscv-tests/env/v/vm.c:113-312 | for any entropy and memory, a program of loads, stores and fetches reads what flat memory gives, no assertion fires if and only if every access is in range, and after the exit loop the backing pages equal flat memory |
| VmPager.RunIsBytes | prog/riscv-tests/env/v/vm.c:145-190 | a flat run executes the accesses up to the first one outside pages 1 to 62, and each load before that returns, byte for byte, what was stored last |
| VmPager.FinalIsBytes | prog/riscv-tests/env/v/vm.c:113-140 | the memory a flat run leaves holds in every byte what was stored last |
| VmPager.Pager.FaultsExactly | prog/riscv-tests/env/v/vm.c:153-162 | the hardware faults unless the page is valid, accessed and, for a store, dirty |
| VmPager.Pager.Boot | prog/riscv-tests/env/v/vm.c:303-312 | after boot nothing is mapped and the free list names 63 different frames, in the order the seed draws them |
| VmPager.Pager.DealFrames | prog/riscv-tests/env/v/vm.c:306-312 | node i gets the i-th value of the shift register and points at node i+1 |
| VmPager.Pager.HandleFault | prog/riscv-tests/env/v/vm.c:145-190 | no assertion fails if and only if the address is in range; the access is one fault nearer to success; flat memory does not change |
| VmPager.Pager.SetBit | prog/riscv-tests/env/v/vm.c:153-162 | A first, then D; the assertion holds for every fault the hardware raises |
| VmPager.Pager.TakeFrame | prog/riscv-tests/env/v/vm.c:164-180 | the page gets the first free frame, which no other page uses; the list head is not null |
| VmPager.Pager.MapPage | prog/riscv-tests/env/v/vm.c:164-190 | the page is mapped to a copy of its backing page, clean |
| VmPager.Pager.Resolve | prog/riscv-tests/env/v/vm.c:145-180 | every access succeeds after exactly the missing map, A and D faults, at most three |
| VmPager.Pager.Access | prog/riscv-tests/env/v/vm.c:145-190 | one access is one step of flat memory |
| VmPager.Pager.StoreTo | prog/riscv-tests/env/v/vm.c:153-162 | a store to a dirty page changes flat memory at that place only |
| VmPager.Pager.Run | prog/riscv-tests/env/v/vm.c:192-223 | a sequence of accesses is a run of flat memory, result by result |
| VmPager.Pager.Evict | prog/riscv-tests/env/v/vm.c:113-140 | the page goes home, its assertions hold, the other pages stay current |
| VmPager.Pager.Append | prog/riscv-tests/env/v/vm.c:132-138 | the freed node is linked behind the old tail, or becomes the head where there is no tail; nothing else in the list and no address changes |
| VmPager.Pager.Exit | prog/riscv-tests/env/v/vm.c:198-205 | after the loop every backing page equals flat memory and no assertion failed |
| VmPager.Pager.HomesApart | prog/riscv-tests/env/v/vm.c:176-180 | different user pages never share a physical page |
| VmPager.Pager.Room | prog/riscv-tests/env/v/vm.c:164-168 | when a page faults that is not mapped, at most 61 others are |
| VmPager.Pigeonhole | prog/riscv-tests/env/v/vm.c:150-165 | different pages from a range of n are at most n |
| VmPager.TerminatesOutside | prog/riscv-tests/env/v/vm.c:150 | a flat run is cut short exactly by an access out of range |
| Lfsr.FullPeriod | prog/riscv-tests/env/v/riscv_test.h:62-63 | from any nonzero seed the first 63 values are pairwise different |
| Lfsr.ShiftAddsOne | prog/riscv-tests/env/v/riscv_test.h:63 | one shift adds one to the discrete logarithm modulo 63 |
| TxRing.Ring.NothingLost | bootrom/src/rvcomp_ether.c:11-67 | at every moment, what is on the cable followed by what the words from START to END decode to is exactly the frames queued, padded, in order |
| TxRing.Ring.CableFrames | bootrom/src/rvcomp_ether.c:12-13 | every frame on the cable has at least 60 bytes, begins with its queued frame and continues with zeros |
| TxRing.Ring.CleanIs | bootrom/src/rvcomp_ether.c:52-53 | whatever a pointer register holds, the whole word of the ring that it points into |
| TxRing.Ring.EqualPointersMeanEmpty | bootrom/src/rvcomp_ether.c:50-55 | the pointers are equal exactly when everything is out: a full ring never looks empty |
| TxRing.Ring.EnqueueOne | bootrom/src/rvcomp_ether.c:11-36 | the record is written behind END, word by word, with the transmitter at work in between; no unread word changes |
| TxRing.Ring.Put | bootrom/src/rvcomp_ether.c:31-32 | one word behind END, and the pointer wraps |
| TxRing.Ring.PackWord | bootrom/src/rvcomp_ether.c:22-30 | four bytes little-endian, zeros beyond the frame |
| TxRing.Ring.Publish | bootrom/src/rvcomp_ether.c:57-60 | moving END appends exactly this frame to what is queued |
| TxRing.Ring.TryOne | bootrom/src/rvcomp_ether.c:50-61 | the frame is queued if and only if its record fits into what START shows as free, one word kept back |
| TxRing.Ring.FreeIsRoom | bootrom/src/rvcomp_ether.c:52-55 | the free bytes computed from the pointers are the true room, or less if START is old |
| TxRing.Ring.EtherTx | bootrom/src/rvcomp_ether.c:38-67 | the whole payload is queued, in chunks, however the transmitter interferes |
| TxRing.Ring.StartXmit | buildroot/package/rvcomp-ethernet/src/rvcomp_ethernet.c:268-312 | dropped exactly for a bad length, busy only without room, otherwise queued unchanged |
| TxRing.Ring.Transmit | src/ether/ether_tx_mii.v:189-257 | the transmitter sends the oldest frame and moves START over its record |
| TxRing.Ring.ReadRecord | src/ether/ether_tx_mii.v:199-212 | a bad header is stepped over as one word, any other as a whole record |
| TxRing.Distance | bootrom/src/rvcomp_ether.c:54 | the pointer difference modulo the size is the number of words between |
| TxRecords.DecodeRecords | src/ether/ether_tx_mii.v:87-89 | round trip: the transmitter reads back the queued frames, padded, in order |
| TxRecords.PaddedIs | bootrom/src/rvcomp_ether.c:12-13 | a frame below 60 bytes is filled up with zeros to 60, a longer one is unchanged |
| TxRecords.EncodeIs | bootrom/src/rvcomp_ether.c:14-33 | the header holds the padded length, and as many whole words as that needs hold the frame and zeros |
| TxRecords.HeaderDecides | src/ether/ether_tx_mii.v:199-212 | a header of 0 or above 1514 is stepped over alone, any other stands for that many bytes in the words behind it |
| TxRecords.DecodeRecord | bootrom/src/rvcomp_ether.c:18-33 | one record off the front decodes to one padded frame |
| TxRecords.ChunksPartition | bootrom/src/rvcomp_ether.c:40-41 | chunking loses, adds and reorders nothing and uses as few frames as possible |
| BufferSize.ValidateBufSize | buildroot/package/rvcomp-ethernet/src/rvcomp_ethernet.c:64-81 | accepted are exactly the powers of two from 2 KiB to 64 MiB, and the largest record fits an empty ring of such a size |
| BufferSize.AndBit | buildroot/package/rvcomp-ethernet/src/rvcomp_ethernet.c:72-73 | each bit of n & m is set exactly if it is set in both |
| BufferSize.PowerOfTwoTest | buildroot/package/rvcomp-ethernet/src/rvcomp_ethernet.c:72-73 | n & (n - 1) is zero exactly for powers of two |
| RxCopy.CopyOut | buildroot/package/rvcomp-ethernet/src/rvcomp_ethernet.c:212-221 | byte i of the copy is the byte i places after start, around the ring |
| RxCopy.ByteInRing | bootrom/src/rvcomp_ether.c:85-94 | byte addresses and word indices wrap together |
| MmcDriver.Driver.QueueRq | buildroot/package/rvcomp-mmc/src/rvcomp_mmc.c:127-176 | memory, card and status after the request are those of the windowless reference |
| MmcDriver.Driver.CopySegment | buildroot/package/rvcomp-mmc/src/rvcomp_mmc.c:140-169 | the inner loop moves the segment as one stretch, and ends |
| MmcDriver.Driver.CopyNext | buildroot/package/rvcomp-mmc/src/rvcomp_mmc.c:159-168 | one more chunk, and strictly further |
| MmcDriver.Driver.NextChunk | buildroot/package/rvcomp-mmc/src/rvcomp_mmc.c:141-157 | a chunk is positive, stays in its window and its page, and ends at one of the three limits |
| MmcDriver.Driver.CopyChunk | buildroot/package/rvcomp-mmc/src/rvcomp_mmc.c:156-165 | through window and mapping exactly the named bytes cross |
| MmcDriver.Driver.SelectAddr29 | buildroot/package/rvcomp-mmc/src/rvcomp_mmc.c:62-72 | the register shows the page, and a valid cached copy always equals it |
| MmcDriver.CopyToDram | bootrom/src/bootloader.c:24-41 | DRAM holds the first words of the card, the rest of it is unchanged |
| MmcRequest.WriteIsFlat | buildroot/package/rvcomp-mmc/src/rvcomp_mmc.c:129-170 | a write that is not rejected is one flat write of all segments, and no other device byte changes |
| MmcRequest.ReadIsFlat | buildroot/package/rvcomp-mmc/src/rvcomp_mmc.c:129-170 | a read that is not rejected fills the segments, end to end, with the device's bytes |
| MmcRequest.ReadKeepsTheRest | buildroot/package/rvcomp-mmc/src/rvcomp_mmc.c:161-162 | a read changes no byte of memory outside its segments |
| MmcRequest.RejectedExactly | buildroot/package/rvcomp-mmc/src/rvcomp_mmc.c:132-138 | a request is rejected if and only if some segment is not whole sectors |
| MmcRequest.RejectedPrefix | buildroot/package/rvcomp-mmc/src/rvcomp_mmc.c:132-138 | a rejected request has done what the segments before the bad one ask for, and no more |
| MmcRequest.WriteThenRead | buildroot/package/rvcomp-mmc/src/rvcomp_mmc.c:161-164 | reading back what was written, into other segments, gives the same bytes |
| MmcRequest.WindowReaches | buildroot/package/rvcomp-mmc/src/rvcomp_mmc.c:64-78 | register and offset reach the byte named if and only if it lies below 2 TiB |
| LoadSignal.SplitLoadSignals | tools/term.py:131-148 | the loop computes the one-pass split of the scan buffer |
| LoadSignal.ChunkingIsIrrelevant | tools/term.py:131-148 | any way of cutting the stream into reads gives the count, pending byte and visible bytes of one read of it all |
| LoadSignal.ScanMeetsReference | tools/term.py:138-148 | the count is the number of occurrences, the visible bytes are the stream without them, a trailing "!" is held |
| LoadSignal.NothingDisappears | tools/term.py:138-148 | every byte is counted, held or shown |
| LoadSignal.CountersAgree | tools/term.py:125-129 | `count_load_signals` gives the same total on every stream and every cutting |
| LoadSignal.OccurrencesSplit | tools/term.py:127-129 | keeping one byte finds every occurrence across a cut, and none twice |
| StoreAck.OneChunkPerSignal | tools/term.py:497-502 | at every moment of every interleaving, bytes sent are at most the chunk size times the signals received, and the screen shows the received bytes without them |
| StoreAck.ResultIsHonest | tools/term.py:634-653 | True means that the wire carried the file up to the size that was looked up, the whole file if and only if it has not grown since, and the hash is the one-pass FNV-1a of what was sent; False has a cause that can be named |
| StoreAck.WrongSizeIsRefused | tools/term.py:617-622 | a file whose size is not the announced one is refused before anything is sent, in every state of every run |
| StoreAck.RightSizeFailsForCause | tools/term.py:617-653 | with the right size or none announced, False means a broken session, an empty chunk size or a file that shrank |
| StoreAck.EveryChunkIsFull | tools/term.py:634-642 | at every moment the wire carries as many whole chunks as permits were used, up to the end of the file |
| StoreAck.RoundIs | tools/term.py:152-154 | the byte changes the low eight bits, then the prime multiplies, modulo 2^32 |
| Words.XorBit | tools/term.py:153 | each bit of the exclusive or is set exactly if the operands differ there |
| Words.OrBit | src/cpu/cpu.v:789 | each bit of the or is set exactly if one operand has it set |
| StoreAck.StepWire | tools/term.py:634-647 | every step of either thread keeps the wire a prefix of the file and the hash that of the part sent |
| StoreAck.StepReader | tools/term.py:497-502 | every signal is a permit owed, free or taken, exactly once |
| StoreAck.Fnv1a32Update | tools/term.py:150-155 | the loop computes the hash of all its bytes |
| StoreAck.FnvConcat | tools/term.py:150-155 | hashing piece by piece is hashing the whole |
| Number.Format | prog/coremark/riscv/ee_printf.c:55-143 | for every flag combination, precision and width, base 2 to 36, exactly the field is appended; another base fails |
| Number.FieldReadsBack | prog/coremark/riscv/ee_printf.c:70-140 | in every base and with all flags the field reads back as the number: digits, "-" exactly for a negative one, "+" exactly where asked for |
| Number.FieldLooks | prog/coremark/riscv/ee_printf.c:112-140 | sign, prefix, zeros, digits and padding in the places the flags ask for |
| Number.FieldWidth | prog/coremark/riscv/ee_printf.c:112-140 | the field has max(width, sign + prefix + max(digits, precision)) characters |
| Number.DigitsDenote | prog/coremark/riscv/ee_printf.c:101-110 | the digits denote the magnitude of the argument in that base |
| Number.NoLeadingZero | prog/coremark/riscv/ee_printf.c:101-110 | they start with a zero only for zero |
| Number.MakeDigits | prog/coremark/riscv/ee_printf.c:99-110 | the buffer holds the digits in reverse, at most 32 of its 66 places |
| Number.TakeSign | prog/coremark/riscv/ee_printf.c:70-89 | the sign character and the magnitude that is left |
| Number.WriteField | prog/coremark/riscv/ee_printf.c:115-140 | padding, sign, prefix and digits in their places |
| Number.SkipAtoi | prog/coremark/riscv/ee_printf.c:46-53 | the value of the digits it stands on, the place behind them, and whether all intermediate values were ints |
| Number.ReadableInts | prog/coremark/riscv/ee_printf.c:51 | of the ints written in decimal, exactly those up to INT_MAX - 48 are read without leaving the type |
| Number.AtoiUndoesFormat | prog/coremark/riscv/ee_printf.c:46-143 | the parser undoes the plain decimal form, whatever follows it |
| StringC.Memcpy | prog/riscv-tests/env/v/string.c:5-19 | for every length and alignment, exactly the destination changes, to what the source held |
| StringC.CopyWord | prog/riscv-tests/env/v/string.c:10-11 | one word copied is four bytes copied |
| StringC.Memset | prog/riscv-tests/env/v/string.c:21-38 | for every length and alignment, exactly the destination changes, to the low byte |
| StringC.Memcmp | prog/riscv-tests/env/v/string.c:60-85 | the byte-wise comparison, even when the word loop stops early |
| StringC.EqualWords | prog/riscv-tests/env/v/string.c:62-74 | the word loop passes over equal bytes only |
| StringC.CompareFirst | prog/riscv-tests/env/v/string.c:76-81 | the result is the difference at the first unequal byte |
| StringC.CompareZero | prog/riscv-tests/env/v/string.c:76-84 | it is zero exactly for equal ranges |

## Left out

- L2Cache.ErrorsAnswer: bus errors on cached lines are described for the cycle in which they arrive; the theorems over runs take a bus that answers cached lines with OKAY. They hold for any victim.
- The caches in the core, the MMU, the decoder, LSU, IFU and CSR file: only the contracts above are used. The contents of CSRs, and that a CSR value read in OF is fresh, are not modelled.
- The branch predictor's counters: predictions are arbitrary. Instruction memory is fixed, so self-modifying code is not covered.
- Metastability of the FIFO beyond per-bit mixing, and resets in the middle of a run.
- The transmitter's serial side: preamble, checksum and timing. Sending a record is one step of the model; its words cannot change meanwhile, which `Put` shows.
- The frame boundaries of received frames, and the pointer arithmetic around the copy loop: the hardware that sets ADDR_END is not part of this model.
- Flush and passthrough requests of the block driver, and its probe and remove code.
- VmPager.Pager.Run: stops at the ecall; runs that fault after the exit loop, custom filters, illegal-instruction traps, PMP and CSR setup and the TLB are not modelled. `coherence_torture` is left out.
- VmPager.Pager.Access: accesses stay inside one page, as aligned ones do.
- StoreAck.ResultIsHonest: console output, key decoding and the stop event are one abort step; a read of the file is assumed to return fewer bytes than asked for only at its end.
- Number.Format: for the smallest `long` the source's negation overflows; the model uses the magnitude that wrap-around gives.
- The floating-point printer, `cvt.c`, and the rest of the printf front end.
- `strlen`, `strcmp`, `strcpy`, `atol`, `alu.v`, `amoalu.v`, `csralu.v`, `imm_gen.v`, `clint.v`: they would only add easy members.
- TxRing.Ring.EtherTx: that the transmitter eventually makes progress is assumed, one step of it for each failed attempt.
