# Comedi: buffer, life cycle, timers and acquisition engines

A Dafny model of the parts of Comedi (drivers for data acquisition boards) whose correctness is
hardest to see from the code, with proofs of what they are for.

- **The asynchronous buffer** (`Word32`, `Cyclic`, `RingSpec`, `AsyncBuffer`, `BufferRuns`). `Async` is
  the ring buffer as the code keeps it: five wrapping 32-bit counters compared by signed difference,
  three separately kept offsets, and an array of bytes. A ghost `Ring` holds the positions without
  wrap-around and the bytes committed so far. `Valid` ties the two together, and `RingSpec` says what
  the reader is entitled to: the committed bytes, munged sample by sample.
- **The life cycle of subdevices** (`Lifecycle`, `LifecycleLaws`, `LifecycleAnswers`, `Device`). `Lifecycle` is a step
  function over many files and many subdevices, with owners, locks, run flags, channel list
  allocations, buffer positions and the real-time interrupt. Each ioctl, each attempt of a read or
  write, each poll and each driver event is one atomic step. `Device.Comedi` is the same device updated
  in place, method by method, each proved equal to its step. `LifecycleLaws` proves the invariants of
  every run, `LifecycleAnswers` what each call returns and leaves behind, field by field.
- **Timers** (`Divisors`, `Cascade`, `CascadeLaws`, `Timer8254`, `Pci224Timer`, `Pci230Timer`). The
  two-divisor search in 32-bit words, against the greatest and least products over all divisor pairs;
  what cmdtest accepts against what cmd programs; the single-timer arithmetic of the PCI230.
- **Acquisition engines** (`Pci224Scan`, `Pci230Scan`, `Pci230Acquire`, `Decimation`, `Pci9111`,
  `Pci9118`) and the real-time pending-call ring (`RtPend`).

Integers are unbounded in Dafny. Where C computes in `unsigned int` the model says `Wrap` (or `u32`,
whose fit Dafny checks), and `Signed` for the cast to `int`.

## Where the code falls short of its promise

Each of these is kept as the code has it, with an input that fails and the exact condition under
which the promise holds.

- A request of 2^31 bytes or more above the room passes the signed-difference clamp unclamped:
  `Word32.ClampIsExact` (the condition), `Word32.ClampMissesHugeRequest` (an input). The buffer calls
  then lose the chain of positions, and exactly then (`AsyncBuffer.Async.WriteAlloc` and its kin).
  Bufinfo passes the user's counts on unchecked: `LifecycleLaws.HugeBufinfoBreaksChain` (an input),
  `LifecycleLaws.BufinfoReadExactly`, `LifecycleLaws.BufinfoWriteExactly` and `LifecycleLaws.StepExactly`
  (the condition), `LifecycleLaws.WriteCountMendsReadCount` (two huge counts that cancel out).
- UP gives a period of 0 for requests above the greatest makeable period below 2^32 - 1, which one DOWN
  call finds: `CascadeLaws.UpExactly`, `CascadeLaws.UpFailsAtTop`. NEAREST fails near the top of the word
  too, in a smaller range: `CascadeLaws.NearestExactly`, `CascadeLaws.NearestFailsAtTop`. The early exit
  and the full search differ on one request: `CascadeLaws.EarlyExitAgrees`, `CascadeLaws.EarlyExitDiffers`.
- The PCI9111 computes its shortest scan in a word. When the product wraps, scans too short for their
  conversions pass (`Pci9111.WrappedScanAccepted`); when it is 0, as after rounding a conversion period
  of 2^32 - 1 up, the command test divides by zero (`Pci9111.RoundedUpToZero`). The step keeps its
  promise exactly when the product is positive and fits a word: `Pci9111.ScanPromiseExactly`. The
  acquisition's counters are right exactly when the counted total and the chunk fit
  (`Pci9111.Ai.SetUp`); otherwise the total may turn negative (`Pci9111.HugeTotalTurnsNegative`).
- Near the top of the word the PCI230 single timer wraps to 32704 ns, which is neither near the request
  nor its own rounding: `Pci230Timer.RoundingBound`, `Pci230Timer.SingleTimerIsIdempotent` (the
  condition), `Pci230Timer.HighRequests` (what happens beyond it).
- When the shortest scan is so near the top of the word that rounding it up wraps, a PCI230 scan period
  is accepted that no counter makes: `Pci230Timer.TestTimedScan` (the condition),
  `Pci230Timer.UnmakeableScanAccepted` (an input). A correction offered again is accepted under the
  condition of `Pci230Timer.CorrectionIsAccepted`.
- The wrap test of the PCI230 scan period check does not catch every overflow:
  `Pci230Timer.AcceptedScanHoldsConversions`, `Pci230Timer.OverflowMissed`.
- `comedi_read` samples what is available before it looks at the run flags. Reading to the end is
  promised for attempts that are one atomic step (`LifecycleLaws.ReadEndsDelivered`).
  `LifecycleLaws.SplitReadLosesBytes` gives the interleaving in which bytes are lost otherwise, and
  `LifecycleLaws.SplitReadExactly` says for which states and samples a split attempt is right.
- A reader that wakes up to find the subdevice another file's still runs the end of `comedi_read`, and
  so ends that file's command, but exactly when it is finished, without error and drained:
  `LifecycleLaws.OthersCannotTake`, `LifecycleLaws.WokenReaderEndsAnother`.
- The interrupt entry's own real-time flag is cleared while others still need it:
  `LifecycleLaws.InterruptFlagMisleads`, and `LifecycleLaws.InterruptFlagExactly` for when it is right. Only the device's count and the installed handler are claimed.
- Polling an idle write subdevice and then resizing its buffer keeps the chain of positions exactly if
  the buffer does not shrink: `AsyncBuffer.Async.IdlePollThenResize`, `LifecycleLaws.PollThenResize`.

## Model

| member | source | states |
|---|---|---|
| Word32.SignedDifferenceIsExact | comedi/drivers.c:617-621 | counters compared by signed difference are compared exactly, however often they wrapped, when the true values are less than 2^31 apart |
| Word32.ClampIsExact | comedi/drivers.c:612-624 | the clamp grants the smaller of request and room if and only if the request is below 2^31 plus the room |
| Word32.ClampMissesHugeRequest | comedi/drivers.c:612-624 | an input the clamp misjudges |
| Cyclic.CellIsMod | comedi/drivers.c:655-657 | the walked-back cell is the position modulo the buffer size |
| Cyclic.CellOfSum | comedi/drivers.c:686-687 | an offset reduced after every addition stays the position modulo the size, which need not divide 2^32 |
| Cyclic.CellInjective | comedi/drivers.c:691-740 | positions less than one lap apart never share a cell |
| RingSpec.StreamByteStable | comedi/drivers.c:548-590 | committing more never changes a byte the reader is already entitled to |
| RingSpec.StreamOnlyGrows | comedi/drivers.c:548-590 | the munged stream before a commit is a prefix of the one after it |
| RingSpec.CommitKeepsStores | comedi/drivers.c:643-658 | counting filled cells as written keeps the layout of stream and unmunged bytes |
| RingSpec.MungeBlockKeepsStores | comedi/drivers.c:562-586 | a munge callback on the block at the munge position turns exactly those cells into stream bytes |
| RingSpec.BlockLeavesGranted | comedi/drivers.c:562-586 | munging a block leaves the bytes granted and not yet committed alone |
| RingSpec.MungedByteIsStreamByte | comedi/drivers.c:575-581 | what the callback writes, from the running channel index, is the stream byte of that position |
| RingSpec.StoredIsConverted | comedi/drivers.c:562-586 | stream bytes in the buffer are the converted committed samples, each at its place |
| RingSpec.SameCellsSameStores | comedi/drivers.c:691-714 | only cells between read and written matter to the reader |
| RingSpec.WriterReaderDisjoint | comedi/drivers.c:691-740 | cells of the writer's region and of bytes not yet read are physically disjoint |
| RingSpec.BlockWritten | comedi/drivers.c:694-711 | one contiguous block of the split copy writes the cells of its positions and no other live cell |
| RingSpec.CopiedIsStream | comedi/drivers.c:716-740 | bytes copied from the claimed region are a slice of the stream |
| AsyncBuffer.CounterClamp | comedi/drivers.c:617-621 | the 32-bit test of every allocation says for every request whether it lies between the room and 2^31 above it |
| AsyncBuffer.Async.Reset | comedi/drivers.c:782-799 | from any state of the counters the stream, scan progress and events start afresh and the invariant holds |
| AsyncBuffer.Async.WriteAvailable | comedi/drivers.c:592-609 | the room, rounded down to whole samples |
| AsyncBuffer.Async.WriteAlloc | comedi/drivers.c:612-624 | for every request: grants the smaller of request and room, keeping the chain read, claimed, munged, written, granted, read + size, if and only if the request is below 2^31 plus the room; else grants it all |
| AsyncBuffer.Async.WriteAllocStrict | comedi/drivers.c:627-640 | the same, granting all of a request or nothing |
| AsyncBuffer.Async.MungeCallback | comedi/drivers.c:575-576 | a per-sample conversion over one block, channel index advancing cyclically |
| AsyncBuffer.Async.BufMunge | comedi/drivers.c:548-590 | with a munge callback and no raw-data command, every whole sample k newly munged lies converted, once, with channel k modulo chanlist_len, and less than a sample is left; otherwise no byte changes and all counts as munged; granted bytes are left alone; neither `BUG()` is reachable |
| AsyncBuffer.Async.SkipMunge | comedi/drivers.c:554-559 | raw data: only the counter moves, and the invariant is kept |
| AsyncBuffer.Async.MungeWhole | comedi/drivers.c:560-586 | blocks split at the end of the buffer munge each whole sample exactly once, in order |
| AsyncBuffer.Async.MungeStep | comedi/drivers.c:563-585 | one block: cells, counter, offset and channel index all move to the new munge position |
| AsyncBuffer.Async.PassBlock | comedi/drivers.c:580-584 | the three munge variables, kept by remainder in wrapping words, are those of the new position |
| AsyncBuffer.Async.WriteFree | comedi/drivers.c:643-658 | commits the smaller of request and granted bytes as they lie in the buffer, and munges them, or leaves them as they are for raw data or without a callback; what remains granted keeps its bytes |
| AsyncBuffer.Async.MemcpyTo | comedi/drivers.c:691-714 | the split copy puts the data at the positions asked for and changes no byte the reader may still see |
| AsyncBuffer.Async.ReadAvailable | comedi/drivers.c:742-755 | munged bytes not yet read |
| AsyncBuffer.Async.ReadAlloc | comedi/drivers.c:661-672 | for every request: claims the smaller of request and munged bytes, if and only if it is below 2^31 plus those; else claims it all and the chain is lost |
| AsyncBuffer.Async.ReadFree | comedi/drivers.c:675-689 | for every request: hands back no more than was claimed, the read offset staying its position modulo the size, if and only if it is below 2^31 plus that |
| AsyncBuffer.Async.MemcpyFrom | comedi/drivers.c:716-740 | the bytes copied out are that slice of the munged stream |
| AsyncBuffer.Async.Put | comedi/drivers.c:769-780 | one 16-bit sample is appended to the stream, or nothing changes and failure is returned |
| AsyncBuffer.Async.Get | comedi/drivers.c:757-767 | the next 16-bit sample of the stream, or failure |
| AsyncBuffer.Async.WriteArray | comedi/drivers/comedi_fc.c:45-67 | the whole array is committed, or nothing and the overflow is flagged; scan progress counts the bytes modulo a scan and ends of scans are signalled |
| AsyncBuffer.Async.ReadArray | comedi/drivers/comedi_fc.c:69-84 | as many of the next stream bytes as there are, up to the request, with the same scan progress |
| AsyncBuffer.Async.IncrementScanProgress | comedi/drivers/comedi_fc.c:31-42 | progress is the bytes moved modulo a scan, and passing the end of a scan raises EOS |
| AsyncBuffer.ScanSamples | comedi/drivers/comedi_fc.h:54-73 | a scan is one sample for each channel, or on digital subdevices as few samples as hold one bit for each |
| AsyncBuffer.Async.IdlePollThenResize | comedi/comedi_fops.c:1681-1681 | after a poll of an idle subdevice, a new buffer keeps the chain if and only if it is not smaller |
| BufferRuns.MungingIgnoresChunking | comedi/drivers.c:548-590 | two commits munge exactly what one commit of both munges |
| BufferRuns.SampleOfStream | comedi/drivers.c:575-581 | sample k reaches the reader converted once, with channel index k modulo the channel list length |
| BufferRuns.LessThanOneSampleWaits | comedi/drivers.c:560-561 | less than one sample is ever left unmunged |
| BufferRuns.DoKeepsQueueOk | comedi/drivers.c:612-689 | each call keeps the byte queue, the reference for the buffer, in order and within its size |
| BufferRuns.GrantRefines | comedi/drivers.c:612-624 | a grant of the buffer is a grant of the queue |
| BufferRuns.FillRefines | comedi/drivers.c:691-714 | a fill of granted cells is a fill of the queue, its other bytes unchanged |
| BufferRuns.CommitRefines | comedi/drivers.c:643-658 | a commit moves the first bytes the writer put, whatever was munged meanwhile |
| BufferRuns.FilledQueueFixesBytes | comedi/drivers.c:643-658 | when all that is committed was put by the writer, the queue fixes every committed byte |
| BufferRuns.Run | comedi/drivers.c:612-740 | over any interleaving of calls since a reset, of any length, the buffer is the byte queue those calls describe, and the reader receives a prefix of what was put and committed: the bytes themselves when raw, else sample k converted with channel k modulo chanlist_len |
| BufferRuns.Step | comedi/drivers.c:612-740 | one call moves its position by the smaller of request and what there is, a fill arrives where it is put, the buffer stays the queue and what has been delivered the stream up to the read position |
| Divisors.Greatest | comedi/drivers/8253.h:124-211 | the greatest product of two divisors from 2 to 65536 not above the quotient exists and is meant by DOWN |
| Divisors.Least | comedi/drivers/8253.h:124-211 | the least such product not below it exists and is meant by UP |
| Divisors.CompareProduct | comedi/drivers/8253.h:152-179 | comparing products with ns is comparing divisor products with the quotients |
| Cascade.Consider | comedi/drivers/8253.h:170-179 | the two comparisons keep the best pairs sound, and wrapped products never mislead them |
| Cascade.RowProduct | comedi/drivers/8253.h:166-169 | a product that wraps falls below the row's own lower candidate |
| Cascade.ScanRow | comedi/drivers/8253.h:166-180 | after the inner loop no second divisor of the row improves on what was found |
| Cascade.LowerCovered | comedi/drivers/8253.h:160-165 | first divisors the outer loop skips have no better product below ns |
| Cascade.UpperCovered | comedi/drivers/8253.h:160-165 | nor above it |
| Cascade.Search | comedi/drivers/8253.h:152-181 | the scan from divider / 65536 to about the square root finds the true greatest and least periods |
| Cascade.Choose | comedi/drivers/8253.h:183-205 | each rounding mode picks its period, ties going down |
| Cascade.EarlyExitTest | comedi/drivers/8253.h:136-150 | the early exit is taken if and only if the cached divisors already make ns; its overflow checks never err |
| Cascade.MaskedPair | comedi/drivers/8253.h:207-209 | masked divisors decode, 0 meaning 65536, to a product equal to the period over the base |
| Cascade.NsToTimer2Div | comedi/drivers/8253.h:124-211 | period and divisors returned, cached divisors or not |
| CascadeLaws.DownIsGreatest | comedi/drivers/8253.h:124-211 | DOWN is the greatest makeable period not above the request, always |
| CascadeLaws.HighIsLeast | comedi/drivers/8253.h:124-211 | the upper candidate is the least makeable period not below the request |
| CascadeLaws.UpExactly | comedi/drivers/8253.h:124-211 | UP is the least makeable period not below the request if and only if the request is at most what DOWN gives for 2^32 - 2; above it UP is 0 |
| CascadeLaws.UsableHigh | comedi/drivers/8253.h:175-179 | the upper candidate is below the search's initial bound exactly for those requests |
| CascadeLaws.HighFits | comedi/drivers/8253.h:124-211 | it is whenever ns + 65537 timebases fit a word |
| CascadeLaws.UpFailsAtTop | comedi/drivers/8253.h:124-211 | an input for which UP returns 0 |
| CascadeLaws.NearestIsNearest | comedi/drivers/8253.h:183-205 | within its reach no makeable period is nearer than NEAREST's, and ties go down |
| CascadeLaws.NearestExactly | comedi/drivers/8253.h:183-205 | over the whole range NEAREST keeps that promise if and only if a condition on what DOWN gives for ns, 2^32 - 2 and 2^32 - 1 holds |
| CascadeLaws.NearestFailsAtTop | comedi/drivers/8253.h:183-205 | an input for which NEAREST returns 0 |
| CascadeLaws.MakeableIsFixed | comedi/drivers/8253.h:124-211 | a makeable period is its own result in each mode, one request excepted |
| CascadeLaws.EarlyExitAgrees | comedi/drivers/8253.h:136-150 | the early exit gives what the full search gives if and only if it is not UP at 2^32 - 1 |
| CascadeLaws.EarlyExitDiffers | comedi/drivers/8253.h:136-150 | that request, with divisors for which they differ |
| CascadeLaws.RerunIsStable | comedi/drivers/8253.h:124-211 | a second call on a returned period returns it again, in any mode |
| CascadeLaws.NsToTimerPower | comedi/drivers/8253.h:84-122 | a power of two as first divisor, no larger than needed, rounding within its row; the last resort is never reached |
| CascadeLaws.NearestBeatsPower | patches/cascade-test.c:105-106 | wherever NEAREST keeps its promise it is never farther off than the power-of-two search, or any divisors at all |
| Timer8254.Chip.Load | comedi/drivers/8253.h:235-259 | refuses exactly the counts and modes the chip cannot take; otherwise the counter holds them and the others are untouched |
| Pci224Timer.Pci224.CheckMinimum | comedi/drivers/amplc_pci224.c:842-855 | the shortest scan period, and that it is an error to be below it |
| Pci224Timer.SingleCountRounds | comedi/drivers/amplc_pci224.c:917-936 | the single timer's count rounds to the nearest 100 ns, halves up, or to the side asked for |
| Pci224Timer.Pci224.FixPeriod | comedi/drivers/amplc_pci224.c:915-962 | step 4 leaves a period alone if and only if the counters can make it, and with one counter corrects it to the nearest or next makeable one of its rounding |
| Pci224Timer.Pci224.ProgramTimer | comedi/drivers/amplc_pci224.c:1069-1133 | for every such period the counters loaded make exactly it and no load is refused |
| Pci224Timer.FixpointIsMakeable | comedi/drivers/amplc_pci224.c:946-954 | the cascade's fixed points are the makeable periods |
| Pci224Timer.CachedAgrees | comedi/drivers/amplc_pci224.c:946-954 | whatever divisors an earlier call left, the result is the full search's |
| Pci224Timer.MaskedNeverOne | comedi/drivers/amplc_pci224.c:1090-1112 | the single-timer flag never collides with a cascade result |
| Pci224Scan.CheckChanlist | comedi/drivers/amplc_pci224.c:966-1010 | the errors are raised exactly for duplicate channels and for mixed ranges |
| Pci224Scan.RankFollowsChannel | comedi/drivers/amplc_pci224.c:1035-1045 | ranks order entries as their channels do |
| Pci224Scan.EveryRankOccurs | comedi/drivers/amplc_pci224.c:1035-1045 | without duplicates every position is some entry's rank |
| Pci224Scan.FilledIsScanOrder | comedi/drivers/amplc_pci224.c:1035-1045 | storing indices at ranks gives a permutation sorted strictly by channel |
| Pci224Scan.SetScanOrder | comedi/drivers/amplc_pci224.c:1035-1045 | the rank loops fill the array with that permutation and enable exactly the channels listed |
| Pci224Scan.EachSampleInChannelOrder | comedi/drivers/amplc_pci224.c:669-677 | each sample of a scan leaves exactly once, at the place of its channel |
| Pci224Scan.Output.HandleFifo | comedi/drivers/amplc_pci224.c:602-725 | over any run of interrupts: all samples taken have left scan by scan in scan order, scans out + scans wanted = stop_arg, the end is signalled exactly when the FIFO is empty and all scans are out, an underrun stops, level and trigger are set |
| Pci224Scan.MinimumIsMost | comedi/drivers/amplc_pci224.c:619-669 | the number of scans moved is the greatest that is wanted, waits and fits |
| Pci224Scan.Output.MoveScans | comedi/drivers/amplc_pci224.c:669-677 | taking scans keeps what left equal to the scans of everything taken |
| Pci224Scan.ScansAppend | comedi/drivers/amplc_pci224.c:669-677 | scans written in several interrupts are the scans of the uncut stream |
| Pci224Scan.Output.WriteScans | comedi/drivers/amplc_pci224.c:669-677 | the FIFO gains the scans, reordered, and the buffer loses them |
| Pci224Scan.Output.SetTriggers | comedi/drivers/amplc_pci224.c:678-721 | the level that waits for empty once nothing is left, and the first interrupt's trigger |
| Pci224Scan.Output.Stop | comedi/drivers/amplc_pci224.c:535-570 | stops once |
| Pci224Scan.Output.WriteScan | comedi/drivers/amplc_pci224.c:672-677 | one scan in scan order |
| Pci230Timer.DivideNs | comedi/drivers/amplc_pci230.c:2488-2509 | ticks to the nearest, below or above, saturating at a word |
| Pci230Timer.ChooseClkCount | comedi/drivers/amplc_pci230.c:2513-2526 | the finest clock source whose count fits, or the slowest |
| Pci230Timer.ClocksAreDecades | comedi/drivers/amplc_pci230.c:562-568 | the clock sources are decades apart |
| Pci230Timer.NsToSingleTimer | comedi/drivers/amplc_pci230.c:2528-2536 | the rounded period as far as a word holds it |
| Pci230Timer.SetupCounter | comedi/drivers/amplc_pci230.c:2538-2555 | the count register, 0 meaning 65536, makes exactly the rounded period |
| Pci230Timer.RoundingBound | comedi/drivers/amplc_pci230.c:2488-2536 | half a timebase for NEAREST, under one on the right side otherwise, if and only if the request is below the stated limit |
| Pci230Timer.HighRequests | comedi/drivers/amplc_pci230.c:2528-2536 | beyond it the period wraps to 32704 ns |
| Pci230Timer.WholeTicksAreFixed | comedi/drivers/amplc_pci230.c:2513-2536 | whole ticks of a clock are kept, also by a finer clock source |
| Pci230Timer.SingleTimerIsIdempotent | comedi/drivers/amplc_pci230.c:2528-2536 | rounding a rounded period changes nothing, in any mode, if and only if the request is below the limit |
| Pci230Timer.CheckScanPeriod | comedi/drivers/amplc_pci230.c:1630-1652 | the corrected scan period and the verdict |
| Pci230Timer.ScanPeriodCheckHolds | comedi/drivers/amplc_pci230.c:1630-1652 | while the conversions fit a word exactly the periods that hold them pass, and others become the shortest that does |
| Pci230Timer.TestTimedScan | comedi/drivers/amplc_pci230.c:1868-1892 | the failing step and the corrected arguments; an accepted scan period is one the timer makes if and only if the shortest scan can be rounded up within a word; a correction is too, and holds its conversions |
| Pci230Timer.AcceptedPeriodIsMade | comedi/drivers/amplc_pci230.c:2538-2555 | the counter makes exactly an accepted period that is its own rounding |
| Pci230Timer.UnmakeableScanAccepted | comedi/drivers/amplc_pci230.c:1880-1888 | an accepted scan period no counter makes |
| Pci230Timer.CorrectionIsAccepted | comedi/drivers/amplc_pci230.c:1868-1888 | offering a correction again is accepted if and only if its periods can be rounded and no overflow is seen |
| Pci230Timer.AcceptedScanHoldsConversions | comedi/drivers/amplc_pci230.c:1630-1652 | an accepted scan has room for its conversions if and only if their total fits a word |
| Pci230Timer.OverflowMissed | comedi/drivers/amplc_pci230.c:1640-1641 | an accepted scan that has not |
| Pci230Scan.CheckChanlist | comedi/drivers/amplc_pci230.c:1896-2036 | each error flag if and only if its rule is broken; the sequence rule is: whole exact repeats of a strictly ascending prefix |
| Pci230Scan.CheckEntry | comedi/drivers/amplc_pci230.c:1916-1960 | one turn of the loop keeps the flags exact for the entries seen |
| Pci230Scan.CheckSequence | comedi/drivers/amplc_pci230.c:1928-1940 | the same for the ascending prefix and its repeats |
| Pci230Scan.FinishCheck | comedi/drivers/amplc_pci230.c:1961-1989 | whole repeats, and the boards that need channel 0 first |
| Pci230Scan.RegularIffNoError | comedi/drivers/amplc_pci230.c:1913-1969 | the loop's findings mean the list is regular, and conversely |
| Pci230Scan.DescentIsPeriod | comedi/drivers/amplc_pci230.c:1929-1934 | in a regular list the first descent is where the prefix starts over |
| Pci230Scan.SameFieldSameRange | comedi/drivers/amplc_pci230.c:1948-1954 | the neighbour-only check makes all entries on a channel pair share a range |
| Pci230Scan.SetGains | comedi/drivers/amplc_pci230.c:2377-2399 | although the last writer wins, every entry's requested gain is in the register, unused fields keep theirs, and exactly the inputs of the entries are enabled |
| Pci230Scan.GainFitsRange | comedi/drivers/amplc_pci230.c:571-586 | each step of gain halves the span, and polarity and gain tell the ranges apart |
| Pci230Acquire.Ai.constructor | comedi/drivers/amplc_pci230.c:2329-2338 | a fresh command has all its samples still to come |
| Pci230Acquire.Ai.Todo | comedi/drivers/amplc_pci230.c:2778-2797 | never more than the FIFO half or the samples still to come |
| Pci230Acquire.Ai.StoreSample | comedi/drivers/amplc_pci230.c:2832-2845 | stored + remaining = stop_arg times scan length, through scan ends and wraps of a continuous count |
| Pci230Acquire.Ai.DrainFifo | comedi/drivers/amplc_pci230.c:2799-2846 | for any behaviour of the FIFO and any room, exactly the samples the hardware gave are stored, in order; each lies within what a due status reading announced; it stops when all are read, the FIFO shows nothing, it overran, or the buffer is full, the last two as faults |
| Pci230Acquire.DrainingIsRight | comedi/drivers/amplc_pci230.c:2799-2846 | from wherever the loop stands, every sample taken was announced by a reading that was due, and there are four reasons to stop |
| Pci230Acquire.Ai.HandleAi | comedi/drivers/amplc_pci230.c:2768-2865 | the smaller of half a FIFO and what is still to come is wanted, taken and stored as announced; never above stop_arg times scan length, end signalled exactly at equality, end and faults stop the command |
| Pci230Acquire.Ai.Signal | comedi/drivers/amplc_pci230.c:2848-2865 | what is reported, and whether and when there is a next interrupt |
| Pci230Acquire.Ai.UpdateFifoTriggerLevel | comedi/drivers/amplc_pci230.c:2040-2082 | the interrupt level is the rest of the scan or the command up to half a FIFO, or one sample on boards without a level, and so never exceeds the samples still to come |
| Pci230Acquire.RemainingBounds | comedi/drivers/amplc_pci230.c:2048-2061 | at least one sample a scan is still to come: why 2049 scans suffice for the half-full level |
| Decimation.KeepOfConcat | comedi/drivers/adl_pci9118.c:458-477 | where the raw stream is cut makes no difference to what is kept |
| Decimation.KeepFrame | comedi/drivers/adl_pci9118.c:458-477 | one whole frame yields its window |
| Decimation.KeptSample | comedi/drivers/adl_pci9118.c:467-474 | each wanted sample of each frame is in the kept stream, at its place |
| Decimation.KeptLength | comedi/drivers/adl_pci9118.c:467-474 | and whole frames keep nothing else |
| Pci9118.Ai.Defragment | comedi/drivers/adl_pci9118.c:458-477 | the in-place compaction keeps exactly the wanted samples of the block, never overwriting an unread one |
| Pci9118.Ai.MoveBlock | comedi/drivers/adl_pci9118.c:482-498 | over any run of blocks, wanted samples = those of the uncut stream = scans times scan length + position; absent overflow they are what is stored |
| Pci9118.CountScans | comedi/drivers/adl_pci9118.c:488-491 | the scan count, wrapping, and the position account for every kept sample |
| Pci9111.FixedScan | comedi/drivers/adl_pci9111.c:686-708 | a scan period is left alone if and only if it is a whole number of shortest scans as computed, and is corrected to one near it otherwise; a shortest scan of 0 divides by zero |
| Pci9111.FixScanPeriod | comedi/drivers/adl_pci9111.c:686-708 | step 4 gives that outcome |
| Pci9111.ScanPromiseExactly | comedi/drivers/adl_pci9111.c:686-708 | accepted if and only if a whole number of back-to-back scans, and no division by zero, exactly when 0 < chanlist_len * convert_arg < 2^32 |
| Pci9111.RoundedUpToZero | comedi/drivers/adl_pci9111.c:674-697 | the conversion period that makes step 4 divide by zero |
| Pci9111.WrappedScanAccepted | comedi/drivers/adl_pci9111.c:686-708 | an accepted scan shorter than its conversions |
| Pci9111.Ai.FixConvertPeriod | comedi/drivers/adl_pci9111.c:674-682 | the corrected conversion period, whatever divisors an earlier call left |
| Pci9111.Ai.SetUp | comedi/drivers/adl_pci9111.c:794-865 | for every accepted command, in C's words: the chunk is the accepted scan period, and the counters are right if and only if chunk and counted total fit |
| Pci9111.CountedTotal | comedi/drivers/adl_pci9111.c:796-861 | the int counter holds the total modulo 2^32 after both multiplications |
| Pci9111.TakesHalfExactly | comedi/drivers/adl_pci9111.c:977-981 | an interrupt takes at most half the FIFO if and only if the counter is not negative |
| Pci9111.HugeTotalTurnsNegative | comedi/drivers/adl_pci9111.c:796-981 | an accepted command whose counter is negative, and what its interrupt takes |
| Pci9111.Ai.DrainChunks | comedi/drivers/adl_pci9111.c:990-1041 | the chunk loop stores each chunk's first scan whatever the cuts, and counts every raw sample |
| Pci9111.Ai.HalfFull | comedi/drivers/adl_pci9111.c:969-1051 | interrupts of any cut keep the invariant; a counted command ends with exactly stop_arg times chanlist_len samples, absent overflow |
| Pci9111.WholeChunks | comedi/drivers/adl_pci9111.c:861-865 | whole chunks hold one scan each |
| RtPend.PendQueue.PendCall | comedi/rt_pend_tq.c:34-65 | refused if and only if 15 are pending (or no function, no interrupt), and a refusal changes nothing |
| RtPend.PendQueue.HandleOne | comedi/rt_pend_tq.c:74-79 | runs the oldest pending call |
| RtPend.PendQueue.IrqHandler | comedi/rt_pend_tq.c:74-79 | runs all pending calls in order and leaves none; calls pended meanwhile are accepted exactly as the queue accepts them, and run too |
| RtPend.PendQueue.PendAll | comedi/rt_pend_tq.c:34-65 | calls offered in turn leave the ring the queue they make |
| RtPend.NeverMoreThanFifteen | comedi/rt_pend_tq.c:31-65 | no sequence of operations leaves more than 15 pending |
| RtPend.Run | comedi/rt_pend_tq.c:31-79 | over any sequence of enqueues and handler steps the ring is the queue that sequence makes, and the calls run are its accepted calls, each once, in order, but for those pending |
| Lifecycle.GrantExactly | comedi/drivers.c:612-689 | what a call grants, for every 32-bit request |
| Lifecycle.BufferCallsKeepChain | comedi/drivers.c:612-689 | each of the four buffer calls keeps the chain of positions if and only if its request is below 2^31 plus what there is |
| LifecycleLaws.PositionsFollowRing | comedi/drivers.c:612-689 | the positions the life cycle uses move as the ring of the buffer model moves, for every 32-bit request, a commit for counts in reach |
| LifecycleLaws.CmdKeepsInv | comedi/comedi_fops.c:1112-1247 | a command, whether refused, rejected, failed or started, keeps the invariant |
| LifecycleLaws.RejectedCmdKeepsInv | comedi/comedi_fops.c:1172-1246 | a rejected command frees its channel list exactly once |
| LifecycleLaws.StartedCmdKeepsInv | comedi/comedi_fops.c:1219-1246 | a started one owns it, and a failed start gives everything back |
| LifecycleLaws.NonbusyKeeps | comedi/comedi_fops.c:1933-1954 | going idle keeps the real-time count, the handler and the allocations right |
| LifecycleLaws.ReadKeepsInv | comedi/comedi_fops.c:1811-1928 | a read attempt keeps the invariant |
| LifecycleLaws.WokenReadKeepsInv | comedi/comedi_fops.c:1886-1924 | so does a reader that slept and wakes, whatever it finds |
| LifecycleLaws.WriteKeepsInv | comedi/comedi_fops.c:1695-1809 | a write attempt keeps the invariant |
| LifecycleLaws.BufinfoReadExactly | comedi/comedi_fops.c:656-675 | the read side keeps the invariant if and only if its count is below 2^31 plus what may be claimed |
| LifecycleLaws.BufinfoWriteExactly | comedi/comedi_fops.c:677-691 | the write side of a busy subdevice if and only if its count is below 2^31 plus the room |
| LifecycleLaws.BufinfoExactly | comedi/comedi_fops.c:618-707 | bufinfo keeps the invariant for counts in reach, and only for those unless, on a subdevice both read and written, the read count is out of reach |
| LifecycleLaws.HugeBufinfoBreaksChain | comedi/comedi_fops.c:656-661 | a count that breaks it |
| LifecycleLaws.WriteCountMendsReadCount | comedi/comedi_fops.c:656-682 | in that case a write count can make up for the read count |
| LifecycleLaws.DriverExactly | comedi/drivers.c:612-689 | a driver's buffer call keeps the invariant if and only if its count is in reach |
| LifecycleLaws.StepKeepsInv | comedi/comedi_fops.c:967-2280 | every step with counts in reach keeps: running implies a busy file, busy and locked owners agree, a channel list exactly while a file is busy, never leaked or freed twice, positions in order, dev->rt right |
| LifecycleLaws.StepExactly | comedi/comedi_fops.c:618-2280 | and only those, save where bufinfo leaves a read count out of reach to a write count |
| LifecycleLaws.RunKeepsInv | comedi/comedi_fops.c:967-2280 | and so does every run from attach of such steps |
| LifecycleLaws.SmallRunKeepsInv | comedi/comedi_fops.c:967-2280 | in particular every run whose bufinfo and driver counts are below 2^31 |
| LifecycleLaws.CloseReleases | comedi/comedi_fops.c:2034-2079 | after close(f) no subdevice is busy with or locked by f, and uninvolved subdevices are unchanged |
| LifecycleLaws.OthersCannotTake | comedi/comedi_fops.c:967-1435 | a step of another file or the driver ends a command if and only if it is a woken reader's and the command is finished, without error and drained |
| LifecycleLaws.WokenReaderEndsAnother | comedi/comedi_fops.c:1886-1924 | the steps in which it happens |
| LifecycleLaws.ReadEndsDelivered | comedi/comedi_fops.c:1855-1927 | a read returns a command to idle, or reports EPIPE, only after every munged byte was delivered |
| LifecycleLaws.WokenReadEndsDelivered | comedi/comedi_fops.c:1886-1924 | the same for a woken reader, of the owner or of another file |
| LifecycleLaws.BufinfoEndsDelivered | comedi/comedi_fops.c:656-675 | so does the read side of bufinfo for counts in reach, and what it grants is bounded by what there is only for those |
| LifecycleLaws.SplitReadExactly | comedi/comedi_fops.c:1860-1924 | without atomicity: the second half keeps the promise if and only if bytes were sampled, the command runs, or nothing is left |
| LifecycleLaws.SplitReadLosesBytes | comedi/comedi_fops.c:1860-1871 | the interleaving that loses bytes |
| LifecycleLaws.InterruptFlagExactly | comedi/rt.c:148-166 | after a subdevice goes idle the entry's flag is right if and only if this was not one of several real-time ones |
| LifecycleLaws.InterruptFlagMisleads | comedi/rt.c:148-166 | the interrupt entry's flag is cleared while the handler is still needed |
| LifecycleLaws.PollThenResize | comedi/comedi_fops.c:1648-1693 | after a poll of an idle subdevice, a resize keeps its chain if and only if the buffer does not shrink; the invariant is unharmed |
| LifecycleLaws.RtCountUpdate | comedi/rt.c:124-166 | the count of real-time subdevices follows each flag |
| LifecycleAnswers.CmdAnswers | comedi/comedi_fops.c:1112-1247 | the code for each failing check, 0 exactly when all pass and the driver starts; a refusal changes nothing, a later failure leaves the subdevice idle, a started command owns, runs, and has an empty buffer, with SRF_RT exactly for a priority request on an interrupt |
| LifecycleAnswers.NewCommandHasNothing | comedi/comedi_fops.c:1867-1884 | a nonblocking read right after a started command is told EAGAIN |
| LifecycleAnswers.InsnAnswers | comedi/comedi_fops.c:941-1030 | the code for each failing check of an instruction |
| LifecycleAnswers.LockAnswers | comedi/comedi_fops.c:1366-1393 | a lock that returns 0 is held, and 0 is for idle, unlocked subdevices only |
| LifecycleAnswers.UnlockAnswers | comedi/comedi_fops.c:1411-1435 | only the owner unlocks |
| LifecycleAnswers.OnlyOwnerUnlocks | comedi/comedi_fops.c:967-2280 | no step of any kind but the owner's unlock or close takes a lock away |
| LifecycleAnswers.CancelAnswers | comedi/comedi_fops.c:1451-1490 | cancel ends exactly the caller's own command |
| LifecycleAnswers.GoingIdle | comedi/comedi_fops.c:1933-1954 | what a subdevice without a command looks like, and that its channel list and real-time use are given back |
| LifecycleAnswers.ReadAnswers | comedi/comedi_fops.c:1811-1928 | the count returned is what could be moved less the fault, the read position moves by it, and the command is over exactly when finished, without error and drained |
| LifecycleAnswers.WokenAnswers | comedi/comedi_fops.c:1886-1927 | what a woken reader is told, and when it ends the command |
| LifecycleAnswers.WriteAnswers | comedi/comedi_fops.c:1695-1809 | exactly what is reported is committed and munged; a count is returned if and only if there is room, bytes are offered and the fault is smaller; a finished command goes idle |
| LifecycleAnswers.BufinfoAnswers | comedi/comedi_fops.c:618-707 | for counts in reach, what each side claims or grants, consumes or commits, and the codes |
| LifecycleAnswers.EventAnswers | comedi/comedi_fops.c:2221-2280 | an end or an error stops a running command, and an error is remembered |
| LifecycleAnswers.ErrorReachesReader | comedi/comedi_fops.c:2241-2248 | a read after the error, with nothing left, is told EPIPE |
| LifecycleAnswers.ResizeAnswers | comedi/comedi_fops.c:2574-2606 | the size changes, of an idle subdevice only |
| LifecycleAnswers.PollAnswers | comedi/comedi_fops.c:1681-1681 | poll grants a write subdevice's whole free buffer |
| LifecycleAnswers.MoveAnswers | comedi/drivers.c:612-689 | a driver's buffer call in reach moves the smaller of the count and what there is |
| Device.Comedi.SetRunflags | comedi/comedi_fops.c:2282-2291 | exactly the masked flags take the given values |
| Device.Comedi.SwitchRt | comedi/rt.c:124-146 | the handler is installed by the first real-time subdevice only |
| Device.Comedi.SwitchNonRt | comedi/rt.c:148-166 | and removed by the last |
| Device.Comedi.MakeNonbusy | comedi/comedi_fops.c:1933-1954 | the updates in place are the idle step |
| Device.Comedi.Event | comedi/comedi_fops.c:2221-2280 | end, error and overflow stop the subdevice, the latter two with the error flag; an idle one ignores all; the invariant is kept |
| Device.Comedi.CmdIoctl | comedi/comedi_fops.c:1112-1247 | the command ioctl is its step, in state and return value, and keeps the invariant; what it returns and leaves is `LifecycleAnswers.CmdAnswer` |
| Device.Comedi.StartCommand | comedi/comedi_fops.c:1219-1242 | reset, flags, real-time switch, owner, driver start |
| Device.Comedi.Instruction | comedi/comedi_fops.c:941-1030 | an instruction leaves no trace and returns what the checks or the driver say |
| Device.Comedi.LockIoctl | comedi/comedi_fops.c:1366-1393 | lock is its step and keeps the invariant, and what it grants is held |
| Device.Comedi.UnlockIoctl | comedi/comedi_fops.c:1411-1435 | unlock is its step and keeps the invariant, and only the owner unlocks |
| Device.Comedi.CancelCommand | comedi/comedi_fops.c:1529-1539 | do_cancel goes idle and passes on the driver's answer |
| Device.Comedi.CancelIoctl | comedi/comedi_fops.c:1451-1490 | cancel is its step and keeps the invariant, and ends the caller's command |
| Device.Comedi.Close | comedi/comedi_fops.c:2034-2079 | the loop over subdevices is the closing step; afterwards no subdevice is busy with or locked by the file, the others are as they were, and the invariant is kept |
| Device.Comedi.Read | comedi/comedi_fops.c:1811-1928 | one attempt of read is its step, in state and return value, keeps the invariant, and ends a command only with everything delivered, moving what it reports |
| Device.Comedi.WokenRead | comedi/comedi_fops.c:1886-1927 | so is the rest of a read that slept |
| Device.Comedi.ReadLoop | comedi/comedi_fops.c:1855-1927 | the loop body and the end of read are the two halves of the step |
| Device.Comedi.Write | comedi/comedi_fops.c:1695-1809 | one attempt of write is its step and keeps the invariant, and commits exactly what it reports |
| Device.Comedi.BufinfoIoctl | comedi/comedi_fops.c:618-707 | bufinfo is its step, write-side errors winning, for every 32-bit count, and keeps the invariant for counts in reach |
| Device.Comedi.Poll | comedi/comedi_fops.c:1681-1681 | poll's grant is its step and keeps the invariant |
| Device.Comedi.Resize | comedi/comedi_fops.c:2574-2606 | resizing is its step and keeps the invariant, and the size changes |
| Device.Comedi.Move | comedi/drivers.c:612-689 | a driver's buffer call is its step and keeps the invariant if and only if its count is in reach |
| Device.Comedi.Perform | comedi/comedi_fops.c:618-2280 | any action in place is its step and keeps the invariant |
| Device.Comedi.Run | comedi/comedi_fops.c:618-2280 | whole runs from attach: the device in place follows the model and ends in its invariant |

## Left out

- AsyncBuffer.Async.WriteFree: requires the count to be below 2^31 plus what is granted; beyond it the munging of bytes that were never granted is not followed, only the positions are (`Lifecycle.BufferCallsKeepChain`).
- AsyncBuffer.Async.MemcpyTo: requires the target to lie in the region granted to the writer, as the callers see to; the C function writes wherever it is told. The same holds for `AsyncBuffer.Async.MemcpyFrom` and the claimed region.
- BufferRuns.Run: requests are below 2^31 bytes, as the buffer is specified for; larger ones are in the contracts of the single calls.
- AsyncBuffer.Async.Resize: the swap of buffers only; page allocation, mappings and the driver's `buf_change` hook are not modelled.
- Cascade.NsToTimer2Div: requires a timebase of 2 ns or more, ns at least four timebases (the lower limit used by patches/cascade-test.c:132), and cached divisors that are both zero or left by an earlier call; a bound of 2^31 on the base.
- CascadeLaws.NsToTimerPower: requires ns + 65537 timebases to fit a word; beyond it the C sums wrap.
- CascadeLaws.RerunIsStable: excludes a returned period of 0, which is no period, and of 2^32 - 1, for which see `CascadeLaws.EarlyExitAgrees`.
- Pci224Timer.Pci224.CheckMinimum: channel lists of at most 16 entries, which the board has.
- Pci224Scan.SetScanOrder: the bit mask of enabled channels is a set, as is that of channels seen in `Pci224Scan.CheckChanlist` and the enabled inputs in `Pci230Scan.SetGains`.
- Pci224Scan.Output.Stop: the waiting for a running interrupt routine and the FIFO reset are not modelled.
- Pci230Timer.TestTimedScan: the timing arguments of a timer-driven scan only; trigger sources and the other arguments are not modelled.
- Pci230Scan.SetGains: the gain register is its eight two-bit fields.
- Pci9111.Ai.SetUp: claims nothing of the acquisition when the counted total or the chunk does not fit.
- Pci9111.Ai.Write: whether the buffer has room is left open, all or nothing; the buffer itself is modelled in `AsyncBuffer`. `Pci9118.Ai.MoveBlock` is told whether the block fits.
- LifecycleLaws.ReadEndsDelivered: each attempt is atomic. A reader that would sleep returns ERESTARTSYS; its waking is the action WokenRead. A sleeping writer changes nothing before it looks at the owner again, so its waking is a later attempt.
- LifecycleLaws.StepExactly: excludes bufinfo with a read count out of reach on subdevices that are both read and written, where a huge write count can make up for it (`LifecycleLaws.WriteCountMendsReadCount`).
- LifecycleLaws.PositionsFollowRing: follows a commit only for counts in reach, as `AsyncBuffer.Async.WriteFree` does.
- Lifecycle.DoRead: the contiguous part of a transfer is computed from the position modulo the size, which is what the offset is while the chain holds (`AsyncBuffer`); after a count that breaks the chain the sizes of transfers are not claimed.
- Device.Comedi.constructor: real-time handler requests always succeed and the interrupt entry is stable; `it->rt` is modelled but nothing is claimed of it beyond `LifecycleLaws.InterruptFlagExactly`.
- Buffers in the life cycle are their stream positions, not `Async` objects; `LifecycleLaws.PositionsFollowRing` connects the two. Buffers of idle subdevices carry no claim.
- Memory barriers, spin locks, wait queues and copying to and from user space: steps are atomic, and a failed or partial copy is an arbitrary count of bytes left undone.
- Port and memory access: register reads are parameters, register writes are fields.
- Owners other than open files (kcomedilib), mmap, /proc, sysfs, compat32, attach and detach, module counts.
- Byte counts of 2^31 and more in a single read or write call, which the C code narrows to `int`.
- PCI230 timer ownership after cancel: `pci230_ai_stop` returns before releasing when the command was never started (comedi/drivers/amplc_pci230.c:2935-2939), so nothing is claimed.
- adl_pci9112.c, whose command and interrupt code copies adl_pci9111.c, the DMA set-up heuristics of adl_pci9118.c, the superseded older cascade search, and the simple digital drivers: they would add only easy members or repeat what is here.
