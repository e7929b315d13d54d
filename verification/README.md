# Verified models of the ChibiOS-Contrib utilities

This project models seven components that ship in the ChibiOS-Contrib library, in the form their
own code has, and proves what they promise. `dafny verify dfyconfig.toml` checks all of it.

- **Median filter** (`MedianSpec.dfy`, `Median.dfy`). A sliding-window filter threads the nodes of a
  circular buffer onto a descending linked list and finds the middle with a half-speed pointer in
  the same pass that unlinks the oldest sample and links the newest. `Pair` and `MedianFilter` are
  heap objects with the source's fields; the window and its order are ghost state. The main result:
  every run of calls returns the middle rank of the last samples.
- **Software CRC** (`Gf2.dfy`, `Words.dfy`, `Crc.dfy`, `CrcProperties.dfy`, `CrcEngines.dfy`,
  `CrcRun.dfy`, `CrcTables.dfy`, `CrcAnswers.dfy`, `CrcTestData.dfy`). Code runs on 32-bit words;
  `Gf2` is the independent reference, polynomials over GF(2) as bit sequences. The bitwise engine is
  polynomial division, the table engine is its mirror image, the shipped tables are right, splitting
  a message is invisible, both engines detect short bursts, and the expected answers of the driver's
  test program follow.
- **Memory tester** (`Patterns.dfy`, `Memtest.dfy`, `Inversion.dfy`, `MemtestRun.dfy`,
  `MemtestPlan.dfy`). Memory is a map from cells to storage with stuck bits. What the walking,
  own-address and inversion passes find is said exactly, and no pass raises a false alarm; the cell
  width is a parameter.
- **SCSI target over a RAM disk** (`Bytes.dfy`, `RamDisk.dfy`, `ScsiSpec.dfy`, `Scsi.dfy`,
  `ScsiProperties.dfy`, `ScsiAnswers.dfy`, `ScsiRun.dfy`). `ScsiSpec` says what one command does;
  the classes refine it; the properties are about all sequences of commands, among them transports
  that cut answers short.
- **Triple buffer** (`Tribuf.dfy`). A producer and any number of consumers are interleaved atomic
  steps; the semaphore is its counter and the length of its queue, with blocking waits, polls and
  timeouts.
- **PID controller** (`Pid.dfy`, `PidLaws.dfy`). A controller object over exact reals with run-time
  retuning; invariants over all sequences of calls, and the PID equation in the user's units.
- **Configuration upgrader** (`MacroLines.dfy`, `UpgradeSpec.dfy`, `Upgrade.dfy`, `BlockEdits.dfy`,
  `HeaderBlocks.dfy`, `HeaderReading.dfy`, `UpgradeProperties.dfy`, `GrownValue.dfy`). The line
  parser and the position-tracking rewrite of a template header.

## What the proofs brought to light

- The CRC table engine starts from the unmirrored start value and shifts its whole 32-bit word. With
  full reflection it agrees with the bitwise engine on every buffer exactly if the start value has
  no bits above the register and is its own mirror image (`CrcEngines.TableRefinesBits`); both
  shipped configurations are of that kind.
- The memory tester's callback takes 32-bit words, so a 64-bit mismatch in the upper half is
  reported with two equal words (`Memtest.ReportedWordsDiffer`).
- An accepted READ(10) or WRITE(10) ignores how much is transferred: a short read is a success with
  no residue (`ScsiProperties.ReadOutcome`), and a block whose data does not arrive in full is
  stored with the rest of whatever went through the buffer before (`ScsiProperties.WriteOutcome`,
  `ScsiProperties.BlocksHoldHistory`).
- The own-address pass misses aliasing at multiples of 2^w, and only that
  (`Memtest.OwnAddressExact`).
- The RAM disk's read-only flag is reported but never enforced: a disk is safe from a command
  exactly if that is not an accepted write of at least one block (`ScsiProperties.KeepsDiskExactly`,
  `ScsiProperties.ProtectionNotEnforced`).
- A disk of no blocks reports 0xFFFFFFFF as its last block (`ScsiAnswers.CapacityReply`).
- While a thread waits for the triple buffer the counter is below 0 and the handler answers ready
  with nothing published (`Tribuf.BlockedWaitLooksReady`); the answer is right exactly if no thread
  waits (`Tribuf.ReadinessExact`).
- Waiting for the triple buffer and swapping in two steps, as a thread that had to wait does, can
  bring back an older frame (`Tribuf.SplitConsumerGoesBack`); `Tribuf.SwapShowsNewest` says exactly
  when.
- A PID direction change in manual mode is not followed by the gains until the next retuning
  (`Pid.GainsMatchDirection`, `Pid.ManualReverseIsLost`).
- The upgrader computes an offset for longer or shorter user values but never applies it. It gives
  the intended header if no value but the template's last changes its number of lines
  (`UpgradeProperties.SizesSuffice`), and if no continuation line of a wanted value is itself a
  defining line, only then (`UpgradeProperties.UpgradeExact`; such a line can hide the fault,
  `GrownValue.EqualLinesHideTheTear`). Otherwise it stops with an index error or some line ends up
  in a wrong place: a value may be torn apart (`GrownValue.LongerValueIsTorn`), or a definition may
  pass a line that belongs before it.
- A line such as `#defineFOO a b` is taken for a definition of `a` and rewritten
  (`UpgradeProperties.RoundTrip`).
- Comments that differ from the code: `median.h` asks for a size of 3 or more, the code is right
  from 1; `pid.h` says limits 0-255, the code sets 0..4095. The model follows the code.

## Modelling choices

- Preconditions are the source's: a median buffer of at least one node, a stopper below 0xFFFF and
  samples not below it; a polynomial size of 8..32; data requests whose last block number, and disks
  whose byte size, fit 32 bits; a started disk and a block buffer of one block.
- The generator classes of the memory tester differ only in what `get`, `init` and `get_type` do for
  their kind; they are one class `Generator` with a kind field.
- `rand` is a function of the start value and the number of calls since; no one else calls it in
  between. The four widths see the tested area through one view each.
- Flag masks are tested arithmetically (`mask / flag % 2`), the byte-swap macros are written with
  division and remainder; both mean the masks and shifts of the source.
- The transport is a script of what happens on the wire: how much each transmit takes and what each
  receive delivers. What is on the stack before a response is filled in is a parameter, since one
  response sends three bytes it never sets.
- `CRCSW_PROGRAMMABLE` is on (without it the mask is not declared), `TRIBUF_USE_WAIT` is on.
- A wait of the triple buffer is modelled up to its return or its falling asleep; the publication
  that wakes a thread completes its wait.
- Millisecond time is an argument of the PID calls; differences are taken modulo 2^32. The output
  cell may also be written by the application (`Pid.Drive`).
- A header is its list of lines. A Python dictionary is a sequence of entries in insertion order.

## Model

| member | source | states |
|---|---|---|
| `Median.MedianFilter.constructor` | ChibiOS_21.11.1/community/os/various/median.c:19-29 | a new filter is valid with an empty history, whatever the buffer holds |
| `Median.Admit` | ChibiOS_21.11.1/community/os/various/median.c:39-42 | a sample equal to the stopper counts as stopper + 1 and any other as itself, so every admitted sample exceeds the stopper; the 16-bit sum does not wrap |
| `Median.VisitItem` | ChibiOS_21.11.1/community/os/various/median.c:67-77 | visiting one chain item takes the old datum out behind it or puts the new datum in before it exactly when that item is the right place, and leaves every other link alone |
| `Median.MedianStep` | ChibiOS_21.11.1/community/os/various/median.c:79-80 | a link the median pointer follows is already final: both link edits happen ahead of it |
| `Median.ScanChain` | ChibiOS_21.11.1/community/os/various/median.c:63-108 | the scan visits every chain item once and leaves through a break at the small sentinel, never through the size bound or a null link, and the half-speed pointer ends on the middle item of the new chain |
| `Median.Pass` | ChibiOS_21.11.1/community/os/various/median.c:49-109 | one pass links the new datum at its rank, unlinks the oldest one wherever it was, and returns the value of the middle item |
| `Median.Relink` | ChibiOS_21.11.1/community/os/various/median.c:49-109 | the list of the kept samples becomes the list of the new window in sorted order, and the value returned is the median of the new window |
| `Median.MedianFilter.Push` | ChibiOS_21.11.1/community/os/various/median.c:44-109 | the write index moves to the node of the oldest sample; the list invariant is kept; the result is the median of the window |
| `Median.MedianFilter.Filter` | ChibiOS_21.11.1/community/os/various/median.c:31-110 | every call keeps the invariant (the list from big visits exactly the window, once each, in non-increasing order, ties in arrival order, ending at small) and returns the median of the last min(calls, size) samples |
| `Median.Run` | ChibiOS_21.11.1/community/os/various/median.c:19-110 | for every run of calls on a fresh filter, call i returns the ceil(N/2)-th largest of the last N = min(i + 1, size) samples, with just the samples equal to the stopper written as stopper + 1; so without such samples it is the median of the data, and with them it is that median unless that is the stopper, and then the number after it |
| `Median.MiddleOf3` | ChibiOS_21.11.1/community/os/various/median.c:112-130 | the branch-only median of three is the median by rank |
| `MedianSpec.RankUnique` | ChibiOS_21.11.1/community/os/various/median.c:31-110 | at most one value is the k-th largest of a window, so the specified answer is unique |
| `MedianSpec.RankOccurs` | ChibiOS_21.11.1/community/os/various/median.c:31-110 | the k-th largest value occurs in the window: the filter never invents a value |
| `MedianSpec.SortAndTakeMiddle` | ChibiOS_21.11.1/community/os/various/median.c:31-110 | being the median is the same as being the middle entry of any descending arrangement of the window |
| `MedianSpec.OddWindowIsTrueMedian` | ChibiOS_21.11.1/community/os/various/median.c:31-110 | for an odd window at most half of the samples exceed the answer and at most half fall short of it |
| `MedianSpec.EvenWindowIsUpperMedian` | ChibiOS_21.11.1/community/os/various/median.c:79-109 | for an even window fewer than half of the samples exceed the answer and at least half reach it |
| `MedianSpec.MedianExists` | ChibiOS_21.11.1/community/os/various/median.c:31-110 | every window of at least one sample has a median |
| `MedianSpec.RaisedRank` | ChibiOS_21.11.1/community/os/various/median.c:39-42 | writing the stopper as the number after it raises a ranked sample along and changes no other rank |
| `MedianSpec.RemoveOldest` | ChibiOS_21.11.1/community/os/various/median.c:55-59 | unlinking the oldest arrival leaves a sorted chain of exactly the rest |
| `MedianSpec.InsertNewest` | ChibiOS_21.11.1/community/os/various/median.c:72-77 | linking the newest arrival in after its equals leaves a sorted chain of exactly the new window |
| `MedianSpec.ChainSortsWindow` | ChibiOS_21.11.1/community/os/various/median.c:49-108 | the values along the chain are a descending permutation of the window |
| `MedianSpec.ChainMiddle` | ChibiOS_21.11.1/community/os/various/median.c:79-109 | the middle entry of the chain has the median rank of the window |
| `Crc.Reflect` | ChibiOS_21.11.1/community/os/various/crcsw.c:189-204 | the low n bits of the result are the low n bits of the argument in reverse order |
| `Crc.DivideBit` | ChibiOS_21.11.1/community/os/various/crcsw.c:315-322 | one step on the 32-bit word is one step of the n-bit division register, whatever is left above bit n |
| `Crc.ByteStep` | ChibiOS_21.11.1/community/os/various/crcsw.c:304-322 | adding a byte into the top of the register and dividing eight times is feeding its bits in one by one |
| `CrcAnswers.MessageBit` | ChibiOS_21.11.1/community/os/various/crcsw.c:304-313 | the bits of each byte enter from the lowest to the highest if the data are reflected and from the highest to the lowest if not |
| `CrcAnswers.MessageNumber` | ChibiOS_21.11.1/community/os/various/crcsw.c:304-313 | without reflection the message polynomial, read as a number, is the big-endian number of the buffer |
| `CrcAnswers.SingleBit` | ChibiOS_21.11.1/community/os/various/crcsw.c:301-333 | for every configuration the CRC of the single bit that enters last is the polynomial, and the reported word is it with the final value added |
| `CrcAnswers.PlainReport` | ChibiOS_21.11.1/community/os/various/crcsw.c:327-333 | an unreflected register is reported by one exclusive-or with the final value, cut to the width of the register |
| `CrcAnswers.ReflectedReport` | ChibiOS_21.11.1/community/os/various/crcsw.c:327-333 | a reflected register is reported with its bits in the opposite order and the final value added |
| `Crc.RunBits` | ChibiOS_21.11.1/community/os/various/crcsw.c:301-323 | after a buffer the low n bits are the division register run over the whole message |
| `Crc.RunTable` | ChibiOS_21.11.1/community/os/various/crcsw.c:287-291 | the table loop folds the table step over the buffer |
| `Crc.CalcByBits` | ChibiOS_21.11.1/community/os/various/crcsw.c:296-333 | the bitwise engine stores the unreflected register and reports it reflected and finalised, masked to n bits |
| `Crc.CalcByTable` | ChibiOS_21.11.1/community/os/various/crcsw.c:286-294 | the table engine stores its register as it is and reports it finalised, masked to n bits |
| `Crc.CrcDriver.constructor` | ChibiOS_21.11.1/community/os/various/crcsw.c:220-223 | a new driver holds the start value |
| `Crc.CrcDriver.Reset` | ChibiOS_21.11.1/community/os/various/crcsw.c:269-271 | reset restores the start value |
| `Crc.CrcDriver.Calc` | ChibiOS_21.11.1/community/os/various/crcsw.c:282-334 | a calculation continues from the stored register and chooses the engine by the table field |
| `CrcRun.RunDriver` | ChibiOS_21.11.1/community/os/various/crcsw.c:220-334 | on a new driver every calculation in any sequence of resets and calculations answers what one calculation over all bytes since the last reset would |
| `CrcRun.ReportUnique` | ChibiOS_21.11.1/community/os/various/crcsw.c:282-334 | a calculation from a given register over a given buffer reports one word only |
| `Gf2.Division` | ChibiOS_21.11.1/community/os/various/crcsw.c:301-323 | from any start value, dividend = quotient * generator + register over GF(2) |
| `Gf2.DivisionUnique` | ChibiOS_21.11.1/community/os/various/crcsw.c:301-323 | quotient and remainder by a monic generator are unique |
| `Gf2.RunLinear` | ChibiOS_21.11.1/community/os/various/crcsw.c:301-323 | the register is XOR-linear in start value and message together |
| `Gf2.RunInjective` | ChibiOS_21.11.1/community/os/various/crcsw.c:315-322 | for an odd polynomial the register after a message determines the register before it |
| `Prelude.ReverseReverse` | ChibiOS_21.11.1/community/os/various/crcsw.c:189-204 | reflecting twice gives the bits back |
| `CrcProperties.ComputesRemainder` | ChibiOS_21.11.1/community/os/various/crcsw.c:301-323 | from a zero register the low n bits are message * x^n mod generator and nothing else is, for every degree 8..32, generator and message |
| `CrcProperties.SplitInvisible` | ChibiOS_21.11.1/community/os/various/crcsw.c:282-334 | calculating a then b reports the same as calculating a + b, in both engines and for every reflection and final value |
| `CrcProperties.BurstErrorDetected` | ChibiOS_21.11.1/community/os/various/crcsw.c:301-333 | for an odd polynomial, equal-length buffers that may differ only within floor(n/8) consecutive bytes have equal CRCs exactly if they are equal |
| `CrcProperties.TableStepBits` | ChibiOS_21.11.1/community/os/various/crcsw.c:288-290 | one table lookup is eight mirrored division steps |
| `CrcProperties.TableMirrorsBits` | ChibiOS_21.11.1/community/os/various/crcsw.c:286-323 | after every byte the table register is the mirror image of the bitwise register |
| `CrcEngines.TableRefinesBits` | ChibiOS_21.11.1/community/os/various/crcsw.c:285-333 | with a right table and full reflection both engines agree on every buffer exactly if the start value fits the register and is its own mirror image |
| `CrcEngines.AgreeMeansEqual` | ChibiOS_21.11.1/community/os/various/crcsw.c:282-334 | the engines agree on a buffer exactly if they return the same word |
| `CrcEngines.OddPolynomialDecides` | ChibiOS_21.11.1/community/os/various/crcsw.c:285-333 | for an odd polynomial and a start value that fits, the engines agree on every buffer or on none |
| `CrcEngines.DifferenceFromAnywhere` | ChibiOS_21.11.1/community/os/various/crcsw.c:286-291 | how two buffers of equal length make the table register differ does not depend on the register they start from |
| `CrcProperties.TableComputesRemainder` | ChibiOS_21.11.1/community/os/various/crcsw.c:286-293 | with a right table and a zero start the table engine leaves the mirror image of the remainder |
| `CrcEngines.TableBurstErrorDetected` | ChibiOS_21.11.1/community/os/various/crcsw.c:286-333 | with a right table and an odd polynomial the table engine detects the same bursts, from any 32-bit register |
| `CrcTables.Crc32TableRight` | ChibiOS_21.11.1/community/os/various/crcsw.c:42-107 | all 256 shipped CRC-32 entries are the eight-step reflected remainders of their index for polynomial 0x04C11DB7 |
| `CrcTables.Crc16TableRight` | ChibiOS_21.11.1/community/os/various/crcsw.c:111-144 | all 256 shipped CRC-16 entries are right for polynomial 0x8005 |
| `CrcTables.ShippedTablesAgree` | ChibiOS_21.11.1/community/os/various/crcsw.c:157-177 | with either shipped configuration table and computation give the same CRC for every buffer |
| `CrcTestData.Crc32Answer` | ChibiOS_21.11.1/community/testhal/STM32/STM32F0xx/crc/main.c:152 | the CRC-32 of the bytes 0 to 31 is 0x91267E8A, by the shipped table and by computation |
| `CrcTestData.Crc16Answer` | ChibiOS_21.11.1/community/testhal/STM32/STM32F0xx/crc/main.c:154 | the CRC-16 of the bytes 0 to 31 is 0xC36A, by the shipped table and by computation |
| `CrcTestData.Crc8Answer` | ChibiOS_21.11.1/community/testhal/STM32/STM32F0xx/crc/main.c:70-77 | the unreflected CRC-8 of the bytes 0 to 31 is 0x06 and that of the byte 1 is 0x07 |
| `Patterns.Generator.Init` | ChibiOS_21.11.1/community/os/various/memtest.cpp:35-37 | initialising with a seed puts every kind of generator at the start of that seed's sequence, whatever it did before |
| `Patterns.Generator.Get` | ChibiOS_21.11.1/community/os/various/memtest.cpp:47-150 | call i after init returns word i of the sequence, for all five kinds, including the two-phase random one |
| `Patterns.Generator.GetType` | ChibiOS_21.11.1/community/os/various/memtest.cpp:57-154 | the test type reported with a mismatch at word i is a function of kind, seed and i |
| `Patterns.WalkIsBit` | ChibiOS_21.11.1/community/os/various/memtest.cpp:46-55 | word i of the walking sequence is 1 << (i mod w) |
| `Patterns.CountValue` | ChibiOS_21.11.1/community/os/various/memtest.cpp:86-91 | word i of the own-address sequence is i modulo 2^w |
| `Patterns.CountRepeats` | ChibiOS_21.11.1/community/os/various/memtest.cpp:86-91 | the own-address sequence repeats exactly after 2^w words |
| `Patterns.InversionTypes` | ChibiOS_21.11.1/community/os/various/memtest.cpp:109-114 | both moving-inversion tests report their own type at every word, although the type is read off the pattern |
| `Inversion.InversionWords` | ChibiOS_21.11.1/community/os/various/memtest.cpp:103-107 | word i of the moving inversion is the seed at even i and its complement at odd i, and the complement of the seed gives the complement throughout |
| `Inversion.RandomComplement` | ChibiOS_21.11.1/community/os/various/memtest.cpp:128-150 | every odd word of the random sequence is the complement of the fresh word before it |
| `Inversion.DrawValue` | ChibiOS_21.11.1/community/os/various/memtest.cpp:131-140 | a fresh word is one call of rand modulo 2^w, and at 64 bits two calls, the first one above the second |
| `Inversion.AlternatingValue` | ChibiOS_21.11.1/community/os/various/memtest.cpp:218-225 | the alternating seed is 0x55 in every byte |
| `Memtest.Fill` | ChibiOS_21.11.1/community/os/various/memtest.cpp:172-175 | after the fill pass every storage cell holds the word of the last cell written to it |
| `Memtest.Compare` | ChibiOS_21.11.1/community/os/various/memtest.cpp:177-186 | the callback is called exactly if some word mismatches, once, for the least failing index, with the words seen |
| `Memtest.Sequential` | ChibiOS_21.11.1/community/os/various/memtest.cpp:165-187 | fill and compare on any faulty memory report exactly the first word that does not read back |
| `Memtest.NoFalseAlarm` | ChibiOS_21.11.1/community/os/various/memtest.cpp:165-187 | on faithful memory no generator, seed or width finds a fault |
| `Memtest.DetectsAliasing` | ChibiOS_21.11.1/community/os/various/memtest.cpp:165-187 | without stuck bits a pass finds a fault exactly if two cells that share storage get different words |
| `Memtest.StuckBitDetected` | ChibiOS_21.11.1/community/os/various/memtest.cpp:46-80 | walking one and walking zero together find every stuck bit of every tested cell, whatever else is wrong |
| `Memtest.WalkingExact` | ChibiOS_21.11.1/community/os/various/memtest.cpp:46-80 | on any memory the two walking passes together find a fault exactly if a tested cell has a stuck bit or two cells at indices that differ modulo the width share storage |
| `Inversion.InversionExact` | ChibiOS_21.11.1/community/os/various/memtest.cpp:103-107 | without stuck bits a moving inversion finds a fault exactly if two cells at indices of different parity share storage, from any seed |
| `Inversion.BothInversionsExact` | ChibiOS_21.11.1/community/os/various/memtest.cpp:208-225 | on any memory the passes from a seed and its complement together find a fault exactly if a tested cell has a stuck bit or two cells of different parity share storage |
| `Inversion.RandomFindsNeighbours` | ChibiOS_21.11.1/community/os/various/memtest.cpp:128-150 | the random pass finds a fresh word and its complement in the same storage, whatever rand gives |
| `Inversion.ReportSays` | ChibiOS_21.11.1/community/os/various/memtest.cpp:177-186 | a report is of the least cell that does not read back, with the cell width in bytes, the word read and the word expected modulo 2^32 |
| `Inversion.StuckBitShown` | ChibiOS_21.11.1/community/os/various/memtest.cpp:177-186 | a stuck bit among the lowest 32 of the reported cell is reported as what it is stuck at |
| `Memtest.SmallAreaAliasingDetected` | ChibiOS_21.11.1/community/os/various/memtest.cpp:202-205 | for at most 2^w cells the own-address pass finds a fault exactly if two cells share storage |
| `Memtest.SharedStorageDetected` | ChibiOS_21.11.1/community/os/various/memtest.cpp:202-205 | the own-address pass finds shared storage even with stuck bits, unless the indices agree modulo 2^w |
| `Memtest.OwnAddressExact` | ChibiOS_21.11.1/community/os/various/memtest.cpp:202-205 | for any number of cells it misses exactly the aliasing at multiples of 2^w |
| `Memtest.ReportedWordsDiffer` | ChibiOS_21.11.1/community/os/various/memtest.cpp:182-183 | the two words handed to the callback differ exactly if the width is below 64 or the low halves differ |
| `MemtestRun.Tester.RunDriver` | ChibiOS_21.11.1/community/os/various/memtest.cpp:190-233 | each test driver runs its passes with its seeds and moves the random seed only for the random test |
| `MemtestRun.Tester.RunWidths` | ChibiOS_21.11.1/community/os/various/memtest.cpp:238-255 | a test runs at exactly the selected widths, in order |
| `MemtestRun.Tester.Run` | ChibiOS_21.11.1/community/os/various/memtest.cpp:260-309 | a run goes through exactly the selected tests and widths, every pass with its right report |
| `MemtestPlan.SelectedIsBit` | ChibiOS_21.11.1/community/os/various/memtest.cpp:244-253 | a test or width is selected exactly if its bit is set in the mask |
| `MemtestPlan.WidthsExact` | ChibiOS_21.11.1/community/os/various/memtest.cpp:238-255 | the widths tested are exactly the selected ones, from the narrowest to the widest |
| `MemtestPlan.TestsExact` | ChibiOS_21.11.1/community/os/various/memtest.cpp:260-309 | the tests run are exactly the selected ones, in the order of their flags |
| `MemtestPlan.PassSeeds` | ChibiOS_21.11.1/community/os/various/memtest.cpp:190-233 | the passes of each test and their seeds: 1, 1, 0, then 0 and its complement, 0x55 in every byte and its complement, and the static seed modulo 2^w |
| `MemtestPlan.RandomSeeds` | ChibiOS_21.11.1/community/os/various/memtest.cpp:228-233 | the random test makes one pass at every width, each from the next static seed |
| `MemtestPlan.ReportsOwnType` | ChibiOS_21.11.1/community/os/various/memtest.cpp:46-154 | every pass reports its mismatches under the flag that selects its test |
| `MemtestRun.FaithfulRunIsSilent` | ChibiOS_21.11.1/community/os/various/memtest.cpp:260-309 | on faithful memory no test mask and width mask ever calls the callback |
| `MemtestRun.StuckBitReported` | ChibiOS_21.11.1/community/os/various/memtest.cpp:260-276 | a run with both walking tests at a width reports any stuck bit of a tested cell |
| `MemtestRun.AliasingReported` | ChibiOS_21.11.1/community/os/various/memtest.cpp:278-284 | a run with the own-address test at a width reports any sharing among up to 2^w cells |
| `MemtestPlan.InversionReported` | ChibiOS_21.11.1/community/os/various/memtest.cpp:286-300 | a run with a moving inversion at a width reports any stuck bit of a tested cell and any sharing between cells of different parity |
| `Bytes.MacroIsSwap16` | ChibiOS_21.11.1/community/os/various/bswap.h:33-35 | the mask-and-shift macro reverses the two bytes |
| `Bytes.MacroIsSwap32` | ChibiOS_21.11.1/community/os/various/bswap.h:36-40 | the mask-and-shift macro reverses the four bytes |
| `Bytes.MacroIsSwap64` | ChibiOS_21.11.1/community/os/various/bswap.h:41-49 | the mask-and-shift macro reverses the eight bytes |
| `Bytes.Bswap16` | ChibiOS_21.11.1/community/os/various/bswap.h:113-126 | the in-place byte exchange computes the same swap |
| `Bytes.Bswap32` | ChibiOS_21.11.1/community/os/various/bswap.h:134-150 | the in-place byte exchange computes the same swap |
| `Bytes.Bswap64` | ChibiOS_21.11.1/community/os/various/bswap.h:158-180 | the in-place byte exchange computes the same swap |
| `Bytes.BswapN` | ChibiOS_21.11.1/community/os/various/bswap.h:185-193 | the array ends up reversed, for every length |
| `Bytes.SwapTwice` | ChibiOS_21.11.1/community/os/various/bswap.h:108-180 | swapping twice is the identity |
| `Bytes.SwapIsByteOrder` | ChibiOS_21.11.1/community/os/various/bswap.h:84-92 | loading big-endian bytes on a little-endian machine and swapping gives the number stored, and the converse |
| `RamDisk.RamDisk.Start` | ChibiOS_21.11.1/community/os/various/ramdisk.c:185-199 | starting takes over storage, geometry and flag and makes the disk ready |
| `RamDisk.RamDisk.Stop` | ChibiOS_21.11.1/community/os/various/ramdisk.c:208-218 | stopping drops the storage |
| `RamDisk.RamDisk.IsProtected` | ChibiOS_21.11.1/community/os/various/ramdisk.c:59-67 | a stopped disk is protected, a ready one as its flag says |
| `RamDisk.RamDisk.GetInfo` | ChibiOS_21.11.1/community/os/various/ramdisk.c:125-136 | geometry is reported exactly if the disk is ready |
| `RamDisk.RamDisk.Read` | ChibiOS_21.11.1/community/os/various/ramdisk.c:85-98 | a range within the disk is copied out, any other request fails and changes nothing |
| `RamDisk.RamDisk.Write` | ChibiOS_21.11.1/community/os/various/ramdisk.c:100-112 | a range within the disk is replaced and nothing else changes; any other request changes nothing |
| `RamDisk.Disk.BlockOfStore` | ChibiOS_21.11.1/community/os/various/ramdisk.c:109 | a stored block is read back and every other block is untouched |
| `Scsi.DecodeDataRequest` | ChibiOS_21.11.1/community/os/various/lib_scsi.c:65-78 | block address and count are the big-endian fields at bytes 2 and 7 |
| `Scsi.StoreBlock` | ChibiOS_21.11.1/community/os/various/lib_scsi.c:377 | writing one block of the byte array is an update of the map from block number to contents |
| `Scsi.ScsiTarget.SetSense` | ChibiOS_21.11.1/community/os/various/lib_scsi.c:90-101 | the stored record is the fixed-format record of key, code and qualifier |
| `Scsi.ScsiTarget.TransmitData` | ChibiOS_21.11.1/community/os/various/lib_scsi.c:127-139 | what the transport takes is a prefix; anything short sets the residue to what is missing and fails |
| `Scsi.ScsiTarget.ReadBlocks` | ChibiOS_21.11.1/community/os/various/lib_scsi.c:367-373 | the block loop sends the blocks of the range in order |
| `Scsi.ScsiTarget.WriteBlocks` | ChibiOS_21.11.1/community/os/various/lib_scsi.c:367-379 | the block loop stores what arrives, block by block, through the shared buffer |
| `Scsi.ScsiTarget.DataReadWrite10` | ChibiOS_21.11.1/community/os/various/lib_scsi.c:352-382 | a data request is refused as a whole or carried out as a whole, as the command semantics say |
| `Scsi.ScsiTarget.ExecCmd` | ChibiOS_21.11.1/community/os/various/lib_scsi.c:425-490 | executing a command block does exactly what the command semantics say to sense, mode, residue, buffer, disk and wire |
| `ScsiProperties.Outcomes` | ChibiOS_21.11.1/community/os/various/lib_scsi.c:425-490 | a refused command transfers and changes nothing but the sense record; an accepted READ(10) or WRITE(10) always succeeds; any other accepted command succeeds, answers in full and leaves the good record, or is cut short, keeps the record and reports the residue |
| `ScsiProperties.SenseIsLatestRecord` | ChibiOS_21.11.1/community/os/various/lib_scsi.c:425-490 | after any run the stored record is that of the latest command that did not fail by a short transmit |
| `ScsiProperties.ShortCommandsKeepSense` | ChibiOS_21.11.1/community/os/various/lib_scsi.c:127-139 | commands that fall short leave the record alone, however many |
| `ScsiProperties.RequestSenseReports` | ChibiOS_21.11.1/community/os/various/lib_scsi.c:204-216 | a successful REQUEST SENSE sends that record and leaves the good one |
| `ScsiProperties.ReportedOnce` | ChibiOS_21.11.1/community/os/various/lib_scsi.c:204-216 | a recorded error is reported at most once |
| `ScsiProperties.OnlyWritesChangeDisk` | ChibiOS_21.11.1/community/os/various/lib_scsi.c:425-490 | no command other than an accepted WRITE(10) changes the disk |
| `ScsiProperties.WriteOutcome` | ChibiOS_21.11.1/community/os/various/lib_scsi.c:374-378 | an accepted WRITE(10) succeeds whatever arrives; a block of its range holds exactly what arrived for it if and only if that was a whole block, and the old contents of the buffer if nothing arrives |
| `ScsiProperties.ReadOutcome` | ChibiOS_21.11.1/community/os/various/lib_scsi.c:368-372 | after any run an accepted READ(10) succeeds with the good record and an unchanged residue and sends what the transport takes of each block, so the whole range exactly if every block is taken whole |
| `ScsiProperties.BlocksHoldHistory` | ChibiOS_21.11.1/community/os/various/lib_scsi.c:352-382 | after any run over any transport every block and the shared buffer hold what the history says: for each byte the latest receive that reached it, else what went through the buffer before |
| `ScsiProperties.BlocksHoldLastWritten` | ChibiOS_21.11.1/community/os/various/lib_scsi.c:352-382 | after any run whose writes arrive in full every block holds what was last written to it |
| `ScsiProperties.ReadSendsLastWritten` | ChibiOS_21.11.1/community/os/various/lib_scsi.c:352-382 | after such a run a READ(10) whose blocks are taken whole sends exactly the last written contents of its range, in order |
| `ScsiAnswers.RequestFields` | ChibiOS_21.11.1/community/os/various/lib_scsi.c:65-78 | block address and count of a request, spelled out from its bytes |
| `ScsiAnswers.DataCodes` | ChibiOS_21.11.1/community/os/various/lib_scsi.c:326-382 | 0x28 and 0x2A within the disk, and nothing else, are accepted reads and writes |
| `ScsiAnswers.CapacityReply` | ChibiOS_21.11.1/community/os/various/lib_scsi.c:300-312 | a successful READ CAPACITY(10) sends the number of the last block and then the block size, each with its most significant byte first; a disk of no blocks reports 0xFFFFFFFF |
| `ScsiAnswers.CapacityIsLastReadable` | ChibiOS_21.11.1/community/os/various/lib_scsi.c:300-312 | the block number that READ CAPACITY(10) sends is the greatest that a one-block READ(10) carries out; on a disk of no blocks every such READ(10) is refused |
| `ScsiAnswers.FormatCapacitiesReply` | ChibiOS_21.11.1/community/os/various/lib_scsi.c:255-288 | READ FORMAT CAPACITIES sends three bytes of the stack, one descriptor with the number of blocks, formatted media, and the low 16 bits of the block size |
| `ScsiAnswers.FixedReplies` | ChibiOS_21.11.1/community/os/various/lib_scsi.c:175-243 | the exact bytes sent by INQUIRY, REQUEST SENSE and MODE SENSE(6) with its write-protect bit, nothing by the commands without an answer, and the exact good record after every success |
| `ScsiAnswers.ShortIsPrefix` | ChibiOS_21.11.1/community/os/various/lib_scsi.c:127-139 | an answer that is cut short is the beginning of the full one |
| `ScsiAnswers.Refusals` | ChibiOS_21.11.1/community/os/various/lib_scsi.c:145-340 | exactly which commands are refused, with which bytes in the record, and that every other command succeeds over a transport that takes everything |
| `ScsiProperties.ProtectionNotEnforced` | ChibiOS_21.11.1/community/os/various/lib_scsi.c:228-243 | a command leaves the same blocks behind on a read-only disk as on a writable one |
| `ScsiProperties.KeepsDiskExactly` | ChibiOS_21.11.1/community/os/various/lib_scsi.c:352-382 | no transfer makes a command change the disk exactly if the command is not an accepted WRITE(10) of at least one block, whatever the read-only flag |
| `ScsiRun.Run` | ChibiOS_21.11.1/community/os/various/lib_scsi.c:425-490 | a run of commands on the driver answers every accepted READ(10) with success and what the transport takes of the blocks as their history left them, and every successful REQUEST SENSE with the record of the latest command that did not fall short |
| `Tribuf.TripleBuffer.constructor` | ChibiOS_21.11.1/community/os/various/tribuf.c:62-72 | the three buffers are taken over and nothing is ready |
| `Tribuf.TripleBuffer.SwapFrontI` | ChibiOS_21.11.1/community/os/various/tribuf.c:107-116 | front and orphan change places and the signal stays as it was |
| `Tribuf.TripleBuffer.SwapBackI` | ChibiOS_21.11.1/community/os/various/tribuf.c:172-188 | back and orphan change places and the signal is raised, waking a waiting thread, unless it is up |
| `Tribuf.TripleBuffer.WaitReadyS` | ChibiOS_21.11.1/os/rt/src/chsem.c:191-209 | a wait takes one from the counter and leaves its thread asleep exactly if the counter was not above 0 |
| `Tribuf.TripleBuffer.PollReadyS` | ChibiOS_21.11.1/os/rt/src/chsem.c:259-281 | a wait with an immediate timeout takes a signal that is up and otherwise leaves the counter as it was |
| `Tribuf.TripleBuffer.Expire` | ChibiOS_21.11.1/os/rt/src/chschd.c:194-206 | the timeout of a waiting thread gives its count back; one that fires after the release changes nothing |
| `Tribuf.ReadinessExact` | ChibiOS_21.11.1/community/os/various/tribuf.h:85-94 | at any point of a run the handler answers ready exactly if a frame is pending or a thread waits, so the answer is right exactly if no thread waits |
| `Tribuf.BlockedWaitLooksReady` | ChibiOS_21.11.1/community/os/various/tribuf.h:85-94 | one wait on a new handler leaves the counter at -1, and the handler answers ready with nothing published |
| `Tribuf.OneConsumerCounts` | ChibiOS_21.11.1/os/rt/src/chsem.c:191-209 | with one consumer the counter stays in -1..1; it is -1 exactly while the consumer waits and 1 exactly if a frame is pending |
| `Tribuf.EveryInterleaving` | ChibiOS_21.11.1/community/os/various/tribuf.c:107-188 | in every interleaving of a producer with any number of consumers that wait, poll, time out and swap: the three buffers stay a permutation, the counter is 1 if a frame is pending and otherwise minus the number of waiting threads, the newest frame is never lost, and the orphan is newer than the front exactly after an even number of front swaps since the last publication |
| `Tribuf.SwapShowsNewest` | ChibiOS_21.11.1/community/os/various/tribuf.c:107-116 | a front swap shows the newest frame exactly in those states, and otherwise goes back to an older one |
| `Tribuf.AtomicConsumerSeesNewest` | ChibiOS_21.11.1/community/os/various/tribuf.c:107-188 | if the front is swapped exactly when the signal has just been claimed, by a call that need not wait or by the publication that wakes a waiting one, then a frame is pending exactly if the orphan is newer than the front, the frames shown strictly increase, and every swap shows the newest published frame |
| `Tribuf.SplitConsumerGoesBack` | ChibiOS_21.11.1/community/os/various/tribuf.h:147-153 | from any state with at most one waiting thread, a frame published between a claim and its swap makes a later wait and swap go back to the frame shown before |
| `Tribuf.Play` | ChibiOS_21.11.1/community/os/various/tribuf.c:62-188 | a run on a handler and its three buffers shows the frames of the run, strictly increasing if claims and swaps are one step, and asking for readiness after every step is answered by pending frame or waiting thread |
| `Pid.Pid.constructor` | ChibiOS_21.11.1/community/os/various/pid.c:18-36 | a controller created with non-negative gains is manual, has limits 0..4095, a period of 100 ms and correctly signed and scaled gains |
| `Pid.Pid.Compute` | ChibiOS_21.11.1/community/os/various/pid.c:45-82 | a computation takes place exactly in automatic mode after a full period, clamps integral term and output in that order, and otherwise changes nothing |
| `Pid.Pid.SetTunings` | ChibiOS_21.11.1/community/os/various/pid.c:89-111 | negative gains are ignored altogether; others are scaled to the period and signed by the direction |
| `Pid.Pid.SetSampleTime` | ChibiOS_21.11.1/community/os/various/pid.c:116-125 | a positive period rescales ki and kd |
| `Pid.Pid.SetOutputLimits` | ChibiOS_21.11.1/community/os/various/pid.c:135-149 | limits out of order are ignored; in automatic mode new limits clamp output and integral term |
| `Pid.Pid.SetMode` | ChibiOS_21.11.1/community/os/various/pid.c:156-164 | only the change from manual to automatic re-initialises |
| `Pid.Pid.Initialize` | ChibiOS_21.11.1/community/os/various/pid.c:170-176 | the integral term starts at the output, clamped |
| `Pid.Pid.SetDirection` | ChibiOS_21.11.1/community/os/various/pid.c:184-193 | the gains are negated only by a change in automatic mode |
| `Pid.Rescaled` | ChibiOS_21.11.1/community/os/various/pid.c:120-122 | rescaling working gains by the ratio of the periods gives the working gains of the new period |
| `Pid.GainsFollowTunings` | ChibiOS_21.11.1/community/os/various/pid.c:89-125 | over every sequence of calls kp = s dispKp, ki = s dispKi T / 1000, kd = s dispKd 1000 / T under one sign s that the calls determine |
| `Pid.GainsMatchDirection` | ChibiOS_21.11.1/community/os/various/pid.c:184-193 | that sign is the set direction's exactly if, since the last accepted tuning, the direction slipped an even number of times (or all gains are zero) |
| `Pid.ManualReverseIsLost` | ChibiOS_21.11.1/community/os/various/pid.c:184-193 | a direct controller reversed in manual mode still acts directly when switched to automatic |
| `Pid.NeverWindsUp` | ChibiOS_21.11.1/community/os/various/pid.c:45-176 | in every reachable state outMin < outMax, automatic mode implies outMin <= outputSum <= outMax, and every computed output is within the limits |
| `Pid.ClampOnce` | ChibiOS_21.11.1/community/os/various/pid.c:53-62 | while the increments all push the same way, clamping the integral term at every step equals clamping their sum once |
| `Pid.ConstantError` | ChibiOS_21.11.1/community/os/various/pid.c:53-62 | after n due computations with the proportional term on the error and constant error e, outputSum = clamp(s0 + n ki e) |
| `Pid.BumplessTransfer` | ChibiOS_21.11.1/community/os/various/pid.c:156-176 | switching to automatic and computing at zero error leaves an output within the limits unchanged |
| `Pid.Run` | ChibiOS_21.11.1/community/os/various/pid.c:18-193 | a controller object taken through any calls ends with gains of one sign, that of the direction exactly after an even number of slips, and never winds up |
| `PidLaws.PidEquation` | ChibiOS_21.11.1/community/os/various/pid.c:53-75 | after any computations that do not drive the integral term into a limit the output is the start value of that term plus (reversed: minus) Kp times the error or minus Kp times the whole change of the measurement, plus Ki times the errors over time, minus Kd times the rate of the last change, clamped |
| `PidLaws.IncrementsTelescope` | ChibiOS_21.11.1/community/os/various/pid.c:56-59 | with the proportional term on the measurement, its part of the integral term telescopes to minus kp times the last minus the first measurement, due computations only |
| `PidLaws.OpposesChange` | ChibiOS_21.11.1/community/os/various/pid.c:66-75 | at zero error a rising measurement leaves the output no higher than the integral term was and a falling one no lower; on the error the drop is exactly kd times the change, up to the limits |
| `PidLaws.FollowsSetPoint` | ChibiOS_21.11.1/community/os/various/pid.c:66-75 | a higher set point never lowers the output of a controller with direct gains, nor raises that of one with reversed gains |
| `PidLaws.NextDue` | ChibiOS_21.11.1/community/os/various/pid.c:48-50 | after a computation the next is due exactly once a sample period has passed, across the wrap of the clock |
| `PidLaws.CreatedSettings` | ChibiOS_21.11.1/community/os/various/pid.c:18-36 | a created controller has a period of 100 ms, limits 0..4095 and gains of that period, and is due as soon as it is switched on |
| `PidLaws.LatestSettings` | ChibiOS_21.11.1/community/os/various/pid.c:88-141 | gains entered, mode of the proportional term, period and direction are those of the latest call that sets them; negative gains and periods that are not positive are ignored |
| `PidLaws.LimitsTakeEffect` | ChibiOS_21.11.1/community/os/various/pid.c:136-149 | new limits bind output and integral term at once in automatic mode and change neither if it lies within them; limits that are not in order are ignored |
| `PidLaws.ManualLeavesOutput` | ChibiOS_21.11.1/community/os/various/pid.c:47 | in manual mode no sequence of calls writes the output |
| `MacroLines.JoinSplit` | ChibiOS_21.11.1/community/tools/upgrade.py:38-41 | joining the words of a line gives the line back |
| `MacroLines.DefinesExactly` | ChibiOS_21.11.1/community/tools/upgrade.py:36-41 | a line defines a macro with a value exactly if it starts with #define and has at least two spaces |
| `MacroLines.ContinuesExactly` | ChibiOS_21.11.1/community/tools/upgrade.py:49-53 | a line is continued exactly if only white space follows some backslash |
| `MacroLines.DefinitionReadsBack` | ChibiOS_21.11.1/community/tools/upgrade.py:38-42 | a written definition is read back as its name and value |
| `MacroLines.ReadsAsDefinition` | ChibiOS_21.11.1/community/tools/upgrade.py:38-42 | a defining line is rewritten to itself exactly if its first word is #define alone |
| `Upgrade.GetValues` | ChibiOS_21.11.1/community/tools/upgrade.py:30-55 | the line loop computes the table of blocks, continuation lines included |
| `Upgrade.SetValues` | ChibiOS_21.11.1/community/tools/upgrade.py:58-69 | the loop over the user's names computes the merged table and its offsets |
| `Upgrade.WriteChanges` | ChibiOS_21.11.1/community/tools/upgrade.py:72-107 | deleting bottom-up and inserting top-down computes the rewritten lines, or stops with an index error |
| `Upgrade.InsertBlock` | ChibiOS_21.11.1/community/tools/upgrade.py:94-104 | one entry's line-by-line insertions put its block at its position and end every line in a newline |
| `HeaderBlocks.ScanFindsBlocks` | ChibiOS_21.11.1/community/tools/upgrade.py:35-54 | every entry is a block of the file: a defining line and exactly its continuation lines |
| `HeaderBlocks.ScanInOrder` | ChibiOS_21.11.1/community/tools/upgrade.py:35-54 | with distinct names the table lists all block lines, in order and without overlap |
| `BlockEdits.NestedEdits` | ChibiOS_21.11.1/community/tools/upgrade.py:76-104 | deleting blocks bottom-up and inserting blocks at the same positions top-down replaces them where they stand, if all but the last keep their sizes |
| `BlockEdits.HeadsStay` | ChibiOS_21.11.1/community/tools/upgrade.py:94-104 | whatever the sizes, every entry's first line ends up at the position of its entry |
| `BlockEdits.SplicedOutside` | ChibiOS_21.11.1/community/tools/upgrade.py:72-107 | every line outside the blocks is kept and moves by what the blocks above it have grown |
| `HeaderReading.SplicedReadsBack` | ChibiOS_21.11.1/community/tools/upgrade.py:30-55 | a header with blocks spliced in reads back as their names, in order, with the data written, whatever their sizes |
| `UpgradeProperties.RewriteInPlace` | ChibiOS_21.11.1/community/tools/upgrade.py:72-107 | a table with the header's names and places is spliced into the header if at most the last block changes its size |
| `UpgradeProperties.RoundTrip` | ChibiOS_21.11.1/community/tools/upgrade.py:30-107 | writing back what was read reproduces a header with distinct names exactly if its block lines end in newlines and every #define is a word of its own |
| `UpgradeProperties.MergedEntries` | ChibiOS_21.11.1/community/tools/upgrade.py:58-69 | the merged table has the template's names and places, the user's data for shared names and the template's otherwise |
| `UpgradeProperties.EditsSpliceExactly` | ChibiOS_21.11.1/community/tools/upgrade.py:72-107 | the edits replace the blocks where they stand exactly if no block but the last changes its number of lines |
| `UpgradeProperties.SizesSuffice` | ChibiOS_21.11.1/community/tools/upgrade.py:58-107 | an upgrade of a template with distinct names gives the intended header if no value but the template's last changes its number of lines |
| `UpgradeProperties.UpgradeExact` | ChibiOS_21.11.1/community/tools/upgrade.py:58-107 | if no continuation line of a wanted value is itself a defining line, the upgrade gives the intended header exactly then |
| `UpgradeProperties.IntendedReadsBack` | ChibiOS_21.11.1/community/tools/upgrade.py:30-107 | the intended header reads back as the template's names with the user's value for every shared name and the template's otherwise, whatever the sizes of the values |
| `UpgradeProperties.OtherLinesKept` | ChibiOS_21.11.1/community/tools/upgrade.py:72-107 | the intended header keeps every line outside the template's blocks |
| `UpgradeProperties.UserValuesSurvive` | ChibiOS_21.11.1/community/tools/upgrade.py:30-107 | where the sizes allow it the upgrade gives the intended header and its values are read in the template's places |
| `UpgradeProperties.UpgradeIsIdempotent` | ChibiOS_21.11.1/community/tools/upgrade.py:30-107 | the intended header upgrades to what the user's header does, whatever the sizes, so an upgrade that works changes nothing when repeated |
| `GrownValue.LongerValueIsTorn` | ChibiOS_21.11.1/community/tools/upgrade.py:94-104 | a two-line value for a template's one-line name is torn apart by the definition after it |
| `GrownValue.EqualLinesHideTheTear` | ChibiOS_21.11.1/community/tools/upgrade.py:94-104 | a longer value whose second line is the template's next definition is torn apart too, but the lines that change places are equal |

## Left out

- Median: sizes of 0, which the code would index out of bounds with.
- CRC: `crc_lld_start` and `crc_lld_stop`, which only check the configuration; a table used with
  another data reflection than the shipped ones is modelled but claimed nothing about.
- Memory tester: other callers of `rand` between the fill and the compare pass, faults other than
  stuck bits and shared storage, and bytes of the area left over by a cell width.
- SCSI: 32-bit wrap of block address plus count and of byte offsets; block device error codes, which
  the source marks as to do; a removable medium (a RAM disk is always inserted, so the not-ready
  branch of TEST UNIT READY cannot be taken); a disk stopped while the target uses it; `scsiStart`
  and `scsiStop`; debug printing.
- RAM disk: `sync`, `connect` and `disconnect`, which only test or set the state; mutexes.
- Triple buffer: the variant without waiting, whose signal is never cleared; which of several
  waiting threads is woken.
- PID: float rounding; the conversion of system ticks to milliseconds; creation with negative gains,
  which leaves the gains unset.
- Upgrader: finding files and choosing the template; the include line added to `halconf.h`; the loop
  over several files, which shares inner dictionaries between them; writing the lines back to a file
  and splitting it into lines again.
- UpgradeProperties.UpgradeExact: the converse assumes that no continuation line of a wanted value
  is itself a defining line; otherwise a misplaced line can equal the line that belongs there
  (`GrownValue.EqualLinesHideTheTear`).
- The motion-tracking application, the demos, the board and configuration generators and the other
  small utilities (bitmap, event timer, I2C helpers, system calls).
