# Cheshire boot chain, proved in Dafny

A model of the code that takes Cheshire from reset to its firmware, and proofs about it.
`dafny verify dfyconfig.toml` checks everything.

- `SmpBarrier.dfy`: the wake-up barrier over the `msip` words as a transition system, one memory
  access a step, any interleaving, spurious wake-ups; and the same on shared arrays.
- `Bits.dfy`, `Crc16Table.dfy`, `Crc16.dfy`: polynomials modulo 2 as bit sequences, the table, and the
  table-driven CRC of the SD driver.
- `SdCard.dfy`, `SpiSdcard.dfy`: the SPI wire as a history of bytes, a card as any function of that
  history, the cards that follow the block-read protocol, and the driver on top.
- `GptTable.dfy`: partition tables as they are written to a disk.
- `Gpt.dfy`, `Boot.dfy`: the partition search, the boot ROM's loader, the hand-over through the scratch
  registers and the barrier, the zero-stage loader, and the chain of all of them.
- `FailedCopy.dfy`: a concrete disk on which the loader launches what it could not read.
- `Clint.dfy`: the 64-bit counter read in halves, spinning, and the frequency measurement.
- `UartDebug.dfy`: the UART byte streams, the debug server, and the loop that waits for it.
- `Config.dfy`, `Crossbar.dfy`, `RegMap.dfy`, `Cva6Regions.dfy`: the configuration-driven address maps and
  memory attributes.
- `GenBootrom.dfy`: the ROM generator, a reader for its text, and the lookup of the emitted module.
- `Common.dfy`: word sizes.

## How it is modelled

- A card is `Wire -> byte`, a SPI host `Wire -> int` (its return codes), a counter `nat -> nat` of the core
  cycle, a UART input a sequence of poll results: all arbitrary unless a theorem says otherwise.
  `Serves` cards may delay and refuse as they like but send no other data; `Prompt` ones also stay within
  the driver's patience.
- Integer widths are written out: 64-bit wrap-around (`U64`), 32-bit stores, 6-bit ports (`Cut`), 32-bit LLC size.
- Device accesses and fences are sequentially consistent, and the interrupt pending bit follows its
  `msip` word at once.
- The two halves of `mtime` are read high first. C leaves the order open; the compiled boot ROM in
  `hw/bootrom/cheshire_bootrom.sv` does it this way.
- Division by zero, which C leaves open, is that of the RISC-V M extension.
- Code in scratchpad memory after the boot ROM's copy is taken to be the zero-stage loader.
- A region of the core ends at its base plus its length in 64-bit arithmetic; the comparison is made in
  the core, which is not part of this model.
- An endless wait is an outcome of its own (`Waiting`, `Skipped`, `Idle`), so that every method ends.
  `SpinUntil` and `SpinTicks` assume just that some read reaches the target. The loops of the frequency
  measurement end because the counter passes a horizon, a cycle by which it has left the target's 2^32
  block and after which it is still in range. `SpinEnds` and `MeasurementEnds` show that on a ticking counter
  both are met until shortly before it wraps around.
- Packets from the card may be damaged by bursts of up to sixteen bits wherever a theorem says what a return
  code of 0 means; a `Dependable` reader has an undamaged, prompt card and a host that does not fail.

## What does not hold as one might expect

- The barrier is safe only for publishing hart 0 (`SmpBarrier.SafeExactlyForHartZero`); the parameter
  NONSMP_HART suggests that any hart will do.
- A first partition entry that is not safe to cut, such as (100, 50), makes the fallback of the GPT search ask
  for more than the limit (`Gpt.CutImage`, `Gpt.CutCanOverrun`). No other path depends on the first entry
  (`Boot.ChosenBound`).
- An address beyond 2^41 bytes wraps around on the card (`SpiSdcard.WrappedRead`, `SpiSdcard.WrapsExactly`).
- A read whose block count wraps around 64 bits returns 0 without reading (`SpiSdcard.Driver.Read`).
- The zero-stage loader launches the firmware even if a copying read failed
  (`FailedCopy.LaunchAfterFailedCopy`); the read fails exactly if the partition is not on the disk
  (`Boot.ZslMain`, for a dependable card).
- A wait for a number of ticks can be too short, by 2^32 ticks or down to nothing, if its first read is stale
  (`Clint.ShortRun`, `Clint.StaleWait`). It is full for every number of ticks whose sum with the start value
  fits 64 bits exactly if that read is not stale (`Clint.FullWaitExactly`), which a caller can make sure of
  beforehand (`Clint.SafeStart`); if the sum does not fit, it never is while the counter
  itself fits (`Clint.NeverFull`).
- The CLICs' rules in the register map cannot be reached from the crossbar (`RegMap.DeviceReached`).
- The register map loses devices exactly from 64 rules on (`RegMap.DevicesReachedExactly`), even if all ports fit:
  with 17 cores, everything enabled and fifteen external regions the rule count wraps around to zero and no rule
  is left (`RegMap.FullMapDecodesNothing`).
- With CLICs and bus error units, the register port count and the external base no longer fit 6 bits from 29 cores
  on, and the devices' own ports from 30 on (`RegMap.ManyCores`, `RegMap.PortsDistinctExactly`). The last bus error
  unit of 31 cores has no port field (`RegMap.FieldsExactly`).
- The uncached scratchpad, executable by `docs/um/arch.md:71`, is so only if it is of the largest size
  (`Cva6Regions.UncachedExecutable`), and nothing above the external range is non-idempotent, the serial link
  included, which has no flags there (`Cva6Regions.NonIdempotentExactly`).
- An LLC of 512 MiB counts as empty (`Config.LlcWraps`).
- Without an LLC-out port the scratchpad rules name the port of the register demux (`Crossbar.GenAxiOut`).
- `docs/um/sw.md:60` has the debug server send an ACK when executed code returns; the code sends 0x14, then the
  four bytes of the code. `docs/um/sw.md:52` has bit 0 of scratch register 2 as the start signal of passive
  preload; the code polls bit 1 (`hw/bootrom/cheshire_bootrom.c:30`). The model follows the code in both.

## Model

| member | source | states |
|---|---|---|
| SmpBarrier.Step | sw/include/smp.h:20-49 | One memory access of one hart keeps the state well-formed: word and hart counts never change. |
| SmpBarrier.StepKeepsInv | sw/include/smp.h:26-49 | Every step of every hart, spurious wake-ups included, keeps the barrier invariant: word 0 is set first, scanned first and cleared only after hart 0 has set them all. |
| SmpBarrier.BarrierSafe | sw/include/smp.h:20-49 | For any hart count, address and interleaving: no hart has left the barrier unless every hart has been woken and has cleared its word, all words are then zero, and whoever jumped went to the stored 64-bit address with its own hart id. |
| SmpBarrier.EarlyLeaver | sw/include/smp.h:8-10 | With any publishing hart other than 0 there is a schedule on which a hart leaves while another has not cleared its word. |
| SmpBarrier.SafeExactlyForHartZero | sw/include/smp.h:8-18 | With more than one hart, the barrier is safe under all schedules if and only if the publishing hart is hart 0, the default of NONSMP_HART. |
| SmpBarrier.StepMeasure | sw/include/smp.h:26-49 | Every step that is not a spin strictly decreases one global measure; no step increases it. |
| SmpBarrier.NoDeadlock | sw/include/smp.h:26-49 | In every reachable state with a hart still inside, some hart has a non-spinning step. |
| SmpBarrier.RoundsFinish | sw/include/smp.h:26-49 | From any reachable state, as many fair rounds as the measure are enough for all harts to jump. |
| SmpBarrier.FairRunFinishes | hw/bootrom/cheshire_bootrom.S:89-107 | Within n*n + 6n + 2 rounds in which each hart gets a turn, all harts jump to the published address with their own id, all words are zero, and only scratch words 4 and 5 have changed, to the two halves of the address. |
| SmpBarrier.Soc.constructor | sw/include/smp.h:13-18 | The arrays hold the state after smp_pause: hart 0 at boot_next_stage, all others asleep. |
| SmpBarrier.Soc.Turn | sw/include/smp.h:20-49 | One turn on the arrays in place is one step of the transition system. |
| SmpBarrier.Soc.Turns | hw/bootrom/cheshire_bootrom.S:89-107 | A schedule run on the arrays in place is the corresponding run, so the theorems above apply to it. |
| Crc16.DivisionIdentity | sw/lib/hal/spi_sdcard.c:56 | The reference long division is one: every message polynomial is a multiple of x^16 + x^12 + x^5 + 1 plus its remainder (modulo 2). |
| Crc16Table.TablePair | sw/lib/hal/spi_sdcard.c:57-79 | For all k, entry 2k is entry k doubled modulo the polynomial, and entry 2k+1 is entry 2k plus the polynomial. |
| Crc16.EntryBits | sw/lib/hal/spi_sdcard.c:57-79 | Every one of the 256 table entries is the remainder that its index leaves after eight zero bits. |
| Crc16.NextBits | sw/lib/hal/spi_sdcard.c:83-85 | One pass of the loop body divides one more message byte. |
| Crc16.Crc16 | sw/lib/hal/spi_sdcard.c:81-88 | For every byte sequence the table-driven loop returns the bit-by-bit remainder of the message times x^16, with its bytes swapped. |
| Crc16.BurstDetected | sw/lib/hal/spi_sdcard.c:81-88 | Two messages of equal length that differ, and only within any sixteen consecutive bits, have different check values. |
| Crc16.TwoByteBurstDetected | sw/lib/hal/spi_sdcard.c:81-88 | In particular so do byte sequences that differ only within two adjacent bytes. |
| Crc16.AcceptedExactly | sw/lib/hal/spi_sdcard.c:269-272 | The driver's comparison accepts a block if and only if its two trailing bytes are the remainder, most significant byte first, which holds if and only if block and check bytes together are divisible by the polynomial. |
| Crc16.PacketBurstDetected | sw/lib/hal/spi_sdcard.c:269-272 | A burst of at most sixteen bits anywhere in a block followed by its check bytes, in the data, the check bytes or across both, makes the comparison fail. |
| Crc16.CheckBytes | sw/lib/hal/spi_sdcard.c:87 | The two bytes a card sends after a block make the check value, the first being the more significant one. |
| SdCard.IdealCard | sw/lib/hal/spi_sdcard.c:239-287 | The assumptions on cards can be met: for any packets there is a card that serves them without delay. |
| SpiSdcard.Driver.constructor | sw/lib/hal/spi_sdcard.c:186-224 | A driver after initialisation, bound to the given card, host, FIFO depth and command check byte. |
| SpiSdcard.Driver.Tx | sw/lib/hal/spi_sdcard.c:91-113 | A transmit segment puts exactly its bytes on the wire and keeps the chip select. |
| SpiSdcard.Driver.Rx | sw/lib/hal/spi_sdcard.c:91-113 | A receive segment stores exactly what the card drives, and nothing outside its target. |
| SpiSdcard.Driver.CsFree | sw/lib/hal/spi_sdcard.c:117-121 | Eight cycles on the dummy chip select release the card's. |
| SpiSdcard.Driver.PollAnswer | sw/lib/hal/spi_sdcard.c:132-135 | At most eight polls for the response, whatever the card answers; on a host that does not fail, error 0x12 exactly if all eight were used; on 0 the byte stored is the last one received and its top bit is low. |
| SpiSdcard.Driver.PollBusy | sw/lib/hal/spi_sdcard.c:139-144 | At most 10000 polls for the end of busy; on a host that does not fail, error 0x13 exactly if all were used. |
| SpiSdcard.Driver.PollToken | sw/lib/hal/spi_sdcard.c:253-259 | At most 10000 polls for the data token; on a host that does not fail, error 0x19 exactly if all were used, else 0x20 exactly if the last byte is not the token. |
| SpiSdcard.Driver.Cmd | sw/lib/hal/spi_sdcard.c:124-152 | For any card: bounded transfers, exactly the six command bytes sent, and on success a response whose top bit is low; all of its bytes, one of R1, two of R2, five of R3 and R7, are the last ones received and are stored, nothing else is, and if asked for the chip select is then free; for a card that serves and answers in time, success. |
| SpiSdcard.Driver.Response | sw/lib/hal/spi_sdcard.c:130-147 | The response is stored as it was received, to its last byte; R1b waits for the end of busy instead. |
| SpiSdcard.Driver.FetchData | sw/lib/hal/spi_sdcard.c:264-271 | For every FIFO depth the chunked reads deliver 512 consecutive bytes and two check bytes. |
| SpiSdcard.Driver.FetchBlock | sw/lib/hal/spi_sdcard.c:253-272 | One block: token, data and check, with the exact outcome for a serving card: the packet's data, or 0x21 if the check is on and the packet is not intact. |
| SpiSdcard.Driver.FrameOfCmd | sw/lib/hal/spi_sdcard.c:226-235 | The built command starts with its opcode and ends with the check byte of the five bytes before it, and a card that reads the argument most significant byte first gets its low 32 bits. |
| SpiSdcard.Driver.TakeBlock | sw/lib/hal/spi_sdcard.c:260-280 | Through the swap buffer or directly, exactly the wanted part of a block reaches the destination and nothing else in it changes. |
| SpiSdcard.Driver.TakeBlocks | sw/lib/hal/spi_sdcard.c:252-281 | After b blocks the destination holds the first b blocks' part of the request. |
| SpiSdcard.Driver.ReadBlocks | sw/lib/hal/spi_sdcard.c:239-287 | For any card: a number of transfers linear in the block count, and on 0 exactly one read command, CMD12 if and only if more than one block was requested, chip select released and no data pending; for a serving card, the contents. |
| SpiSdcard.SpanFits | sw/lib/hal/spi_sdcard.c:295-299 | The 64-bit arithmetic splits every nonempty request whose block count does not wrap around into exactly the blocks it touches, with the right first offset and last length. |
| SpiSdcard.WrappedCount | sw/lib/hal/spi_sdcard.c:299 | For a request that ends within 2^64 bytes of its first block but whose rounded length does not fit 64 bits, the block count is zero. |
| SpiSdcard.NegativeCopy | sw/lib/hal/spi_sdcard.c:295-299 | For every request that ends more than 2^64 bytes after the start of its first block the block count is one and the last offset lies before the first one, so that the copy would have a negative length. |
| SpiSdcard.BlockAddress | sw/lib/hal/spi_sdcard.c:226-246 | A command reaches byte address `addr` modulo 2^41, because it carries 32 bits of the block number. |
| SpiSdcard.Driver.Read | sw/lib/hal/spi_sdcard.c:290-303 | Any alignment, length and FIFO depth: outside the target nothing changes for any card; a request that is empty or whose block count wraps around returns 0 without a transfer; otherwise, with a serving card, 0 means that the target holds the card's bytes at `addr` modulo 2^41 (and, when checked, that all packets were intact), and a prompt card and a reliable host make it return 0, or 0x21 exactly if a touched packet is damaged. |
| SpiSdcard.Driver.ReadCheckCrc | sw/lib/hal/spi_sdcard.c:305-307 | On a card that sends a disk's packets, any of them damaged by bursts of up to sixteen bits: 0 means exactly the disk's bytes and no damage in a touched packet; with a prompt card and a reliable host the result is 0 if no touched packet is damaged and 0x21 if one is. |
| SpiSdcard.DamagedNotIntact | sw/lib/hal/spi_sdcard.c:269-272 | A packet that suffered a burst of up to sixteen bits, in its data, its check bytes or across both, is never accepted. |
| SpiSdcard.DegradedRange | sw/lib/hal/spi_sdcard.c:269-272 | On such a card the check bytes of a range all match if and only if none of its packets was damaged. |
| SpiSdcard.WrappedRead | sw/lib/hal/spi_sdcard.c:246-248 | On a card of one sector a read at byte 2^41 succeeds, with the contents of that sector. |
| SpiSdcard.WrapsExactly | sw/lib/hal/spi_sdcard.c:226-246 | On every card of at most 2^41 bytes that has the bytes the driver addresses, what is read is what was asked for, if and only if the request ends within 2^41 bytes. |
| Gpt.Reader.Gprw | sw/include/util.h:62-69 | Sets the global pointer, except to zero, and returns the former one. |
| Gpt.Reader.CallRom | sw/boot/zsl.c:26-31 | The read function of the ROM is entered only at its own address, with its own device handle and under its own global pointer. |
| Gpt.Reader.Read | sw/boot/zsl.c:26-31 | A read, direct or through the relocated pointers, leaves the global pointer as it was; 0 means exactly the disk's bytes, also if packets were damaged; with undamaged packets, a prompt card and a reliable host it returns 0 if and only if the range is on the disk. |
| Gpt.CheckSignature | sw/lib/gpt.c:14-20 | True only if the signature is there; exactly then, when the read succeeds. |
| Gpt.SignatureBytes | sw/lib/gpt.c:14-20 | The signature is there exactly if the bytes from 0x200 on read EFI PART. |
| Gpt.WrittenEntry | sw/lib/gpt.c:43-60 | On a disk whose header names a sector, a count and a size, entry p written at 512 lba + p size is read with the GUIDs and the range that were written. |
| Gpt.WrittenHits | sw/lib/gpt.c:43-60 | An entry of such a table is a hit exactly if it spans fewer sectors than the limit after its first one and has a GUID that was asked for. |
| Gpt.CheckGuids | sw/lib/gpt.c:53-60 | The type GUID and then the partition GUID are compared as far as they were asked for. |
| Gpt.FindPartition | sw/lib/gpt.c:22-71 | The result is the least entry that fits and matches, with its range; else -1 with the first entry cut to the limit, or the caller's range for an empty table; every failed read is passed on with the index untouched. Also in terms of tables as they are written, for every header sector, entry count and entry size: the least matching entry with its two sectors; a dependable reader finds it without an error. |
| Gpt.FittingImage | sw/lib/gpt.c:51-82 | A range that passed the size filter never copies more than 512 times the limit, ordered or not, because the comparison is unsigned. |
| Gpt.RawImage | sw/lib/gpt.c:75-82 | Nor does the range used without a table. |
| Gpt.CutImage | sw/lib/gpt.c:46-49 | The cut first entry copies at most 512 times the limit if and only if the entry is safe to cut: ordered, or wrapping around with the limit, or short after reduction modulo 2^55. |
| Gpt.CutCanOverrun | sw/lib/gpt.c:46-49 | For the reversed first entry (100, 50) and the limit of the boot ROM it copies more. |
| Boot.PointerSurvives | sw/lib/gpt.c:85 | The marker bit always arrives, and the read pointer does if and only if it is even and has at most 32 bits. |
| Boot.DocumentedTypes | sw/include/params.h:40-47 | The three type GUIDs, as the source's words store them, are the bytes of the documented ones. |
| Boot.ChosenBound | sw/lib/gpt.c:75-83 | Whatever is chosen fits the limit, with no assumption on the raw, match and empty-table paths; the length exceeds it if and only if the search falls back on a first entry that is not safe to cut. |
| Boot.ChooseRange | sw/lib/gpt.c:75-79 | The range to load is the first match, else the cut first entry, else the raw range, which is also taken if the signature could not be read. |
| Boot.PlainImage | sw/lib/gpt.c:81-82 | For an ordered range on a disk of at most 2^41 bytes, the image computed with wrapping arithmetic is the partition, first to last sector. |
| Boot.PartitionFound | sw/lib/gpt.c:41-71 | The sectors of the least matching entry of a written table are what the search finds, and their image is those bytes of the disk. |
| Boot.DueChosen | sw/lib/gpt.c:73-82 | The sectors that are due are the ones chosen: without a signature or with an empty table sectors 0 to limit - 1, else those of the first match, else the first partition or as many of its sectors as the limit allows. |
| Boot.CopyCode | sw/lib/gpt.c:73-82 | Bound, contents and outcome of the copy into the code buffer on every path. |
| Boot.GptBootPartElseRaw | sw/lib/gpt.c:73-89 | The image chosen, or the raw blocks, lies in the code buffer, and nothing beyond the limit has changed unless the search falls back on an unsafe first entry; with a dependable card and a buffer of the limit's size the length overruns it if and only if it does; scratch words 0, 1 and 3 hold the tagged read pointer, its argument and the global pointer, and are untouched on failure. With a dependable card the buffer starts with the sectors that are due. |
| Boot.BootNextStage | hw/bootrom/cheshire_bootrom.S:89-107 | All harts arrive at the given address with their own ids, for any number of harts and any fair interleaving. |
| Boot.LoadPart | sw/boot/zsl.c:33-51 | Copies the first fitting match to its place and touches nothing beyond the limit; with a dependable card it spins if and only if there is none, and the copying read, whose result it ignores, succeeds if and only if the partition is on the disk. |
| Boot.ZslMain | sw/boot/zsl.c:53-88 | With the marker set, device tree and firmware are each the first fitting match, and each copy whose read succeeded is complete when the firmware is launched: the second cannot disturb the first; without it the firmware is launched with DRAM untouched. With a dependable card it launches if and only if both matches exist, whether or not they could be read. If the sectors of the first matching firmware and device tree of a written table are on the disk, it launches, and both windows start with exactly those bytes of the disk. |
| Boot.BootSdcard | hw/bootrom/cheshire_bootrom.c:37-49 | End to end from a ready card: the loader in SPM, all harts there with their ids, the pointers handed over, and at launch DRAM at 0x80000000 and 0x80800000 holding exactly the sectors of the first fitting firmware and device tree if their reads succeeded. With a dependable card, a readable table with a signature, a loader image on the disk and, should the search fall back, a first entry that is safe to cut, it launches if and only if both are found. In terms of the bytes of the disk: if the sectors due for the loader and those of the first matching firmware and device tree of the written table are on it, SPM and the two places in DRAM start with exactly these sectors at the launch with arguments 0, 0x80800000 and 0. |
| FailedCopy.SmallTable | sw/lib/gpt.c:41-71 | A disk of three sectors whose table has a device tree in sector 0 and a matching firmware entry at sector 1000. |
| FailedCopy.LaunchAfterFailedCopy | sw/boot/zsl.c:44-87 | On that disk the firmware is launched although its copying read returned an error. |
| Clint.JoinedBehind | sw/lib/dif/clint.c:14-17 | The high-half-first read is never ahead of the counter and lags by exactly 2^32 times the blocks entered between the halves. |
| Clint.LowFirstRunsAhead | sw/lib/dif/clint.c:14-17 | In the other order the value is ahead of the counter if and only if the low half has rolled over past it between the reads. |
| Clint.WaitAtLeast | sw/lib/dif/clint.c:24-26 | A wait ends with the real counter at or past its start value plus the ticks; if its first read is not stale, it is full: the counter has advanced by all of the ticks. |
| Clint.StaleWait | sw/lib/dif/clint.c:24-26 | If a stale first read lags behind by at least the ticks asked for and the next read is not behind that point, the loop ends with that next read, and the wait is full only if the ticks passed within it. |
| Clint.FullWaitExactly | sw/lib/dif/clint.c:24-26 | From a given start on a given timer, the waits for all numbers of ticks are full as far as start value plus ticks fits 64 bits, and never full beyond while the counter is below 2^64, if and only if the first read is not stale. |
| Clint.SafeStart | sw/lib/dif/clint.c:24-26 | Checked before the call: with `c` on the counter and at most `g` ticks to one read, all waits on every such timer are full as far as their ticks fit if and only if the low half of `c` is more than `g` away from its rollover. |
| Clint.ShortRun | sw/lib/dif/clint.c:24-26 | A run: with the counter at 2^32 - 2 and counting every cycle, a wait for five ticks is over after two. |
| Clint.Timer.constructor | sw/lib/dif/clint.c:14-17 | A hart with a counter that never goes back and accesses at arbitrary times. |
| Clint.Timer.GetMtime | sw/lib/dif/clint.c:14-17 | The value read joins the two halves at their own times and is at most the counter at return. |
| Clint.Timer.SpinUntil | sw/lib/dif/clint.c:19-22 | Ends with the first read that reaches the target, if any read ever does, and so never before the real counter has reached it, even when the low half rolls over between the reads. |
| Clint.Timer.SpinTicks | sw/lib/dif/clint.c:24-26 | Ends with exactly the read that first reaches start value plus ticks in 64 bits, if any ever does; without overflow of that sum the wait is full if the first read was not stale, with overflow it is never full while the counter is below 2^64, and it is over after one more read if the target was passed by then. |
| Clint.Timer.AwaitChange | sw/lib/dif/clint.c:33-36 | Ends, and its last two samples lie on either side of a tick with the cycle count between them. |
| Clint.Timer.AwaitTicks | sw/lib/dif/clint.c:38-41 | Ends, and its last two samples lie on either side of the target tick. |
| Clint.Timer.GetCoreFreq | sw/lib/dif/clint.c:28-44 | If the low half is beforehand further from its rollover than the wanted ticks and three iterations, the high half stands still. If it does, at least the wanted ticks have been counted, and the result is the elapsed cycles times ref_freq in 64 bits over the elapsed ticks, rounded down, or 2^64 - 1 if no tick was wanted nor seen. If then one tick or more was wanted, the cycles are less than 2 D away from as many periods, and without overflow of the product the result is within 2 D ref_freq / num_ticks + 1 of the true frequency, for iterations of at most D cycles at arbitrary times. |
| Clint.Timer.Conclude | sw/lib/dif/clint.c:42-43 | The error bound for any samples that bracket two ticks. |
| Clint.Timer.HorizonExists | sw/lib/dif/clint.c:28-44 | On a counter that ticks with any period there is a horizon for every target whose 2^32 block ends more than `q` ticks before the counter wraps around, where `q` ticks last two loop iterations and a cycle; two iterations later the counter is at most `q` past the start or the block. |
| Clint.Timer.MeasurementEnds | sw/lib/dif/clint.c:28-44 | On a ticking counter both loops of the measurement have the horizons they need to end, unless the first value read, the wanted ticks, 2 * 2^32 and 2 q together reach 2^64. |
| Clint.Timer.SpinEnds | sw/lib/dif/clint.c:19-22 | Given a horizon, some read reaches the target. |
| Clint.Timer.TickingSpinEnds | sw/lib/dif/clint.c:19-22 | So on a ticking counter the loop ends for all such targets. |
| UartDebug.Uart.ReadReady | sw/lib/dif/uart.c:25-27 | A poll tells whether a byte waits, and takes none. |
| UartDebug.Uart.Read | sw/lib/dif/uart.c:56-60 | Returns the next byte after any number of polls. |
| UartDebug.Uart.Write | sw/lib/dif/uart.c:38-42 | Sends one byte after any number of polls. |
| UartDebug.Uart.ReadStr | sw/lib/dif/uart.c:62-64 | Memory receives exactly the next bytes, and nothing else in it changes, also when the input ends early. |
| UartDebug.Uart.WriteStr | sw/lib/dif/uart.c:44-46 | Sends exactly the bytes of memory. |
| UartDebug.ReadBack | sw/lib/hal/uart_debug.c:49-63 | Reading what was just written gives it back, and writing changes no other address, also across the end of the address space. |
| UartDebug.ServeOne | sw/lib/hal/uart_debug.c:41-79 | One round of the command loop on any input, well-formed or not: memory, bytes sent and bytes left. |
| UartDebug.Serve | sw/lib/hal/uart_debug.c:37-80 | The whole server on any input, with any pauses between bytes. |
| UartDebug.CommandServed | sw/lib/hal/uart_debug.c:48-63 | An encoded READ or WRITE has exactly the interpreter's effect and reply and consumes exactly its bytes. |
| UartDebug.ServedRefines | sw/lib/hal/uart_debug.c:37-80 | For every list of commands ended by EXEC the server ends with the interpreter's memory and replies, the return code sent least significant byte first, and what follows the commands unread. |
| UartDebug.Signed | sw/lib/hal/uart_debug.c:66-74 | The returned code is the 32-bit number with the bits of the reported one, as a signed integer. |
| UartDebug.DebugExactly | hw/bootrom/cheshire_bootrom.c:30-31 | Bytes before the first ACK change nothing: the session starts with what follows that ACK if and only if it arrives before the start signal. |
| UartDebug.AwaitedExactly | hw/bootrom/cheshire_bootrom.c:30-31 | The loop ends in a start exactly if some poll has bit 1 of its value set and no earlier poll finds an ACK, and in a debug session exactly if some poll finds an ACK and has that bit clear, as have all earlier ones. |
| UartDebug.Check | sw/lib/hal/uart_debug.c:33-35 | True exactly if a byte waits and is an ACK; a waiting byte is consumed either way. |
| UartDebug.BootPassive | hw/bootrom/cheshire_bootrom.c:24-35 | Idle, started through the scratch registers with their 64-bit address, or in a debug session: memory, bytes sent and scratch registers in each case. It jumps exactly if some poll has bit 1 set and no earlier one finds an ACK, and debugs exactly if an ACK is found before that. |
| UartDebug.DebugSession | hw/bootrom/cheshire_bootrom.c:24-35 | End to end: after any noise without ACK, the opening ACK, any commands and EXEC, memory is what the interpreter and the executed code make of it, the output is the ACK, the replies and the return code, the rest of the input is unread, and the scratch registers are untouched. |
| Config.LlcSize | hw/cheshire_pkg.sv:261-263 | The LLC size, in 32-bit arithmetic, is below 512 MiB for every configuration. |
| Config.LlcCapacity | hw/cheshire_pkg.sv:261-263 | While the bits of ways, lines, blocks and words together are fewer than 2^32, the size is their number in bytes. |
| Config.LlcWraps | hw/cheshire_pkg.sv:261-263 | An LLC of 512 MiB has size zero. |
| Config.ApartCorrect | hw/cheshire_pkg.sv:309-314 | The order of bounds used for disjointness means that no address is covered by both rules. |
| Crossbar.GenAxiIn | hw/cheshire_pkg.sv:295-307 | For every configuration the enabled manager ports are 0, 1, 2 and so on without gaps, and with the external ones fit 6 bits; absent ones read 0. |
| Crossbar.GenAxiOut | hw/cheshire_pkg.sv:330-368 | For every configuration the subordinate ports are dense and fit, exactly num_rules entries are written without gaps, and these are all rules; the scratchpad shares the LLC port, or without one the register demux's. |
| Crossbar.GenInternal | hw/cheshire_pkg.sv:334-350 | The internal part: one rule after the other, ports in step. |
| Crossbar.CrossbarDisjoint | hw/cheshire_pkg.sv:334-366 | The crossbar rules of every well-formed configuration are pairwise disjoint. |
| Crossbar.AxiDeviceReached | hw/cheshire_pkg.sv:334-350 | An address in the window of an enabled device is routed to that device's port and no other. |
| Crossbar.LinkedAddresses | sw/link/common.ldh:14-48 | The addresses that programs are linked with: register space behind the demux, DMA, both views of the scratchpad, the debug module and DRAM are where they are expected. |
| Crossbar.ExternalReached | hw/cheshire_pkg.sv:356-361 | An address in an external AXI region is routed to its port and no other, which for an index below the number of external ports is that many after the first external one and below the port count. |
| Crossbar.ForwardReached | hw/cheshire_pkg.sv:362-366 | An address in an external register region is routed to the register demux and nowhere else. |
| Crossbar.GapUnrouted | hw/cheshire_pkg.sv:335 | No crossbar rule covers an address from the end of the register window up to the scratchpad. |
| RegMap.GenRegOut | hw/cheshire_pkg.sv:394-427 | For every configuration: each enabled device gets the next port and the rule before it, external rules follow, and all are cut to the 6-bit fields and 64 entries; while ports fit, rule r names port r + 1, and if port and rule counts fit, nothing is cut and every device's port is below the external ones. |
| RegMap.GenPerCore | hw/cheshire_pkg.sv:410-415 | The per-core loops append one port and one rule per CLIC and per bus error unit. |
| RegMap.PortsDistinctExactly | hw/cheshire_pkg.sv:394-427 | No enabled device lands on the error port if and only if the internal devices are at most 63, and then all have different ports. |
| RegMap.ManyCores | hw/cheshire_pkg.sv:410-417 | With CLICs and bus error units the internal devices alone are 5 + 2 NumCores or more, so the external base, and with it the port count, does not fit 6 bits from 29 cores on, and the devices' own ports do not from 30 on. |
| RegMap.FieldsExactly | hw/cheshire_pkg.sv:386-415 | Every enabled device has a port field if and only if not the bus error units of 31 cores are among them; the last of these has none. |
| RegMap.PortsBelowExternal | hw/cheshire_pkg.sv:416-417 | External register ports start after all internal ones. |
| RegMap.RegisterDisjoint | hw/cheshire_pkg.sv:397-425 | The register rules of every well-formed configuration are pairwise disjoint. |
| RegMap.DeviceReached | hw/cheshire_pkg.sv:397-418 | If all ports and rules fit, an address in the window of an enabled register device goes through the map that the demux decodes to exactly that device's port, below the external ones, and through the crossbar to the demux if and only if the device is no CLIC. |
| RegMap.LinkedAddresses | sw/link/common.ldh:34-46 | Each base address that programs are linked with leads to the register device of that name, if it is enabled. |
| RegMap.DevicesReachedExactly | hw/cheshire_soc.sv:295-305 | For every well-formed configuration: every address in a window of an enabled register device is routed to that device's port by the map that the demux decodes, if and only if the rules, external ones included, are fewer than 64. |
| RegMap.LostDevice | hw/cheshire_pkg.sv:418-425 | With 64 rules or more there is an enabled device whose first address no decoded rule covers. |
| RegMap.FullMapDecodesNothing | hw/cheshire_pkg.sv:388-425 | A well-formed configuration of 17 cores whose ports all fit and whose rule count wraps around to zero. |
| RegMap.ExternalRegReached | hw/cheshire_pkg.sv:362-425 | If all ports and rules fit, an address in an external register region goes through both maps, the second as the demux decodes it, to exactly its port, above the internal ones and below the port count. |
| RegMap.DefaultIsWellFormed | hw/cheshire_pkg.sv:502-606 | The default configuration meets every assumption on configurations made here. |
| Cva6Regions.CiePartition | hw/cheshire_pkg.sv:469-482 | The CIE and the non-CIE region partition [0x20000000, 0x80000000) and cover nothing else, in either order, if and only if the CIE length is at most 0x60000000. |
| Cva6Regions.PeripheralsNonIdempotent | hw/cheshire_pkg.sv:475-477 | For every configuration all addresses below 0x10000000 are non-idempotent, and so are the windows of all register devices. |
| Cva6Regions.NonIdempotentExactly | hw/cheshire_pkg.sv:475-477 | Non-idempotent are exactly the addresses below 0x10000000 and those of the external range outside the CIE part. |
| Cva6Regions.CachedExactly | hw/cheshire_pkg.sv:481-483 | Cached scratchpad and LLC-out region are cached for every configuration, and besides them exactly the CIE part. |
| Cva6Regions.ExecutableExactly | hw/cheshire_pkg.sv:478-480 | The debug module, the boot ROM, twice the LLC size from the scratchpad on and the LLC-out region are executable for every configuration, and besides them exactly the CIE part. |
| Cva6Regions.ExternalCachedOrNot | hw/cheshire_pkg.sv:469-483 | In [0x20000000, 0x80000000) an address is non-idempotent if and only if it is not cached, with a scratchpad that ends below and an LLC-out region that starts above it. |
| Cva6Regions.UncachedExecutable | hw/cheshire_pkg.sv:478-480 | All of the uncached scratchpad is executable if and only if the scratchpad is of the largest size, 64 MiB. |
| Cva6Regions.CachedExecutable | hw/cheshire_pkg.sv:478-482 | Every cached address is executable, for every configuration. |
| Cva6Regions.CachedIdempotent | hw/cheshire_pkg.sv:475-482 | No cached address is non-idempotent, with a scratchpad that ends below and an LLC-out region that starts above the external range. |
| GenBootrom.PadBinary | util/gen_bootrom.py:52-58 | The padded length is the least power of two that is at least 8 and covers the binary and the requested length, and the padding is zero. |
| GenBootrom.WordHexValue | util/gen_bootrom.py:71-74 | A printed word reads as the number its bytes make, least significant byte first, padded or not. |
| GenBootrom.CompiledLine | util/gen_bootrom.py:82-87 | The printed line of one word of the compiled boot ROM is the one in its module. |
| GenBootrom.DigitsValue | util/gen_bootrom.py:86-87 | Printing a number in a base and reading it gives it back. |
| GenBootrom.ItemParsed | util/gen_bootrom.py:86-87 | A printed case item reads back as its index and word, whatever follows. |
| GenBootrom.TextParsed | util/gen_bootrom.py:82-87 | The joined items read back as all words in order. |
| GenBootrom.RomHolds | util/gen_bootrom.py:122-132 | Looking up any address in the text read back gives the padded binary's byte at that address modulo its length. |
| GenBootrom.Generate | util/gen_bootrom.py:48-141 | The emitted module is as long as the least power of two that will do, and answers every address below its length with the binary's byte, or zero past its end. |

## Left out

- CRC7 as a polynomial remainder: the table is left-aligned but indexed after a further shift, so the check byte of a command is an arbitrary function here.
- The response check of card initialisation, whose mask shifts a 32-bit integer by up to 40 bits, and the unbounded ACMD41 loop; a driver starts initialised.
- Calls without a swap buffer: every read goes through `__spi_sdcard_read`, which has one.
- The I2C EEPROM and SPI flash readers, and the boot modes that use them.
- `clint_sleep_until`, `clint_sleep_ticks` and `clint_set_mtimecmpx`: interrupt delivery is not in this code.
- Clint.Timer.GetCoreFreq: targets in the last 2^32 ticks before the 64-bit counter wraps around are excluded, because there the loops need not end; and nothing is said about the result if the high half of the counter changes during the measurement, or about its accuracy if the product overflows.
- SpiSdcard.Driver.Read: a request that ends more than 2^64 bytes after the start of its first block is excluded; for each of these the source copies a negative number of bytes once the block has arrived (`SpiSdcard.NegativeCopy`), which C does not define.
- SpiSdcard.Driver.ReadCheckCrc: likewise.
- Gpt.Reader.Read: likewise.
- Boot.GptBootPartElseRaw: a length beyond the code buffer ends the model with `Overrun` instead of writing past the buffer.
- Boot.BootSdcard: printed output, UART setup and the frequency measurement of the loader are not part of the chain; the harts other than hart 0 are followed up to their jump.
- Gpt.FindPartition: the entry offset overflows only as an unsigned product, although the index is signed in the source.
- UartDebug.Serve: memory has no device registers or unmapped holes in it, and invoked code does not use the UART.
- Weak memory: see the assumption above.
- The alias of the uncached scratchpad in `hw/cheshire_soc.sv`.
- `gen_cva6_id_map`, a table of constants.
- Trap handlers, linker scripts, generated register headers, and the hardware blocks that the SoC instantiates.
