# ZeroLGR: a verified model of the engine

This project models the C++ ledger engine of ZeroLGR and the binary protocol it shares with its Python gateway,
and proves what the engine's design promises, or exactly when it keeps a promise that fails in general.
`dafny verify dfyconfig.toml` checks it.

## The parts

**Write-ahead log** (`WalFormat`, `WalRecovery`, `TornAppend`, `Wal`). The log is a growing mapping of bytes. The object
`Wal.WriteAheadLog` grows, writes frames, syncs and replays as the source does; storage is a second byte string that only a sync
brings up to date. What replay returns is characterised by an if and only if on images, and from it follow recovery after clean
runs, torn writes, truncation and damage, and the outcome of an append cut short after any number of bytes.

**Checksum** (`Crc32`, `CrcCheck`, `CrcBurst`, `CrcStandard`, `CrcField`, `CrcPowers`, `CrcPeriod`). The frame check sequence
of IEEE 802.3, section 3.2.9, by long division over bits; the table, its construction and the lookup loop are proved equal to it,
and so is the standard's wording with complemented bits and appended zeros. The step is linear and invertible, which gives
detection of every burst of up to 32 bits in the data, in the stored checksum or across both. Read as multiplication of
polynomials, it has the full period 2^32 - 1, which tells exactly which zero data has the checksum zero.

**Ring buffer** (`Masks`, `RingIndex`, `RingBuffer`, `RingProtocol`, `Pipeline`). `RingBuffer` is the object as one thread
uses it. `RingProtocol` takes push and pop apart into loads, slot access and index store of two threads; a load of the
other thread's index may return any published value not older than the last one seen. Every run refines a queue.
`Pipeline` runs the request and reply rings together, with the two threads' steps interleaved freely.

**Ledger** (`Accounts`, `Residual`, `Ledger`, `LedgerRuns`, `LedgerTheorems`, `LedgerCrash`, `LedgerTorn`, `Idempotency`,
`LedgerEngine`).
`Ledger.Machine` steps the engine thread through taking, checking, stamping, appending, applying and answering, and the I/O
thread through drawing an account id and inserting the account, interleaved freely. Its invariant gives the snapshot, identity,
overflow and acknowledgement theorems, and `CrashRecovery` relates the bytes on disk to the balances in memory at
every crash point. `LedgerEngine.LedgerEngine` is the object itself, its loops and updates proved against the same functions;
`StreamIsRun` makes what it does a run of the machine, and `EngineCrash` applies crash recovery to its storage and mapping.

**Codecs** (`Types`, `Bytes`, `Codec`, `WireCodec`, `RecordCodec`). Encoders and decoders of both languages, log payloads and
balance snapshots. Decoders are characterised by an if and only if on the bytes they read.

## Where the code does not do what it says

- The repository's `README.md:32` and `engine/src/ledger.cpp:129` say that assets minus liabilities minus equity is always zero. It
  is not: revenue counts as equity with the sign of its balance, so funding an asset account from a revenue account breaks the
  equation, in a run from the start (`FundingBreaksEquation`; `engine/tests/test_ledger.cpp:306` expects it to hold after such
  transfers). In every reachable state the equation holds if and only if the transactions so far moved no net amount to the asset
  side (`EverySnapshot`); a transfer preserves it if and only if it stays on one side (`FlagPreserved`).
- `engine/include/wal.hpp:13-14` promises that replay stops at the first corrupt or incomplete frame. Three things break this.
  The checksum covers neither magic nor size and is zero for no data, so an append cut off behind its magic is read as a whole,
  empty frame (`MagicAlone`); what replay returns after any number of bytes is `TornExact`, and when nothing wrong comes back is
  `HarmlessExactly`. For the same reason a size damaged to zero can pass (`ZeroedSize`); a damaged header stops replay if and only
  if the magic, the bound or the checksum found there says so (`DamagedHeader`). And appending over a damaged frame overwrites
  only that frame, so a later one that was cut off comes back (`StaleFrameReturns`); an append leads to exactly the log and its
  payload if and only if beforehand no frame can be read where the new one will end (`AppendExact`). Damage within 32
  consecutive bits of data and checksum always stops replay (`DamagedFrame`).
- `engine/include/wal.hpp:9-12` and the order of `engine/src/ledger.cpp:245-255` promise that a crash loses nothing acknowledged and
  leaves the log in step with the balances. The first holds for whatever a crash leaves of storage and memory. The second fails in a
  run from the start (`RecoveryFails`); it holds if and only if nothing but the frame under way can be read behind the log
  (`CrashRecovery`), and for an append cut short exactly when `HarmlessExactly` says so (`TornCrash`).
- `engine/include/ledger.hpp:48` says shutdown drains pending items. With the flag cleared, a waiting request stays
  (`ShutdownLeavesRequest`); `run` leaves none if and only if it makes at least as many passes before the flag reads false as
  requests are waiting (`DrainedExactly`, `Run`).
- `engine/include/ledger.hpp:106-107` says that only `run` changes the account table. The I/O thread does from the start
  (`IoThreadCreatesFirst`): a step of it does if and only if it inserts an account under a new name (`IoThreadChangesAccounts`).
- The result of pushing a reply is ignored. A reply is lost if and only if a push finds `N - 1` replies beyond the head it loaded
  (`LostExactly`), and there are runs in which that happens (`ReplyLost`). If at most `N - 1` accepted requests are ever without a
  delivered reply, none is lost (`NoReplyLost`).

## Assumptions

The host is little-endian. The page size is a power of two. Payloads and the size fields met in replay are at most
2^32 - 13 bytes, as the frame size is computed in 32 bits (`FrameSizeExact` shows this bound is exact), and sizes stay within 64
bits while growing (`Room`). Fewer than 2^64 ids are drawn. Clocks and measured latencies are inputs (`Readings`), as is the number
of passes after which another thread clears the running flag. Slot counters, sequence numbers and metric counters are natural
numbers. Text is a byte string. The crash theorems speak of the frames of the present engine over zero balances, because account
creation is not logged and the start-up replay of `engine/src/main.cpp:59-64` discards what it reads. A crash leaves of each byte
the one last synced or the one in memory; that both hold the log at every step of an append is proved (`Store`). Nothing is
assumed of the bytes behind it.

## Model

| member | source | states |
|---|---|---|
| `Crc32.ReflectedStep` | engine/src/wal.cpp:42-45 | One step of long division by the generator 0x04C11DB7, bit-reversed, is one step of the register with 0xEDB88320, for every remainder and message bit |
| `Crc32.SerialIsDivision` | engine/src/wal.cpp:56-58 | Shifting any bit string through the reflected register computes the mirrored remainder of its long division, from any start |
| `Crc32.StepLinear` | engine/src/wal.cpp:42-45 | The register step is linear over exclusive-or |
| `Crc32.StepInjective` | engine/src/wal.cpp:42-45 | The register step loses nothing: equal results come from equal registers, because the polynomial has its top bit set |
| `Crc32.SerialInjective` | engine/src/wal.cpp:56-58 | Equal registers after any common bit string were equal before it |
| `Crc32.SerialByte` | engine/src/wal.cpp:56-58 | Exclusive-or of a byte into the register followed by eight steps shifts in the eight bits of that byte, low bit first |
| `Crc32.TableLookup` | engine/src/wal.cpp:57 | One lookup of the low byte plus a shift by eight does the work of eight register steps, for every register |
| `Crc32.RegisterStep` | engine/src/wal.cpp:56-58 | Adding one byte to the data steps the register of the shorter data eight times |
| `Crc32.CrcIsIeee` | engine/src/wal.cpp:52-60 | For every byte sequence the checksum by register steps equals the bit-by-bit long division of IEEE 802.3, section 3.2.9, with a register preset to ones and a complemented, reflected remainder |
| `CrcStandard.LiteralIsPreset` | engine/src/wal.cpp:52-60 | For all data of at least 32 bits that is the standard word for word: first 32 bits complemented, 32 zero bits appended, plain remainder, complemented |
| `CrcStandard.MirrorThenSteps` | engine/src/wal.cpp:56-58 | Bits taken in at the low end and moved 32 steps on are bits taken in at the high end, for every register and bit string |
| `Crc32.Table.constructor` | engine/src/wal.cpp:35-36 | The table starts uninitialized |
| `Crc32.Table.ComputeEntry` | engine/src/wal.cpp:40-47 | The inner loop yields the register after eight steps from the index, for every index |
| `Crc32.Table.InitTable` | engine/src/wal.cpp:38-50 | Afterwards every one of the 256 entries holds eight register steps of its own index |
| `Crc32.Table.Lookup` | engine/src/wal.cpp:57 | With a filled table, the loop body advances the register by the eight bits of one byte |
| `Crc32.Table.Compute` | engine/src/wal.cpp:52-60 | Filling the table on first use, the loop over the data returns the IEEE 802.3 checksum of any byte sequence |
| `CrcCheck.CheckValue` | engine/src/wal.cpp:52-60 | The checksum of "123456789" is the published check value 0xCBF43926, and its bytes in a frame are 26 39 F4 CB |
| `CrcBurst.SplitBytes` | engine/src/wal.cpp:334-335 | A 32-bit word read back from its four little-endian bytes is that word |
| `CrcBurst.WordBytesInverse` | engine/src/wal.cpp:288-289 | Four bytes are the bytes of the word they denote |
| `CrcBurst.SerialXor` | engine/src/wal.cpp:56-58 | The difference of two registers after two strings is the register of the difference of the strings |
| `CrcBurst.DyingRegister` | engine/src/wal.cpp:42-45 | A register that becomes zero within 31 or fewer further bits was below two to that number of bits |
| `CrcBurst.ShortBurst` | engine/src/wal.cpp:56-58 | From zero, only the all-zero string of at most 32 bits leads back to zero |
| `CrcBurst.BurstDetected` | engine/src/wal.cpp:56-58 | Two bit strings of one length that differ only within 32 consecutive positions and give the same register are equal |
| `CrcBurst.FourByteBurst` | engine/src/wal.cpp:337-341 | Different payloads of equal length that differ only within four consecutive bytes have different checksums, whatever their length |
| `CrcField.MulPower` | engine/src/wal.cpp:42-45 | Any number of register steps is one multiplication by a power of x modulo the generator |
| `CrcPeriod.ReturnsExactly` | engine/src/wal.cpp:56-58 | Fed zeros, the preset register is back after exactly the multiples of 2^32 - 1 steps |
| `CrcPeriod.ZeroChecksum` | engine/src/wal.cpp:52-60 | Data of n zero bytes has the checksum zero if and only if 2^32 - 1 divides n |
| `CrcBurst.Residue` | engine/src/wal.cpp:287-289 | Data followed by its own stored checksum always leaves the same register |
| `CrcBurst.CodewordBurst` | engine/src/wal.cpp:333-341 | Two payloads of one length whose encodings with checksum differ only within 32 consecutive bits, wherever those lie, are the same payload |
| `Masks.MaskIsMod` | engine/include/ring_buffer.hpp:66 | Masking with 2^k - 1 is the remainder modulo 2^k |
| `Masks.MaskRoundsDown` | engine/src/wal.cpp:76 | Masking with the complement of 2^k - 1 in a word of any width subtracts exactly the remainder modulo 2^k |
| `Bytes.UnsignedOfLittleEndian` | engine/src/server.cpp:53-54 | Little-endian bytes of a number that fits the width denote that number |
| `Bytes.LittleEndianOfUnsigned` | engine/src/server.cpp:53-54 | Every byte string is the little-endian encoding of the number it denotes, which fits its width |
| `Bytes.LittleEndianAt` | engine/src/server.cpp:66 | Byte i of a little-endian number holds its digits of weight 256^i |
| `Bytes.I64Inverse` | engine/src/server.cpp:86-87 | A signed 64-bit value survives two's complement and its eight bytes |
| `Bytes.I64Of` | engine/src/server.cpp:86-87 | Every eight bytes are the encoding of the signed value they denote |
| `Types.EnumNumbers` | engine/include/types.hpp:27-52 | Account types and statuses have the numbers of the enumerations |
| `Types.StatusBytes` | engine/include/types.hpp:46-52 | A byte is read back as a status if and only if it is that status's number, and zero is success |
| `WalFormat.FrameSizeExact` | engine/src/wal.cpp:328 | The 32-bit frame size is the true one if and only if the size field is at most 2^32 - 13 |
| `WalFormat.FrameAdvances` | engine/src/wal.cpp:318-349 | With a header in range, a pass never reads outside the mapping, and an accepted frame advances by at least 12 bytes and ends inside it |
| `WalFormat.FrameBytes` | engine/src/wal.cpp:274-289 | A frame begins with 7C 1E AD DE, then holds the payload length, the payload, and the standard checksum of the payload |
| `WalFormat.ReadWritten` | engine/src/wal.cpp:274-289 | A frame as append writes it, standing anywhere in any image, is accepted with its payload and its true end |
| `WalFormat.WrittenRead` | engine/src/wal.cpp:319-346 | Whatever replay accepts at an offset is byte for byte the frame of the payload it hands out |
| `WalFormat.ScanThrough` | engine/src/wal.cpp:318-349 | A scan passes through every frame of a log that stands in the image, in order, and then goes on as from its end |
| `WalFormat.ScanFinds` | engine/src/wal.cpp:318-353 | Everything a scan returns stands in the image, its end is where those frames end, and all headers met were in range exactly if nothing can be read there |
| `WalFormat.ScanExact` | engine/src/wal.cpp:310-356 | Recovery in range yields a given log and end if and only if that log stands at the start of the image, ends there, and is followed by no readable frame |
| `WalRecovery.AlignIsLeast` | engine/src/wal.cpp:74-77 | For a power-of-two page and no size overflow, the mask expression is the least multiple of the page not below its argument |
| `WalRecovery.GrownEnough` | engine/src/wal.cpp:268-272 | The size an append works with holds the frame and everything already mapped |
| `WalRecovery.GrownLeast` | engine/src/wal.cpp:268-272 | The mapping grows only when the frame does not fit, and then to the least whole number of pages that is at least double and leaves a page behind the frame |
| `WalRecovery.SyncedAt` | engine/src/wal.cpp:229-238 | A sync changes exactly the bytes of its range in storage, to those in memory |
| `WalRecovery.ZerosAreNoFrame` | engine/src/wal.cpp:318-322 | No frame can be read from bytes that are all zero |
| `WalRecovery.CleanScan` | engine/src/wal.cpp:310-356 | A log with zeros behind it replays to exactly its payloads and resumes at its end |
| `WalRecovery.AppendClean` | engine/src/wal.cpp:263-298 | Appending, growing when needed, turns a clean log into a clean log with one more payload at the end |
| `WalRecovery.ReopenClean` | engine/src/wal.cpp:81-88 | Reopening at any size that holds the log keeps it clean and replays exactly it, resuming behind it |
| `WalRecovery.RunClean` | engine/src/wal.cpp:240-356 | After any sequence of appends and reopenings, within the payload and size bounds and never opening below the log's end, a clean log replays exactly the appended payloads in order, with nothing lost or added, and the append position restored |
| `WalRecovery.FreshIsClean` | engine/src/wal.cpp:191-215 | A new file of any size is a clean empty log |
| `WalRecovery.TornWrite` | engine/src/wal.cpp:318-353 | With arbitrary bytes behind the log, the logged payloads come back first, and they are all that comes back if and only if no frame can be read at that end |
| `WalRecovery.TailExact` | engine/src/wal.cpp:310-356 | With arbitrary bytes behind the log, replay returns exactly the log if and only if nothing can be read there, and exactly one given payload more if and only if its frame stands there as the last |
| `WalRecovery.CompletedAppend` | engine/src/wal.cpp:284-297 | A frame that arrived complete before a crash comes back behind the earlier ones, and is the last if and only if no frame follows it |
| `WalRecovery.StaleFrameReturns` | engine/src/wal.cpp:318-353 | False promise, with the family of inputs: after a damaged frame has hidden a later one, appending any payload of the damaged length makes the hidden frame replay again |
| `WalRecovery.AppendExact` | engine/src/wal.cpp:263-298 | For any bytes behind the log: replay after an append returns the log and the new payload and resumes behind it if and only if, before the append, no frame can be read in the resized mapping at the place where the new one will end |
| `WalRecovery.FittingLongest` | engine/src/wal.cpp:331 | Counting frames while they fit yields the longest prefix of the log that a size holds, for every size |
| `WalRecovery.TruncatedLog` | engine/src/wal.cpp:197-214 | A clean log cut to any size replays exactly the longest prefix of frames that fit wholly inside |
| `WalRecovery.DamagedFrame` | engine/src/wal.cpp:333-341 | Damage within 32 consecutive bits of a frame's data and checksum makes replay return exactly the frames before it |
| `Wal.FrameInFourCopies` | engine/src/wal.cpp:274-289 | After each of the four copies exactly the beginning of the frame stands at the offset, and after the last one the whole frame, and nothing else has changed |
| `Wal.PageStartMask` | engine/src/wal.cpp:232-233 | Masking an offset below 2^64 rounds it down to the start of its page |
| `Wal.SyncedUpTo` | engine/src/wal.cpp:229-238 | Syncing behind bytes that storage already agrees on makes storage agree up to the end of the sync |
| `WalRecovery.StoredOverwrite` | engine/src/wal.cpp:274-289 | Writing behind the log leaves it whole in storage and in memory |
| `WalRecovery.StoredResize` | engine/src/wal.cpp:240-257 | So does resizing both to a size that holds it |
| `WalRecovery.StoredSync` | engine/src/wal.cpp:229-238 | So does syncing any range |
| `WalRecovery.MixedKeepsLog` | engine/src/wal.cpp:291-296 | If every byte after a crash is the synced one or the one in memory, a log whole in both is in the image and replays first |
| `TornAppend.TornExact` | engine/src/wal.cpp:274-289 | For every log, payload and number of bytes of its frame that arrived, with zeros behind: replay returns the log, and beyond it one frame if and only if the magic arrived and the checksum found is that of the payload found |
| `TornAppend.MagicAlone` | engine/src/wal.cpp:276-278 | False promise, with an input: the first copy of an append alone, behind any clean log, makes replay return an empty payload that was never appended |
| `TornAppend.HarmlessExactly` | engine/src/wal.cpp:274-289 | Replay of a torn append returns nothing wrong if and only if: the magic is incomplete; or with the magic there some set bit of the size has arrived; or with the size there the data that arrived, zeros behind it, does not have the checksum zero or is the payload; or the checksum has begun |
| `TornAppend.EmptyFrame` | engine/src/wal.cpp:324-341 | An empty frame is read exactly when the magic is there and no set bit of the size |
| `TornAppend.HeaderTorn` | engine/src/wal.cpp:324-341 | With the header begun and no data there, zeros are read as data, and refused unless their number is zero |
| `TornAppend.DataTorn` | engine/src/wal.cpp:328-341 | Within the data, what arrived is read with zeros behind it, against a checksum of zero |
| `TornAppend.ChecksumTorn` | engine/src/wal.cpp:328-341 | Within the checksum the payload is read whole, and accepted exactly if nothing but zeros is missing |
| `TornAppend.DamagedHeader` | engine/src/wal.cpp:319-341 | Replay stops at a frame with any damage to its header if and only if the magic has changed, or the size leads out of the mapping, or to bytes whose checksum does not follow them |
| `TornAppend.DamagedMagic` | engine/src/wal.cpp:320-322 | A changed magic always stops replay |
| `TornAppend.ZeroedSize` | engine/src/wal.cpp:325-341 | False promise, with inputs: a size damaged to zero stops replay if and only if the four bytes behind the header are not all zero; otherwise an empty payload comes back |
| `WalRecovery.MixedZeros` | engine/src/wal.cpp:318-322 | With zeros behind the log in storage and memory, no mixture of the two holds a frame there |
| `Wal.WriteAheadLog.constructor` | engine/src/wal.cpp:81-88 | The mapping is the file, truncated or zero-extended to whole pages and at least one; nothing is logged or replayed yet |
| `Wal.WriteAheadLog.Grow` | engine/src/wal.cpp:240-257 | Mapping and file are resized to whole pages, keeping what both sizes share and zero-extending |
| `Wal.WriteAheadLog.MakeRoom` | engine/src/wal.cpp:267-272 | The mapping is resized exactly when the frame does not fit, to the page-aligned larger of double and needed plus a page |
| `Wal.WriteAheadLog.WriteFrame` | engine/src/wal.cpp:274-289 | Exactly the bytes of one frame at the offset change |
| `Wal.WriteAheadLog.SyncRange` | engine/src/wal.cpp:229-238 | Storage takes over whole pages from the one holding the offset, and agrees with memory up to the end if it agreed before the offset |
| `Wal.WriteAheadLog.Store` | engine/src/wal.cpp:267-294 | With the append position still unmoved, mapping and storage hold the old log followed by the new frame; after growing, after writing and after syncing the log survives a crash |
| `Wal.WriteAheadLog.Append` | engine/src/wal.cpp:263-298 | The log grows by exactly this payload, its number is one more than the last, the image is the one frame written behind the log, and storage holds the whole log whenever the append position covers it |
| `Wal.WriteAheadLog.ReadAt` | engine/src/wal.cpp:319-341 | A frame is reported at an offset if and only if magic, bounds and checksum are right there, with its payload and end |
| `Wal.WriteAheadLog.Replay` | engine/src/wal.cpp:310-356 | The i-th callback gets the number i and the payload of the i-th frame the image holds, for all of them; the image stays as it is, and append position and sequence continue that log |
| `Wal.DeliveredAfterRun` | engine/src/wal.cpp:240-356 | From a new file of any size, after any run of appends and reopenings, what replay delivers is exactly the payloads appended, in order, numbered from 1 |
| `Wal.Reopen` | engine/src/wal.cpp:81-88 | Opening the file of a clean log again at any size that holds it, and replaying it, delivers exactly the payloads appended, numbered from 1, and restores append position and sequence |
| `RingIndex.WrapNext` | engine/include/ring_buffer.hpp:66-71 | Advancing a masked counter gives the masked advanced counter |
| `RingIndex.NextIndex` | engine/include/ring_buffer.hpp:66-71 | The next index is one more, or zero behind the last slot |
| `RingIndex.SlotsDistinct` | engine/include/ring_buffer.hpp:66-71 | Counters less than N apart share a slot only when equal |
| `RingIndex.FullDistance` | engine/include/ring_buffer.hpp:66-68 | The slot behind the newest item is the oldest item's if and only if N - 1 items lie between |
| `RingIndex.SizeIsDistance` | engine/include/ring_buffer.hpp:111-115 | The wrapping 64-bit expression masks to the number of slots from head to tail, around the end if need be |
| `RingBuffer.SPSCRingBuffer.constructor` | engine/include/ring_buffer.hpp:46-51 | A new ring is empty |
| `RingBuffer.SPSCRingBuffer.Push` | engine/include/ring_buffer.hpp:64-72 | Refused exactly when N - 1 items are queued and then without effect; otherwise the item is queued last and the others stay in order |
| `RingBuffer.SPSCRingBuffer.Pop` | engine/include/ring_buffer.hpp:95-102 | Refused exactly when nothing is queued and then without effect; otherwise the oldest item is delivered and the rest stay in order |
| `RingBuffer.SPSCRingBuffer.Empty` | engine/include/ring_buffer.hpp:106-109 | True if and only if nothing is queued |
| `RingBuffer.SPSCRingBuffer.SizeApprox` | engine/include/ring_buffer.hpp:111-115 | The number of queued items, when nothing moves meanwhile |
| `RingBuffer.SPSCRingBuffer.Capacity` | engine/include/ring_buffer.hpp:117-119 | Never exceeded by the number of queued items, and less than the number of slots |
| `RingProtocol.FullTestExact` | engine/include/ring_buffer.hpp:65-68 | With any head the producer may have loaded, the test finds the ring full if and only if N - 1 items were pushed beyond that head |
| `RingProtocol.EmptyTestExact` | engine/include/ring_buffer.hpp:96-98 | With any tail the consumer may have loaded, the test finds the ring empty if and only if everything up to that tail is popped |
| `RingProtocol.WriteTargetFree` | engine/include/ring_buffer.hpp:69 | The slot about to be written holds no unread item and is not the slot the consumer is about to read |
| `RingProtocol.ReadSourceFilled` | engine/include/ring_buffer.hpp:99 | The slot about to be read holds the oldest undelivered item |
| `RingProtocol.StepInv` | engine/include/ring_buffer.hpp:64-102 | Every load, slot access and index store of either thread, with any admissible stale load, keeps the invariant of the protocol |
| `RingProtocol.RunInv` | engine/include/ring_buffer.hpp:64-102 | The invariant holds after every run of steps under every interleaving |
| `RingProtocol.FifoOverRuns` | engine/include/ring_buffer.hpp:64-102 | From the empty ring, in every state of every run: items delivered are a prefix of items accepted, at most N - 1 are in flight, no unread slot is overwritten and no unwritten one read |
| `RingProtocol.StepRefinesQueue` | engine/include/ring_buffer.hpp:64-102 | Publishing a push appends its item to the abstract queue, publishing a pop removes the oldest and delivers it, and every other step leaves the queue alone |
| `RingProtocol.PushAlone` | engine/include/ring_buffer.hpp:64-72 | A push without interference and with the newest head is refused when the queue has N - 1 items and otherwise appends |
| `RingProtocol.PopAlone` | engine/include/ring_buffer.hpp:95-102 | A pop without interference and with the newest tail is refused when the queue is empty and otherwise delivers the oldest item |
| `Codec.Buffer.WriteString` | engine/src/server.cpp:62-67 | Appends the 32-bit little-endian length and the bytes of the string |
| `Codec.Buffer.WriteBytes` | engine/src/server.cpp:70-73 | Appends exactly the bytes given |
| `Codec.StringExact` | engine/src/server.cpp:52-59 | A string and end offset are read at a position if and only if the string is shorter than 2^32, its encoding stands there and ends there |
| `Codec.StringsExact` | engine/src/server.cpp:90-95 | The same for any number of strings in a row |
| `Codec.I64Exact` | engine/src/server.cpp:86-87 | A signed value is read at a position if and only if its eight bytes stand there |
| `WireCodec.PyEncodeTransaction` | gateway/zmq_client.py:67-87 | Type byte, correlation id, amount and six strings in wire order; it fails exactly when the amount is not a signed 64-bit value or a string is too long for its length field |
| `WireCodec.ReadStringAt` | engine/src/server.cpp:52-59 | Returns the string at the offset and the offset behind it |
| `WireCodec.DeserializeRequest` | engine/src/server.cpp:77-98 | Reads correlation id, amount and six strings into their fields, and stops behind the last, whenever they lie inside the message |
| `WireCodec.FieldsExact` | engine/src/server.cpp:77-98 | A request is read at a position if and only if it is encodable and its encoding stands there; the end is the end of that encoding |
| `WireCodec.RequestRoundTrip` | engine/src/server.cpp:77-98 | The engine decodes a request if and only if its encoding stands behind the type byte; of every message the gateway encodes it recovers every field and consumes exactly the message |
| `WireCodec.RequestsPrefixFree` | gateway/zmq_client.py:79-87 | Two encoded requests that agree up to what follows them are the same request |
| `WireCodec.RequestLayout` | gateway/zmq_client.py:79-87 | A request message byte by byte: type 1, correlation id, amount, and the six strings in wire order |
| `WireCodec.SerializeResponse` | engine/src/server.cpp:102-117 | The bytes of a transaction response in wire order |
| `WireCodec.ResponseLayout` | engine/src/server.cpp:102-117 | A response message byte by byte: type 0x81, both ids, status, latency, message |
| `WireCodec.PyReadWritten` | gateway/zmq_client.py:60-65 | Where the engine wrote a string the gateway reads it and the offset behind it |
| `WireCodec.ResponseRoundTrip` | gateway/zmq_client.py:91-112 | The gateway recovers transaction id, status, latency and message of every response the engine writes, whatever follows in the buffer: the status byte reads back as the status sent, and is 0 if and only if that is success |
| `WireCodec.StatusTold` | engine/src/server.cpp:110-111 | Two responses parse to the same status byte if and only if they report the same status |
| `WireCodec.PyEncodeCreateAccount` | gateway/zmq_client.py:114-119 | Fails exactly when the name is too long or the type is not a byte |
| `WireCodec.DeserializeCreateAccount` | engine/src/server.cpp:121-134 | Reads correlation id, name and type into their fields and stops behind the type byte |
| `WireCodec.CreateRoundTrip` | engine/src/server.cpp:121-134 | A create-account request is decoded if and only if its encoding stands behind the type byte; gateway messages are recovered whole |
| `WireCodec.SerializeCreateResponse` | engine/src/server.cpp:138-152 | The bytes of a create-account response in wire order |
| `WireCodec.CreateResponseRoundTrip` | gateway/zmq_client.py:123-137 | The gateway recovers account id, status and message of every create-account response: the status byte reads back as the status sent, and is 0 if and only if that is success |
| `WireCodec.CreateLayout` | engine/src/server.cpp:121-152 | Both messages of an account creation byte by byte: types 2 and 0x82, correlation id, and the fields in wire order |
| `RecordCodec.SerializeForWal` | engine/src/ledger.cpp:155-197 | The payload is transaction id, request fields in order and timestamp |
| `RecordCodec.PayloadExact` | engine/src/ledger.cpp:155-197 | A byte string decodes to a record if and only if it is that record's payload: the payload determines every field |
| `RecordCodec.PayloadLayout` | engine/src/ledger.cpp:155-197 | A log payload byte by byte: transaction id, correlation id, amount, the six strings, and the time |
| `RecordCodec.WriteAccount` | engine/src/server.cpp:194-200 | Appends exactly the record of one account |
| `RecordCodec.SerializeSnapshot` | engine/src/server.cpp:174-203 | Header, flag, totals, count and the records of all accounts in order |
| `RecordCodec.SnapshotReadBack` | engine/src/server.cpp:174-203 | From a snapshot message, followed by anything, correlation id, totals, flag and every account are recovered, for any number of accounts |
| `RecordCodec.SnapshotLayout` | engine/src/server.cpp:174-203 | A snapshot message byte by byte: type 0x84, correlation id, a flag byte of 1 or 0, the three totals, the number of accounts, and the accounts |
| `RecordCodec.SnapshotUnique` | engine/src/server.cpp:174-203 | Two snapshot messages that agree up to what follows them carry the same snapshot for the same request |
| `Accounts.TransferEffect` | engine/src/ledger.cpp:116-125 | A transfer changes the balances of debit and credit account by minus and plus the amount, cancelling when they are the same, and nothing else of any account |
| `Accounts.AcceptedExactly` | engine/src/ledger.cpp:95-110 | A positive amount between existing accounts is accepted if and only if the debit leaves no asset account below zero |
| `Accounts.RefusedExactly` | engine/src/ledger.cpp:78-111 | With covered asset accounts: an amount not positive, a missing account, and a debit that would leave an asset account below zero are refused each with its own status, in that order, and nothing else is refused |
| `Accounts.TransferKeepsCover` | engine/src/ledger.cpp:98-108 | Applying a validated transaction overdraws no asset account |
| `Accounts.SumWithout` | engine/src/ledger.cpp:137-145 | The sum over accounts does not depend on the order in which they are visited |
| `Accounts.SumTransfer` | engine/src/ledger.cpp:116-125 | A transfer moves the sum over any set of accounts by what enters that set minus what leaves it |
| `Accounts.FoldInsert` | engine/src/ledger.cpp:42-48 | An account no logged transaction mentions may be added before or after folding the log |
| `Accounts.FoldSums` | engine/src/ledger.cpp:116-125 | Folding any log over zero balances leaves all balances adding up to zero, and every subset of accounts within the total committed |
| `Residual.SidesAddUp` | engine/src/ledger.cpp:137-145 | Every account is counted on exactly one of the three totals |
| `Residual.ResidueIsTwiceAssets` | engine/src/ledger.cpp:147 | When balances add up to zero, assets minus liabilities minus equity is twice the asset side, so the flag holds if and only if the asset side is empty |
| `Residual.ResidueAfterTransfer` | engine/src/ledger.cpp:131-148 | A transfer within one side leaves the residue alone; across the sides it moves it by exactly twice the amount |
| `Residual.ResidueByKinds` | engine/src/ledger.cpp:131-148 | For each of the 25 pairs of account types, how far a transfer between two accounts moves the residue: nothing within assets and expenses or within the other three, twice the amount up or down between the two groups |
| `Residual.SidesWrittenOut` | engine/src/ledger.cpp:137-145 | Assets and expenses make the first total, liabilities the second, equity and revenue the third |
| `Residual.FlagPreserved` | engine/src/ledger.cpp:127-129 | A valid transfer keeps a passing check if and only if both accounts are on the same side |
| `Residual.FlowIsAssets` | engine/src/ledger.cpp:116-125 | Folded over zero balances, any log leaves on the asset side exactly the amounts credited there minus those debited there |
| `Residual.CommittedBound` | engine/src/ledger.cpp:131-148 | With less than 2^62 committed in total every set of balances adds up to less than 2^62 in magnitude |
| `Residual.TransferInRange` | engine/src/ledger.cpp:116-125 | Below that bound neither update of a transfer, nor the value between them, leaves 64 bits |
| `Residual.ProgressStep` | engine/src/ledger.cpp:137-145 | Visiting one more account, whichever, completes the three running totals by it, and none of them leaves 64 bits |
| `Residual.CheckInvariant` | engine/src/ledger.cpp:131-148 | Visiting the accounts in any order, the loop answers whether the residue over all of them is zero |
| `Residual.GetBalanceSnapshot` | engine/src/ledger.cpp:311-337 | Lists every account exactly once, computes the same three totals as the check in any order, agrees with its flag, and stays in 64 bits |
| `Residual.ListsExactly` | engine/src/ledger.cpp:319-332 | The listing of a snapshot is exactly the accounts of the table, each once and as it stands there |
| `Residual.SnapshotSerializable` | engine/src/server.cpp:184-200 | A snapshot of a table in range fits the integer fields of its message |
| `Residual.ResidueInRange` | engine/src/ledger.cpp:335 | With balances adding up to zero and every subset below 2^62, the subtractions of the final test stay in 64 bits |
| `Ledger.DecimalInjective` | engine/src/ledger.cpp:28 | Different counters print differently |
| `Ledger.AccountIdInjective` | engine/src/ledger.cpp:27-28 | Account ids of different counters differ |
| `Ledger.AccountIdReads` | engine/src/ledger.cpp:27-28 | An account id is "acc_" followed by decimal digits that denote the counter |
| `Ledger.CounterOfId` | engine/src/ledger.cpp:59-68 | The counter can be read back out of a transaction id, whatever the clock |
| `Ledger.ClockOfId` | engine/src/ledger.cpp:59-68 | The first eight bytes of a transaction id give the clock reading back |
| `Ledger.MessageTexts` | engine/src/ledger.cpp:268-283 | Success has no message, and each refusal the text of the source |
| `Ledger.ReplyTells` | engine/src/ledger.cpp:241-283 | A request not answered from the cache is answered with the status validation gave and its text; success if and only if one frame was added, which holds the request, the clocks' readings and the id in the reply; otherwise the id is nil and no account, counter or frame has changed |
| `Ledger.MoneyMoves` | engine/src/ledger.cpp:245-255 | Handling such a request adds the amount to the credited and takes it from the debited balance exactly if the reply is a success, and changes nothing else of any account |
| `Ledger.StartInv` | engine/include/ledger.hpp:103-122 | The state of a new engine satisfies the ledger invariant |
| `LedgerRuns.FreshId` | engine/src/ledger.cpp:26-28 | An id drawn from the counter is none that is in use |
| `LedgerRuns.StepInv` | engine/src/ledger.cpp:213-301 | Every step of the engine thread and of the I/O thread keeps the whole ledger invariant |
| `LedgerRuns.RunInv` | engine/src/ledger.cpp:213-301 | So does every run, under every interleaving of the two threads |
| `LedgerRuns.KeysStep` | engine/src/ledger.cpp:226-288 | Every step keeps this: no two frames carry the same non-empty key, and the key of a frame is cached unless its request is still being answered |
| `LedgerRuns.AnswersStep` | engine/src/ledger.cpp:245-293 | Every step keeps this: each frame has been answered with success, or its answer is under way |
| `LedgerRuns.StepsMakeProcess` | engine/src/ledger.cpp:213-301 | Run without interference, the engine's separate steps on a request are possible and have the effect and reply of handling it in one go, on every path |
| `LedgerTheorems.EverySnapshot` | engine/src/ledger.cpp:311-337 | In every reachable state balances add up to zero, no asset account is negative, the residue is twice the net flow to the asset side of the transactions applied, and so the flag holds if and only if that flow is zero |
| `LedgerTheorems.FundingBreaksEquation` | engine/src/ledger.cpp:127-129 | False promise, with runs from the start: for any two names and any positive amount, creating a revenue and an asset account and funding the second from the first is accepted and leaves a residue of twice the amount |
| `LedgerTheorems.NoOverflow` | engine/src/ledger.cpp:116-148 | In every reachable state with less than 2^62 committed, all sums over accounts, the update about to happen and both subtractions of the accounting check stay in range |
| `LedgerTheorems.ValidWhenApplied` | engine/src/ledger.cpp:245-255 | Whatever the I/O thread did since validation, the transaction about to be applied is still valid and its accounts exist |
| `LedgerTheorems.CreationIsSafe` | engine/src/ledger.cpp:30-49 | In every reachable state names are unique, a drawn account id is unused, and inserting it overwrites no account |
| `LedgerTheorems.TransactionIdsDistinct` | engine/src/ledger.cpp:59-68 | Different frames of any run carry different transaction ids |
| `LedgerTheorems.AcknowledgedOnce` | engine/src/ledger.cpp:226-293 | Every reply carries the correlation id of the request it answers; if it reports success, exactly one frame has its transaction id, and that frame holds this very request or an earlier one under the same non-empty key |
| `LedgerTheorems.CommittedAnswered` | engine/src/ledger.cpp:245-293 | The converse: with the engine thread idle, in every run, each frame has been answered with success, under its transaction id, to the very request it holds |
| `LedgerTheorems.CommittedOnce` | engine/src/ledger.cpp:226-288 | Under every interleaving of the two threads, no two frames of a run carry the same non-empty idempotency key |
| `LedgerTheorems.IoThreadCreatesFirst` | engine/include/ledger.hpp:106-109 | False promise, with an input: two steps of the I/O thread from the start, and none of the engine thread, put any requested account into the table |
| `LedgerTheorems.IoThreadChangesAccounts` | engine/include/ledger.hpp:106-109 | Remark: a step of the I/O thread changes the account table if and only if it inserts an account under a name not taken |
| `LedgerCrash.DecodePayloads` | engine/src/ledger.cpp:155-197 | Decoding the frames of a log gives its records back |
| `LedgerCrash.RecoveryExact` | engine/src/ledger.cpp:245-255 | In a state of the invariant, what replay returns recovers the ledger if and only if it is the durable frames, or those and the one under way |
| `LedgerCrash.CrashRecovery` | engine/src/ledger.cpp:245-255 | At every crash point of every run, for every mixture of storage and memory and any bytes behind the log: replay begins with all durable frames, so no acknowledged transaction is missing; and decoding and folding what it returns gives exactly the balances in memory, or those plus the one pending transaction, if and only if behind the log nothing can be read but that frame |
| `LedgerCrash.LogAlwaysFits` | engine/src/ledger.cpp:250-251 | Every record a run logs fits a frame |
| `LedgerCrash.QuietCrash` | engine/src/wal.cpp:310-356 | With zeros behind the log in storage and memory, recovery from every mixture of the two is complete |
| `LedgerTorn.TornCrash` | engine/src/ledger.cpp:249-251 | In every run and after every number of bytes of the frame under way: replay returns the durable frames and exactly what the torn frame reads as, and recovery is complete if and only if that is nothing or the payload under way |
| `LedgerTorn.TornIsMixed` | engine/src/wal.cpp:291-294 | Every torn file is a mixture of storage before the sync and memory after the copies |
| `LedgerTorn.RecoveryFails` | engine/src/ledger.cpp:249-251 | False promise, with runs from the start: the first append to a new file of any size with room, cut off behind the magic, is replayed as one empty payload and recovery is not complete |
| `Idempotency.StreamEquivalence` | engine/src/ledger.cpp:226-235 | Any stream leaves the same accounts, balances, cache, log, counters and transaction count as the stream without later repeats of each non-empty key, and the count is the number of transactions left |
| `Idempotency.CacheStableOverRun` | engine/src/ledger.cpp:285-288 | What a key answers never changes again, whatever is handled |
| `Idempotency.ReplyIsCached` | engine/src/ledger.cpp:285-293 | The reply to a keyed request is what the cache answers from then on |
| `Idempotency.RepeatAnswered` | engine/src/ledger.cpp:226-235 | After anything in between, a repeated key is answered with the first response under the new correlation id, and changes nothing |
| `Idempotency.ReplyEchoesId` | engine/src/ledger.cpp:263 | Every reply carries the correlation id of its own request |
| `Idempotency.StepsMakeCreate` | engine/src/ledger.cpp:22-53 | Drawing an id and inserting the account, uninterrupted, is possible and is one account creation of a stream |
| `Idempotency.StreamIsRun` | engine/src/ledger.cpp:213-301 | Handling any stream of transactions and creations is a run of the two threads with the same books, so what holds of all runs holds of it |
| `LedgerEngine.LedgerEngine.constructor` | engine/src/ledger.cpp:15-18 | A new engine has no accounts, cache, counters or committed records, whatever log it is given |
| `LedgerEngine.LedgerEngine.CreateAccount` | engine/src/ledger.cpp:22-53 | Adds an account without balance under a fresh id exactly when the name is not taken; the id is drawn and reported either way |
| `LedgerEngine.CreateReplyTells` | engine/src/ledger.cpp:30-52 | A creation reports success if and only if the account is now there under the reported id, with the given name and type and no balance; otherwise nothing changed, the name was taken, and the reply says so |
| `LedgerEngine.LedgerEngine.GenerateUuid` | engine/src/ledger.cpp:59-68 | An id from clock and counter; the counter advances by one |
| `LedgerEngine.LedgerEngine.ValidateTransaction` | engine/src/ledger.cpp:78-111 | The status by amount, existence and cover, in that order |
| `LedgerEngine.LedgerEngine.ApplyTransaction` | engine/src/ledger.cpp:116-125 | The table after the transfer, also when both accounts are the same |
| `LedgerEngine.LedgerEngine.LogRecord` | engine/src/ledger.cpp:249-251 | The record is the newest frame of the log, older frames stay, and the log is in storage |
| `LedgerEngine.LedgerEngine.CommitTransaction` | engine/src/ledger.cpp:245-255 | Counter, log and balances advance together by exactly this transaction |
| `LedgerEngine.LedgerEngine.Respond` | engine/src/ledger.cpp:261-299 | The response is built, cached exactly under a non-empty key, and counted |
| `LedgerEngine.LedgerEngine.HandleRequest` | engine/src/ledger.cpp:226-299 | A hit changes nothing, logs nothing and leaves the metrics window alone; otherwise books, reply and log are those of one processed request, and the window counts it with its latency |
| `LedgerEngine.LedgerEngine.QueueReply` | engine/src/ledger.cpp:290-293 | The reply is queued last, or dropped silently when the queue is full |
| `LedgerEngine.LedgerEngine.TakeRequest` | engine/src/ledger.cpp:217-224 | Takes the oldest request if there is one and changes nothing else |
| `LedgerEngine.LedgerEngine.RunOnce` | engine/src/ledger.cpp:216-300 | One pass: nothing without a request, else the oldest is handled and its reply queued or dropped |
| `LedgerEngine.LedgerEngine.Run` | engine/src/ledger.cpp:213-301 | The loop reads the flag before each pass: as many waiting requests as there are passes before it is cleared are handled in order, with books, reply queue and older frames those of the stream; none is left if and only if the passes number at least the requests waiting, and with the flag cleared beforehand nothing changes |
| `LedgerEngine.QueuedInOrder` | engine/src/ledger.cpp:290-293 | Handling transactions adds to the reply queue the replies to the first of them, as many as there is room for, in order, each with its own correlation id and as the books answered at its turn; the others are dropped |
| `LedgerEngine.RunReplies` | engine/src/ledger.cpp:213-293 | A run of the loop leaves the requests beyond its passes waiting, and in the reply queue, behind the older ones, the replies to the requests taken, in order and as far as there was room, each with its request's correlation id |
| `LedgerEngine.LedgerEngine.Shutdown` | engine/src/ledger.cpp:305-307 | Clears the flag and leaves queues, books and log as they are |
| `LedgerEngine.DrainedExactly` | engine/include/ledger.hpp:48 | Remark: the loop leaves no request if and only if it makes at least as many passes as requests are waiting |
| `LedgerEngine.ShutdownLeavesRequest` | engine/include/ledger.hpp:48 | Remark, the input of the false promise: a request waiting when the flag is already cleared is still waiting afterwards |
| `LedgerEngine.RecoverableAtRest` | engine/src/ledger.cpp:245-255 | Between requests, storage and mapping both hold the whole log, ending in what this engine committed |
| `LedgerEngine.EngineCrash` | engine/src/ledger.cpp:245-255 | Whatever mixture of storage and mapping of an engine a crash leaves, at rest or within an append: replay begins with its log, and recovers the run that committed its records if and only if nothing but the frame under way can be read behind it |
| `LedgerEngine.EngineRestCrash` | engine/src/ledger.cpp:245-255 | For an engine at rest that has handled any stream: replay begins with its log, and gives back exactly its records, folding to exactly its balances, if and only if no frame can be read behind the log |
| `LedgerEngine.LedgerEngine.ResetMetricsWindow` | engine/src/ledger.cpp:365-368 | Zeroes the window counters only |
| `Pipeline.FresherView` | engine/include/ring_buffer.hpp:65-67 | Knowing of later releases than it has loaded never misleads the producer |
| `Pipeline.PipeStepInv` | engine/src/ledger.cpp:213-293 | Every step of either thread on either ring keeps the invariant of the pipeline |
| `Pipeline.PipeRunInv` | engine/src/ledger.cpp:213-293 | So does every run |
| `Pipeline.RepliesInOrder` | engine/src/ledger.cpp:213-293 | While no reply push was refused, the correlation ids delivered are a prefix of those accepted |
| `Pipeline.AccountedStep` | engine/src/ledger.cpp:213-293 | Every step keeps this: each request taken is answered, lost or in hand, and the replies pushed answer some of the requests in order |
| `Pipeline.RepliesInSubsequence` | engine/src/ledger.cpp:213-293 | In every run, replies lost or not: requests taken are as many as replies pushed, lost and in hand, and the ids delivered are those of accepted requests, in the order of acceptance |
| `Pipeline.RoomForReply` | engine/src/ledger.cpp:290-293 | With at most N - 1 accepted requests undelivered, a reply push finds room even with a stale view of the consumer |
| `Pipeline.LostExactly` | engine/src/ledger.cpp:290-293 | A step loses a reply if and only if it is the engine's load of a head beyond which N - 1 replies have been pushed |
| `Pipeline.ReplyLost` | engine/src/ledger.cpp:290-293 | False promise, with runs from the start: for every ring size, N - 1 answered requests whose replies nobody receives and one more lose a reply |
| `Pipeline.NoReplyLost` | engine/src/ledger.cpp:290-293 | In every run so throttled no reply is lost, although the push result is ignored |

## Left out

- Wal.WriteAheadLog.Append: requires a payload of at most 2^32 - 13 bytes and sizes within 64 bits, because beyond them the source's size arithmetic wraps around and the frame cannot be read back.
- Wal.WriteAheadLog.Replay: requires every header met to be in range, because the source reads outside the mapping when the 32-bit frame size wraps around.
- WireCodec.DeserializeRequest: requires the fields to lie inside the message, because the source does not compare its offset with the message size and a read beyond it has no defined result.
- WireCodec.DeserializeCreateAccount: the same, and account type bytes outside the five are not modelled.
- Residual.CheckInvariant: requires sums below 2^62, because signed overflow has no defined result in the source; `NoOverflow` shows when the bound holds.
- LedgerEngine.LedgerEngine.Run: no request arrives and no account is created between its passes; `LedgerRuns` and `Pipeline` have that interleaving step by step.
- Idempotency.StreamEquivalence: is about requests handled one after the other with account creations between them, not inside them; that a key is committed once under any interleaving is `CommittedOnce`.
- LedgerTorn.TornCrash: is about the first bytes of a frame behind a clean log; other mixtures, where later bytes arrived before earlier ones, and logs with old bytes behind them are covered by the condition on the bytes there in `CrashRecovery`.
- Steps under the account lock, and the reply, cache and counter updates of one answer, are single steps of `Ledger.Machine`; the source's mutex and its order among the last three are not modelled.
- A slot that was popped holds a marker; what a moved-from string contains is not modelled.
- Failures of `open`, `ftruncate`, `mmap` and `msync`, which throw or are ignored; the Windows variant; `flush_async`, which only hints.
- ZeroMQ sockets, polling and reply routing in `io_loop`; the immediate error reply when the request queue is full; the two maps of pending identities there are different objects, so no routing property holds.
- The gateway's `_send_and_wait` and `_receiver_loop`, and its parsing of metrics and balance replies, which starts at a byte where the engine writes the correlation id.
- UTF-8 conversion in the gateway: text is already bytes.
- Floating-point metrics, and `get_metrics_sample` beyond the check it calls.
- State recovery at start-up, which the source leaves as a stub.
- Sagas, payment webhooks, benchmarks, HTTP routes, the dashboard.
