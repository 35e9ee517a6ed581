# Aether-Stream: queues, log and persistent broker, verified

Aether-Stream moves messages from one producer thread to one consumer thread through a lock-free ring,
optionally writing each message to a memory-mapped log first.  This project models that path in Dafny
and proves what it promises.

* **Ring** (`Words`, `RingCore`, `RingAlone`, `SpscProtocol`, `SpscRingBuffer`).  `try_emplace` and
  `try_pop` are cut into their atomic steps and interleaved in every way.  An acquire load may return
  any store that is not older than one its thread has already read (section 31.4 of ISO/IEC
  14882:2020); happens-before is tracked with a clock per thread, so "free of data races" is a
  statement about the orderings the code asks for.  The class performs the calls uninterrupted and is
  tied to runs of the protocol.
* **Zero-copy queue** (`ZeroCopyProtocol`, `ZeroCopyAlone`, `ZeroCopySpsc`).  The same core with any
  number of reservation objects that may be reserved, constructed, moved, cancelled and committed; the
  classes are tied to runs of the protocol.
* **Checksum** (`Checksum`, `Polynomial`).  The bit loop computes the division that section 3.2.9 of
  IEEE 802.3 and section 8 of RFC 1952 define, with polynomials as sets of exponents.
* **Log** (`Record`, `WalReader`, `WalLog`, `WalDamage`, `WalWriter`, `WalResidue`).  Byte layout,
  scanning, appending, truncation, damage, and what failed flushes leave behind.
* **Brokers** (`Brokers`, `PersistentBroker`, `BrokerAnswers`, `PersistentProtocol`, `PersistentAlone`).  Single and batch calls with their
  counters; the persistent broker sequentially with every refusal, and concurrently with its consumer,
  the log being written one byte per step, in any order; the class is tied to runs of
  that protocol.

Words are natural numbers below 2^32 or 2^64 with the bit operations defined on their binary digits;
wrap-around is explicit.

Four behaviours go beyond what the documentation says; the model follows the code.

* `docs/wal-format.md` requires zero reserved bytes; the reader does not look at them
  (`WalDamage.ReservedBytesAreIgnored`).
* It describes an incomplete payload as the end of the file; a damaged payload size that reaches beyond
  the file takes the same path and hides the records behind it (`WalDamage.OversizedLengthHidesTheRest`).
* It says that unused bytes stay zero; a failed flush leaves one whole record there, which a replay
  shows until the next completed append (`PersistentProtocol.LeftOverExactly`).  If that append is
  shorter, stale bytes remain behind it, and what they hold decides whether a replay still ends
  cleanly, reports corruption or shows a record that was never appended
  (`WalResidue.ReplayAfterAppends`, `StalePayloadIsReplayed`).
* `docs/metrics.md` counts a consume that finds the queue empty as a failure; a partly filled batch,
  which ends on such an attempt, does not count it (`Brokers.ConsumeBatchVersusEach`).

## Model

| member | source | states |
|---|---|---|
| `Words.PowerOfTwoTest` | include/aether/spsc_ring_buffer.hpp:21-22 | The masking test accepts a number of at least 2 exactly when it is a power of two. |
| `Words.SlotOfCounter` | include/aether/spsc_ring_buffer.hpp:119-123 | Masking the wrapped 64-bit counter selects the slot "number of pushes modulo capacity", for every count, also beyond 2^64. |
| `Words.WrappingDistance` | include/aether/spsc_ring_buffer.hpp:108-112 | The difference of two wrapped counters is the true distance whenever that is below 2^64. |
| `Words.SlotsDistinct` | include/aether/spsc_ring_buffer.hpp:119-123 | Counts less than a capacity apart never share a slot. |
| `RingCore.LoadTailKeepsInv` | include/aether/spsc_ring_buffer.hpp:54-57 | An acquire load of any store of `tail_` not older than one already read keeps the ring invariant. |
| `RingCore.BuildKeepsInv` | include/aether/spsc_ring_buffer.hpp:63 | Constructing at the head slot, once the tail seen leaves room, keeps slot contents, lifetimes, counters and happens-before clocks in order. |
| `RingCore.UnbuildKeepsInv` | include/aether/zero_copy_spsc.hpp:50-53 | Destroying the object under construction keeps the ring invariant. |
| `RingCore.PublishKeepsInv` | include/aether/spsc_ring_buffer.hpp:65-67 | The release store of `head_` keeps the ring invariant, also when the counter wraps. |
| `RingCore.ConsumeKeepsInv` | include/aether/spsc_ring_buffer.hpp:71-92 | Each atomic step of a pop keeps the ring invariant. |
| `RingCore.ProducerSlot` | include/aether/spsc_ring_buffer.hpp:57-63 | The head slot is raw (or holds the object under construction), free of data races for the producer, and not the slot the consumer is in. |
| `RingCore.ConsumerIsSafe` | include/aether/spsc_ring_buffer.hpp:71-92 | The consumer only moves from a live object and only destroys the object it moved from, never racing with the producer. |
| `RingCore.RaceFreeExactly` | include/aether/spsc_ring_buffer.hpp:49-92 | The tests of the code are exactly what rules out data races: the producer may touch a free slot if and only if it has read the store that freed it, the consumer a published one if and only if it has read the store that published it. |
| `RingCore.EmptyTest` | include/aether/spsc_ring_buffer.hpp:74-82 | Comparing wrapped counters detects emptiness relative to the store that was read, exactly. |
| `RingCore.FullTest` | include/aether/spsc_ring_buffer.hpp:57-61 | The wrapped difference reaches the capacity exactly when `cap` values lie between the head and the tail that was read. |
| `RingCore.ConsumerSize` | include/aether/spsc_ring_buffer.hpp:108-112 | Read by the consumer, the size never exceeds the number of queued values. |
| `RingCore.WalkFindsLive` | include/aether/spsc_ring_buffer.hpp:125-133 | Walking the slots from tail to head meets exactly the published objects, in order. |
| `RingCore.Fifo` | include/aether/spsc_ring_buffer.hpp:49-92 | Values pushed = values popped, then the one being popped, then the live slots from tail to head; at most a capacity of them. |
| `RingCore.ConsumerNeverBlocks` | include/aether/spsc_ring_buffer.hpp:71-92 | In every state the consumer's next step is possible and brings its call closer to the end. |
| `SpscProtocol.StepKeepsInv` | include/aether/spsc_ring_buffer.hpp:49-112 | Every atomic step of either thread keeps the protocol invariant. |
| `SpscProtocol.RunKeepsInv` | include/aether/spsc_ring_buffer.hpp:49-112 | The invariant holds after every interleaving. |
| `SpscProtocol.EveryRunIsFifo` | include/aether/spsc_ring_buffer.hpp:49-92 | In every interleaving with every permitted stale read: FIFO order without loss or duplication, no overflow, every slot access legal and race free, the two threads in different slots. |
| `SpscProtocol.RunKeepsCapacity` | include/aether/spsc_ring_buffer.hpp:114-119 | No run changes the capacity. |
| `SpscProtocol.StepRefinesFifo` | include/aether/spsc_ring_buffer.hpp:49-92 | Each step refines a bounded queue: the head store enqueues the argument of the call, the tail store dequeues the front, nothing else changes it. |
| `SpscProtocol.PushOutcome` | include/aether/spsc_ring_buffer.hpp:57-61 | A push returns false exactly when `cap` values lie between the head and the tail store it read, and is otherwise still under way; with the newest store, exactly when the queue is full. |
| `SpscProtocol.PushReturns` | include/aether/spsc_ring_buffer.hpp:49-69 | Over every run from its first step to its return: a push returned true and pushed exactly its argument, or returned false and pushed nothing. |
| `SpscProtocol.PopOutcome` | include/aether/spsc_ring_buffer.hpp:78-82 | A pop returns false exactly when the head store it read equals its position; with the newest store, exactly when the queue is empty. |
| `SpscProtocol.SizeIsBounded` | include/aether/spsc_ring_buffer.hpp:108-112 | `size_approx` is the distance to the store it read; it stays within the capacity for either thread, never under-reports to the producer nor over-reports to the consumer. |
| `SpscProtocol.NeitherThreadBlocks` | include/aether/spsc_ring_buffer.hpp:49-92 | Whatever store a load returns, each thread's next step is possible and brings its call closer to the end. |
| `SpscProtocol.PushIsWaitFree` | include/aether/spsc_ring_buffer.hpp:49-69 | However consumer steps interleave, a push that has begun returns within three more steps of its own. |
| `SpscProtocol.PopIsWaitFree` | include/aether/spsc_ring_buffer.hpp:71-92 | However producer steps interleave, a pop that has begun returns within four more steps of its own. |
| `SpscRingBuffer.SpscRingBuffer.constructor` | include/aether/spsc_ring_buffer.hpp:26 | A new buffer of the given capacity is empty. |
| `SpscRingBuffer.SpscRingBuffer.ContentsAreInTheSlots` | include/aether/spsc_ring_buffer.hpp:119-123 | The k-th queued value is the live object in the slot k behind the tail. |
| `SpscRingBuffer.SpscRingBuffer.SizeApprox` | include/aether/spsc_ring_buffer.hpp:108-112 | With no call under way, the exact number of queued values. |
| `SpscRingBuffer.SpscRingBuffer.Full` | include/aether/spsc_ring_buffer.hpp:100-102 | True exactly when the queue holds a capacity of values. |
| `SpscRingBuffer.SpscRingBuffer.IsEmpty` | include/aether/spsc_ring_buffer.hpp:94-98 | True exactly when the queue holds nothing. |
| `SpscRingBuffer.SpscRingBuffer.TryEmplace` | include/aether/spsc_ring_buffer.hpp:49-69 | Succeeds exactly when there is room and then appends the value; the whole call is a run of the protocol. |
| `SpscRingBuffer.SpscRingBuffer.TryPop` | include/aether/spsc_ring_buffer.hpp:71-92 | Succeeds exactly when something is queued, returns and removes the front; the whole call is a run of the protocol. |
| `SpscRingBuffer.SpscRingBuffer.Destroy` | include/aether/spsc_ring_buffer.hpp:32-34 | Destroys exactly the queued objects, so constructions and destructions balance over the buffer's life. |
| `SpscRingBuffer.PushAlone` | include/aether/spsc_ring_buffer.hpp:49-69 | An uninterrupted `try_emplace` is a run of the protocol that appends, or one that changes nothing when full. |
| `RingAlone.PopAlone` | include/aether/spsc_ring_buffer.hpp:71-92 | An uninterrupted `try_pop` is a run of the consumer's steps that removes the front, or one that changes nothing when empty. |
| `RingAlone.DestroyRemaining` | include/aether/spsc_ring_buffer.hpp:125-133 | The loop over wrapped counters destroys each live object once and leaves only raw slots. |
| `ZeroCopyProtocol.StepKeepsInv` | include/aether/zero_copy_spsc.hpp:24-162 | Every atomic step on the queue or on any reservation object keeps the protocol invariant. |
| `ZeroCopyProtocol.RunKeepsInv` | include/aether/zero_copy_spsc.hpp:24-162 | The invariant holds after every interleaving. |
| `ZeroCopyProtocol.MoveKeepsInv` | include/aether/zero_copy_spsc.hpp:101-109 | Moving a reservation into an empty one keeps the invariant: the right to the slot moves with it. |
| `ZeroCopyProtocol.BeginCancelKeepsInv` | include/aether/zero_copy_spsc.hpp:83-90 | Cancelling, also as the first half of a move assignment, destroys the object if there is one and keeps the invariant. |
| `ZeroCopyProtocol.EveryRunKeepsReservationsApart` | include/aether/zero_copy_spsc.hpp:24-162 | In every run at most one reservation is live; it stands on a slot out of the consumer's reach, raw exactly when nothing is constructed, so objects are constructed only in raw storage; the consumer sees only committed values, in order, at most the initial capacity of them. |
| `ZeroCopyProtocol.LiveIsOutOfReach` | include/aether/zero_copy_spsc.hpp:46-57 | A live reservation's slot holds no committed value, is not the consumer's, is free of races, and is raw exactly when nothing is constructed, in particular when an object is about to be. |
| `ZeroCopyProtocol.RunKeepsCapacity` | include/aether/zero_copy_spsc.hpp:18-20 | No run changes the capacity. |
| `ZeroCopyProtocol.StepRefinesFifo` | include/aether/zero_copy_spsc.hpp:46-162 | `commit` enqueues the value constructed last, a consume dequeues the front, nothing else changes the queue. |
| `ZeroCopyProtocol.ObjectsBalance` | include/aether/zero_copy_spsc.hpp:46-94 | With no reservation live and the consumer idle, the objects not yet destroyed are exactly the queued ones. |
| `ZeroCopyProtocol.ProducerNeverBlocks` | include/aether/zero_copy_spsc.hpp:46-144 | `construct` on a live reservation and `commit` and `cancel` on any are always possible, and each operation once begun goes on to its end. |
| `ZeroCopyAlone.ReserveAlone` | include/aether/zero_copy_spsc.hpp:127-144 | An uninterrupted `try_reserve` is a run that hands out the head slot, or one that changes nothing when a reservation is live or the queue is full. |
| `ZeroCopyAlone.ConstructAlone` | include/aether/zero_copy_spsc.hpp:46-57 | An uninterrupted `construct` is a run that leaves the value in the reserved slot. |
| `ZeroCopyAlone.CommitAlone` | include/aether/zero_copy_spsc.hpp:69-81 | An uninterrupted `commit` is a run that appends the constructed value, or one that changes nothing. |
| `ZeroCopyAlone.CancelAlone` | include/aether/zero_copy_spsc.hpp:83-94 | An uninterrupted `cancel` is a run that destroys what was constructed and frees the queue for the next reservation. |
| `ZeroCopyAlone.MoveAlone` | include/aether/zero_copy_spsc.hpp:101-109 | A move is a run that hands the reservation on. |
| `ZeroCopyAlone.ConsumeAlone` | include/aether/zero_copy_spsc.hpp:146-162 | An uninterrupted `try_consume` is a run that removes the front, or one that changes nothing when empty. |
| `ZeroCopySpsc.ZeroCopySpsc.constructor` | include/aether/zero_copy_spsc.hpp:117 | A new queue is empty and has no reservation. |
| `ZeroCopySpsc.ZeroCopySpsc.TryReserve` | include/aether/zero_copy_spsc.hpp:127-144 | Refuses exactly when a reservation is live or the queue is full; otherwise hands out a fresh one; the contents do not change; the call is a run of the protocol. |
| `ZeroCopySpsc.ZeroCopySpsc.TryConsume` | include/aether/zero_copy_spsc.hpp:146-162 | Takes the front exactly when there is one, and leaves a live reservation untouched; the call is a run of the protocol. |
| `ZeroCopySpsc.ZeroCopySpsc.Destroy` | include/aether/zero_copy_spsc.hpp:189-196 | Destroys exactly the committed objects. |
| `ZeroCopySpsc.Reservation.Construct` | include/aether/zero_copy_spsc.hpp:46-57 | Leaves the value in the reserved slot, replacing an earlier one, invisible to the queue's contents; the call is a run of the protocol. |
| `ZeroCopySpsc.Reservation.Commit` | include/aether/zero_copy_spsc.hpp:69-81 | Succeeds exactly on a live reservation with an object, appends that object and empties the reservation; otherwise changes nothing; the call is a run of the protocol. |
| `ZeroCopySpsc.Reservation.Cancel` | include/aether/zero_copy_spsc.hpp:83-94 | Destroys exactly what was constructed, gives the slot back, leaves the contents alone; the call is a run of the protocol. |
| `ZeroCopySpsc.Reservation.MoveFrom` | include/aether/zero_copy_spsc.hpp:101-109 | The target takes over the reservation and its object; the other is left empty; the call is a run of the protocol. |
| `ZeroCopySpsc.Reservation.MoveAssign` | include/aether/zero_copy_spsc.hpp:34-40 | Gives up its own reservation, destroying exactly what was constructed, then takes over the other; self-assignment does nothing; each half is a run of the protocol of its queue. |
| `Checksum.MaskSelects` | src/wal/checksum.cpp:13-14 | Negating the low bit gives the all-ones or all-zeros mask that selects the polynomial. |
| `Checksum.UpdateByte` | src/wal/checksum.cpp:11-15 | The inner loop of eight shifts computes the byte step. |
| `Checksum.Update` | src/wal/checksum.cpp:10-16 | The loop computes the register after any bytes from any start. |
| `Checksum.ComputeCrc32` | src/wal/checksum.cpp:8-18 | The loops compute the CRC. |
| `Checksum.FeedConcat` | src/wal/checksum.cpp:20-40 | Feeding a concatenation is feeding the parts one after the other. |
| `Checksum.ShiftLinear` | src/wal/checksum.cpp:13-14 | One shift of the register is linear over exclusive or. |
| `Checksum.FeedInjective` | src/wal/checksum.cpp:8-18 | Different registers stay different whatever follows. |
| `Checksum.FeedIsAbsorb` | src/wal/checksum.cpp:8-18 | Feeding bytes is feeding their bits one at a time, lowest first: the loop refines the bit-serial register. |
| `Checksum.AbsorbLinear` | src/wal/checksum.cpp:8-18 | The register after any bits is linear over exclusive or, in start and bits together. |
| `Checksum.FeedIsShifts` | src/wal/checksum.cpp:11-15 | Bytes that stand for a 32-bit word, up to four always do, enter the register at once before the shifts. |
| `Checksum.BurstChangesCrc` | src/wal/checksum.cpp:8-18 | Any change confined to 32 consecutive bits, however they fall on the bytes and whatever surrounds them, changes the CRC. |
| `Checksum.ShortChangeIsBurst` | src/wal/checksum.cpp:8-18 | Every change of up to four bytes is such a burst. |
| `Polynomial.ShiftMultiplies` | src/wal/checksum.cpp:13-14 | One shift multiplies the represented remainder by x. |
| `Polynomial.GeneratorBits` | src/wal/checksum.cpp:14 | The constant is the bit-reflected generator polynomial of section 3.2.9 of IEEE 802.3. |
| `Polynomial.FeedDivides` | src/wal/checksum.cpp:8-18 | For any start and any bytes the register is the remainder of the dividend they form. |
| `Polynomial.RemainderIsUnique` | src/wal/checksum.cpp:8-18 | A division by a polynomial of degree 32 has one remainder. |
| `Polynomial.CrcIsRemainder` | src/wal/checksum.cpp:8-18 | `crc32` is the complement of the remainder of the message times x^32, with ones added in front, on division by the IEEE generator. |
| `Polynomial.CrcIsDetermined` | src/wal/checksum.cpp:8-18 | No other 32-bit number stands for that polynomial. |
| `Polynomial.RemainderExists` | src/wal/checksum.cpp:8-18 | Every message has such a remainder. |
| `Record.FromLEofLE` | include/aether/wal/record.hpp:38-80 | Reading back a little-endian integer gives the integer. |
| `Record.LEofFromLE` | include/aether/wal/record.hpp:38-80 | Writing back bytes read as an integer gives the bytes. |
| `Record.WriteLE` | include/aether/wal/record.hpp:38-56 | The shifting loop writes the little-endian bytes and touches no others. |
| `Record.ReadLE` | include/aether/wal/record.hpp:58-80 | The shifting loop reads the little-endian value. |
| `Record.SerializeHeader` | include/aether/wal/record.hpp:84-97 | The field writes produce the 40-byte layout with zero reserved bytes. |
| `Record.DeserializeHeader` | include/aether/wal/record.hpp:99-115 | Refuses fewer than 40 bytes; otherwise reads every field of the layout. |
| `Record.HeaderLayout` | include/aether/wal/record.hpp:84-97 | The byte position of every field, and zero reserved bytes. |
| `Record.HeaderRoundTrip` | include/aether/wal/record.hpp:84-115 | Every header is read back from its bytes, whatever follows them. |
| `Record.BytesRoundTrip` | include/aether/wal/record.hpp:84-115 | Writing back a header that was read reproduces its bytes except the reserved ones, which become zero. |
| `Record.ComputeRecordChecksum` | src/wal/checksum.cpp:20-40 | The CRC over the header with its checksum field zeroed, then the payload. |
| `Record.ValidateRecordChecksum` | src/wal/checksum.cpp:42-45 | True exactly when the stored checksum is the computed one. |
| `Record.IsZeroFilled` | include/aether/wal/record.hpp:122-129 | True exactly when every byte is zero. |
| `WalReader.FoundFits` | src/wal/wal_reader.cpp:26-87 | On any bytes, a record found lies inside the file and is at least a header long. |
| `WalReader.ReplayIsBounded` | include/aether/wal/wal_reader.hpp:34-50 | On any bytes, a replay shows at most one record per 40 bytes, extending what it has shown. |
| `WalReader.WalReader.constructor` | src/wal/wal_reader.cpp:16 | A reader starts at offset zero with nothing read. |
| `WalReader.WalReader.Closed` | include/aether/wal/wal_reader.hpp:18 | A default-constructed reader has no file, so its calls are refused. |
| `WalReader.WalReader.Next` | src/wal/wal_reader.cpp:26-87 | Reports what lies at the offset; a failure changes nothing, a record advances by exactly its size. |
| `WalReader.WalReader.Reset` | src/wal/wal_reader.cpp:89-96 | Starts over, or refuses on a closed reader. |
| `WalReader.WalReader.Run` | include/aether/wal/wal_reader.hpp:34-50 | The loop shows the visitor exactly the specified records and returns the specified status. |
| `WalLog.HeaderReads` | src/wal/wal_writer.cpp:49-106 | A written record's header is read back, whatever follows. |
| `WalLog.RecordIsFound` | src/wal/wal_reader.cpp:26-87 | A written record is found wherever it lies, whatever surrounds it. |
| `WalLog.ReplayReachesEnd` | include/aether/wal/wal_reader.hpp:34-50 | Whatever bytes follow a log, a replay first visits all of it. |
| `WalLog.ReplayRejected` | include/aether/wal/wal_reader.hpp:34-50 | At the first record that the visitor does not answer with ok, the replay shows nothing further and returns that answer, whatever lies behind. |
| `WalLog.ZeroTailStops` | src/wal/wal_reader.cpp:26-87 | A zero tail of any length is a clean end. |
| `WalLog.LogRoundTrip` | include/aether/wal/wal_reader.hpp:34-50 | A log and any zero tail replay as exactly the entries, at contiguous offsets, with status ok. |
| `WalLog.TornRecordStops` | src/wal/wal_reader.cpp:26-87 | A record cut short at the end of the file is a clean end. |
| `WalLog.TruncatedLog` | src/wal/wal_reader.cpp:26-87 | A log cut at any byte replays, with status ok, as exactly the records that lie wholly before the cut. |
| `WalDamage.ReaderCovers` | src/wal/checksum.cpp:20-45 | The reader checks the CRC of all bytes except the reserved ones and the checksum itself. |
| `WalDamage.WriterCovers` | src/wal/wal_writer.cpp:49-106 | The writer stores the CRC of exactly those bytes. |
| `WalDamage.TailVerdict` | src/wal/wal_reader.cpp:26-87 | The exact verdict of the reader on any bytes whatever: clean end, record or corrupted record. |
| `WalDamage.ReplayVerdict` | include/aether/wal/wal_reader.hpp:34-50 | A log followed by any bytes whatever: the replay ends cleanly behind the log, reports corruption there, or shows more, each exactly when the bytes say so. |
| `WalDamage.DamageVerdict` | src/wal/wal_reader.cpp:26-87 | Damage that spares bytes 0 to 11 is accepted exactly when the stored checksum still is the CRC of the covered bytes, and is a corrupted record otherwise. |
| `WalDamage.BodyBurst` | src/wal/wal_reader.cpp:26-87 | At most 32 consecutive changed bits of sequence, timestamp, flags or payload are reported. |
| `WalDamage.ChecksumBurst` | src/wal/wal_reader.cpp:26-87 | A changed stored checksum is reported. |
| `WalDamage.ShapeBurst` | include/aether/wal/record.hpp:131-145 | A changed magic, version or header size is reported and not taken for a zero tail. |
| `WalDamage.BurstIsReported` | include/aether/wal/wal_reader.hpp:34-50 | Anywhere in a log, such a change makes the replay visit exactly the records before it and return corrupted record. |
| `WalDamage.ByteBurst` | src/wal/wal_reader.cpp:26-87 | Every change of one to four consecutive bytes is such a burst. |
| `WalDamage.ReservedBytesAreIgnored` | include/aether/wal/record.hpp:99-115 | Any change of the reserved bytes goes unnoticed. |
| `WalDamage.LengthVerdict` | src/wal/wal_reader.cpp:26-87 | The exact verdict on any payload size put in place of the true one: clean end beyond the file, otherwise accepted exactly when the stored checksum is the CRC of the bytes it then covers, else corrupted. |
| `WalDamage.OversizedLengthHidesTheRest` | include/aether/wal/wal_reader.hpp:34-50 | Anywhere in a log, a changed payload size makes the replay end with status ok after the records before it exactly when it reaches beyond the file, and report corruption there exactly when it fits and the CRC does not. |
| `WalWriter.Create` | src/wal/wal_writer.cpp:21-47 | Succeeds exactly with a path, at least 40 bytes and a successful mapping. |
| `WalWriter.CreateExactly` | src/wal/wal_writer.cpp:21-47 | The exact status for every path, size and mapping, and the writer made: offset, number and count zero, a file of zeros of that size, flushing as asked. |
| `WalWriter.WalWriter.Open` | src/wal/wal_writer.cpp:21-47 | A successful creation replaces the writer; a failed one leaves it alone. |
| `WalWriter.WalWriter.Append` | src/wal/wal_writer.cpp:49-106 | The sequence of copies and field updates yields the specified status and new state, for every refusal and a failing flush too. |
| `WalWriter.AppendExactly` | src/wal/wal_writer.cpp:49-106 | The exact status of an append from the writer, the message and the space left; a refused one changes nothing. |
| `WalWriter.AppendHolds` | src/wal/wal_writer.cpp:49-106 | A successful append puts one numbered record behind the log, an unsuccessful one leaves the log as it is. |
| `WalWriter.EverySequenceHolds` | src/wal/wal_writer.cpp:49-106 | After any sequence of appends with any failures the file begins with exactly the accepted messages, consecutively numbered. |
| `WalWriter.ReplayStartsWithAccepted` | include/aether/wal/wal_reader.hpp:34-50 | Whatever failed on the way, a replay first visits every accepted message, in order. |
| `WalResidue.EverySequenceLeaves` | src/wal/wal_writer.cpp:49-106 | After any appends of any lengths with any failures, the whole file byte for byte: the accepted records, the residue of failed flushes, zeros. |
| `WalResidue.WriterRoundTrip` | src/wal/wal_writer.cpp:21-106 | Create a file of any size, append any messages: a replay visits exactly the accepted ones, byte for byte, and returns ok. |
| `WalResidue.OkCallsExactly` | src/wal/wal_writer.cpp:49-106 | Which calls the next row speaks of: in order, those that returned ok. |
| `WalResidue.AcceptedFields` | src/wal/wal_writer.cpp:78-85 | Each accepted entry has the payload and flags of its message, its timestamp or else the clock, and the next number. |
| `WalResidue.WrittenIsShown` | src/wal/wal_writer.cpp:49-106 | Create, append anything with any failures, replay: record i shows payload, flags and timestamp (or else clock) of the i-th call that returned ok, numbered i, at the sum of the sizes before it; and if no flush failed there is nothing else and the status is ok. |
| `WalResidue.ReplayAfterAppends` | src/wal/wal_writer.cpp:49-106 | Whatever was appended and failed, the exact outcome of a replay: the accepted records and the one of a last failed flush with status ok, if and only if the stale bytes and the zeros behind them read as a clean end; corrupted there, or further records shown, likewise if and only if. |
| `WalResidue.FileAfterAppends` | src/wal/wal_writer.cpp:49-106 | The whole file: those records, the stale bytes, and zeros up to its size. |
| `WalResidue.StaleLengthExactly` | src/wal/wal_writer.cpp:49-106 | The exact number of stale bytes, from the lengths of the records alone. |
| `WalResidue.CoveredLeavesNothingStale` | src/wal/wal_writer.cpp:49-106 | In particular none, if each record written right after a failed flush is at least as long as the failed one. |
| `WalResidue.RoundTripWithFailures` | src/wal/wal_writer.cpp:49-106 | In that case the replay shows the accepted records and the left-over one, and returns ok. |
| `WalResidue.PayloadDecides` | src/wal/wal_writer.cpp:49-106 | A failed record followed by an accepted empty one: its payload is what lies behind the log, and decides between the three outcomes, each if and only if. |
| `WalResidue.ShorterRecordLeavesJunk` | src/wal/wal_writer.cpp:49-106 | Such a payload, not beginning like a record, makes the replay return corrupted record. |
| `WalResidue.StalePayloadIsReplayed` | src/wal/wal_writer.cpp:49-106 | Such a payload that is itself a record is shown, with status ok, although it was never appended. |
| `WalResidue.ZeroPayloadIsHarmless` | src/wal/wal_writer.cpp:49-106 | Such a payload of zeros is harmless although nothing covered it. |
| `PersistentProtocol.FinishIsAppend` | src/wal/wal_writer.cpp:49-106 | Writing a record one byte at a time, in any order, ends in the state that `append` specifies. |
| `PersistentProtocol.StepKeepsInv` | include/aether/persistent_broker.hpp:105-177 | Every step of publish and of the concurrent consumer keeps queue, log and counters in agreement. |
| `PersistentProtocol.RunKeepsInv` | include/aether/persistent_broker.hpp:105-177 | That agreement holds after every interleaving. |
| `PersistentProtocol.LogQueueAndConsumerAgree` | include/aether/persistent_broker.hpp:105-132 | In every run the logged values are the consumed ones, then the queued ones, then at most one not yet queued; the push after an append never fails. |
| `PersistentProtocol.ReplayShowsEverything` | include/aether/persistent_broker.hpp:105-132 | Between appends a replay shows, with status ok, the consumed, queued and in-flight values, and one more, carrying the sequence number to be used next, exactly when flushing is on and the last record written had its flush fail. |
| `PersistentProtocol.LeftOverExactly` | src/wal/wal_writer.cpp:94-99 | A failed flush leaves a record behind the log, and the next completed append removes it. |
| `PersistentProtocol.FailedFlushIsReplayed` | include/aether/persistent_broker.hpp:105-132 | For every value there is a run whose publish returns an I/O error and queues nothing, and whose replay shows the value. |
| `PersistentProtocol.CompletedAppendsSurvive` | src/wal/wal_writer.cpp:49-106 | In every state, also halfway through copying a record in any byte order, a replay first visits every record whose append completed. |
| `PersistentProtocol.LogAccounting` | include/aether/persistent_broker.hpp:105-132 | Between publishes: bytes written = offset = records times record size; published = records written = next sequence. |
| `PersistentProtocol.CheckOutcome` | include/aether/persistent_broker.hpp:110-113 | A publish returns full exactly when a capacity of values lies between the head and the tail store its test read, and otherwise goes on to the log. |
| `PersistentProtocol.OutOfSpaceExactly` | src/wal/wal_writer.cpp:70-73 | A publish that found room is refused for lack of space exactly when the file holds as many records as fit. |
| `PersistentProtocol.PublishNeverBlocks` | include/aether/persistent_broker.hpp:105-132 | A publish's next step is always possible, each byte write inside the file and in any order, and brings it closer to its end. |
| `Brokers.QueueConfigStatus` | src/broker.cpp:18-29 | Accepts exactly the configuration whose capacity is the template's. |
| `Brokers.BatchBroker.constructor` | include/aether/batch_broker.hpp:27-28 | An empty broker whose status is the verdict on its configuration. |
| `Brokers.BatchBroker.TryPublish` | include/aether/batch_broker.hpp:51-65 | Matches the one-value specification: status, contents and counters, for every refusal. |
| `Brokers.BatchBroker.TryConsume` | include/aether/batch_broker.hpp:82-95 | Matches the one-value specification for consuming. |
| `Brokers.BatchBroker.TryPublishBatch` | include/aether/batch_broker.hpp:97-118 | Leaves queue and counters exactly as single publishes up to the first failure. |
| `Brokers.BatchBroker.TryConsumeBatch` | include/aether/batch_broker.hpp:120-143 | Takes a prefix of the queue, and counts a failure only if it took nothing. |
| `Brokers.BatchFillsFreeSlots` | include/aether/batch_broker.hpp:97-118 | A batch publishes the smaller of its length and the free slots, in order, with one failure counted if it was cut short. |
| `Brokers.ConsumeEachTakes` | include/aether/batch_broker.hpp:82-95 | Repeated single consumes take the smaller of the room and the contents, and count one failure if they run dry. |
| `Brokers.ConsumeBatchVersusEach` | include/aether/batch_broker.hpp:120-143 | A batch takes what repeated calls take; it leaves the same counters exactly when it is not partly filled. |
| `PersistentBroker.PersistentBroker.constructor` | include/aether/persistent_broker.hpp:284 | A broker that has not been opened refuses with invalid argument. |
| `PersistentBroker.PersistentBroker.Open` | include/aether/persistent_broker.hpp:49-84 | Checks in the source's order; any refusal becomes the open status, success installs the writer. |
| `PersistentBroker.PersistentBroker.TryPublish` | include/aether/persistent_broker.hpp:105-132 | Matches the specification: refusals, then the log, then the queue, with all counters. |
| `PersistentBroker.PersistentBroker.AppendToWal` | include/aether/persistent_broker.hpp:105-132 | Appends the value's bytes and counts the record and its bytes, or the failure. |
| `PersistentBroker.PersistentBroker.TryConsume` | include/aether/persistent_broker.hpp:165-177 | Matches the specification for consuming, with all counters. |
| `PersistentBroker.PublishKeepsConsistent` | include/aether/persistent_broker.hpp:105-132 | A publish keeps counters, log and queue consistent, and fails after logging only if flush or open did so with that status. |
| `PersistentBroker.CallKeepsConsistent` | include/aether/persistent_broker.hpp:49-177 | So does every call. |
| `PersistentBroker.EveryCallSequenceIsConsistent` | include/aether/persistent_broker.hpp:49-177 | From construction on, after any sequence of opens, publishes and consumes, with any failures: records logged = published = consumed + queued, and bytes logged = offset = records times record size. |
| `PersistentBroker.SecondOpenDisables` | include/aether/persistent_broker.hpp:49-84 | Opening an open broker disables it: after any further calls it is not open, and log and queue are as they were. |
| `PersistentBroker.ReplayWithMetrics` | include/aether/persistent_broker.hpp:227-269 | Status of the replay with the typed visitor; recovered records and recovery failures grow as the next rows say. |
| `BrokerAnswers.RecoveryStops` | include/aether/persistent_broker.hpp:227-269 | At the first record of the wrong size, with corrupted record, or that the visitor rejects, with its answer: the k records before it are counted as recovered, and one failure. |
| `BrokerAnswers.RecoveryEnds` | include/aether/persistent_broker.hpp:227-269 | If all are accepted, all are counted as recovered, and one failure exactly if what lies behind is not a clean end. |
| `BrokerAnswers.PublishOneExactly` | include/aether/batch_broker.hpp:51-65 | Status, contents and counters of a publish from configuration and contents, for each outcome. |
| `BrokerAnswers.ConsumeOneExactly` | include/aether/batch_broker.hpp:82-95 | Status, value, contents and counters of a consume from configuration and contents, for each outcome. |
| `BrokerAnswers.InvalidBatches` | include/aether/batch_broker.hpp:97-143 | A batch on an invalid broker moves nothing and counts once, unless it is empty. |
| `BrokerAnswers.OpenExactly` | include/aether/persistent_broker.hpp:49-84 | Opens exactly on matching capacity, enabled log, a path, a payload size and file size that fit and a successful mapping, with a file of zeros of the configured size and flushing as configured; the exact status in every other case. |
| `BrokerAnswers.CallExactly` | include/aether/persistent_broker.hpp:105-177 | Status, value, contents and log growth of every publish and consume, from the contents, the space left, the flush and whether the broker is open. |
| `BrokerAnswers.CallIsCounted` | include/aether/persistent_broker.hpp:105-177 | The one counter that each outcome moves, in the broker and in the queue inside it. |
| `BrokerAnswers.EveryCallIsCounted` | include/aether/persistent_broker.hpp:105-177 | From construction on, after any calls: each counter is exactly the number of calls that came to what it names. |
| `PersistentAlone.PublishIsARun` | include/aether/persistent_broker.hpp:105-132 | An uninterrupted publish of the class is a run of the concurrent protocol with the same result, contents, log record and counters. |
| `PersistentAlone.ConsumeIsARun` | include/aether/persistent_broker.hpp:165-177 | So is an uninterrupted consume: empty exactly when the run took nothing, otherwise ok with the value it took. |
| `PersistentAlone.OpenCallsAreARun` | include/aether/persistent_broker.hpp:105-177 | So is any sequence of calls on an open broker. |
| `PersistentAlone.UnopenedCallsAreARun` | include/aether/persistent_broker.hpp:49-177 | So is any sequence of calls from construction on, from the first open with an acceptable configuration and mapping, in a file of the configured size and flushing as configured. |
| `PersistentAlone.NeverOpened` | include/aether/persistent_broker.hpp:49-84 | Without such a call the broker is never opened. |
| `PersistentAlone.EveryCallSequenceIsReplayed` | include/aether/persistent_broker.hpp:49-177 | After any calls from construction on, one of which opens the broker: values published = values consumed, then the contents, as many as publishes and consumes succeeded; a replay returns ok and shows exactly one record per value published, with its flags, clock and number, then that of a publish whose flush failed if none has succeeded since. |

## Left out

- Memory mapping (`src/io`): what the operating system answers to creating, mapping and flushing is a parameter.
- Crashes of the machine: the file is the mapping as the processes see it; which of its pages had reached the disk is not modelled.
- Opening a file for reading: an empty file is refused by `MmapFile`, so `WalLog.TruncatedLog` with nothing left describes a file that is never scanned.
- Clocks: the time `append` reads for a message without a timestamp is a parameter.
- Status detail strings: only the code of a status is modelled.
- Exceptions thrown by constructors or assignments of `T`, alignment and `std::launder`.
- More than one producer or consumer, and `size_approx` read by a third thread: outside the queue's contract.
- Orders of memory weaker than release and acquire on other atomics: the metrics counters use relaxed increments and are read here only between calls.
- 64-bit wrap-around of metrics counters, of `records_written` and of file offsets: these are natural numbers; queue counters and sequence numbers do wrap.
- `fits_size_t` in the reader: always true where `std::size_t` has 64 bits.
- `Broker`: its single-value calls are those of `BatchBroker` and are modelled once.
- The move overload of `try_publish`: the same steps as the copying one.
- `flush()` of writer and broker, the `wal_flushes` counter, metrics reset, histograms, configuration files, command-line tools, spin waits and thread affinity: they would only add easy members.
- A visitor is a function of everything it has been shown, so its answers may depend on the past but not on outside state.
- PersistentBroker.PersistentBroker.TryPublish: a value of type `T` is its object representation, since the broker only ever copies that.
- ZeroCopySpsc.ZeroCopySpsc.TryReserve: the class performs each operation uninterrupted; its interleavings with the consumer are in `ZeroCopyProtocol`.
- WalResidue.CoveredLeavesNothingStale: a simple sufficient condition; the exact ones are in `StaleLengthExactly` and `ReplayAfterAppends`.
- WalDamage.BurstIsReported: changes of the payload size are excluded, because the code does not report all of them; `LengthVerdict` and `OversizedLengthHidesTheRest` give the exact verdict for those.
