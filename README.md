# H.264 over UDP ingestion, in Dafny

This project models the H.264 ingestion core of the libdatachannel
streamer example, and the small NAL type printer shipped beside it.

- **Receive path** (`UdpH264Source`). Datagrams carrying an Annex B byte
  stream are appended to an accumulation buffer. The buffer is cut at
  start codes (`00 00 01` or `00 00 00 01`, whichever occurs first) into
  NAL units, and a unit is emitted only once the next start code has
  arrived.
  - Units that are too short are dropped, unless they are SEI, SPS or PPS.
  - The latest SPS, PPS and IDR unit are kept, start code included.
  - Every accepted unit is queued as a sample in length-prefixed form: a
    4-byte big-endian length, then the payload. An IDR sample also
    carries the kept SPS and PPS in front of it.
- **Sample queue and clock.** `loadNextSample` dequeues the samples first
  in, first out, and advances a microsecond clock by 33333 per sample.
  `getInitialNALUs` builds the bootstrap buffer SPS, PPS, IDR.
- **Pacing loop** (`Stream`).
  - `start` and `stop` flip a running flag.
  - Each tick works out how long to sleep, hands the current sample and
    its timestamp to the sample handler, loads the next sample and
    schedules the next tick.
- **NAL type printer** (`test.cpp`). The same start-code scan over its
  own buffer, with a different trimming policy. It prints the
  `nal_unit_type` of each unit it meets.

Files, one module each:

- `wrappers.dfy`: `Option`.
- `buffers.dfy`: small sequence lemmas.
- `annex_b.dfy`: start codes, `std::search`, the leftmost-match choice and
  one scan step (`ScanFrom`). This is the byte-stream format of Annex B,
  section B.2, of ITU-T H.264. `nal_unit_type` follows Table 7-1.
- `length_prefix.dfy`: the big-endian length, start-code stripping and
  the framing round trip.
- `udp_h264_source.dfy`: the receive path and queue. It has two layers:
  - pure specification functions: `ProcessUnit`, `Advance`, `Step`,
    `Drain` and `Receive` over an `Ingest` state, with lemmas about them;
  - the class `UdpH264Source`, whose imperative methods are proved
    against those functions.
- `stream.dfy`: the class `Stream`.
- `nalu_type_printer.dfy`: the printer. `PrintPass` and `Receive` are its
  specification, and the class `Printer` is proved against them.

The ghost fields `produced` and `consumed` of `UdpH264Source` record every
sample ever queued and every sample ever dequeued. The class invariant
`produced == consumed + samples` states that the queue is first in, first
out.

Two behaviours of the code are worth stating, and the model keeps both:

- When `loadNextSample` finds the queue empty, it clears the current
  sample and the clock does not advance (UdpH264Source.cpp:185-187).
- A tick does not check the running flag again after its sleep
  (stream.cpp:48-53).

The printer prints some units twice: the rescan of a kept unit prints its
type again (`OpenUnitReprinted`), and a pass that stops at a start code
ending the buffer trims nothing, so every unit before that code is
printed again with the next datagram (`ClosedUnitsReprinted`).

Each `start` of the source runs a new receive loop, whose accumulation
buffer starts empty (UdpH264Source.cpp:31, 44): a unit left open when the
source was stopped is never completed by bytes received after a restart.

## Model

| member | source | states |
|---|---|---|
| AnnexB.NalType | examples/streamer/UdpH264Source.cpp:73 | the unit type is the first payload byte's low five bits, so it is below 32 |
| AnnexB.Search | examples/streamer/UdpH264Source.cpp:55-56 | `std::search` returns the leftmost occurrence of a start code at or after `from`, or the end when there is none |
| AnnexB.FindStartCode | examples/streamer/UdpH264Source.cpp:55-58 | the chosen start code is the leftmost code of either length; a 4-byte code found there gives length 4, otherwise 3; the end is returned only when no code occurs |
| AnnexB.ScanFrom | examples/streamer/UdpH264Source.cpp:55-69 | exactly one of four outcomes: no start code; a start code ending the buffer; an unterminated unit with no later start code; or a complete unit closed by the leftmost later start code |
| LengthPrefix.BE32 | examples/streamer/UdpH264Source.cpp:97-99 | the length field is four bytes |
| LengthPrefix.BE32RoundTrip | examples/streamer/UdpH264Source.cpp:97-99 | a length below 2^32 is read back unchanged from its big-endian field |
| LengthPrefix.Prefixed | examples/streamer/UdpH264Source.cpp:95-100 | a length-prefixed unit is 4 bytes longer than its payload, which follows the field unchanged |
| LengthPrefix.StartCodeLength | examples/streamer/UdpH264Source.cpp:207-214 | the offset is 4 exactly for a leading `00 00 00 01`, 3 exactly for a leading `00 00 01` otherwise, 0 when neither leads |
| LengthPrefix.UnitStartCode | examples/streamer/UdpH264Source.cpp:84 | a unit cut from the buffer at a chosen start code begins with a start code of the chosen length |
| LengthPrefix.StripStartCode | examples/streamer/UdpH264Source.cpp:206-220 | for either start code, stripping `code ++ payload` gives `payload` and the helper gives `BE32(|payload|) ++ payload` |
| LengthPrefix.Strip | examples/streamer/UdpH264Source.cpp:206-215 | defined by its body: the unit without its leading start code; specified through `StripStartCode` |
| LengthPrefix.LP | examples/streamer/UdpH264Source.cpp:105-115 | defined by its body: nothing for an empty buffer, else the stripped unit behind its length; specified through `StripStartCode` and `InitialNALUsFraming` |
| LengthPrefix.UnframeFramed | examples/streamer/UdpH264Source.cpp:105-115 | a sequence of length-prefixed payloads that fit 32 bits splits back into exactly those payloads |
| LengthPrefix.FramedAppend | examples/streamer/UdpH264Source.cpp:221-223 | framing two lists of payloads one after the other is framing their concatenation |
| H264Source.InitialNALUs | examples/streamer/UdpH264Source.cpp:203-224 | defined by its body: the helper applied to SPS, PPS and IDR in that order; specified through `InitialNALUsFraming` |
| H264Source.Retain | examples/streamer/UdpH264Source.cpp:82-93 | defined by its body: types 7, 8 and 5 replace their retained unit; specified through `ProcessUnitSpec` |
| H264Source.ProcessUnit | examples/streamer/UdpH264Source.cpp:72-133 | defined by its body: drop, or retain and build the sample; specified through `ProcessUnitSpec` and `SampleFraming` |
| H264Source.InitialNALUsFraming | examples/streamer/UdpH264Source.cpp:203-224 | the bootstrap buffer is the retained SPS, PPS and IDR payloads, start codes stripped, each behind its length, in that order, skipping empty ones; it splits back into them; it is empty exactly when nothing is retained |
| H264Source.ProcessUnitSpec | examples/streamer/UdpH264Source.cpp:72-133 | a unit is dropped exactly when its payload is empty, or shorter than 16 bytes and not type 6, 7 or 8; otherwise types 7, 8 and 5 replace the matching retained unit and the others stay; an IDR sample is `lp(SPS) ++ lp(PPS) ++ BE32(n) ++ payload`, any other is `BE32(n) ++ payload` |
| H264Source.SampleFraming | examples/streamer/UdpH264Source.cpp:94-133 | every queued sample splits back into its payloads: the unit's own payload alone, or for an IDR the retained SPS and PPS (each only if present) then the IDR payload |
| H264Source.Advance | examples/streamer/UdpH264Source.cpp:70-137 | handling a unit erases the buffer up to the next start code, and appends at most one sample behind the samples already queued |
| H264Source.AdvanceKeepsWellFormed | examples/streamer/UdpH264Source.cpp:82-93 | after a unit is handled, each retained buffer is empty or a start code followed by a unit of its own type, and a retained IDR has at least 16 payload bytes |
| H264Source.Step | examples/streamer/UdpH264Source.cpp:135-137 | every continuing iteration strictly shrinks the buffer, which makes the inner loop terminate |
| H264Source.StepErasesAndAppends | examples/streamer/UdpH264Source.cpp:135-137 | an iteration leaves a suffix of the buffer and only appends to the queue, at most one sample |
| H264Source.StepKeepsWellFormed | examples/streamer/UdpH264Source.cpp:82-93 | an iteration keeps the retained buffers well formed |
| H264Source.ErasureKeepsNextStartCode | examples/streamer/UdpH264Source.cpp:135-137 | after the erase the buffer begins at the next start code, which the next scan finds at index 0, and at least three bytes were erased |
| H264Source.Drain | examples/streamer/UdpH264Source.cpp:53-138 | defined by its body: step while the buffer holds a complete unit; specified through `DrainSettles`, `DrainKeepsSuffix`, `DrainKeepsQueue` and `DrainKeepsWellFormed` |
| H264Source.Receive | examples/streamer/UdpH264Source.cpp:48-139 | defined by its body: an empty read changes nothing, otherwise append, drain and clear a buffer over 1 MiB; specified through `ReceiveSettles` |
| H264Source.DrainSettles | examples/streamer/UdpH264Source.cpp:53-69 | the inner loop stops only when no complete unit is left in the buffer |
| H264Source.DrainKeepsSuffix | examples/streamer/UdpH264Source.cpp:135-137 | a whole pass only erases from the front: the unterminated tail is kept |
| H264Source.DrainKeepsQueue | examples/streamer/UdpH264Source.cpp:125-131 | a pass only pushes at the back of the queue: the samples queued before stay, in order |
| H264Source.DrainKeepsWellFormed | examples/streamer/UdpH264Source.cpp:82-93 | a pass keeps the retained buffers well formed |
| H264Source.ReceiveSettles | examples/streamer/UdpH264Source.cpp:48-139 | after a datagram of at most 64 KiB the buffer is at most 1 MiB, holds no complete unit, the retained buffers are well formed, and the earlier queue is a prefix of the new one |
| H264Source.ExitFlush | examples/streamer/UdpH264Source.cpp:142-173 | defined by its body: the unprefixed payload of a complete first unit that is large enough or SEI, SPS or PPS; specified through `ExitFlushPushesNothing` |
| H264Source.ExitFlushPushesNothing | examples/streamer/UdpH264Source.cpp:142-173 | on any buffer the receive loop leaves, the exit flush pushes nothing |
| H264Source.UdpH264Source.constructor | examples/streamer/UdpH264Source.hpp:15-27 | the source starts stopped, with an empty queue, clock 0, an empty current sample and nothing retained |
| H264Source.UdpH264Source.Start | examples/streamer/UdpH264Source.cpp:14-44 | the running flag is set and the new receive loop's accumulation buffer starts empty; the queue, clock and retained units are kept |
| H264Source.UdpH264Source.Stop | examples/streamer/UdpH264Source.cpp:34-35 | the running flag is cleared |
| H264Source.UdpH264Source.OnChunk | examples/streamer/UdpH264Source.cpp:48-139 | the new buffer, retained units and queue are `Receive` of the old ones and the datagram, and the class invariant (settled buffer, FIFO queue, clock) holds |
| H264Source.UdpH264Source.ConsumeCompleteUnits | examples/streamer/UdpH264Source.cpp:53-138 | the loop leaves the state `Drain` gives, with no complete unit left and the buffer no longer than before |
| H264Source.UdpH264Source.ConsumeUnit | examples/streamer/UdpH264Source.cpp:70-137 | the in-place filter, retain, push and erase give the state `Advance` gives, and every pushed sample is recorded as produced |
| H264Source.UdpH264Source.LoadNextSample | examples/streamer/UdpH264Source.cpp:176-188 | on a non-empty queue the front becomes the current sample, is removed, and the clock advances by exactly 33333; on an empty queue the current sample is cleared and the clock stays |
| H264Source.UdpH264Source.GetSample | examples/streamer/UdpH264Source.cpp:190-192 | the sample returned is the current one: empty, or the sample dequeued last |
| H264Source.UdpH264Source.GetSampleTime | examples/streamer/UdpH264Source.cpp:194-196 | the clock is 33333 times the number of samples dequeued |
| H264Source.UdpH264Source.GetSampleDuration | examples/streamer/UdpH264Source.cpp:198-200 | the duration is 33333 microseconds |
| H264Source.UdpH264Source.GetInitialNALUs | examples/streamer/UdpH264Source.cpp:203-224 | the in-place appends build the bootstrap buffer, which splits back into the retained payloads and is empty exactly when nothing is retained |
| NaluTypePrinter.Report | test.cpp:55-59 | a type is printed exactly when the unit is longer than its start code, and it is the low five bits of the first payload byte |
| NaluTypePrinter.PrintPass | test.cpp:43-67 | defined by its body: the scan loop from an iterator position, printing and trimming; specified through `Report`, `PassKeepsSuffix`, `PassKeepsClosedBuffer` and `PassTrimsToOpenUnit` |
| NaluTypePrinter.Receive | test.cpp:37-68 | defined by its body: an empty read changes nothing, otherwise append, one pass and clear a buffer over 1 MiB; specified through the lemmas about `PrintPass` |
| NaluTypePrinter.PassKeepsSuffix | test.cpp:62-65 | a pass only erases a prefix of the buffer |
| NaluTypePrinter.PassKeepsClosedBuffer | test.cpp:49-51 | a pass that does not stop at an open unit leaves the buffer untouched |
| NaluTypePrinter.OpenUnitPrinted | test.cpp:55-65 | at an open unit the pass prints its type and trims the buffer to begin at its start code |
| NaluTypePrinter.ClosedUnitThenRest | test.cpp:60-61 | after a closed unit the pass goes on at the next start code without erasing, so units are visited in buffer order |
| NaluTypePrinter.PassTrimsToOpenUnit | test.cpp:41-67 | a pass that ends at an open unit leaves the buffer beginning with that unit's start code, and that unit's type is the last printed |
| NaluTypePrinter.RescanOpenUnit | test.cpp:62-65 | with more bytes appended, the next scan finds the kept unit's start code at the front, with the same length and type byte |
| NaluTypePrinter.OpenUnitReprinted | test.cpp:62-65 | the next datagram prints the kept unit's type again, first, unless its bytes complete a start code where the unit's payload begins |
| NaluTypePrinter.ClosedUnitsReprinted | test.cpp:49-51 | a pass stopping at a start code that ends the buffer trims nothing: `00 00 01 41 00 00 01` prints type 1 and is kept whole, and a following datagram `42` prints 1 again, then 2 |
| NaluTypePrinter.Printer.constructor | test.cpp:34 | the buffer starts empty and nothing is printed |
| NaluTypePrinter.Printer.OnChunk | test.cpp:37-68 | the printed types and the new buffer are those of `Receive`: an empty read changes nothing, otherwise append, one pass, and clear a buffer over 1 MiB |
| NaluTypePrinter.Printer.PrintUnits | test.cpp:41-67 | the in-place loop prints exactly the types of `PrintPass` from the front and leaves its buffer |
| Streamer.Elapsed | examples/streamer/stream.cpp:45-47 | the unsigned difference is the value below 2^64 that added to the start time gives the current time modulo 2^64; it is the plain difference when no wrap occurs |
| Streamer.WaitTime | examples/streamer/stream.cpp:48-53 | there is a wait exactly when the next sample time exceeds the elapsed time, and then elapsed plus wait is the next sample time, so the subtraction never wraps |
| Streamer.PacedStep | examples/streamer/stream.cpp:65-67 | delivering the current sample at the current clock and then dequeuing one sample keeps the deliveries paced |
| Streamer.PacedTimeline | examples/streamer/stream.cpp:65-70 | the first delivery is the empty sample at time 0, deliveries are one sample duration apart, and each later one carries the sample dequeued by the tick before, in queue order |
| Streamer.Stream.constructor | examples/streamer/stream.cpp:33-34 | a new stream is stopped, has nothing dispatched and has delivered nothing |
| Streamer.Stream.Start | examples/streamer/stream.cpp:77-88 | a running stream is left as it is; otherwise the flag is set, the start time recorded, the source started with an empty accumulation buffer and exactly one tick dispatched |
| Streamer.Stream.Stop | examples/streamer/stream.cpp:90-98 | a stopped stream is left as it is; otherwise the flag is cleared, pending ticks removed and the source stopped |
| Streamer.Stream.SendSample | examples/streamer/stream.cpp:57-71 | a stopped stream does nothing; a running one, whose source has a sample queued, waits `WaitTime`, delivers the current sample at the clock read before loading, dequeues the front sample and dispatches exactly one tick; the first delivery is the empty sample at time 0 |

## Left out

- Sockets and the receive thread are not modelled. This covers `socket`, `bind`, `close` and the thread in `start`/`stop` (UdpH264Source.cpp:16-31, 36-37), the destructors, and the socket setup of test.cpp:11-30 and :70. A `recv` of `len` bytes becomes the `chunk` parameter of `OnChunk`. `len <= 0` is the empty chunk, and `|chunk|` is at most the 65536-byte receive buffer.
- Mutexes and the condition variable are not modelled. The wait in `loadNextSample` (UdpH264Source.cpp:177-180) becomes the precondition "the queue is non-empty or the source is stopped".
- Interleavings between the receive thread, the ticks, `stop` and the sleep are not modelled. In particular, a `stop` landing while a tick sleeps is not modelled: in the code that tick then still delivers and reschedules.
- `usleep` and its Windows shim (stream.cpp:13-31) are not modelled. A tick returns the wait it would sleep, and the clock reading after the sleep is not modelled.
- The current time comes from a helper not part of this model. It is the parameter `now`, below 2^64.
- The dispatch queue is a collaborator not part of this model. It is the count `dispatchedTicks` of ticks put on it since it was last cleared. The queue running a tick is a call of `SendSample`.
- The sample handler and its registration (`onSample`, stream.cpp:73-75) are modelled as the record `delivered` of the handler's calls.
- `stream.hpp` is not part of this model. The initial `startTime` (0) and `_isRunning` (false) are assumed.
- `port` is stored and, in this model, never used; the program binds the socket to it (UdpH264Source.cpp:24).
- Standard output and `perror` are not modelled. The printer's output is the sequence `printed` of types, without the text around them.
- Streamer.Stream.constructor: it requires a source from which nothing has been dequeued, as a freshly built source is, so that deliveries are counted from the first tick.
- H264Source.UdpH264Source.LoadNextSample: the clock `sampleTime_us` is unbounded. Its `uint64_t` wrap-around after 2^64 microseconds is not modelled.
- Streamer.WaitTime: the truncation of the wait to `usleep`'s argument type is not modelled.
- The exit flush after the receive loop (UdpH264Source.cpp:142-173) is modelled only by `ExitFlushPushesNothing`: on any buffer the loop leaves, it pushes nothing. Its push of an unprefixed payload is therefore never taken.
- `htonl` and the `reinterpret_cast` byte layout are not modelled as such. They are the pure `BE32`: the length modulo 2^32, most significant byte first.
- Independence from chunk boundaries is not proved: the same bytes split differently into datagrams give the same samples. It does not hold outright in any case, because the 1 MiB cap depends on where the boundaries fall.
