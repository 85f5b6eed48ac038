/**
 * The receiving side of the streamer (UdpH264Source.cpp and
 * UdpH264Source.hpp): datagrams of an Annex B H.264 stream are accumulated, split at
 * start codes into NAL units, filtered, turned into length-prefixed samples
 * and queued for the pacing loop; the latest SPS, PPS and IDR unit are kept
 * for bootstrapping late-joining consumers.
 */
module H264Source {
  import opened Wrappers
  import opened AnnexB
  import opened LengthPrefix
  import opened Buffers

  /** Units shorter than this are spurious unless they are SEI, SPS or PPS (UdpH264Source.cpp:43). */
  const MinNaluSize: nat := 16
  /** A buffer longer than this after a pass is discarded (UdpH264Source.cpp:139). */
  const MaxBufferSize: nat := 1024 * 1024
  /** The size of the receive buffer handed to `recv` (UdpH264Source.cpp:47). */
  const MaxChunkSize: nat := 65536
  /** The largest the accumulation buffer gets during a pass. */
  const MaxUnitSize: nat := MaxBufferSize + MaxChunkSize
  /** Microseconds per sample, about 30 frames per second (UdpH264Source.hpp:21). */
  const SampleDuration: nat := 33333

  /** `nal_unit_type` values the source treats specially (Table 7-1 of ITU-T H.264). */
  const IdrType: byte := 5
  const SeiType: byte := 6
  const SpsType: byte := 7
  const PpsType: byte := 8

  predicate IsParameterOrSei(t: byte) {
    t == SeiType || t == SpsType || t == PpsType
  }

  /** `latestSPS`, `latestPPS` and `latestIDR`: each unit kept with its start code. */
  datatype RetainedSet = RetainedSet(sps: seq<byte>, pps: seq<byte>, idr: seq<byte>)

  const NothingRetained := RetainedSet([], [], [])

  /** A retained buffer is empty or a start code followed by a unit of type `t`. */
  ghost predicate RetainedUnit(b: seq<byte>, t: byte) {
    b == [] || (0 < StartCodeLength(b) < |b| <= MaxUnitSize && NalType(b[StartCodeLength(b)]) == t)
  }

  ghost predicate WellFormed(r: RetainedSet) {
    && RetainedUnit(r.sps, SpsType)
    && RetainedUnit(r.pps, PpsType)
    && RetainedUnit(r.idr, IdrType)
    && (r.idr != [] ==> |Strip(r.idr)| >= MinNaluSize)
  }

  /** The bootstrap buffer of `getInitialNALUs` (UdpH264Source.cpp:203-224). */
  function InitialNALUs(r: RetainedSet): seq<byte> {
    LP(r.sps) + LP(r.pps) + LP(r.idr)
  }

  /** The payload a retained buffer contributes to a sample: none when it is empty. */
  function Present(b: seq<byte>): seq<seq<byte>> {
    if b == [] then [] else [Strip(b)]
  }

  /** The payloads of the retained units, in the order SPS, PPS, IDR. */
  function Payloads(r: RetainedSet): seq<seq<byte>> {
    Present(r.sps) + Present(r.pps) + Present(r.idr)
  }

  lemma PresentFits(b: seq<byte>)
    requires |b| <= MaxUnitSize
    ensures Fits(Present(b))
  {
    if b != [] {
      assert Present(b)[0] == Strip(b);
    }
  }

  /**
   * The bootstrap buffer splits back into exactly the retained payloads, each
   * behind a length equal to its size, in the fixed order, skipping classes
   * never seen.
   */
  lemma InitialNALUsFraming(r: RetainedSet)
    requires WellFormed(r)
    ensures InitialNALUs(r) == Framed(Payloads(r))
    ensures Unframe(InitialNALUs(r)) == Some(Payloads(r))
    ensures InitialNALUs(r) == [] <==> r == NothingRetained
  {
    forall b: seq<byte> ensures LP(b) == Framed(Present(b)) && (LP(b) == [] <==> b == []) {
      if b != [] {
        assert [Strip(b)][1..] == [];
        assert Framed([Strip(b)]) == Prefixed(Strip(b)) + [];
      }
    }
    FramedAppend(Present(r.sps), Present(r.pps));
    FramedAppend(Present(r.sps) + Present(r.pps), Present(r.idr));
    PresentFits(r.sps);
    PresentFits(r.pps);
    PresentFits(r.idr);
    FitsAppend(Present(r.sps), Present(r.pps));
    FitsAppend(Present(r.sps) + Present(r.pps), Present(r.idr));
    UnframeFramed(Payloads(r));
    assert InitialNALUs(r) == [] <==> LP(r.sps) == [] && LP(r.pps) == [] && LP(r.idr) == [];
  }

  /** Last write wins: a unit of type 7, 8 or 5 replaces the matching retained buffer. */
  function Retain(r: RetainedSet, t: byte, unit: seq<byte>): RetainedSet {
    if t == SpsType then r.(sps := unit)
    else if t == PpsType then r.(pps := unit)
    else if t == IdrType then r.(idr := unit)
    else r
  }

  /** What becomes of one demuxed unit: dropped, or retained and queued as a sample. */
  datatype Disposition = Skipped | Emitted(retained: RetainedSet, sample: seq<byte>)

  /**
   * The treatment of one complete unit `unit` (start code included) whose
   * start code is `codeLen` bytes long (UdpH264Source.cpp:72-133).
   */
  function ProcessUnit(ret: RetainedSet, unit: seq<byte>, codeLen: nat): Disposition
    requires 0 < codeLen == StartCodeLength(unit)
  {
    var payload := unit[codeLen..];
    if |payload| == 0 then Skipped
    else
      var t := NalType(payload[0]);
      if |payload| < MinNaluSize && !IsParameterOrSei(t) then Skipped
      else
        var r := Retain(ret, t, unit);
        var lengthPrefixed := Prefixed(payload);
        if t == IdrType then Emitted(r, LP(r.sps) + LP(r.pps) + lengthPrefixed)
        else Emitted(r, lengthPrefixed)
  }

  /**
   * A unit is dropped exactly when its payload is empty, or shorter than 16
   * bytes and not SEI, SPS or PPS. Otherwise an SPS, PPS or IDR unit
   * replaces the retained unit of its type, start code included, and the
   * others stay; an IDR sample is the bootstrap buffer of the updated
   * retained units, any other sample is the payload behind its length.
   */
  lemma ProcessUnitSpec(ret: RetainedSet, unit: seq<byte>, codeLen: nat)
    requires 0 < codeLen == StartCodeLength(unit)
    ensures var d := ProcessUnit(ret, unit, codeLen);
            && (d.Skipped? <==>
                 |unit| == codeLen || (|unit| - codeLen < MinNaluSize && !IsParameterOrSei(NalType(unit[codeLen]))))
            && (d.Emitted? ==>
                 var t := NalType(unit[codeLen]);
                 && d.retained.sps == (if t == SpsType then unit else ret.sps)
                 && d.retained.pps == (if t == PpsType then unit else ret.pps)
                 && d.retained.idr == (if t == IdrType then unit else ret.idr)
                 && (t == IdrType ==> d.sample == InitialNALUs(d.retained))
                 && (t != IdrType ==> d.sample == Prefixed(unit[codeLen..])))
  {
  }

  /**
   * Every queued sample is one or more length-prefixed units: an ordinary unit
   * alone, an IDR behind the retained SPS and PPS (each only if present).
   */
  lemma SampleFraming(ret: RetainedSet, unit: seq<byte>, codeLen: nat)
    requires 0 < codeLen == StartCodeLength(unit)
    requires WellFormed(ret) && |unit| <= MaxUnitSize
    requires ProcessUnit(ret, unit, codeLen).Emitted?
    ensures var d := ProcessUnit(ret, unit, codeLen);
            var payload := unit[codeLen..];
            Unframe(d.sample) ==
              Some(if NalType(payload[0]) == IdrType then Present(ret.sps) + Present(ret.pps) + [payload] else [payload])
  {
    var d := ProcessUnit(ret, unit, codeLen);
    var payload := unit[codeLen..];
    if NalType(payload[0]) == IdrType {
      assert WellFormed(d.retained);
      InitialNALUsFraming(d.retained);
      assert Present(d.retained.idr) == [payload];
    } else {
      assert d.sample == Prefixed(payload);
      assert [payload][1..] == [];
      assert Prefixed(payload) + [] == Prefixed(payload);
      assert Framed([payload]) == Prefixed(payload);
      assert Fits([payload]);
      UnframeFramed([payload]);
      assert Unframe(d.sample) == Some([payload]);
    }
  }

  /** The state one pass of the receive loop works on. */
  datatype Ingest = Ingest(buffer: seq<byte>, retained: RetainedSet, samples: seq<seq<byte>>)

  /** `[start, next)` is a unit of `buffer` that begins with a `codeLen`-byte start code. */
  predicate UnitAt(buffer: seq<byte>, start: nat, codeLen: nat, next: nat) {
    start + codeLen <= next <= |buffer| && 0 < codeLen == StartCodeLength(buffer[start..next])
  }

  /**
   * Handle the unit `[start, next)` of the buffer, then erase the buffer up
   * to `next` (UdpH264Source.cpp:72-137).
   */
  function Advance(st: Ingest, start: nat, codeLen: nat, next: nat): (r: Ingest)
    requires UnitAt(st.buffer, start, codeLen, next)
    ensures r.buffer == st.buffer[next..]
    ensures |st.samples| <= |r.samples| <= |st.samples| + 1 && r.samples[..|st.samples|] == st.samples
  {
    var rest := st.buffer[next..];
    var d := ProcessUnit(st.retained, st.buffer[start..next], codeLen);
    if d.Skipped? then Ingest(rest, st.retained, st.samples)
    else Ingest(rest, d.retained, st.samples + [d.sample])
  }

  /** Handling a unit keeps the retained buffers well formed. */
  lemma AdvanceKeepsWellFormed(st: Ingest, start: nat, codeLen: nat, next: nat)
    requires UnitAt(st.buffer, start, codeLen, next)
    requires WellFormed(st.retained) && |st.buffer| <= MaxUnitSize
    ensures WellFormed(Advance(st, start, codeLen, next).retained)
  {
    var unit := st.buffer[start..next];
    ProcessUnitSpec(st.retained, unit, codeLen);
    var d := ProcessUnit(st.retained, unit, codeLen);
    if d.Emitted? {
      var t := NalType(unit[codeLen]);
      assert 0 < StartCodeLength(unit) < |unit| <= MaxUnitSize;
      assert t == IdrType ==> |Strip(unit)| >= MinNaluSize;
      assert RetainedUnit(d.retained.sps, SpsType);
      assert RetainedUnit(d.retained.pps, PpsType);
      assert RetainedUnit(d.retained.idr, IdrType);
    }
  }

  /**
   * One iteration of the inner loop of `receiveLoop` that finds a complete
   * unit (UdpH264Source.cpp:70-137): handle the first unit, the one the
   * scan found closed by the next start code.
   */
  function Step(st: Ingest): (r: Ingest)
    requires ScanFrom(st.buffer, 0).Complete?
    ensures |r.buffer| < |st.buffer|
  {
    var scan := ScanFrom(st.buffer, 0);
    UnitStartCode(st.buffer, 0, scan.start, scan.codeLen, scan.next);
    Advance(st, scan.start, scan.codeLen, scan.next)
  }

  /** A step erases a prefix of the buffer and appends at most one sample. */
  lemma StepErasesAndAppends(st: Ingest)
    requires ScanFrom(st.buffer, 0).Complete?
    ensures var r := Step(st);
            && IsSuffix(r.buffer, st.buffer)
            && |st.samples| <= |r.samples| <= |st.samples| + 1
            && r.samples[..|st.samples|] == st.samples
  {
  }

  /** A step keeps the retained buffers well formed. */
  lemma StepKeepsWellFormed(st: Ingest)
    requires ScanFrom(st.buffer, 0).Complete?
    requires WellFormed(st.retained) && |st.buffer| <= MaxUnitSize
    ensures WellFormed(Step(st).retained)
  {
    var scan := ScanFrom(st.buffer, 0);
    UnitStartCode(st.buffer, 0, scan.start, scan.codeLen, scan.next);
    AdvanceKeepsWellFormed(st, scan.start, scan.codeLen, scan.next);
  }

  /**
   * The inner loop of `receiveLoop` (UdpH264Source.cpp:53-138): step while
   * the buffer holds a complete unit.
   */
  function Drain(st: Ingest): Ingest
    decreases |st.buffer|
  {
    if ScanFrom(st.buffer, 0).Complete? then Drain(Step(st)) else st
  }

  /** One received datagram: append it, drain, and cap the buffer (UdpH264Source.cpp:48-139). */
  function Receive(st: Ingest, chunk: seq<byte>): Ingest {
    if chunk == [] then st
    else
      var d := Drain(st.(buffer := st.buffer + chunk));
      if |d.buffer| > MaxBufferSize then d.(buffer := []) else d
  }

  /**
   * After a complete unit the buffer is erased up to the closing start code:
   * at least three bytes go, and the rest begins with the next unit's start
   * code, which the next scan finds at index 0.
   */
  lemma ErasureKeepsNextStartCode(s: seq<byte>)
    requires ScanFrom(s, 0).Complete?
    ensures var next := ScanFrom(s, 0).next;
            var rest := s[next..];
            && next >= 3
            && AnyCodeAt(rest, 0)
            && !ScanFrom(rest, 0).NoStartCode?
            && ScanFrom(rest, 0).start == 0
  {
    var next := ScanFrom(s, 0).next;
    var rest := s[next..];
    assert AnyCodeAt(rest, 0) by {
      assert Short.At(s, next) ==> Short.At(rest, 0);
      assert Long.At(s, next) ==> Long.At(rest, 0);
    }
    var scan := ScanFrom(rest, 0);
    assert !scan.NoStartCode?;
    assert scan.start == 0;
  }

  /** A pass stops only when no complete unit is left in the buffer. */
  lemma {:induction false} DrainSettles(st: Ingest)
    ensures !ScanFrom(Drain(st).buffer, 0).Complete?
    decreases |st.buffer|
  {
    if ScanFrom(st.buffer, 0).Complete? {
      DrainSettles(Step(st));
    }
  }

  /**
   * A pass only erases from the front: what is left is a suffix of the
   * buffer (the unterminated unit is kept, not emitted).
   */
  lemma {:induction false} DrainKeepsSuffix(st: Ingest)
    ensures IsSuffix(Drain(st).buffer, st.buffer)
    decreases |st.buffer|
  {
    if ScanFrom(st.buffer, 0).Complete? {
      var st' := Step(st);
      DrainKeepsSuffix(st');
      StepErasesAndAppends(st);
      var r := Drain(st');
      SuffixOfSuffix(st.buffer, st'.buffer, r.buffer);
      assert Drain(st) == r;
    } else {
      assert Drain(st) == st;
      assert st.buffer[0..] == st.buffer;
    }
  }

  /** A pass only appends to the queue: the samples queued before are untouched, in order. */
  lemma {:induction false} DrainKeepsQueue(st: Ingest)
    ensures var r := Drain(st);
            && |st.samples| <= |r.samples|
            && r.samples[..|st.samples|] == st.samples
    decreases |st.buffer|
  {
    if ScanFrom(st.buffer, 0).Complete? {
      var st' := Step(st);
      DrainKeepsQueue(st');
      StepErasesAndAppends(st);
      PrefixOfPrefix(st.samples, st'.samples, Drain(st').samples);
      assert Drain(st) == Drain(st');
    }
  }

  /**
   * The state between two datagrams: the buffer is at most 1 MiB and holds
   * no complete unit, and the retained units are well formed.
   */
  ghost predicate Settled(st: Ingest) {
    && |st.buffer| <= MaxBufferSize
    && !ScanFrom(st.buffer, 0).Complete?
    && WellFormed(st.retained)
  }

  /** A pass keeps the retained units well formed. */
  lemma {:induction false} DrainKeepsWellFormed(st: Ingest)
    requires WellFormed(st.retained) && |st.buffer| <= MaxUnitSize
    ensures WellFormed(Drain(st).retained)
    decreases |st.buffer|
  {
    if ScanFrom(st.buffer, 0).Complete? {
      StepKeepsWellFormed(st);
      DrainKeepsWellFormed(Step(st));
    }
  }

  /**
   * Receiving a datagram of at most 64 KiB keeps the state settled, and only
   * appends to the queue.
   */
  lemma ReceiveSettles(st: Ingest, chunk: seq<byte>)
    requires Settled(st) && |chunk| <= MaxChunkSize
    ensures Settled(Receive(st, chunk))
    ensures |st.samples| <= |Receive(st, chunk).samples|
    ensures Receive(st, chunk).samples[..|st.samples|] == st.samples
  {
    if chunk != [] {
      var st' := st.(buffer := st.buffer + chunk);
      DrainSettles(st');
      DrainKeepsWellFormed(st');
      DrainKeepsQueue(st');
    }
  }

  /**
   * The flush at thread exit (UdpH264Source.cpp:142-173): it would push the
   * payload of a complete, large-enough (or SEI/SPS/PPS) first unit, without
   * a length prefix.
   */
  function ExitFlush(buffer: seq<byte>): Option<seq<byte>> {
    match ScanFrom(buffer, 0)
    case Complete(start, codeLen, next) =>
      var t := NalType(buffer[start + codeLen]);
      if next - (start + codeLen) >= MinNaluSize || IsParameterOrSei(t)
      then Some(buffer[start + codeLen..next])
      else None
    case _ => None
  }

  /**
   * The exit flush tests the same three conditions at which the inner loop
   * stops, so on any buffer a pass leaves behind it pushes nothing.
   */
  lemma ExitFlushPushesNothing(st: Ingest, chunk: seq<byte>)
    requires !ScanFrom(st.buffer, 0).Complete?
    ensures ExitFlush(Receive(st, chunk).buffer) == None
  {
    if chunk != [] {
      DrainSettles(st.(buffer := st.buffer + chunk));
    }
  }

  /** The stream source of the streamer, minus its socket and receive thread. */
  class UdpH264Source {
    const port: bv16
    var running: bool
    var samples: seq<seq<byte>>
    var sampleTime: nat
    const sampleDuration: nat := SampleDuration
    var currentSample: seq<byte>
    var latestSPS: seq<byte>
    var latestPPS: seq<byte>
    var latestIDR: seq<byte>
    /** The receive loop's accumulation buffer, kept from one datagram to the next. */
    var naluBuffer: seq<byte>
    /** Every sample ever queued, and every sample ever dequeued, in order. */
    ghost var produced: seq<seq<byte>>
    ghost var consumed: seq<seq<byte>>

    function Retained(): RetainedSet
      reads this`latestSPS, this`latestPPS, this`latestIDR
    {
      RetainedSet(latestSPS, latestPPS, latestIDR)
    }

    function State(): Ingest
      reads this`naluBuffer, this`latestSPS, this`latestPPS, this`latestIDR, this`samples
    {
      Ingest(naluBuffer, Retained(), samples)
    }

    /**
     * Between datagrams the buffer holds no complete unit and is at most
     * 1 MiB, the retained buffers are well formed, the queue is first in,
     * first out, and the clock counts the samples dequeued.
     */
    ghost predicate Valid()
      reads this
    {
      Settled(State()) && Queued() && Dequeued()
    }

    /** The queue holds the samples produced and not yet consumed, in order. */
    ghost predicate Queued()
      reads this`produced, this`consumed, this`samples
    {
      produced == consumed + samples
    }

    /** The clock counts the samples dequeued, and the current sample is the last of them. */
    ghost predicate Dequeued()
      reads this`consumed, this`sampleTime, this`currentSample
    {
      && sampleTime == |consumed| * SampleDuration
      && (currentSample == [] || (consumed != [] && currentSample == consumed[|consumed| - 1]))
    }

    /** UdpH264Source.cpp:8 with the member initialisers of UdpH264Source.hpp:15-27. */
    constructor (port: bv16)
      ensures Valid()
      ensures this.port == port && !running
      ensures samples == [] && sampleTime == 0 && currentSample == []
      ensures Retained() == NothingRetained && naluBuffer == []
      ensures produced == [] && consumed == []
    {
      this.port := port;
      running := false;
      samples := [];
      sampleTime := 0;
      currentSample := [];
      latestSPS, latestPPS, latestIDR := [], [], [];
      naluBuffer := [];
      produced, consumed := [], [];
    }

    /**
     * `start` (UdpH264Source.cpp:14-31): the flag is set and a new receive
     * loop begins, with an accumulation buffer of its own that starts empty
     * (UdpH264Source.cpp:44); the socket is not modelled.
     */
    method Start()
      requires Valid()
      modifies this`running, this`naluBuffer
      ensures Valid() && running && naluBuffer == []
    {
      running := true;
      naluBuffer := [];
    }

    /** The flag part of `stop` (UdpH264Source.cpp:35); the socket is not modelled. */
    method Stop()
      requires Valid()
      modifies this`running
      ensures Valid() && !running
    {
      running := false;
    }

    /**
     * One iteration of `receiveLoop` for a datagram `chunk`
     * (UdpH264Source.cpp:48-139).
     */
    method OnChunk(chunk: seq<byte>)
      requires Valid()
      requires |chunk| <= MaxChunkSize
      modifies this`naluBuffer, this`latestSPS, this`latestPPS, this`latestIDR, this`samples, this`produced
      ensures Valid()
      ensures State() == Receive(old(State()), chunk)
    {
      ghost var st := State();
      ReceiveSettles(st, chunk);
      if chunk == [] {
        return;
      }
      naluBuffer := naluBuffer + chunk;
      assert State() == st.(buffer := st.buffer + chunk);
      ConsumeCompleteUnits();
      ghost var drained := State();
      if |naluBuffer| > MaxBufferSize {
        naluBuffer := [];
      }
      assert State() == (if |drained.buffer| > MaxBufferSize then drained.(buffer := []) else drained);
      assert State() == Receive(st, chunk);
    }

    /**
     * The inner loop of `receiveLoop` (UdpH264Source.cpp:53-138): handle and
     * erase complete units until the buffer holds none.
     */
    method ConsumeCompleteUnits()
      requires WellFormed(Retained()) && |naluBuffer| <= MaxUnitSize
      requires produced == consumed + samples
      modifies this`naluBuffer, this`latestSPS, this`latestPPS, this`latestIDR, this`samples, this`produced
      ensures State() == Drain(old(State()))
      ensures !ScanFrom(naluBuffer, 0).Complete?
      ensures WellFormed(Retained()) && |naluBuffer| <= old(|naluBuffer|)
      ensures produced == consumed + samples
    {
      ghost var target := Drain(State());
      while true
        invariant |naluBuffer| <= old(|naluBuffer|)
        invariant WellFormed(Retained())
        invariant produced == consumed + samples
        invariant Drain(State()) == target
        decreases |naluBuffer|
      {
        var scan := ScanFrom(naluBuffer, 0);
        if !scan.Complete? {
          break;
        }
        UnitStartCode(naluBuffer, 0, scan.start, scan.codeLen, scan.next);
        StepKeepsWellFormed(State());
        ConsumeUnit(scan.start, scan.codeLen, scan.next);
      }
    }

    /**
     * The body of the inner loop once a complete unit `[naluStart, naluEnd)`
     * is found (UdpH264Source.cpp:70-137): filter it, retain it, queue its
     * sample, and erase the buffer up to `naluEnd`.
     */
    method ConsumeUnit(naluStart: nat, startCodeLen: nat, naluEnd: nat)
      requires UnitAt(naluBuffer, naluStart, startCodeLen, naluEnd)
      requires produced == consumed + samples
      modifies this`naluBuffer, this`latestSPS, this`latestPPS, this`latestIDR, this`samples, this`produced
      ensures State() == Advance(old(State()), naluStart, startCodeLen, naluEnd)
      ensures produced == consumed + samples
    {
      var naluDataStart := naluStart + startCodeLen;
      var naluDataSize := naluEnd - naluDataStart;
      if naluDataSize > 0 {
        var naluType := NalType(naluBuffer[naluDataStart]);
        if naluDataSize < MinNaluSize && !IsParameterOrSei(naluType) {
          naluBuffer := naluBuffer[naluEnd..];
          return;
        }
        if naluType == SpsType {
          latestSPS := naluBuffer[naluStart..naluEnd];
        }
        if naluType == PpsType {
          latestPPS := naluBuffer[naluStart..naluEnd];
        }
        if naluType == IdrType {
          latestIDR := naluBuffer[naluStart..naluEnd];
        }
        var lengthPrefixed := Prefixed(naluBuffer[naluDataStart..naluEnd]);
        var sample;
        if naluType == IdrType {
          sample := LP(latestSPS) + LP(latestPPS) + lengthPrefixed;
        } else {
          sample := lengthPrefixed;
        }
        samples := samples + [sample];
        produced := produced + [sample];
      }
      naluBuffer := naluBuffer[naluEnd..];
    }

    /**
     * `loadNextSample` (UdpH264Source.cpp:176-188). The wait on the condition
     * variable returns once a sample is queued or the source is stopped; a
     * call is modelled from that point on.
     */
    method LoadNextSample()
      requires Valid()
      requires samples != [] || !running
      modifies this`currentSample, this`samples, this`sampleTime, this`consumed
      ensures Valid()
      ensures old(samples) != [] ==>
                && currentSample == old(samples[0])
                && samples == old(samples[1..])
                && sampleTime == old(sampleTime) + sampleDuration
                && consumed == old(consumed) + [currentSample]
      ensures old(samples) == [] ==>
                && currentSample == [] && samples == []
                && sampleTime == old(sampleTime) && consumed == old(consumed)
    {
      if samples != [] {
        currentSample := samples[0];
        samples := samples[1..];
        sampleTime := sampleTime + sampleDuration;
        consumed := consumed + [currentSample];
      } else {
        currentSample := [];
      }
    }

    /** `getSample` (UdpH264Source.cpp:190-192). */
    method GetSample() returns (sample: seq<byte>)
      requires Valid()
      ensures sample == currentSample
      ensures sample == [] || (consumed != [] && sample == consumed[|consumed| - 1])
    {
      sample := currentSample;
    }

    /** `getSampleTime_us` (UdpH264Source.cpp:194-196): the clock counts dequeued samples. */
    method GetSampleTime() returns (t: nat)
      requires Valid()
      ensures t == sampleTime == |consumed| * SampleDuration
    {
      t := sampleTime;
    }

    /** `getSampleDuration_us` (UdpH264Source.cpp:198-200). */
    method GetSampleDuration() returns (d: nat)
      ensures d == SampleDuration
    {
      d := sampleDuration;
    }

    /** `getInitialNALUs` (UdpH264Source.cpp:203-224). */
    method GetInitialNALUs() returns (out: seq<byte>)
      requires Valid()
      ensures out == InitialNALUs(Retained())
      ensures Unframe(out) == Some(Payloads(Retained()))
      ensures out == [] <==> Retained() == NothingRetained
    {
      out := [];
      out := out + LP(latestSPS);
      assert out == LP(latestSPS);
      out := out + LP(latestPPS);
      out := out + LP(latestIDR);
      InitialNALUsFraming(Retained());
    }
  }
}
