/**
 * The pacing loop of the streamer (stream.cpp): a running flag, the time
 * the stream started, and ticks on a dispatch queue, each of which hands
 * the source's current sample to the sample handler and loads the next one.
 * The clock is a parameter, the sleep is returned as the wait it would
 * take, and the dispatch queue is a count of the ticks put on it.
 */
module Streamer {
  import opened AnnexB
  import opened H264Source

  /** `uint64_t` values lie below this bound. */
  const U64: nat := 0x1_0000_0000_0000_0000

  /** The kind of source a sample comes from (stream.cpp:42). */
  datatype StreamSourceType = Video

  /** One call of the sample handler: the kind, the timestamp in microseconds and the sample. */
  datatype Delivery = Delivery(kind: StreamSourceType, time: nat, sample: seq<byte>)

  /**
   * `currentTime - startTime` on `uint64_t` (stream.cpp:47): the unique
   * value below 2^64 that added to the start time gives the current time
   * modulo 2^64, which is the plain difference when no wrap occurs.
   */
  function Elapsed(now: nat, start: nat): (e: nat)
    requires now < U64 && start < U64
    ensures e < U64 && (start + e) % U64 == now
    ensures start <= now ==> e == now - start
  {
    if start <= now then now - start else now + U64 - start
  }

  /**
   * The sleep of stream.cpp:48-53: there is a wait exactly when the next
   * sample is due later than the elapsed time, and it lasts until then, so
   * the unsigned subtraction never wraps.
   */
  function WaitTime(next: nat, elapsed: nat): (w: nat)
    ensures w > 0 <==> next > elapsed
    ensures w > 0 ==> elapsed + w == next
    ensures w == 0 ==> next <= elapsed
  {
    if next > elapsed then next - elapsed else 0
  }

  /** The sample the source holds after the loads that dequeued `consumed`. */
  function LastLoaded(consumed: seq<seq<byte>>): seq<byte> {
    if consumed == [] then [] else consumed[|consumed| - 1]
  }

  /**
   * The deliveries so far, against the samples the source has dequeued:
   * one per dequeued sample, the i-th stamped i sample durations after the
   * start, the first carrying the initial empty sample and every later one
   * the sample dequeued by the tick before.
   */
  ghost predicate Paced(delivered: seq<Delivery>, consumed: seq<seq<byte>>) {
    && |delivered| == |consumed|
    && forall i :: 0 <= i < |delivered| ==>
         delivered[i] == Delivery(Video, i * SampleDuration, LastLoaded(consumed[..i]))
  }

  /**
   * A tick that delivers the current sample at the current clock and then
   * dequeues `x` keeps the deliveries paced.
   */
  lemma PacedStep(delivered: seq<Delivery>, consumed: seq<seq<byte>>, x: seq<byte>)
    requires Paced(delivered, consumed)
    ensures Paced(delivered + [Delivery(Video, |consumed| * SampleDuration, LastLoaded(consumed))],
                  consumed + [x])
  {
    var d := delivered + [Delivery(Video, |consumed| * SampleDuration, LastLoaded(consumed))];
    var c := consumed + [x];
    forall i | 0 <= i < |d|
      ensures d[i] == Delivery(Video, i * SampleDuration, LastLoaded(c[..i]))
    {
      assert c[..i] == consumed[..i];
    }
  }

  /**
   * Paced deliveries are stamped one sample duration apart, starting at 0
   * with the empty sample, and every later one carries the samples of the
   * queue in the order they were dequeued.
   */
  lemma PacedTimeline(delivered: seq<Delivery>, consumed: seq<seq<byte>>)
    requires Paced(delivered, consumed)
    ensures delivered != [] ==> delivered[0] == Delivery(Video, 0, [])
    ensures forall i, j :: 0 <= i < j < |delivered| ==>
              delivered[j].time == delivered[i].time + (j - i) * SampleDuration
    ensures forall i :: 0 < i < |delivered| ==> delivered[i].sample == consumed[i - 1]
  {
    forall i | 0 < i < |delivered|
      ensures delivered[i].sample == consumed[i - 1]
    {
      assert consumed[..i][i - 1] == consumed[i - 1];
    }
  }

  /** A stream of one video source (stream.cpp). */
  class Stream {
    const video: UdpH264Source
    /** `_isRunning`. */
    var isRunning: bool
    /** The time, in microseconds, the stream was last started. */
    var startTime: nat
    /** The ticks put on the dispatch queue since it was last cleared. */
    var dispatchedTicks: nat
    /** Every call of the sample handler, in order. */
    var delivered: seq<Delivery>

    /**
     * A running stream runs its source and has a tick on the queue, a
     * stopped one has none, and the deliveries are paced against the
     * samples the source has dequeued.
     */
    ghost predicate Valid()
      reads this, video
    {
      && video.Valid()
      && startTime < U64
      && (isRunning ==> video.running && dispatchedTicks > 0)
      && (!isRunning ==> dispatchedTicks == 0)
      && Paced(delivered, video.consumed)
      && video.currentSample == LastLoaded(video.consumed)
    }

    /** stream.cpp:33-34, over a source nothing has been dequeued from yet. */
    constructor (video: UdpH264Source)
      requires video.Valid() && video.consumed == []
      ensures Valid() && this.video == video
      ensures !isRunning && dispatchedTicks == 0 && delivered == []
    {
      this.video := video;
      isRunning := false;
      startTime := 0;
      dispatchedTicks := 0;
      delivered := [];
    }

    /**
     * `start` (stream.cpp:77-88) at time `now`: a running stream is left as
     * it is; otherwise the flag is set, the start time recorded, the source
     * started and one tick dispatched.
     */
    method Start(now: nat)
      requires Valid() && now < U64
      modifies this`isRunning, this`startTime, this`dispatchedTicks, video`running, video`naluBuffer
      ensures Valid() && isRunning && video.running
      ensures old(isRunning) ==> startTime == old(startTime) && dispatchedTicks == old(dispatchedTicks)
      ensures !old(isRunning) ==> startTime == now && dispatchedTicks == old(dispatchedTicks) + 1
      ensures old(isRunning) ==> video.naluBuffer == old(video.naluBuffer)
      ensures !old(isRunning) ==> video.naluBuffer == []
    {
      if isRunning {
        return;
      }
      isRunning := true;
      startTime := now;
      video.Start();
      dispatchedTicks := dispatchedTicks + 1;
    }

    /**
     * `stop` (stream.cpp:90-98): a stopped stream is left as it is;
     * otherwise the flag is cleared, the pending ticks removed and the
     * source stopped.
     */
    method Stop()
      requires Valid()
      modifies this`isRunning, this`dispatchedTicks, video`running
      ensures Valid() && !isRunning && dispatchedTicks == 0
      ensures !old(isRunning) ==> video.running == old(video.running)
      ensures old(isRunning) ==> !video.running
    {
      if !isRunning {
        return;
      }
      isRunning := false;
      dispatchedTicks := 0;
      video.Stop();
    }

    /**
     * One tick, `sendSample` with `unsafePrepareForSample`
     * (stream.cpp:40-71), at time `now`; `wait` is how long it sleeps.
     * A stopped stream does nothing. A running one delivers the source's
     * current sample stamped with its clock, loads the next sample and
     * dispatches the next tick. A running stream runs its source, so the
     * load waits until a sample is queued: a running tick on an empty queue
     * delivers its sample and then blocks in `loadNextSample`. A tick is
     * modelled from the point that wait is over.
     */
    method SendSample(now: nat) returns (wait: nat)
      requires Valid() && now < U64
      requires isRunning ==> video.samples != []
      modifies this`delivered, this`dispatchedTicks
      modifies video`currentSample, video`samples, video`sampleTime, video`consumed
      ensures Valid()
      ensures !old(isRunning) ==>
                && wait == 0 && delivered == old(delivered) && dispatchedTicks == old(dispatchedTicks)
                && video.consumed == old(video.consumed) && video.samples == old(video.samples)
      ensures old(isRunning) ==>
                && wait == WaitTime(old(video.sampleTime), Elapsed(now, startTime))
                && delivered == old(delivered) + [Delivery(Video, old(video.sampleTime), old(video.currentSample))]
                && dispatchedTicks == old(dispatchedTicks) + 1
                && video.consumed == old(video.consumed) + [old(video.samples[0])]
                && video.samples == old(video.samples[1..])
      ensures old(isRunning) && old(delivered) == [] ==> delivered == [Delivery(Video, 0, [])]
    {
      wait := 0;
      if !isRunning {
        return;
      }
      var nextTime := video.GetSampleTime();
      var elapsed := Elapsed(now, startTime);
      if nextTime > elapsed {
        wait := nextTime - elapsed;
      }
      var sample := video.GetSample();
      var time := video.GetSampleTime();
      PacedStep(delivered, video.consumed, video.samples[0]);
      delivered := delivered + [Delivery(Video, time, sample)];
      video.LoadNextSample();
      dispatchedTicks := dispatchedTicks + 1;
    }
  }
}
