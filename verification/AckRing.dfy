/** Queue-delay measurement: the ship-time ring that times frame acknowledgements, and the
    two-bucket windowed minimum that turns a round trip into a standing queue delay. */
module AckRing {
  import opened Common

  const RTT_RING := 128
  /** The id of a slot that was never written. */
  const NEVER := 0xFFFF_FFFF_FFFF_FFFF

  /** Nanoseconds. */
  type Instant = nat

  const RTT_MIN_WINDOW: nat := 30_000_000_000

  // ---------------------------------------------------------------------------
  // The ring
  // ---------------------------------------------------------------------------

  datatype Shipped = Shipped(id: nat, at: Instant)

  /** Frames in the order they were shipped: ids increase, time does not go back. */
  ghost predicate InOrder(log: seq<Shipped>) {
    && (forall i, j :: 0 <= i < j < |log| ==> log[i].id < log[j].id && log[i].at <= log[j].at)
    && forall i :: 0 <= i < |log| ==> log[i].id <= U32_MAX
  }

  /** The newest frame of a slot, if it was ever written. */
  ghost function Newest(log: seq<Shipped>, slot: nat): Option<Shipped> {
    if log == [] then None
    else if log[|log| - 1].id % RTT_RING == slot then Some(log[|log| - 1])
    else Newest(log[..|log| - 1], slot)
  }

  /** A slot holds the given frame of its class or a newer one. */
  lemma {:induction false} NewestIsNoOlder(log: seq<Shipped>, k: nat)
    requires InOrder(log) && k < |log|
    ensures var n := Newest(log, log[k].id % RTT_RING);
            n.Some? && n.value.id >= log[k].id && n.value.at >= log[k].at && (n.value.id == log[k].id ==> n.value == log[k])
  {
    var last := |log| - 1;
    if log[last].id % RTT_RING != log[k].id % RTT_RING {
      NewestIsNoOlder(log[..last], k);
    }
  }

  /** What a slot of the ring of 128 holds: the last shipped frame whose id falls on it. */
  lemma {:induction false} NewestLaw(log: seq<Shipped>, slot: nat)
    ensures match Newest(log, slot)
            case None => forall i :: 0 <= i < |log| ==> log[i].id % 128 != slot
            case Some(n) => exists k :: 0 <= k < |log| && log[k] == n && n.id % 128 == slot
                              && forall i :: k < i < |log| ==> log[i].id % 128 != slot
  {
    if log != [] {
      var last := |log| - 1;
      NewestLaw(log[..last], slot);
      assert forall i :: 0 <= i < last ==> log[..last][i] == log[i];
      assert log[last].id % 128 == slot ==> Newest(log, slot) == Some(log[last]);
    }
  }

  /** A slot still holds a shipped frame if and only if no later frame fell on it. */
  lemma SlotIsOwnExactly(log: seq<Shipped>, k: nat)
    requires InOrder(log) && k < |log|
    ensures Newest(log, log[k].id % 128) == Some(log[k]) <==> forall i :: k < i < |log| ==> log[i].id % 128 != log[k].id % 128
  {
    NewestLaw(log, log[k].id % 128);
    NewestIsNoOlder(log, k);
    if forall i :: k < i < |log| ==> log[i].id % 128 != log[k].id % 128 {
      var n := Newest(log, log[k].id % 128).value;
      var j :| 0 <= j < |log| && log[j] == n && n.id % 128 == log[k].id % 128;
      assert j <= k;
    }
  }

  /** Frames with consecutive ids from frame k on: it is timed exactly if and only if fewer than 128
      were shipped after it. */
  lemma ExactWithin128(log: seq<Shipped>, k: nat)
    requires InOrder(log) && k < |log| && forall i :: k <= i < |log| ==> log[i].id == log[k].id + (i - k)
    ensures Newest(log, log[k].id % 128) == Some(log[k]) <==> |log| - 1 - k < 128
  {
    SlotIsOwnExactly(log, k);
    forall i | k < i < |log|
      ensures log[i].id % 128 == log[k].id % 128 <==> (i - k) % 128 == 0
    {
      SameSlot(log[k].id, i - k);
    }
    if |log| - 1 - k >= 128 {
      assert (k + 128 - k) % 128 == 0;
      assert log[k + 128].id % 128 == log[k].id % 128;
    }
  }

  lemma SameSlot(id: nat, d: nat)
    ensures (id + d) % 128 == id % 128 <==> d % 128 == 0
  {
  }

  // ---------------------------------------------------------------------------
  // The windowed minimum
  // ---------------------------------------------------------------------------

  /** One round-trip sample and when it was taken; `None` below is an infinite minimum. */
  datatype Sample = Sample(at: Instant, rtt: nat)

  function MinWith(a: Option<nat>, b: nat): nat { if a.Some? then Min(a.value, b) else b }

  /** Folds a sample into the current bucket: its new minimum, and the sample's excess over the
      minimum of both buckets. */
  function QueueDelayFold(sample: nat, bucketMin: Option<nat>, prevBucketMin: Option<nat>): (r: (nat, int))
    ensures r.1 >= 0 && r.0 <= sample
  {
    var cur := MinWith(bucketMin, sample);
    var base := MinWith(prevBucketMin, cur);
    (cur, Max(sample - base, 0))
  }

  /** The buckets; `prevFrom` and `curFrom` are the positions in the sample history where they start. */
  datatype Buckets = Buckets(cur: Option<nat>, prev: Option<nat>, started: Instant, prevFrom: nat, curFrom: nat)

  /** One more sample, the n-th: rotate first if the current bucket is old enough. */
  ghost function Rotated(b: Buckets, now: Instant, n: nat): Buckets {
    if now - b.started >= RTT_MIN_WINDOW then Buckets(None, b.cur, now, b.curFrom, n) else b
  }

  ghost function Folded(b: Buckets, rtt: nat): Buckets {
    b.(cur := Some(QueueDelayFold(rtt, b.cur, b.prev).0))
  }

  /** The buckets after a history of samples on a connection set up at `epoch`. */
  ghost function BucketsAfter(epoch: Instant, samples: seq<Sample>): Buckets {
    if samples == [] then Buckets(None, None, epoch, 0, 0)
    else
      var n := |samples| - 1;
      Folded(Rotated(BucketsAfter(epoch, samples[..n]), samples[n].at, n), samples[n].rtt)
  }

  ghost function MinOf(samples: seq<Sample>): Option<nat> {
    if samples == [] then None else Some(MinWith(MinOf(samples[..|samples| - 1]), samples[|samples| - 1].rtt))
  }

  ghost predicate TimedSamples(epoch: Instant, samples: seq<Sample>) {
    && (forall i :: 0 <= i < |samples| ==> epoch <= samples[i].at)
    && forall i, j :: 0 <= i < j < |samples| ==> samples[i].at <= samples[j].at
  }

  lemma {:induction false} MinOfConcat(a: seq<Sample>, b: seq<Sample>)
    ensures MinOf(a + b) == if MinOf(b).None? then MinOf(a) else Some(MinWith(MinOf(a), MinOf(b).value))
  {
    if b == [] {
      assert a + b == a;
    } else {
      assert (a + b)[..|a + b| - 1] == a + b[..|b| - 1];
      MinOfConcat(a, b[..|b| - 1]);
    }
  }

  /** What the two buckets hold when the next sample comes at `now`: the minimum of the samples
      since they started; samples from before the current bucket are no younger than its start,
      samples from before the previous bucket are at least one window older. */
  ghost predicate BucketsOk(b: Buckets, samples: seq<Sample>) {
    && b.prevFrom <= b.curFrom <= |samples|
    && HoldMinima(b, samples)
    && FirstBy(samples, b.curFrom, b.started) && FirstBy(samples, b.prevFrom, b.started - RTT_MIN_WINDOW)
  }

  ghost predicate HoldMinima(b: Buckets, samples: seq<Sample>)
    requires b.prevFrom <= b.curFrom <= |samples|
  {
    b.cur == MinOf(samples[b.curFrom..]) && b.prev == MinOf(samples[b.prevFrom..b.curFrom])
  }

  /** The first k samples were taken by time t. */
  ghost predicate FirstBy(samples: seq<Sample>, k: nat, t: int)
    requires k <= |samples|
  {
    forall i :: 0 <= i < k ==> samples[i].at <= t
  }

  lemma RotatedOk(b: Buckets, samples: seq<Sample>, now: Instant)
    requires BucketsOk(b, samples) && b.started <= now && FirstBy(samples, |samples|, now)
    ensures var r := Rotated(b, now, |samples|);
            BucketsOk(r, samples) && r.started <= now < r.started + RTT_MIN_WINDOW
  {
    if now - b.started >= RTT_MIN_WINDOW {
      assert samples[|samples|..] == [];
      assert samples[b.curFrom..|samples|] == samples[b.curFrom..];
    }
  }

  lemma FoldedOk(b: Buckets, samples: seq<Sample>, s: Sample)
    requires BucketsOk(b, samples)
    ensures BucketsOk(Folded(b, s.rtt), samples + [s]) && Folded(b, s.rtt).curFrom < |samples + [s]|
  {
    var more := samples + [s];
    var tail := more[b.curFrom..];
    assert tail[..|tail| - 1] == samples[b.curFrom..] && tail[|tail| - 1] == s;
    assert more[b.prevFrom..b.curFrom] == samples[b.prevFrom..b.curFrom];
  }

  ghost predicate BucketsCurrent(epoch: Instant, b: Buckets, samples: seq<Sample>) {
    && BucketsOk(b, samples) && epoch <= b.started
    && (samples != [] ==> b.curFrom < |samples| && b.started <= samples[|samples| - 1].at < b.started + RTT_MIN_WINDOW)
  }

  lemma SampleKeepsCurrent(epoch: Instant, b: Buckets, samples: seq<Sample>, s: Sample)
    requires BucketsCurrent(epoch, b, samples)
    requires epoch <= s.at && b.started <= s.at && FirstBy(samples, |samples|, s.at)
    ensures BucketsCurrent(epoch, Folded(Rotated(b, s.at, |samples|), s.rtt), samples + [s])
  {
    RotatedOk(b, samples, s.at);
    FoldedOk(Rotated(b, s.at, |samples|), samples, s);
    assert (samples + [s])[|samples|] == s;
  }

  lemma {:induction false} BucketsLaw(epoch: Instant, samples: seq<Sample>)
    requires TimedSamples(epoch, samples)
    ensures BucketsCurrent(epoch, BucketsAfter(epoch, samples), samples)
  {
    if samples != [] {
      var n := |samples| - 1;
      TimedPrefix(epoch, samples);
      BucketsLaw(epoch, samples[..n]);
      if n > 0 {
        assert samples[..n][n - 1].at <= samples[n].at;
      }
      SampleKeepsCurrent(epoch, BucketsAfter(epoch, samples[..n]), samples[..n], samples[n]);
    }
  }

  lemma TimedAppend(epoch: Instant, samples: seq<Sample>, s: Sample)
    requires TimedSamples(epoch, samples) && epoch <= s.at && (samples != [] ==> samples[|samples| - 1].at <= s.at)
    ensures TimedSamples(epoch, samples + [s])
    ensures (samples + [s])[..|samples|] == samples
    ensures BucketsAfter(epoch, samples + [s])
         == Folded(Rotated(BucketsAfter(epoch, samples), s.at, |samples|), s.rtt)
    ensures var r := Rotated(BucketsAfter(epoch, samples), s.at, |samples|);
            DelayAfter(epoch, samples + [s]) == QueueDelayFold(s.rtt, r.cur, r.prev).1
  {
    assert (samples + [s])[..|samples|] == samples;
  }

  lemma TimedPrefix(epoch: Instant, samples: seq<Sample>)
    requires TimedSamples(epoch, samples) && samples != []
    ensures var before, s := samples[..|samples| - 1], samples[|samples| - 1];
            && TimedSamples(epoch, before) && epoch <= s.at && samples == before + [s]
            && FirstBy(before, |before|, s.at)
  {
    var before := samples[..|samples| - 1];
    assert forall i :: 0 <= i < |before| ==> before[i] == samples[i];
  }

  /** The queue delay of the last sample. */
  ghost function DelayAfter(epoch: Instant, samples: seq<Sample>): int
    requires samples != []
  {
    var n := |samples| - 1;
    var b := Rotated(BucketsAfter(epoch, samples[..n]), samples[n].at, n);
    QueueDelayFold(samples[n].rtt, b.cur, b.prev).1
  }

  /** Neighbouring samples are at most g apart. */
  ghost predicate Gaps(samples: seq<Sample>, g: nat) {
    forall i, k :: 0 <= i < k < |samples| && k == i + 1 ==> samples[k].at <= samples[i].at + g
  }

  /** From position k on no sample is older than t. */
  ghost predicate FromOn(samples: seq<Sample>, k: nat, t: int) {
    forall i :: k <= i < |samples| ==> t <= samples[i].at
  }

  lemma StartsStep(epoch: Instant, b: Buckets, samples: seq<Sample>, s: Sample, g: nat)
    requires BucketsCurrent(epoch, b, samples) && (samples == [] ==> b.curFrom == 0)
    requires b.started <= s.at && (samples != [] ==> s.at <= samples[|samples| - 1].at + g)
    requires FromOn(samples, b.curFrom, b.started) && FromOn(samples, b.prevFrom, b.started - RTT_MIN_WINDOW - g)
    ensures var r, more := Rotated(b, s.at, |samples|), samples + [s];
            FromOn(more, r.curFrom, r.started) && FromOn(more, r.prevFrom, r.started - RTT_MIN_WINDOW - g)
  {
    var more := samples + [s];
    assert forall i :: 0 <= i < |samples| ==> more[i] == samples[i];
  }

  /** No bucket reaches back beyond its start, and the older one starts at most a window and a gap
      before the newer one. */
  lemma {:induction false} BucketStarts(epoch: Instant, samples: seq<Sample>, g: nat)
    requires TimedSamples(epoch, samples) && Gaps(samples, g)
    ensures var b := BucketsAfter(epoch, samples);
            FromOn(samples, b.curFrom, b.started) && FromOn(samples, b.prevFrom, b.started - RTT_MIN_WINDOW - g)
  {
    if samples != [] {
      var before, s := samples[..|samples| - 1], samples[|samples| - 1];
      TimedPrefix(epoch, samples);
      GapsPrefix(before, s, g);
      BucketsLaw(epoch, before);
      BucketStarts(epoch, before, g);
      StartsStep(epoch, BucketsAfter(epoch, before), before, s, g);
      StartsFolded(epoch, before, s, g);
    }
  }

  lemma GapsPrefix(before: seq<Sample>, s: Sample, g: nat)
    requires Gaps(before + [s], g)
    ensures Gaps(before, g) && (before != [] ==> s.at <= before[|before| - 1].at + g)
  {
    var all := before + [s];
    assert forall i :: 0 <= i < |before| ==> all[i] == before[i];
    assert all[|before|] == s;
  }

  /** Folding a sample in does not move the buckets. */
  lemma StartsFolded(epoch: Instant, before: seq<Sample>, s: Sample, g: nat)
    ensures var b, r := BucketsAfter(epoch, before + [s]), Rotated(BucketsAfter(epoch, before), s.at, |before|);
            b.curFrom == r.curFrom && b.prevFrom == r.prevFrom && b.started == r.started
  {
    assert (before + [s])[..|before|] == before;
  }

  /** The delay is exactly the sample's excess over the minimum of a suffix of the samples.  That
      suffix holds every sample of the last window, and, when samples come at most g apart, none
      that is two windows and a gap old. */
  lemma DelayIsExcessOverWindow(epoch: Instant, samples: seq<Sample>, g: nat)
    requires samples != [] && TimedSamples(epoch, samples)
    ensures var from, last := BucketsAfter(epoch, samples).prevFrom, samples[|samples| - 1];
            && from < |samples|
            && (forall i :: 0 <= i < |samples| && samples[i].at + 30_000_000_000 > last.at ==> i >= from)
            && (Gaps(samples, g) ==> forall i :: from <= i < |samples| ==> last.at < samples[i].at + 60_000_000_000 + g)
            && MinOf(samples[from..]).Some? && DelayAfter(epoch, samples) == last.rtt - MinOf(samples[from..]).value
            && DelayAfter(epoch, samples) >= 0
  {
    var b := BucketsAfter(epoch, samples);
    BucketsLaw(epoch, samples);
    SuffixMin(samples, b);
    if Gaps(samples, g) {
      BucketStarts(epoch, samples, g);
    }
  }

  /** The bound on gaps is needed: buckets rotate only when a sample comes, so after any pause,
      however long, the sample before it is still the base. */
  lemma PauseKeepsBase(epoch: Instant, before: Sample, after: Sample)
    requires epoch <= before.at <= after.at
    ensures DelayAfter(epoch, [before, after]) == Max(after.rtt - before.rtt, 0)
  {
    var one, two := [before], [before, after];
    assert two[..1] == one && one[..0] == [];
    assert BucketsAfter(epoch, []) == Buckets(None, None, epoch, 0, 0);
    assert BucketsAfter(epoch, one) == Folded(Rotated(BucketsAfter(epoch, []), before.at, 0), before.rtt);
  }

  /** Together the buckets hold the minimum of everything since the older one started. */
  lemma SuffixMin(samples: seq<Sample>, b: Buckets)
    requires BucketsOk(b, samples) && b.curFrom < |samples|
    ensures b.cur.Some? && MinOf(samples[b.prevFrom..]) == Some(MinWith(b.prev, b.cur.value))
  {
    var older, newer := samples[b.prevFrom..b.curFrom], samples[b.curFrom..];
    MinOfConcat(older, newer);
    assert older + newer == samples[b.prevFrom..];
  }

  /** The minimum of a list is one of its samples and no sample is below it. */
  lemma {:induction false} MinOfLaw(samples: seq<Sample>)
    ensures MinOf(samples).Some? <==> samples != []
    ensures samples != [] ==> exists i :: 0 <= i < |samples| && samples[i].rtt == MinOf(samples).value
    ensures forall i :: 0 <= i < |samples| ==> MinOf(samples).value <= samples[i].rtt
  {
    if samples != [] {
      var n := |samples| - 1;
      var before := samples[..n];
      MinOfLaw(before);
      assert forall i :: 0 <= i < n ==> before[i] == samples[i];
      if before != [] && MinOf(before).value < samples[n].rtt {
        var i :| 0 <= i < |before| && before[i].rtt == MinOf(before).value;
        assert samples[i].rtt == MinOf(samples).value;
      } else {
        assert samples[n].rtt == MinOf(samples).value;
      }
    }
  }

  // ---------------------------------------------------------------------------
  // The connection state
  // ---------------------------------------------------------------------------

  class AckTimer {
    const shipTimes: array<Shipped>
    var rttMinCur: Option<nat>
    var rttMinPrev: Option<nat>
    var rttBucketStarted: Instant
    var queueDelay: int
    const epoch: Instant
    ghost var log: seq<Shipped>
    ghost var samples: seq<Sample>

    /** The ring holds the newest frame of every slot. */
    ghost predicate RingValid()
      reads this, shipTimes
    {
      && shipTimes.Length == RTT_RING && InOrder(log)
      && forall r :: 0 <= r < RTT_RING ==> shipTimes[r] == Newest(log, r).GetOr(Shipped(NEVER, epoch))
    }

    /** The buckets are those of the sample history. */
    ghost predicate BucketsValid()
      reads this
    {
      TimedSamples(epoch, samples) && Holds(BucketsAfter(epoch, samples))
    }

    ghost predicate Holds(b: Buckets)
      reads this
    {
      rttMinCur == b.cur && rttMinPrev == b.prev && rttBucketStarted == b.started
    }

    ghost predicate Valid()
      reads this, shipTimes
    {
      RingValid() && BucketsValid()
    }

    constructor (now: Instant)
      ensures Valid() && fresh(shipTimes) && log == [] && samples == [] && epoch == now && queueDelay == 0
    {
      epoch := now;
      var none := Shipped(NEVER, now);
      shipTimes := new Shipped[RTT_RING](_ => none);
      rttMinCur, rttMinPrev, rttBucketStarted, queueDelay := None, None, now, 0;
      log, samples := [], [];
    }

    /** A frame leaves the server. */
    method Ship(frameId: nat, now: Instant)
      requires Valid() && frameId <= U32_MAX
      requires log != [] ==> log[|log| - 1].id < frameId && log[|log| - 1].at <= now
      modifies this`log, shipTimes
      ensures Valid() && log == old(log) + [Shipped(frameId, now)]
    {
      ghost var before := log;
      shipTimes[frameId % RTT_RING] := Shipped(frameId, now);
      log := log + [Shipped(frameId, now)];
      assert log[..|before|] == before;
    }

    /** The round trip of an acknowledged frame, as far as the ring can tell. */
    method TimeFrame(frameId: nat, now: Instant) returns (sample: Option<nat>)
      requires RingValid() && frameId <= U32_MAX
      ensures var newest := Newest(log, frameId % RTT_RING);
              sample == if newest.Some? && newest.value.id >= frameId then Some(Max(now - newest.value.at, 0)) else None
    {
      var slot := shipTimes[frameId % RTT_RING];
      NewestBounded(log, frameId % RTT_RING);
      if slot.id == frameId {
        sample := Some(Max(now - slot.at, 0));
      } else if slot.id != NEVER && slot.id > frameId {
        sample := Some(Max(now - slot.at, 0));
      } else {
        sample := None;
      }
    }

    /** Fold a sample into the buckets. */
    method FoldSample(now: Instant, sample: nat, ghost b: Buckets, ghost n: nat)
      requires Holds(b)
      modifies this`rttMinCur, this`rttMinPrev, this`rttBucketStarted, this`queueDelay
      ensures Holds(Folded(Rotated(b, now, n), sample))
      ensures queueDelay == QueueDelayFold(sample, Rotated(b, now, n).cur, Rotated(b, now, n).prev).1
    {
      if now - rttBucketStarted >= RTT_MIN_WINDOW {
        rttMinPrev := rttMinCur;
        rttMinCur := None;
        rttBucketStarted := now;
      }
      var (curMin, delay) := QueueDelayFold(sample, rttMinCur, rttMinPrev);
      rttMinCur := Some(curMin);
      queueDelay := delay;
    }

    method RecordSample(now: Instant, rtt: nat)
      requires BucketsValid() && epoch <= now && (samples != [] ==> samples[|samples| - 1].at <= now)
      modifies this`rttMinCur, this`rttMinPrev, this`rttBucketStarted, this`queueDelay, this`samples
      ensures BucketsValid() && samples == old(samples) + [Sample(now, rtt)] && queueDelay == DelayAfter(epoch, samples)
    {
      FoldSample(now, rtt, BucketsAfter(epoch, samples), |samples|);
      TimedAppend(epoch, samples, Sample(now, rtt));
      samples := samples + [Sample(now, rtt)];
    }

    /** The client acknowledges frame `frameId`. */
    method OnFrameAck(frameId: nat, now: Instant) returns (sample: Option<nat>)
      requires Valid() && frameId <= U32_MAX && epoch <= now && (samples != [] ==> samples[|samples| - 1].at <= now)
      modifies this`rttMinCur, this`rttMinPrev, this`rttBucketStarted, this`queueDelay, this`samples
      ensures Valid()
      ensures samples == old(samples) + if sample.Some? then [Sample(now, sample.value)] else []
      ensures queueDelay == if sample.Some? then DelayAfter(epoch, samples) else old(queueDelay)
      ensures var newest := Newest(log, frameId % RTT_RING);
              sample == if newest.Some? && newest.value.id >= frameId then Some(Max(now - newest.value.at, 0)) else None
    {
      sample := TimeFrame(frameId, now);
      if sample.Some? {
        RecordSample(now, sample.value);
      }
    }
  }

  lemma {:induction false} NewestBounded(log: seq<Shipped>, slot: nat)
    requires InOrder(log)
    ensures Newest(log, slot).Some? ==> Newest(log, slot).value.id <= U32_MAX
  {
    if log != [] {
      NewestBounded(log[..|log| - 1], slot);
    }
  }

  /** The sample that `OnFrameAck` takes for a frame that was shipped: the exact ship-to-ack time
      while its slot is still its own, and a lower bound on it once the slot was overwritten. */
  lemma AckedFrameTimed(log: seq<Shipped>, k: nat, now: Instant)
    requires InOrder(log) && k < |log| && log[|log| - 1].at <= now
    ensures var newest := Newest(log, log[k].id % RTT_RING);
            && newest.Some? && newest.value.id >= log[k].id
            && 0 <= now - newest.value.at <= now - log[k].at
            && (newest.value.id == log[k].id ==> now - newest.value.at == now - log[k].at)
  {
    NewestIsNoOlder(log, k);
    NewestInLog(log, log[k].id % RTT_RING);
  }

  lemma {:induction false} NewestInLog(log: seq<Shipped>, slot: nat)
    ensures Newest(log, slot).Some? ==> Newest(log, slot).value in log
  {
    if log != [] {
      NewestInLog(log[..|log| - 1], slot);
    }
  }
}
