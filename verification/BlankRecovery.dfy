/** The EGFX blank-recovery detector: QoE counters, the per-connection recovery attempts, and the
    storm guard that outlives connections. */
module BlankRecovery {
  import opened Common

  const U64_MAX := 0xFFFF_FFFF_FFFF_FFFF

  /** Nanoseconds. */
  type Instant = nat

  function SaturatingInc(n: nat): nat { Min(n + 1, U64_MAX) }

  /** `saturating_duration_since`. */
  function Since(now: Instant, then_: Instant): nat { Max(now - then_, 0) }

  // ---------------------------------------------------------------------------
  // QoE counters
  // ---------------------------------------------------------------------------

  datatype QoeEvidence = QoeEvidence(zeroStreak: nat, nonzeroStreak: nat, maxNonzeroStreak: nat,
                                     reportsSinceReset: nat, zerosSinceReset: nat, nonzeroMaxSinceReset: nat,
                                     presentedClean: bool) {
    /** Fold in one report. */
    function Record(timeDiffDr: nat): QoeEvidence {
      var q := this.(reportsSinceReset := SaturatingInc(reportsSinceReset));
      if timeDiffDr > 0 then
        var streak := SaturatingInc(nonzeroStreak);
        q.(zeroStreak := 0, nonzeroStreak := streak, maxNonzeroStreak := Max(maxNonzeroStreak, streak),
           nonzeroMaxSinceReset := Max(nonzeroMaxSinceReset, streak))
      else
        q.(nonzeroStreak := 0, zeroStreak := SaturatingInc(zeroStreak), zerosSinceReset := SaturatingInc(zerosSinceReset))
    }

    /** A fresh evidence window; the facts about the whole connection survive. */
    function ResetStreaks(): QoeEvidence {
      this.(zeroStreak := 0, nonzeroStreak := 0, reportsSinceReset := 0, zerosSinceReset := 0, nonzeroMaxSinceReset := 0)
    }

    predicate Established(establishedRenderReports: nat) {
      maxNonzeroStreak >= establishedRenderReports
    }
  }

  const NO_EVIDENCE := QoeEvidence(0, 0, 0, 0, 0, 0, false)

  /** What happened to the counters of a connection. */
  datatype QoeEvent = Report(timeDiffDr: nat) | Reset

  type History = seq<QoeEvent>

  ghost predicate IsReport(e: QoeEvent, zero: bool) {
    e.Report? && (e.timeDiffDr == 0) == zero
  }

  /** Events i .. j are all zero reports, or all nonzero ones. */
  ghost predicate IsStreak(h: History, i: int, j: int, zero: bool) {
    0 <= i <= j <= |h| && forall k :: i <= k < j ==> IsReport(h[k], zero)
  }

  /** Length of the streak that ends the history. */
  ghost function EndStreak(h: History, zero: bool): nat {
    if h != [] && IsReport(h[|h| - 1], zero) then 1 + EndStreak(h[..|h| - 1], zero) else 0
  }

  /** Length of the longest nonzero streak. */
  ghost function LongestStreak(h: History): nat {
    if h == [] then 0 else Max(LongestStreak(h[..|h| - 1]), EndStreak(h, false))
  }

  /** Where the current evidence window starts: right after the last reset. */
  ghost function WindowStart(h: History): (r: nat)
    ensures r <= |h|
  {
    if h == [] then 0 else if h[|h| - 1].Reset? then |h| else WindowStart(h[..|h| - 1])
  }

  ghost function CountZeros(h: History): nat {
    if h == [] then 0 else CountZeros(h[..|h| - 1]) + if IsReport(h[|h| - 1], true) then 1 else 0
  }

  lemma {:induction false} EndStreakLaw(h: History, zero: bool)
    ensures var n := EndStreak(h, zero);
            IsStreak(h, |h| - n, |h|, zero) && !IsStreak(h, |h| - n - 1, |h|, zero)
  {
    if h != [] {
      var p := h[..|h| - 1];
      EndStreakLaw(p, zero);
      if IsReport(h[|h| - 1], zero) {
        var i := |h| - EndStreak(h, zero);
        assert forall k :: i - 1 <= k < |p| && 0 <= k ==> h[k] == p[k];
        assert IsStreak(h, i - 1, |h|, zero) ==> IsStreak(p, i - 1, |p|, zero);
      }
    }
  }

  /** The longest streak exists and no other is longer. */
  lemma {:induction false} LongestStreakLaw(h: History)
    ensures exists i, j :: IsStreak(h, i, j, false) && j - i == LongestStreak(h)
    ensures forall i, j :: IsStreak(h, i, j, false) ==> j - i <= LongestStreak(h)
  {
    if h == [] {
      assert IsStreak(h, 0, 0, false);
    } else {
      var p := h[..|h| - 1];
      LongestStreakLaw(p);
      EndStreakLaw(h, false);
      forall i, j | IsStreak(h, i, j, false)
        ensures j - i <= LongestStreak(h)
      {
        if j < |h| {
          assert IsStreak(p, i, j, false) by {
            assert forall k :: i <= k < j ==> p[k] == h[k];
          }
        } else if j - i > EndStreak(h, false) {
          assert IsStreak(h, |h| - EndStreak(h, false) - 1, |h|, false);
        }
      }
      if LongestStreak(h) == EndStreak(h, false) {
        assert IsStreak(h, |h| - LongestStreak(h), |h|, false);
      } else {
        var i, j :| IsStreak(p, i, j, false) && j - i == LongestStreak(p);
        assert IsStreak(h, i, j, false) by {
          assert forall k :: i <= k < j ==> p[k] == h[k];
        }
      }
    }
  }

  /** The counters after a history. */
  ghost function Counters(h: History): QoeEvidence {
    if h == [] then NO_EVIDENCE
    else
      match h[|h| - 1]
      case Report(dr) => Counters(h[..|h| - 1]).Record(dr)
      case Reset => Counters(h[..|h| - 1]).ResetStreaks()
  }

  /** What every counter counts, up to saturation at 64 bits. */
  lemma {:induction false} CountersLaw(h: History)
    ensures var q, window := Counters(h), h[WindowStart(h)..];
            && q.zeroStreak == Min(EndStreak(h, true), 0xFFFF_FFFF_FFFF_FFFF)
            && q.nonzeroStreak == Min(EndStreak(h, false), 0xFFFF_FFFF_FFFF_FFFF)
            && q.maxNonzeroStreak == Min(LongestStreak(h), 0xFFFF_FFFF_FFFF_FFFF)
            && q.reportsSinceReset == Min(|window|, 0xFFFF_FFFF_FFFF_FFFF)
            && q.zerosSinceReset == Min(CountZeros(window), 0xFFFF_FFFF_FFFF_FFFF)
            && q.nonzeroMaxSinceReset == Min(LongestStreak(window), 0xFFFF_FFFF_FFFF_FFFF)
            && !q.presentedClean
            && (forall e :: e in window ==> e.Report?)
  {
    if h != [] {
      var p, last := h[..|h| - 1], h[|h| - 1];
      CountersLaw(p);
      if last.Report? {
        WindowGrows(h);
        WindowEndStreak(h);
        RecordLaw(Counters(p), last.timeDiffDr);
      } else {
        assert h[WindowStart(h)..] == [];
      }
    }
  }

  lemma WindowGrows(h: History)
    requires h != [] && h[|h| - 1].Report?
    ensures var p, w := h[..|h| - 1], h[WindowStart(h)..];
            w != [] && w[..|w| - 1] == p[WindowStart(p)..] && w[|w| - 1] == h[|h| - 1]
  {
  }

  lemma RecordLaw(q: QoeEvidence, dr: nat)
    ensures var r := q.Record(dr);
            && r.zeroStreak == (if dr == 0 then SaturatingInc(q.zeroStreak) else 0)
            && r.nonzeroStreak == (if dr == 0 then 0 else SaturatingInc(q.nonzeroStreak))
            && r.maxNonzeroStreak == Max(q.maxNonzeroStreak, r.nonzeroStreak)
            && r.nonzeroMaxSinceReset == Max(q.nonzeroMaxSinceReset, r.nonzeroStreak)
            && r.zerosSinceReset == (if dr == 0 then SaturatingInc(q.zerosSinceReset) else q.zerosSinceReset)
            && r.reportsSinceReset == SaturatingInc(q.reportsSinceReset) && r.presentedClean == q.presentedClean
  {
  }

  /** A streak does not reach back over a reset. */
  lemma {:induction false} WindowEndStreak(h: History)
    ensures EndStreak(h[WindowStart(h)..], false) == EndStreak(h, false)
  {
    if h != [] && h[|h| - 1].Report? {
      WindowEndStreak(h[..|h| - 1]);
      WindowGrows(h);
    }
  }

  // ---------------------------------------------------------------------------
  // The decision
  // ---------------------------------------------------------------------------

  datatype Params = Params(minQoeReports: nat, minRenderReports: nat, establishedRenderReports: nat,
                           establishedMinQoe: nat, establishedMaxWait: nat, establishedWallReports: nat,
                           armDelay: nat, retryInterval: nat, healConfirmDeadline: nat, maxAttempts: nat,
                           reactivate: bool, blankMaxWait: nat, blankMinReports: nat,
                           maxConsecutiveDrops: nat, maxRttMs: nat)

  predicate ShouldBlankRecover(qoe: QoeEvidence, egfxAcksSeen: bool, acksSuspended: bool, sinceConnect: nat,
                               sinceLastNonzero: nat, sinceLastAttempt: nat, attempts: nat, ackedSinceAttempt: bool, p: Params)
  {
    var presentingNow := qoe.nonzeroStreak >= p.minRenderReports;
    var established := qoe.Established(p.establishedRenderReports);
    var countThreshold := if established then p.establishedMinQoe else p.minQoeReports;
    var establishedBlackout :=
      established && sinceLastNonzero >= p.establishedMaxWait && qoe.zeroStreak >= p.establishedWallReports;
    var postAttemptUnconfirmed :=
      && attempts >= 1 && p.healConfirmDeadline != 0 && sinceLastAttempt >= p.healConfirmDeadline && ackedSinceAttempt
      && qoe.nonzeroMaxSinceReset < p.minRenderReports
      && (qoe.reportsSinceReset == 0 || qoe.zerosSinceReset >= p.blankMinReports);
    var blankEvidence :=
      || qoe.zeroStreak >= countThreshold || establishedBlackout || postAttemptUnconfirmed
      || (sinceConnect >= p.blankMaxWait && qoe.zeroStreak >= p.blankMinReports && !established);
    && !qoe.presentedClean
    && blankEvidence && !presentingNow && egfxAcksSeen && !acksSuspended
    && sinceConnect >= p.armDelay && sinceLastAttempt >= p.retryInterval && attempts < p.maxAttempts
  }

  datatype BlankAction = Remap | Drop | Reactivate

  function ActionFor(attempt: nat, maxAttempts: nat): BlankAction {
    if attempt < maxAttempts then Remap else Drop
  }

  predicate BlankDropCapped(consecutiveDrops: nat, cap: nat) {
    cap > 0 && consecutiveDrops >= cap
  }

  predicate StormGuardShouldReset(qoe: QoeEvidence, establishedRenderReports: nat, currentDrops: nat) {
    currentDrops != 0 && qoe.Established(establishedRenderReports)
  }

  /** The evidence multiplier of a link in 25ths (1x up to 25 ms, 4x from 100 ms on), or no
      recovery at all on a link slower than the limit. */
  function RttGate(linkRttMs: nat, maxRttMs: nat): (r: Option<nat>)
    ensures r.Some? ==> 25 <= r.value <= 100
  {
    if maxRttMs == 0 || linkRttMs == 0 then Some(25)
    else if linkRttMs >= maxRttMs then None
    else Some(Max(25, Min(linkRttMs, 100)))
  }

  function Scaled(p: Params, c: nat): Params {
    p.(minQoeReports := (p.minQoeReports * c + 24) / 25,
       establishedMinQoe := (p.establishedMinQoe * c + 24) / 25,
       armDelay := p.armDelay * c / 25,
       blankMaxWait := p.blankMaxWait * c / 25,
       establishedMaxWait := p.establishedMaxWait * c / 25,
       healConfirmDeadline := p.healConfirmDeadline * c / 25)
  }

  // ---------------------------------------------------------------------------
  // Connections
  // ---------------------------------------------------------------------------

  /** `history` and `fired` (times of the executed attempts) record what the counters forget. */
  datatype ConnectionContext = ConnectionContext(epoch: Instant, linkRttMs: nat, qoe: QoeEvidence,
                                                 egfxAcksSeen: bool, acksSuspended: bool, lastAckAdvanceAt: Instant,
                                                 lastNonzeroQoeAt: Instant, blankRecoveryAttempts: nat, lastBlankRecoveryAt: Instant,
                                                 history: History, fired: seq<Instant>)

  datatype State = State(ctx: Option<ConnectionContext>, consecutiveBlankDrops: nat)

  function NewConnection(now: Instant, linkRttMs: nat): ConnectionContext {
    ConnectionContext(now, linkRttMs, NO_EVIDENCE, false, false, now, now, 0, now, [], [])
  }

  function Acked(c: ConnectionContext, now: Instant, queueDepth: nat): ConnectionContext {
    if queueDepth == U32_MAX then c.(acksSuspended := true)
    else c.(acksSuspended := false, egfxAcksSeen := true, lastAckAdvanceAt := now)
  }

  function Reported(c: ConnectionContext, p: Params, now: Instant, timeDiffDr: nat): ConnectionContext {
    var q := c.qoe.Record(timeDiffDr);
    var latch := !q.presentedClean && c.blankRecoveryAttempts == 0 && q.nonzeroStreak >= p.minRenderReports;
    c.(qoe := if latch then q.(presentedClean := true) else q,
       lastNonzeroQoeAt := if timeDiffDr > 0 then now else c.lastNonzeroQoeAt,
       history := c.history + [Report(timeDiffDr)])
  }

  predicate Fires(c: ConnectionContext, p: Params, now: Instant) {
    var gate := RttGate(c.linkRttMs, p.maxRttMs);
    gate.Some? &&
    ShouldBlankRecover(c.qoe, c.egfxAcksSeen, c.acksSuspended, Since(now, c.epoch), Since(now, c.lastNonzeroQoeAt),
                       Since(now, c.lastBlankRecoveryAt), c.blankRecoveryAttempts,
                       c.lastAckAdvanceAt > c.lastBlankRecoveryAt, Scaled(p, gate.value))
  }

  function ChooseAction(p: Params, attempt: nat): BlankAction {
    if p.reactivate then (if attempt == 1 then Reactivate else Drop) else ActionFor(attempt, p.maxAttempts)
  }

  /** An executed attempt: the evidence window starts over. */
  function Attempted(c: ConnectionContext, now: Instant): ConnectionContext {
    c.(blankRecoveryAttempts := c.blankRecoveryAttempts + 1, lastBlankRecoveryAt := now,
       qoe := c.qoe.ResetStreaks(), history := c.history + [Reset], fired := c.fired + [now])
  }

  /** One capture, given the detector's verdict: the new state, and the action it dispatches. */
  function CapturedWhen(c: ConnectionContext, drops: nat, p: Params, now: Instant, fires: bool): (State, Option<BlankAction>) {
    var drops1 := if StormGuardShouldReset(c.qoe, p.establishedRenderReports, drops) then 0 else drops;
    if !fires then (State(Some(c), drops1), None)
    else
      var action := ChooseAction(p, c.blankRecoveryAttempts + 1);
      if action.Drop? && BlankDropCapped(drops1, p.maxConsecutiveDrops)
      then (State(Some(c.(blankRecoveryAttempts := p.maxAttempts)), drops1), None)
      else (State(Some(Attempted(c, now)), if action.Drop? then Min(drops1 + 1, U32_MAX) else drops1), Some(action))
  }

  function Captured(c: ConnectionContext, drops: nat, p: Params, now: Instant): (State, Option<BlankAction>) {
    CapturedWhen(c, drops, p, now, Fires(c, p, now))
  }

  datatype Input =
    | Connect(now: Instant, linkRttMs: nat)
    | FrameAck(now: Instant, queueDepth: nat)
    | QoeMetrics(now: Instant, timeDiffDr: nat)
    | SubmitBgra(now: Instant)

  function Next(s: State, p: Params, i: Input): (State, Option<BlankAction>) {
    match i
    case Connect(now, rtt) => (s.(ctx := Some(NewConnection(now, rtt))), None)
    case FrameAck(now, depth) => (if s.ctx.Some? then s.(ctx := Some(Acked(s.ctx.value, now, depth))) else s, None)
    case QoeMetrics(now, dr) => (if s.ctx.Some? then s.(ctx := Some(Reported(s.ctx.value, p, now, dr))) else s, None)
    case SubmitBgra(now) => if s.ctx.Some? then Captured(s.ctx.value, s.consecutiveBlankDrops, p, now) else (s, None)
  }

  class Gfx {
    var ctx: Option<ConnectionContext>
    var consecutiveBlankDrops: nat
    const blankParams: Params

    ghost function View(): State
      reads this
    {
      State(ctx, consecutiveBlankDrops)
    }

    constructor (p: Params)
      ensures View() == State(None, 0) && blankParams == p
    {
      blankParams := p;
      ctx, consecutiveBlankDrops := None, 0;
    }

    method BuildServer(now: Instant, linkRttMs: nat)
      modifies this
      ensures View() == Next(old(View()), blankParams, Connect(now, linkRttMs)).0
    {
      ctx := Some(NewConnection(now, linkRttMs));
    }

    method OnFrameAck(now: Instant, queueDepth: nat)
      modifies this
      ensures View() == Next(old(View()), blankParams, FrameAck(now, queueDepth)).0
    {
      if ctx.Some? {
        ctx := Some(ctx.value.(acksSuspended := queueDepth == U32_MAX));
        if !ctx.value.acksSuspended {
          ctx := Some(ctx.value.(egfxAcksSeen := true));
          ctx := Some(ctx.value.(lastAckAdvanceAt := now));
        }
      }
    }

    method OnQoeMetrics(now: Instant, timeDiffDr: nat)
      modifies this
      ensures View() == Next(old(View()), blankParams, QoeMetrics(now, timeDiffDr)).0
    {
      if ctx.Some? {
        var c := ctx.value;
        c := c.(qoe := c.qoe.Record(timeDiffDr), history := c.history + [Report(timeDiffDr)]);
        if timeDiffDr > 0 {
          c := c.(lastNonzeroQoeAt := now);
        }
        if !c.qoe.presentedClean && c.blankRecoveryAttempts == 0 && c.qoe.nonzeroStreak >= blankParams.minRenderReports {
          c := c.(qoe := c.qoe.(presentedClean := true));
        }
        ctx := Some(c);
      }
    }

    method DetectBlank(now: Instant) returns (dispatched: Option<BlankAction>)
      modifies this
      ensures (View(), dispatched) == Next(old(View()), blankParams, SubmitBgra(now))
    {
      dispatched := None;
      if ctx.None? {
        return;
      }
      var c := ctx.value;
      if StormGuardShouldReset(c.qoe, blankParams.establishedRenderReports, consecutiveBlankDrops) {
        consecutiveBlankDrops := 0;
      }
      if !Fires(c, blankParams, now) {
        return;
      }
      var attemptNo := c.blankRecoveryAttempts + 1;
      var action := if blankParams.reactivate then (if attemptNo == 1 then Reactivate else Drop)
                    else ActionFor(attemptNo, blankParams.maxAttempts);
      var dropsSoFar := consecutiveBlankDrops;
      if action == Drop && BlankDropCapped(dropsSoFar, blankParams.maxConsecutiveDrops) {
        ctx := Some(c.(blankRecoveryAttempts := blankParams.maxAttempts));
      } else {
        c := c.(blankRecoveryAttempts := attemptNo, lastBlankRecoveryAt := now);
        c := c.(qoe := c.qoe.ResetStreaks(), history := c.history + [Reset], fired := c.fired + [now]);
        ctx := Some(c);
        if action == Drop {
          consecutiveBlankDrops := Min(dropsSoFar + 1, U32_MAX);
        }
        dispatched := Some(action);
      }
    }
  }

  // ---------------------------------------------------------------------------
  // What every run keeps
  // ---------------------------------------------------------------------------

  ghost predicate Spaced(times: seq<Instant>, gap: nat) {
    forall i, j :: 0 <= i < j < |times| ==> times[i] + gap <= times[j]
  }

  /** Over one connection, up to time `now`. */
  ghost predicate ConnectionInv(c: ConnectionContext, p: Params, now: Instant) {
    && c.qoe == Counters(c.history).(presentedClean := c.qoe.presentedClean)
    && (c.qoe.presentedClean <==> c.blankRecoveryAttempts == 0 && LongestStreak(c.history) >= p.minRenderReports)
    && |c.fired| <= c.blankRecoveryAttempts <= p.maxAttempts
    && c.lastBlankRecoveryAt == (if c.fired == [] then c.epoch else c.fired[|c.fired| - 1])
    && c.epoch <= c.lastBlankRecoveryAt <= now
    && Spaced(c.fired, p.retryInterval)
    && forall t :: t in c.fired ==> c.epoch + p.armDelay <= t && c.epoch + p.retryInterval <= t
  }

  ghost predicate Inv(s: State, p: Params, now: Instant) {
    && (s.ctx.Some? ==> ConnectionInv(s.ctx.value, p, now))
    && (p.maxConsecutiveDrops > 0 ==> s.consecutiveBlankDrops <= p.maxConsecutiveDrops)
  }

  /** Configured thresholds are positive and fit their types. */
  ghost predicate GoodParams(p: Params) {
    0 < p.minRenderReports <= U64_MAX && 0 < p.maxAttempts
  }

  lemma ScaleUp(d: nat, c: nat)
    requires c >= 25
    ensures d * c / 25 >= d
  {
    assert d * c == d * (c - 25) + 25 * d && d * (c - 25) >= 0;
  }

  lemma FiredInTime(c: ConnectionContext, p: Params, before: Instant, now: Instant)
    requires ConnectionInv(c, p, before) && before <= now && Fires(c, p, now)
    ensures c.epoch + p.armDelay <= now && c.lastBlankRecoveryAt + p.retryInterval <= now
    ensures !c.qoe.presentedClean && c.blankRecoveryAttempts < p.maxAttempts
  {
    ScaleUp(p.armDelay, RttGate(c.linkRttMs, p.maxRttMs).value);
  }

  lemma ReportKeepsInv(c: ConnectionContext, p: Params, before: Instant, now: Instant, dr: nat)
    requires ConnectionInv(c, p, before) && before <= now && GoodParams(p)
    ensures ConnectionInv(Reported(c, p, now, dr), p, now)
  {
    var h := c.history + [Report(dr)];
    assert h[..|h| - 1] == c.history;
    CountersLaw(h);
    RecordLaw(c.qoe, dr);
    RecordLaw(Counters(c.history), dr);
    assert LongestStreak(h) == Max(LongestStreak(c.history), EndStreak(h, false));
  }

  lemma SpacedAppend(times: seq<Instant>, gap: nat, now: Instant)
    requires Spaced(times, gap) && (times != [] ==> times[|times| - 1] + gap <= now)
    ensures Spaced(times + [now], gap)
  {
    var n := |times|;
    forall i, j | 0 <= i < j < n + 1
      ensures (times + [now])[i] + gap <= (times + [now])[j]
    {
      if j == n && i < n - 1 {
        assert times[i] + gap <= times[n - 1];
      }
    }
  }

  lemma FiredAppend(times: seq<Instant>, a: nat, b: nat, now: Instant)
    requires (forall t :: t in times ==> a <= t && b <= t) && a <= now && b <= now
    ensures forall t :: t in times + [now] ==> a <= t && b <= t
  {
  }

  lemma AttemptKeepsInv(c: ConnectionContext, p: Params, before: Instant, now: Instant)
    requires ConnectionInv(c, p, before) && before <= now && GoodParams(p)
    requires c.epoch + p.armDelay <= now && c.lastBlankRecoveryAt + p.retryInterval <= now
    requires !c.qoe.presentedClean && c.blankRecoveryAttempts < p.maxAttempts
    ensures ConnectionInv(Attempted(c, now), p, now)
  {
    var h := c.history + [Reset];
    assert h[..|h| - 1] == c.history;
    assert Counters(h) == Counters(c.history).ResetStreaks();
    SpacedAppend(c.fired, p.retryInterval, now);
    FiredAppend(c.fired, c.epoch + p.armDelay, c.epoch + p.retryInterval, now);
  }

  lemma CaptureKeepsInv(c: ConnectionContext, drops: nat, p: Params, before: Instant, now: Instant, fires: bool)
    requires ConnectionInv(c, p, before) && before <= now && GoodParams(p)
    requires p.maxConsecutiveDrops > 0 ==> drops <= p.maxConsecutiveDrops
    requires fires ==> c.epoch + p.armDelay <= now && c.lastBlankRecoveryAt + p.retryInterval <= now
    requires fires ==> !c.qoe.presentedClean && c.blankRecoveryAttempts < p.maxAttempts
    ensures Inv(CapturedWhen(c, drops, p, now, fires).0, p, now)
  {
    if fires {
      AttemptKeepsInv(c, p, before, now);
      assert ConnectionInv(c.(blankRecoveryAttempts := p.maxAttempts), p, now);
    }
  }

  lemma NextKeepsInv(s: State, p: Params, i: Input, before: Instant)
    requires Inv(s, p, before) && before <= i.now && GoodParams(p)
    ensures Inv(Next(s, p, i).0, p, i.now)
  {
    match i
    case Connect(now, rtt) => assert Counters([]) == NO_EVIDENCE;
    case FrameAck(_, _) =>
    case QoeMetrics(now, dr) =>
      if s.ctx.Some? {
        ReportKeepsInv(s.ctx.value, p, before, now, dr);
      }
    case SubmitBgra(now) =>
      if s.ctx.Some? {
        var c := s.ctx.value;
        if Fires(c, p, now) {
          FiredInTime(c, p, before, now);
        }
        CaptureKeepsInv(c, s.consecutiveBlankDrops, p, before, now, Fires(c, p, now));
      }
  }

  /** A run over any number of connections. */
  ghost predicate IsRun(p: Params, inputs: seq<Input>, states: seq<State>, actions: seq<Option<BlankAction>>) {
    && |states| == |inputs| + 1 && |actions| == |inputs| && states[0] == State(None, 0)
    && (forall k :: 0 <= k < |inputs| ==> (states[k + 1], actions[k]) == Next(states[k], p, inputs[k]))
    && (forall j, k :: 0 <= j < k < |inputs| ==> inputs[j].now <= inputs[k].now)
  }

  /** The time of the last of the first k inputs. */
  ghost function TimeAt(inputs: seq<Input>, k: nat): Instant
    requires k <= |inputs|
  {
    if k == 0 then 0 else inputs[k - 1].now
  }

  lemma RunStep(p: Params, inputs: seq<Input>, states: seq<State>, actions: seq<Option<BlankAction>>, k: nat)
    requires IsRun(p, inputs, states, actions) && k < |inputs|
    ensures states[k + 1] == Next(states[k], p, inputs[k]).0 && actions[k] == Next(states[k], p, inputs[k]).1
    ensures TimeAt(inputs, k) <= inputs[k].now == TimeAt(inputs, k + 1)
  {
    assert (states[k + 1], actions[k]) == Next(states[k], p, inputs[k]);
  }

  lemma {:induction false} RunInv(p: Params, inputs: seq<Input>, states: seq<State>, actions: seq<Option<BlankAction>>, k: nat)
    requires IsRun(p, inputs, states, actions) && GoodParams(p) && k <= |inputs|
    ensures Inv(states[k], p, TimeAt(inputs, k))
  {
    if k == 0 {
      assert states[0] == State(None, 0);
    } else {
      RunInv(p, inputs, states, actions, k - 1);
      RunStep(p, inputs, states, actions, k - 1);
      NextKeepsInv(states[k - 1], p, inputs[k - 1], TimeAt(inputs, k - 1));
    }
  }

  /** What holds of the connection at every point of every run: the counters are those of its
      report history, the clean latch is on exactly when a long enough nonzero streak came before
      any attempt, and attempts are bounded, spaced and never early. */
  lemma ConnectionLaws(p: Params, inputs: seq<Input>, states: seq<State>, actions: seq<Option<BlankAction>>, k: nat)
    requires IsRun(p, inputs, states, actions) && GoodParams(p) && k <= |inputs| && states[k].ctx.Some?
    ensures var c := states[k].ctx.value;
            && c.qoe.zeroStreak == Min(EndStreak(c.history, true), U64_MAX)
            && c.qoe.maxNonzeroStreak == Min(LongestStreak(c.history), U64_MAX)
            && c.qoe.zerosSinceReset == Min(CountZeros(c.history[WindowStart(c.history)..]), U64_MAX)
            && (c.qoe.presentedClean <==> c.blankRecoveryAttempts == 0 && LongestStreak(c.history) >= p.minRenderReports)
            && |c.fired| <= c.blankRecoveryAttempts <= p.maxAttempts
            && Spaced(c.fired, p.retryInterval)
            && (forall i :: 0 <= i < |c.fired| ==> c.epoch + p.armDelay <= c.fired[i])
  {
    RunInv(p, inputs, states, actions, k);
    var c := states[k].ctx.value;
    CountersLaw(c.history);
    assert forall i :: 0 <= i < |c.fired| ==> c.fired[i] in c.fired;
  }

  /** The fewest zero reports that any of the detector's paths asks for before a first attempt. */
  function LeastEvidence(p: Params): nat {
    Min(Min(p.minQoeReports, p.establishedMinQoe), Min(p.establishedWallReports, p.blankMinReports))
  }

  lemma ScaleUpCeil(d: nat, c: nat)
    requires c >= 25
    ensures (d * c + 24) / 25 >= d
  {
    ScaleUp(d, c);
  }

  /** What a verdict to recover rests on. */
  lemma FiresOnEvidence(c: ConnectionContext, p: Params, now: Instant)
    requires Fires(c, p, now)
    ensures c.egfxAcksSeen && !c.acksSuspended && !c.qoe.presentedClean && c.qoe.nonzeroStreak < p.minRenderReports
    ensures c.blankRecoveryAttempts == 0 ==> c.qoe.zeroStreak >= LeastEvidence(p)
  {
    var m := RttGate(c.linkRttMs, p.maxRttMs).value;
    ScaleUpCeil(p.minQoeReports, m);
    ScaleUpCeil(p.establishedMinQoe, m);
  }

  /** Every dispatched action, in every run: the client acknowledges frames and the reports that
      end the history are no presenting streak; and a connection's first attempt is made only if it
      never presented and its last reports, at least `LeastEvidence` of them, are all zero.  With
      positive thresholds a client that sends no reports is left alone. */
  lemma AttemptsNeedEvidence(p: Params, inputs: seq<Input>, states: seq<State>, actions: seq<Option<BlankAction>>, k: nat)
    requires IsRun(p, inputs, states, actions) && GoodParams(p) && k < |inputs| && actions[k].Some?
    ensures inputs[k].SubmitBgra? && states[k].ctx.Some?
    ensures var c := states[k].ctx.value;
            && c.egfxAcksSeen && !c.acksSuspended && EndStreak(c.history, false) < p.minRenderReports
            && (c.blankRecoveryAttempts == 0 ==>
                  LongestStreak(c.history) < p.minRenderReports && EndStreak(c.history, true) >= LeastEvidence(p))
  {
    RunStep(p, inputs, states, actions, k);
    RunInv(p, inputs, states, actions, k);
    var c := states[k].ctx.value;
    FiresOnEvidence(c, p, inputs[k].now);
    CountersLaw(c.history);
  }

  // ---------------------------------------------------------------------------
  // The connection's fields, from the inputs since it was made
  // ---------------------------------------------------------------------------

  /** Has a connection been made among the first k inputs? */
  ghost predicate Connected(inputs: seq<Input>, k: nat)
    requires k <= |inputs|
  {
    k > 0 && (inputs[k - 1].Connect? || Connected(inputs, k - 1))
  }

  ghost function ConnectAt(inputs: seq<Input>, k: nat): Instant
    requires k <= |inputs|
  {
    if k == 0 then 0 else if inputs[k - 1].Connect? then inputs[k - 1].now else ConnectAt(inputs, k - 1)
  }

  ghost function LinkRtt(inputs: seq<Input>, k: nat): nat
    requires k <= |inputs|
  {
    if k == 0 then 0 else if inputs[k - 1].Connect? then inputs[k - 1].linkRttMs else LinkRtt(inputs, k - 1)
  }

  /** A frame acknowledgement came on this connection that was not the suspend sentinel. */
  ghost predicate AckSeen(inputs: seq<Input>, k: nat)
    requires k <= |inputs|
  {
    k > 0 && !inputs[k - 1].Connect? &&
    ((inputs[k - 1].FrameAck? && inputs[k - 1].queueDepth != 0xFFFF_FFFF) || AckSeen(inputs, k - 1))
  }

  /** The latest frame acknowledgement of this connection was the suspend sentinel. */
  ghost predicate LastAckSuspends(inputs: seq<Input>, k: nat)
    requires k <= |inputs|
  {
    k > 0 && !inputs[k - 1].Connect? &&
    if inputs[k - 1].FrameAck? then inputs[k - 1].queueDepth == 0xFFFF_FFFF else LastAckSuspends(inputs, k - 1)
  }

  /** Time of the latest counting acknowledgement, or of the connect. */
  ghost function LastAckAt(inputs: seq<Input>, k: nat): Instant
    requires k <= |inputs|
  {
    if k == 0 then 0
    else if inputs[k - 1].Connect? || (inputs[k - 1].FrameAck? && inputs[k - 1].queueDepth != 0xFFFF_FFFF) then inputs[k - 1].now
    else LastAckAt(inputs, k - 1)
  }

  /** Time of the latest nonzero report, or of the connect. */
  ghost function LastNonzeroAt(inputs: seq<Input>, k: nat): Instant
    requires k <= |inputs|
  {
    if k == 0 then 0
    else if inputs[k - 1].Connect? || (inputs[k - 1].QoeMetrics? && inputs[k - 1].timeDiffDr > 0) then inputs[k - 1].now
    else LastNonzeroAt(inputs, k - 1)
  }

  /** Time of the latest dispatched action, or of the connect. */
  ghost function LastActionAt(inputs: seq<Input>, actions: seq<Option<BlankAction>>, k: nat): Instant
    requires k <= |inputs| == |actions|
  {
    if k == 0 then 0
    else if inputs[k - 1].Connect? || actions[k - 1].Some? then inputs[k - 1].now
    else LastActionAt(inputs, actions, k - 1)
  }

  /** How many actions were dispatched on this connection. */
  ghost function ActionCount(inputs: seq<Input>, actions: seq<Option<BlankAction>>, k: nat): nat
    requires k <= |inputs| == |actions|
  {
    if k == 0 || inputs[k - 1].Connect? then 0
    else ActionCount(inputs, actions, k - 1) + if actions[k - 1].Some? then 1 else 0
  }

  /** The reports of this connection, with a reset where an action was dispatched. */
  ghost function HistoryOf(inputs: seq<Input>, actions: seq<Option<BlankAction>>, k: nat): History
    requires k <= |inputs| == |actions|
  {
    if k == 0 || inputs[k - 1].Connect? then []
    else
      var event := if inputs[k - 1].QoeMetrics? then [Report(inputs[k - 1].timeDiffDr)]
                   else if actions[k - 1].Some? then [Reset] else [];
      HistoryOf(inputs, actions, k - 1) + event
  }

  ghost predicate FieldsAre(p: Params, inputs: seq<Input>, actions: seq<Option<BlankAction>>, k: nat, c: ConnectionContext)
    requires k <= |inputs| == |actions|
  {
    && c.epoch == ConnectAt(inputs, k) && c.linkRttMs == LinkRtt(inputs, k)
    && c.egfxAcksSeen == AckSeen(inputs, k) && c.acksSuspended == LastAckSuspends(inputs, k)
    && c.lastAckAdvanceAt == LastAckAt(inputs, k) && c.lastNonzeroQoeAt == LastNonzeroAt(inputs, k)
    && c.lastBlankRecoveryAt == LastActionAt(inputs, actions, k)
    && c.history == HistoryOf(inputs, actions, k) && |c.fired| == ActionCount(inputs, actions, k)
    && (c.blankRecoveryAttempts == |c.fired| || c.blankRecoveryAttempts == p.maxAttempts)
  }

  /** What a capture leaves of a connection. */
  lemma CapturedFields(c: ConnectionContext, drops: nat, p: Params, now: Instant, fires: bool)
    requires fires ==> c.blankRecoveryAttempts < p.maxAttempts
    ensures var (next, action) := CapturedWhen(c, drops, p, now, fires);
            && next.ctx.Some?
            && next.ctx.value == match action
               case Some(_) => Attempted(c, now)
               case None => if fires then c.(blankRecoveryAttempts := p.maxAttempts) else c
  {
  }

  lemma FieldsKept(p: Params, inputs: seq<Input>, actions: seq<Option<BlankAction>>, k: nat, c: ConnectionContext, next: State)
    requires k < |inputs| == |actions| && FieldsAre(p, inputs, actions, k, c)
    requires inputs[k].SubmitBgra? ==> (Fires(c, p, inputs[k].now) ==> c.blankRecoveryAttempts < p.maxAttempts)
    requires !inputs[k].Connect? && exists drops :: (next, actions[k]) == Next(State(Some(c), drops), p, inputs[k])
    ensures next.ctx.Some? && FieldsAre(p, inputs, actions, k + 1, next.ctx.value)
  {
    var drops :| (next, actions[k]) == Next(State(Some(c), drops), p, inputs[k]);
    if inputs[k].SubmitBgra? {
      CapturedFields(c, drops, p, inputs[k].now, Fires(c, p, inputs[k].now));
    }
  }

  lemma FreshFields(p: Params, inputs: seq<Input>, actions: seq<Option<BlankAction>>, k: nat)
    requires k < |inputs| == |actions| && inputs[k].Connect?
    ensures FieldsAre(p, inputs, actions, k + 1, NewConnection(inputs[k].now, inputs[k].linkRttMs))
  {
  }

  lemma OnlyWithAttemptsLeft(c: ConnectionContext, p: Params, now: Instant)
    requires Fires(c, p, now)
    ensures c.blankRecoveryAttempts < p.maxAttempts
  {
  }

  /** Every field that the detector reads is the stated function of the inputs and actions since the
      connection was made; the attempts are the actions so far, or all used up. */
  lemma {:induction false} FieldsOfInputs(p: Params, inputs: seq<Input>, states: seq<State>, actions: seq<Option<BlankAction>>, k: nat)
    requires IsRun(p, inputs, states, actions) && k <= |inputs|
    ensures states[k].ctx.Some? <==> Connected(inputs, k)
    ensures states[k].ctx.Some? ==> FieldsAre(p, inputs, actions, k, states[k].ctx.value)
  {
    if k == 0 {
      assert states[0] == State(None, 0);
    } else {
      var j := k - 1;
      FieldsOfInputs(p, inputs, states, actions, j);
      RunStep(p, inputs, states, actions, j);
      if inputs[j].Connect? {
        FreshFields(p, inputs, actions, j);
      } else if states[j].ctx.Some? {
        var c := states[j].ctx.value;
        if inputs[j].SubmitBgra? && Fires(c, p, inputs[j].now) {
          OnlyWithAttemptsLeft(c, p, inputs[j].now);
        }
        assert states[j] == State(Some(c), states[j].consecutiveBlankDrops);
        FieldsKept(p, inputs, actions, j, c, states[k]);
      }
    }
  }

  // ---------------------------------------------------------------------------
  // When it fires, and with what
  // ---------------------------------------------------------------------------

  lemma CeilAtLeast(z: nat, n: nat)
    ensures z >= (n + 24) / 25 <==> 25 * z >= n
  {
  }

  lemma ScaledZero(d: nat, m: nat)
    requires m >= 25
    ensures d * m / 25 == 0 <==> d == 0
  {
    ScaleUp(d, m);
  }

  /** The verdict in plain numbers.  `m` 25ths is the link's multiplier: 1 up to 25 ms, growing with
      the round trip to 4 from 100 ms on. */
  lemma FiresExactly(c: ConnectionContext, p: Params, now: Instant, m: nat, connected: int, dark: int, attempted: int, established: bool)
    requires m == if p.maxRttMs == 0 || c.linkRttMs <= 25 then 25 else if c.linkRttMs >= 100 then 100 else c.linkRttMs
    requires connected == Max(now - c.epoch, 0) && dark == Max(now - c.lastNonzeroQoeAt, 0)
    requires attempted == Max(now - c.lastBlankRecoveryAt, 0) && established == (c.qoe.maxNonzeroStreak >= p.establishedRenderReports)
    ensures Fires(c, p, now) <==>
      && (p.maxRttMs == 0 || c.linkRttMs < p.maxRttMs || c.linkRttMs == 0)
      && !c.qoe.presentedClean && c.qoe.nonzeroStreak < p.minRenderReports && c.egfxAcksSeen && !c.acksSuspended
      && connected >= p.armDelay * m / 25 && attempted >= p.retryInterval && c.blankRecoveryAttempts < p.maxAttempts
      && (|| 25 * c.qoe.zeroStreak >= (if established then p.establishedMinQoe else p.minQoeReports) * m
          || (established && dark >= p.establishedMaxWait * m / 25 && c.qoe.zeroStreak >= p.establishedWallReports)
          || (!established && connected >= p.blankMaxWait * m / 25 && c.qoe.zeroStreak >= p.blankMinReports)
          || (&& c.blankRecoveryAttempts >= 1 && p.healConfirmDeadline > 0 && attempted >= p.healConfirmDeadline * m / 25
              && c.lastAckAdvanceAt > c.lastBlankRecoveryAt && c.qoe.nonzeroMaxSinceReset < p.minRenderReports
              && (c.qoe.reportsSinceReset == 0 || c.qoe.zerosSinceReset >= p.blankMinReports)))
  {
    var gate := RttGate(c.linkRttMs, p.maxRttMs);
    if gate.Some? {
      assert gate.value == m;
      CeilAtLeast(c.qoe.zeroStreak, p.minQoeReports * m);
      CeilAtLeast(c.qoe.zeroStreak, p.establishedMinQoe * m);
      ScaledZero(p.healConfirmDeadline, m);
    }
  }

  /** The n-th attempt reactivates first and drops from then on, or remaps and drops at the last.  A
      drop is withheld, and the attempts used up, when the storm cap is reached; every other attempt
      is counted, timed, and starts the evidence window over.  An established connection sets the
      drop counter back first. */
  lemma CaptureExactly(s: State, p: Params, now: Instant, c: ConnectionContext, n: nat, drops: nat, action: BlankAction)
    requires s.ctx == Some(c) && n == c.blankRecoveryAttempts + 1
    requires drops == if c.qoe.maxNonzeroStreak >= p.establishedRenderReports then 0 else s.consecutiveBlankDrops
    requires action == if p.reactivate then (if n == 1 then Reactivate else Drop) else if n < p.maxAttempts then Remap else Drop
    ensures var (next, dispatched) := Next(s, p, SubmitBgra(now));
            && next.ctx.Some?
            && (!Fires(c, p, now) ==> dispatched == None && next == State(Some(c), drops))
            && (Fires(c, p, now) && action == Drop && 0 < p.maxConsecutiveDrops <= drops ==>
                  dispatched == None && next == State(Some(c.(blankRecoveryAttempts := p.maxAttempts)), drops))
            && (Fires(c, p, now) && !(action == Drop && 0 < p.maxConsecutiveDrops <= drops) ==>
                  && dispatched == Some(action)
                  && next.consecutiveBlankDrops == (if action == Drop then Min(drops + 1, 4_294_967_295) else drops)
                  && next.ctx.value.blankRecoveryAttempts == n && next.ctx.value.lastBlankRecoveryAt == now
                  && next.ctx.value.qoe == QoeEvidence(0, 0, c.qoe.maxNonzeroStreak, 0, 0, 0, c.qoe.presentedClean))
  {
  }

  /** The detector must act: on a connection with no attempt yet, a link below the limit, reports that
      never held a presenting or established streak and end in enough zeros, acknowledgements that
      flow, and the arm delay and the retry interval over, the capture dispatches the first action
      -- unless that is a drop and the storm cap is reached. */
  lemma MustRecover(p: Params, inputs: seq<Input>, states: seq<State>, actions: seq<Option<BlankAction>>, k: nat, m: nat)
    requires IsRun(p, inputs, states, actions) && GoodParams(p) && k < |inputs| && inputs[k].SubmitBgra?
    requires Connected(inputs, k) && states[k].ctx.Some? && states[k].ctx.value.blankRecoveryAttempts == 0
    requires var rtt := LinkRtt(inputs, k);
             && m == (if p.maxRttMs == 0 || rtt <= 25 then 25 else if rtt >= 100 then 100 else rtt)
             && (p.maxRttMs == 0 || rtt == 0 || rtt < p.maxRttMs)
    requires AckSeen(inputs, k) && !LastAckSuspends(inputs, k)
    requires inputs[k].now >= ConnectAt(inputs, k) + p.armDelay * m / 25 && inputs[k].now >= ConnectAt(inputs, k) + p.retryInterval
    requires var h := HistoryOf(inputs, actions, k);
             && LongestStreak(h) < p.minRenderReports && LongestStreak(h) < p.establishedRenderReports <= U64_MAX
             && 25 * Min(EndStreak(h, true), U64_MAX) >= p.minQoeReports * m
    ensures var first := if p.reactivate then Reactivate else if p.maxAttempts > 1 then Remap else Drop;
            actions[k] == if first == Drop && 0 < p.maxConsecutiveDrops <= states[k].consecutiveBlankDrops then None else Some(first)
  {
    var now, c, h := inputs[k].now, states[k].ctx.value, HistoryOf(inputs, actions, k);
    FieldsOfInputs(p, inputs, states, actions, k);
    RunInv(p, inputs, states, actions, k);
    RunStep(p, inputs, states, actions, k);
    CountersLaw(h);
    StreaksOrdered(h);
    assert c.fired == [] && c.lastBlankRecoveryAt == c.epoch;
    FiresExactly(c, p, now, m, Max(now - c.epoch, 0), Max(now - c.lastNonzeroQoeAt, 0), Max(now - c.epoch, 0), false);
    CaptureExactly(states[k], p, now, c, 1, states[k].consecutiveBlankDrops,
                   if p.reactivate then Reactivate else if 1 < p.maxAttempts then Remap else Drop);
  }

  lemma {:induction false} StreaksOrdered(h: History)
    ensures EndStreak(h, false) <= LongestStreak(h)
  {
    if h == [] {
      assert EndStreak(h, false) == 0;
    }
  }

  // ---------------------------------------------------------------------------
  // The storm guard
  // ---------------------------------------------------------------------------

  ghost function DropsIn(actions: seq<Option<BlankAction>>): nat {
    if actions == [] then 0
    else DropsIn(actions[..|actions| - 1]) + if actions[|actions| - 1] == Some(Drop) then 1 else 0
  }

  /** The connection that capture k saw had reached the established streak. */
  ghost predicate SawEstablished(p: Params, s: State, i: Input) {
    i.SubmitBgra? && s.ctx.Some? && s.ctx.value.qoe.Established(p.establishedRenderReports)
  }

  /** Without an established connection the counter moves by the drops, and by nothing else. */
  lemma DropCounts(p: Params, s: State, i: Input)
    requires 0 < p.maxConsecutiveDrops <= U32_MAX && s.consecutiveBlankDrops <= p.maxConsecutiveDrops
    requires !SawEstablished(p, s, i)
    ensures var (next, action) := Next(s, p, i);
            next.consecutiveBlankDrops == s.consecutiveBlankDrops + if action == Some(Drop) then 1 else 0
  {
    if i.SubmitBgra? && s.ctx.Some? {
      CapturedDrops(s.ctx.value, s.consecutiveBlankDrops, p, i.now, Fires(s.ctx.value, p, i.now));
    }
  }

  lemma CapturedDrops(c: ConnectionContext, drops: nat, p: Params, now: Instant, fires: bool)
    requires 0 < p.maxConsecutiveDrops <= U32_MAX && drops <= p.maxConsecutiveDrops
    requires !c.qoe.Established(p.establishedRenderReports)
    ensures var (next, action) := CapturedWhen(c, drops, p, now, fires);
            next.consecutiveBlankDrops == drops + if action == Some(Drop) then 1 else 0
  {
  }

  lemma DropsSnoc(actions: seq<Option<BlankAction>>, i: nat, j: nat)
    requires i < j <= |actions|
    ensures DropsIn(actions[i..j]) == DropsIn(actions[i..j - 1]) + if actions[j - 1] == Some(Drop) then 1 else 0
  {
    var stretch := actions[i..j];
    assert stretch[..|stretch| - 1] == actions[i..j - 1] && stretch[|stretch| - 1] == actions[j - 1];
  }

  lemma {:induction false} DropsCounted(p: Params, inputs: seq<Input>, states: seq<State>, actions: seq<Option<BlankAction>>, i: nat, j: nat)
    requires IsRun(p, inputs, states, actions) && GoodParams(p) && i <= j <= |inputs|
    requires 0 < p.maxConsecutiveDrops <= U32_MAX
    requires forall k :: i <= k < j ==> !SawEstablished(p, states[k], inputs[k])
    ensures states[j].consecutiveBlankDrops == states[i].consecutiveBlankDrops + DropsIn(actions[i..j])
  {
    if i < j {
      DropsCounted(p, inputs, states, actions, i, j - 1);
      RunInv(p, inputs, states, actions, j - 1);
      DropsSnoc(actions, i, j);
      assert !SawEstablished(p, states[j - 1], inputs[j - 1]);
      DropCounts(p, states[j - 1], inputs[j - 1]);
      RunStep(p, inputs, states, actions, j - 1);
    }
  }

  /** With a positive cap the drop counter never passes it, and any stretch of a run in which no
      capture sees an established connection drops at most `cap` connections -- across however
      many reconnects. */
  lemma StormBounded(p: Params, inputs: seq<Input>, states: seq<State>, actions: seq<Option<BlankAction>>, i: nat, j: nat)
    requires IsRun(p, inputs, states, actions) && GoodParams(p) && i <= j <= |inputs|
    requires 0 < p.maxConsecutiveDrops <= U32_MAX
    requires forall k :: i <= k < j ==> !SawEstablished(p, states[k], inputs[k])
    ensures states[j].consecutiveBlankDrops <= p.maxConsecutiveDrops
    ensures DropsIn(actions[i..j]) <= p.maxConsecutiveDrops
  {
    DropsCounted(p, inputs, states, actions, i, j);
    RunInv(p, inputs, states, actions, j);
  }
}
