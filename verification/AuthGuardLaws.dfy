/** What the connection guard promises over whole runs.  Each law is about the answers of the
    running object; `RunAnswersLikeHistory` carries it over to the full history. */
module AuthGuardLaws {
  import opened Common
  import opened AuthGuard

  /** The log of a run of the object from its start. */
  ghost function RunLog(p: Policy, calls: seq<Call>): Log {
    Recorded(calls, Answers(p, map[], calls))
  }

  ghost predicate GoodRun(p: Policy, calls: seq<Call>) {
    Timed(calls, 0) && NeverFull(p, map[], calls)
  }

  // ---------------------------------------------------------------------------
  // Positions in a log
  // ---------------------------------------------------------------------------

  lemma {:induction false} SpecLogAt(p: Policy, log: Log, calls: seq<Call>, k: nat)
    requires k < |calls|
    ensures var all := SpecLog(p, log, calls);
            && all[..|log|] == log
            && all[|log| + k] == SpecEvent(p, all[..|log| + k], calls[k])
    decreases |calls|
  {
    var e := SpecEvent(p, log, calls[0]);
    var all := SpecLog(p, log, calls);
    if |calls| > 1 {
      SpecLogAt(p, log + [e], calls[1..], if k == 0 then 0 else k - 1);
      assert all[..|log| + 1] == log + [e];
      assert all[..|log|] == all[..|log| + 1][..|log|];
    } else {
      assert all == log + [e];
    }
    assert all[..|log|] == log && all[|log|] == e;
  }

  lemma {:induction false} RecordedAt(calls: seq<Call>, answers: seq<Decision>, k: nat)
    requires |calls| == |answers| && k < |calls|
    ensures Recorded(calls, answers)[k] ==
            match calls[k]
            case Attempt(now, ip) => Tried(now, CanonicalIp(ip), answers[k])
            case Finished(now, ip, outcome) => Done(now, CanonicalIp(ip), outcome)
    decreases |calls|
  {
    if k > 0 {
      RecordedAt(calls[1..], answers[1..], k - 1);
    }
  }

  /** Event k of a run, and answer k, from the events before it. */
  lemma RunAt(p: Policy, calls: seq<Call>, k: nat)
    requires GoodRun(p, calls) && k < |calls|
    ensures var log := RunLog(p, calls);
            && log[k] == SpecEvent(p, log[..k], calls[k])
            && (calls[k].Attempt? ==> log[k].Tried? && log[k].decision == Answers(p, map[], calls)[k])
  {
    RunAnswersLikeHistory(p, calls);
    SpecLogAt(p, [], calls, k);
    RecordedAt(calls, Answers(p, map[], calls), k);
  }

  // ---------------------------------------------------------------------------
  // At most maxAttempts accepts in any window
  // ---------------------------------------------------------------------------

  ghost function CountIn(times: seq<Instant>, lo: int, hi: int): nat {
    if times == [] then 0
    else CountIn(times[..|times| - 1], lo, hi) + if lo <= times[|times| - 1] <= hi then 1 else 0
  }

  /** Accepts that are `max` apart in the list are more than a window apart in time. */
  ghost predicate Spaced(times: seq<Instant>, max: nat, window: nat) {
    forall i, j :: 0 <= i && i + max <= j < |times| ==> times[i] + window < times[j]
  }

  ghost predicate NonDecreasing(times: seq<Instant>) {
    forall i, j :: 0 <= i < j < |times| ==> times[i] <= times[j]
  }

  lemma {:induction false} RecentAtLeast(times: seq<Instant>, k: nat, now: Instant, window: nat)
    requires k <= |times| && forall i :: k <= i < |times| ==> times[i] + window >= now
    ensures Recent(times, now, window) >= |times| - k
  {
    if k < |times| {
      var n := |times| - 1;
      assert forall i :: k <= i < n ==> times[..n][i] == times[i];
      RecentAtLeast(times[..n], k, now, window);
    }
  }

  lemma AcceptKeepsSpaced(times: seq<Instant>, now: Instant, max: nat, window: nat)
    requires max > 0 && Ordered(times, now) && Spaced(times, max, window) && Recent(times, now, window) < max
    ensures Ordered(times + [now], now) && Spaced(times + [now], max, window)
  {
    forall i | 0 <= i <= |times| - max
      ensures times[i] + window < now
    {
      if times[i] + window >= now {
        RecentAtLeast(times, i, now, window);
      }
    }
  }

  ghost predicate WellSpaced(p: Policy, times: seq<Instant>, upTo: Instant) {
    Ordered(times, upTo) && Spaced(times, p.maxAttempts, p.window)
  }

  lemma EventKeepsSpaced(p: Policy, log: Log, before: Instant, c: Call, ip: Ip)
    requires p.RateLimitEnabled() && !IsLoopback(ip) && before <= c.now && WellSpaced(p, Accepts(log, ip), before)
    ensures WellSpaced(p, Accepts(log + [SpecEvent(p, log, c)], ip), c.now)
  {
    var e := SpecEvent(p, log, c);
    AcceptsAfter(log, e, ip);
    OrderedLater(Accepts(log, ip), before, c.now);
    if e.Tried? && e.ip == ip && e.decision.Accept? {
      AcceptKeepsSpaced(Accepts(log, ip), c.now, p.maxAttempts, p.window);
    }
  }

  lemma AcceptsAfter(log: Log, e: Event, ip: Ip)
    ensures Accepts(log + [e], ip) == if e.Tried? && e.ip == ip && e.decision.Accept? then Accepts(log, ip) + [e.at] else Accepts(log, ip)
  {
    assert (log + [e])[..|log|] == log;
  }

  lemma OrderedLater(times: seq<Instant>, before: Instant, now: Instant)
    requires Ordered(times, before) && before <= now
    ensures Ordered(times, now)
  {
  }

  lemma {:induction false} RunKeepsSpaced(p: Policy, log: Log, before: Instant, calls: seq<Call>, ip: Ip) returns (last: Instant)
    requires p.RateLimitEnabled() && !IsLoopback(ip) && Timed(calls, before) && WellSpaced(p, Accepts(log, ip), before)
    ensures WellSpaced(p, Accepts(SpecLog(p, log, calls), ip), last)
    decreases |calls|
  {
    if calls == [] {
      last := before;
    } else {
      var c := calls[0];
      EventKeepsSpaced(p, log, before, c, ip);
      last := RunKeepsSpaced(p, log + [SpecEvent(p, log, c)], c.now, calls[1..], ip);
    }
  }

  lemma {:induction false} NoneBefore(times: seq<Instant>, lo: int, hi: int)
    requires forall i :: 0 <= i < |times| ==> times[i] < lo
    ensures CountIn(times, lo, hi) == 0
  {
    if times != [] {
      assert forall i :: 0 <= i < |times| - 1 ==> times[..|times| - 1][i] == times[i];
      NoneBefore(times[..|times| - 1], lo, hi);
    }
  }

  lemma {:induction false} AtMostTail(times: seq<Instant>, k: nat, lo: int, hi: int)
    requires k <= |times| && forall i :: 0 <= i < k ==> times[i] < lo
    ensures CountIn(times, lo, hi) <= |times| - k
  {
    if k == |times| {
      NoneBefore(times, lo, hi);
    } else {
      assert forall i :: 0 <= i < k ==> times[..|times| - 1][i] == times[i];
      AtMostTail(times[..|times| - 1], k, lo, hi);
    }
  }

  lemma {:induction false} SpacedCount(times: seq<Instant>, max: nat, lo: int, window: nat)
    requires max > 0 && Spaced(times, max, window) && NonDecreasing(times)
    ensures CountIn(times, lo, lo + window) <= max
  {
    if times != [] {
      var n := |times| - 1;
      assert forall i :: 0 <= i < n ==> times[..n][i] == times[i];
      if times[n] > lo + window {
        SpacedCount(times[..n], max, lo, window);
      } else {
        var k := if n >= max then n - max + 1 else 0;
        AtMostTail(times, k, lo, lo + window);
      }
    }
  }

  /** In every closed interval of the configured length the guard accepts at most the configured
      number of attempts of one non-loopback address, whatever else happens in the run. */
  lemma AcceptsPerWindow(cfg: GuardConfig, calls: seq<Call>, ip: Ip, lo: int)
    requires GoodRun(PolicyOf(cfg), calls) && cfg.maxAttempts > 0 && !IsLoopback(ip)
    ensures CountIn(Accepts(RunLog(PolicyOf(cfg), calls), ip), lo, lo + cfg.window) <= cfg.maxAttempts
  {
    RunAnswersLikeHistory(PolicyOf(cfg), calls);
    HistoryPerWindow(PolicyOf(cfg), calls, ip, lo);
  }

  lemma NothingSpaced(p: Policy, ip: Ip)
    ensures WellSpaced(p, Accepts([], ip), 0)
  {
  }

  lemma WellSpacedCount(p: Policy, times: seq<Instant>, upTo: Instant, lo: int)
    requires p.RateLimitEnabled() && WellSpaced(p, times, upTo)
    ensures CountIn(times, lo, lo + p.window) <= p.maxAttempts
  {
    SpacedCount(times, p.maxAttempts, lo, p.window);
  }

  lemma HistoryPerWindow(p: Policy, calls: seq<Call>, ip: Ip, lo: int)
    requires Timed(calls, 0) && p.RateLimitEnabled() && !IsLoopback(ip)
    ensures CountIn(Accepts(SpecLog(p, [], calls), ip), lo, lo + p.window) <= p.maxAttempts
  {
    NothingSpaced(p, ip);
    var last := RunKeepsSpaced(p, [], 0, calls, ip);
    WellSpacedCount(p, Accepts(SpecLog(p, [], calls), ip), last, lo);
  }

  // ---------------------------------------------------------------------------
  // The lockout
  // ---------------------------------------------------------------------------

  lemma {:induction false} LockoutStands(p: Policy, log: Log, k: nat, ip: Ip)
    requires k <= |log| && forall i :: k <= i < |log| ==> !(log[i].Done? && log[i].ip == ip)
    ensures LockoutEnd(p, log, ip) == LockoutEnd(p, log[..k], ip)
  {
    if k < |log| {
      LockoutStands(p, log[..|log| - 1], k, ip);
      assert log[..|log| - 1][..k] == log[..k];
    } else {
      assert log[..k] == log;
    }
  }

  /** The lockout that the n-th straight failure earns: the base doubled for every failure past
      the threshold, the factor and the result capped. */
  ghost function LockoutLength(cfg: GuardConfig, n: U32): nat
    requires n >= cfg.failureThreshold
  {
    Min(cfg.baseCooldown * Min(Pow2(n - cfg.failureThreshold), U32_MAX), cfg.maxCooldown)
  }

  /** Call j of the run is an attempt of `ip`, call k its latest recorded outcome before that, a failure. */
  ghost predicate FailedThenTries(calls: seq<Call>, k: nat, j: nat, ip: Ip) {
    && k < j < |calls| && !IsLoopback(ip)
    && calls[k].Finished? && calls[k].outcome == Failure && CanonicalIp(calls[k].ip) == ip
    && calls[j].Attempt? && CanonicalIp(calls[j].ip) == ip
    && forall i :: k < i < j && calls[i].Finished? ==> CanonicalIp(calls[i].ip) != ip
  }

  lemma LockoutEndAt(p: Policy, calls: seq<Call>, k: nat, j: nat, ip: Ip)
    requires GoodRun(p, calls) && FailedThenTries(calls, k, j, ip) && p.LockoutEnabled()
    requires Failures(RunLog(p, calls)[..k + 1], ip) >= p.failureThreshold
    ensures LockoutEnd(p, RunLog(p, calls)[..j], ip)
         == Some(calls[k].now + p.cooldown(Failures(RunLog(p, calls)[..k + 1], ip)))
  {
    var log := RunLog(p, calls);
    RunAt(p, calls, k);
    forall i | k + 1 <= i < j
      ensures !(log[..j][i].Done? && log[..j][i].ip == ip)
    {
      RunAt(p, calls, i);
    }
    LockoutStands(p, log[..j], k + 1, ip);
    assert log[..j][..k + 1] == log[..k + 1];
    assert log[..k + 1][..k] == log[..k] && log[..k + 1][k] == Done(calls[k].now, ip, Failure);
  }

  /** After the n-th straight failure, n >= threshold, an attempt with no outcome recorded in
      between is turned away exactly while the lockout lasts, and told exactly how long that is. */
  lemma LockoutIsExact(cfg: GuardConfig, calls: seq<Call>, k: nat, j: nat, ip: Ip)
    requires GoodRun(PolicyOf(cfg), calls) && FailedThenTries(calls, k, j, ip) && cfg.LockoutEnabled()
    requires Failures(RunLog(PolicyOf(cfg), calls)[..k + 1], ip) >= cfg.failureThreshold
    ensures var end := calls[k].now + LockoutLength(cfg, Failures(RunLog(PolicyOf(cfg), calls)[..k + 1], ip));
            var answer := Answers(PolicyOf(cfg), map[], calls)[j];
            if calls[j].now < end then answer == RejectCooldown(end - calls[j].now) else !answer.RejectCooldown?
  {
    var p := PolicyOf(cfg);
    LockoutEndAt(p, calls, k, j, ip);
    RunAt(p, calls, j);
    CooldownLaw(Failures(RunLog(p, calls)[..k + 1], ip), cfg.failureThreshold, cfg.baseCooldown, cfg.maxCooldown);
  }

  ghost predicate TimedLog(log: Log) {
    forall i, j :: 0 <= i < j < |log| ==> log[i].at <= log[j].at
  }

  /** A lockout in force comes from a failure that is still part of the streak. */
  lemma {:induction false} LockoutOrigin(p: Policy, log: Log, ip: Ip) returns (t: Instant, m: U32)
    requires TimedLog(log) && LockoutEnd(p, log, ip).Some?
    ensures p.LockoutEnabled() && p.failureThreshold <= m <= Failures(log, ip)
    ensures LockoutEnd(p, log, ip) == Some(t + p.cooldown(m)) && t <= log[|log| - 1].at
  {
    var last, before := log[|log| - 1], log[..|log| - 1];
    if last.Done? && last.ip == ip && last.outcome.Failure? && p.LockoutEnabled()
       && Failures(log, ip) >= p.failureThreshold {
      t, m := last.at, Failures(log, ip);
    } else {
      t, m := LockoutOrigin(p, before, ip);
    }
  }

  /** One event that is not a success of the address. */
  lemma EventKeepsLockout(cfg: GuardConfig, before: Log, e: Event, ip: Ip)
    requires TimedLog(before) && LockoutEnd(PolicyOf(cfg), before, ip).Some? && before[|before| - 1].at <= e.at
    requires !(e.Done? && e.ip == ip && e.outcome.Success?)
    ensures LockoutEnd(PolicyOf(cfg), before + [e], ip).Some?
    ensures LockoutEnd(PolicyOf(cfg), before + [e], ip).value >= LockoutEnd(PolicyOf(cfg), before, ip).value
  {
    FactsAfter(PolicyOf(cfg), before, e, ip);
    if e.Done? && e.ip == ip {
      var t, m := LockoutOrigin(PolicyOf(cfg), before, ip);
      CooldownMonotone(m, Min(Failures(before, ip) + 1, U32_MAX), cfg.failureThreshold, cfg.baseCooldown, cfg.maxCooldown);
    }
  }

  lemma TimedFront(log: Log, e: Event)
    requires TimedLog(log + [e])
    ensures TimedLog(log) && (log != [] ==> log[|log| - 1].at <= e.at)
  {
    assert forall i :: 0 <= i < |log| ==> log[i] == (log + [e])[i];
    assert e == (log + [e])[|log|];
  }

  /** Only a success moves the end of a lockout forward in time towards now: without one it can
      only be pushed back. */
  lemma {:induction false} OnlySuccessShortens(cfg: GuardConfig, log: Log, more: Log, ip: Ip)
    requires TimedLog(log + more) && LockoutEnd(PolicyOf(cfg), log, ip).Some?
    requires forall e :: e in more ==> !(e.Done? && e.ip == ip && e.outcome.Success?)
    ensures LockoutEnd(PolicyOf(cfg), log + more, ip).Some?
    ensures LockoutEnd(PolicyOf(cfg), log + more, ip).value >= LockoutEnd(PolicyOf(cfg), log, ip).value
    decreases |more|
  {
    if more == [] {
      assert log + more == log;
    } else {
      var before, e := log + more[..|more| - 1], more[|more| - 1];
      assert log + more == before + [e];
      assert e in more;
      TimedFront(before, e);
      OnlySuccessShortens(cfg, log, more[..|more| - 1], ip);
      EventKeepsLockout(cfg, before, e, ip);
    }
  }

  // ---------------------------------------------------------------------------
  // Independence
  // ---------------------------------------------------------------------------

  ghost function OnlyEvents(log: Log, ip: Ip): Log {
    if log == [] then []
    else OnlyEvents(log[..|log| - 1], ip) + if log[|log| - 1].ip == ip then [log[|log| - 1]] else []
  }

  ghost function OnlyCalls(calls: seq<Call>, ip: Ip): seq<Call> {
    if calls == [] then []
    else (if CanonicalIp(calls[0].ip) == ip then [calls[0]] else []) + OnlyCalls(calls[1..], ip)
  }

  lemma OnlySnoc(log: Log, e: Event, ip: Ip)
    ensures OnlyEvents(log + [e], ip) == OnlyEvents(log, ip) + if e.ip == ip then [e] else []
  {
    assert (log + [e])[..|log|] == log;
  }

  lemma {:induction false} FactsOfOnly(p: Policy, log: Log, ip: Ip)
    ensures FactsOf(p, OnlyEvents(log, ip), ip) == FactsOf(p, log, ip)
  {
    if log != [] {
      var before, e := log[..|log| - 1], log[|log| - 1];
      assert log == before + [e];
      FactsOfOnly(p, before, ip);
      FactsAfter(p, before, e, ip);
      FactsAfter(p, OnlyEvents(before, ip), e, ip);
      OnlySnoc(before, e, ip);
      if e.ip != ip {
        assert OnlyEvents(log, ip) == OnlyEvents(before, ip);
      }
    }
  }

  lemma {:induction false} SpecIndependent(p: Policy, log: Log, calls: seq<Call>, ip: Ip)
    ensures OnlyEvents(SpecLog(p, log, calls), ip) == SpecLog(p, OnlyEvents(log, ip), OnlyCalls(calls, ip))
    decreases |calls|
  {
    if calls != [] {
      var c := calls[0];
      var e := SpecEvent(p, log, c);
      SpecIndependent(p, log + [e], calls[1..], ip);
      OnlySnoc(log, e, ip);
      if CanonicalIp(c.ip) == ip {
        FactsOfOnly(p, log, ip);
        assert OnlyCalls(calls, ip) == [c] + OnlyCalls(calls[1..], ip);
        assert OnlyCalls(calls, ip)[1..] == OnlyCalls(calls[1..], ip);
      } else {
        assert OnlyCalls(calls, ip) == OnlyCalls(calls[1..], ip);
        assert OnlyEvents(log + [e], ip) == OnlyEvents(log, ip);
      }
    }
  }

  lemma {:induction false} OnlyCallsTimed(calls: seq<Call>, ip: Ip, from: Instant)
    requires Timed(calls, from)
    ensures Timed(OnlyCalls(calls, ip), from) && IpsOf(OnlyCalls(calls, ip)) <= {ip}
    decreases |calls|
  {
    if calls != [] {
      var rest := OnlyCalls(calls[1..], ip);
      OnlyCallsTimed(calls[1..], ip, calls[0].now);
      if CanonicalIp(calls[0].ip) == ip {
        assert ([calls[0]] + rest)[1..] == rest;
        forall i | 0 <= i < |rest| + 1
          ensures CanonicalIp(([calls[0]] + rest)[i].ip) == ip
        {
          if i > 0 {
            assert CanonicalIp(rest[i - 1].ip) in IpsOf(rest);
          }
        }
      } else {
        assert OnlyCalls(calls, ip) == rest;
        TimedEarlier(rest, from, calls[0].now);
      }
    }
  }

  lemma TimedEarlier(calls: seq<Call>, from: Instant, later: Instant)
    requires Timed(calls, later) && from <= later
    ensures Timed(calls, from)
  {
  }

  /** What the guard answers one address is what it would answer if no other address had called. */
  lemma AddressesIndependent(p: Policy, calls: seq<Call>, ip: Ip)
    requires GoodRun(p, calls)
    ensures OnlyEvents(RunLog(p, calls), ip) == RunLog(p, OnlyCalls(calls, ip))
  {
    var own := OnlyCalls(calls, ip);
    OnlyCallsTimed(calls, ip, 0);
    FewPeersNeverFull(p, map[], own, {ip});
    RunAnswersLikeHistory(p, calls);
    RunAnswersLikeHistory(p, own);
    SpecIndependent(p, [], calls, ip);
  }

  // ---------------------------------------------------------------------------
  // What the table holds
  // ---------------------------------------------------------------------------

  /** The history still says something about an address: an accept in the window, a failure not
      yet forgiven, or a lockout in force. */
  ghost predicate Live(p: Policy, f: Facts, now: Instant) {
    Recent(f.accepts, now, p.window) > 0 || f.failures != 0 || (f.lockoutEnd.Some? && now < f.lockoutEnd.value)
  }

  ghost predicate NoLoopback(ips: Table) {
    forall ip :: ip in ips ==> !IsLoopback(ip)
  }

  lemma EntryLive(p: Policy, e: PerIp, f: Facts, before: Instant, now: Instant)
    requires Remembers(p, e, f, before) && before <= now
    ensures PruneEntry(e, now, p.window).IsIdle(now) <==> !Live(p, f, now)
  {
    PruneRemembers(p, e, f, before, now);
    CooldownKnown(p, PruneEntry(e, now, p.window), f, now);
  }

  /** A swept table holds exactly the addresses that the history is still live for. */
  lemma SweptTableExact(p: Policy, ips: Table, log: Log, before: Instant, now: Instant, ip: Ip)
    requires Simulates(p, ips, log, before) && NoLoopback(ips) && before <= now
    ensures ip in Retained(ips, now, p.window) <==> !IsLoopback(ip) && Live(p, FactsOf(p, log, ip), now)
  {
    if !IsLoopback(ip) {
      EntryLive(p, EntryOf(ips, ip), FactsOf(p, log, ip), before, now);
    }
  }

  lemma StepNoLoopback(p: Policy, ips: Table, c: Call)
    requires NoLoopback(ips)
    ensures NoLoopback(Step(p, ips, c).1)
  {
  }

  ghost predicate SameFacts(p: Policy, a: Log, b: Log) {
    forall ip :: FactsOf(p, a, ip) == FactsOf(p, b, ip)
  }

  lemma SameFactsNext(p: Policy, a: Log, b: Log, c: Call)
    requires SameFacts(p, a, b)
    ensures SpecEvent(p, a, c) == SpecEvent(p, b, c)
    ensures SameFacts(p, a + [SpecEvent(p, a, c)], b + [SpecEvent(p, a, c)])
  {
    var e := SpecEvent(p, a, c);
    assert FactsOf(p, a, CanonicalIp(c.ip)) == FactsOf(p, b, CanonicalIp(c.ip));
    forall ip
      ensures FactsOf(p, a + [e], ip) == FactsOf(p, b + [e], ip)
    {
      assert FactsOf(p, a, ip) == FactsOf(p, b, ip);
      FactsAfter(p, a, e, ip);
      FactsAfter(p, b, e, ip);
    }
  }

  lemma SameKeysSize(x: Table, y: Table)
    requires forall ip :: ip in x.Keys <==> ip in y.Keys
    ensures |x| == |y|
  {
    assert x.Keys == y.Keys && |x| == |x.Keys| && |y| == |y.Keys|;
  }

  lemma SameSweptSize(p: Policy, x: Table, a: Log, beforeX: Instant, y: Table, b: Log, beforeY: Instant, now: Instant)
    requires Simulates(p, x, a, beforeX) && NoLoopback(x) && beforeX <= now
    requires Simulates(p, y, b, beforeY) && NoLoopback(y) && beforeY <= now
    requires SameFacts(p, a, b)
    ensures |Retained(x, now, p.window)| == |Retained(y, now, p.window)|
  {
    forall ip
      ensures ip in Retained(x, now, p.window).Keys <==> ip in Retained(y, now, p.window).Keys
    {
      assert FactsOf(p, a, ip) == FactsOf(p, b, ip);
      SweptTableExact(p, x, a, beforeX, now, ip);
      SweptTableExact(p, y, b, beforeY, now, ip);
    }
    SameKeysSize(Retained(x, now, p.window), Retained(y, now, p.window));
  }

  /** How full the table gets depends on the history alone. */
  lemma {:induction false} SameFactsSameFullness(p: Policy, x: Table, a: Log, beforeX: Instant, y: Table, b: Log, beforeY: Instant,
                                                 calls: seq<Call>)
    requires Simulates(p, x, a, beforeX) && NoLoopback(x) && Timed(calls, beforeX)
    requires Simulates(p, y, b, beforeY) && NoLoopback(y) && Timed(calls, beforeY)
    requires SameFacts(p, a, b) && NeverFull(p, x, calls)
    ensures NeverFull(p, y, calls)
    decreases |calls|
  {
    if calls != [] {
      var c := calls[0];
      var e := SpecEvent(p, a, c);
      SameSweptSize(p, x, a, beforeX, y, b, beforeY, c.now);
      SameFactsNext(p, a, b, c);
      StepSimulates(p, x, a, beforeX, c);
      StepSimulates(p, y, b, beforeY, c);
      StepNoLoopback(p, x, c);
      StepNoLoopback(p, y, c);
      SameFactsSameFullness(p, Step(p, x, c).1, a + [e], c.now, Step(p, y, c).1, b + [e], c.now, calls[1..]);
    }
  }

  // ---------------------------------------------------------------------------
  // Rejected attempts leave no trace
  // ---------------------------------------------------------------------------

  lemma {:induction false} NeverFullSplit(p: Policy, ips: Table, first: seq<Call>, rest: seq<Call>)
    ensures NeverFull(p, ips, first + rest) <==> NeverFull(p, ips, first) && NeverFull(p, TableAfter(p, ips, first), rest)
    decreases |first|
  {
    if first == [] {
      assert first + rest == rest;
    } else {
      assert (first + rest)[1..] == first[1..] + rest && (first + rest)[0] == first[0];
      NeverFullSplit(p, Step(p, ips, first[0]).1, first[1..], rest);
    }
  }

  lemma {:induction false} TimedSplit(first: seq<Call>, rest: seq<Call>, from: Instant)
    requires Timed(first + rest, from)
    ensures Timed(first, from) && Timed(rest, if first == [] then from else first[|first| - 1].now)
    ensures first != [] ==> from <= first[|first| - 1].now
    decreases |first|
  {
    if first == [] {
      assert first + rest == rest;
    } else {
      assert (first + rest)[1..] == first[1..] + rest && (first + rest)[0] == first[0];
      TimedSplit(first[1..], rest, first[0].now);
    }
  }

  lemma {:induction false} TimedJoin(first: seq<Call>, rest: seq<Call>, from: Instant)
    requires Timed(first, from) && Timed(rest, if first == [] then from else first[|first| - 1].now)
    ensures Timed(first + rest, from)
    decreases |first|
  {
    if first == [] {
      assert first + rest == rest;
    } else {
      assert (first + rest)[1..] == first[1..] + rest && (first + rest)[0] == first[0];
      TimedJoin(first[1..], rest, first[0].now);
    }
  }

  /** A prefix of a run leaves the table in step with its history. */
  lemma {:induction false} PrefixSimulates(p: Policy, ips: Table, log: Log, from: Instant, calls: seq<Call>)
    requires Simulates(p, ips, log, from) && NoLoopback(ips) && Timed(calls, from)
    ensures Simulates(p, TableAfter(p, ips, calls), SpecLog(p, log, calls), if calls == [] then from else calls[|calls| - 1].now)
    ensures NoLoopback(TableAfter(p, ips, calls))
    decreases |calls|
  {
    if calls != [] {
      var c := calls[0];
      StepSimulates(p, ips, log, from, c);
      StepNoLoopback(p, ips, c);
      PrefixSimulates(p, Step(p, ips, c).1, log + [SpecEvent(p, log, c)], c.now, calls[1..]);
    }
  }

  lemma RejectedKeepsFacts(p: Policy, log: Log, c: Call)
    requires c.Attempt? && !SpecEvent(p, log, c).decision.Accept?
    ensures SameFacts(p, log + [SpecEvent(p, log, c)], log)
  {
    var e := SpecEvent(p, log, c);
    forall ip
      ensures FactsOf(p, log + [e], ip) == FactsOf(p, log, ip)
    {
      FactsAfter(p, log, e, ip);
    }
  }

  /** A run stays below the cap when a rejected attempt is taken out of it. */
  lemma WithoutRejectedGood(p: Policy, first: seq<Call>, c: Call, rest: seq<Call>)
    requires GoodRun(p, first + ([c] + rest)) && c.Attempt? && !SpecEvent(p, SpecLog(p, [], first), c).decision.Accept?
    ensures GoodRun(p, first + rest)
  {
    var log, table := SpecLog(p, [], first), TableAfter(p, map[], first);
    var last := if first == [] then 0 else first[|first| - 1].now;
    TimedSplit(first, [c] + rest, 0);
    assert ([c] + rest)[1..] == rest && ([c] + rest)[0] == c;
    assert Timed([c] + rest, last) && Timed(rest, c.now);
    TimedEarlier(rest, last, c.now);
    TimedJoin(first, rest, 0);
    StartSimulates(p);
    PrefixSimulates(p, map[], [], 0, first);
    StepSimulates(p, table, log, last, c);
    StepNoLoopback(p, table, c);
    NeverFullSplit(p, map[], first, [c] + rest);
    NeverFullSplit(p, map[], first, rest);
    RejectedKeepsFacts(p, log, c);
    SameFactsSameFullness(p, Step(p, table, c).1, log + [SpecEvent(p, log, c)], c.now, table, log, last, rest);
  }

  /** Two histories that say the same about every address are answered the same from there on. */
  lemma {:induction false} SameFactsSameAnswers(p: Policy, a: Log, b: Log, calls: seq<Call>)
    requires SameFacts(p, a, b)
    ensures SpecLog(p, a, calls)[|a|..] == SpecLog(p, b, calls)[|b|..]
    decreases |calls|
  {
    if calls != [] {
      var e := SpecEvent(p, a, calls[0]);
      SameFactsNext(p, a, b, calls[0]);
      SameFactsSameAnswers(p, a + [e], b + [e], calls[1..]);
      SpecLogAt(p, a, calls, 0);
      SpecLogAt(p, b, calls, 0);
      TailOf(SpecLog(p, a, calls), |a|, e);
      TailOf(SpecLog(p, b, calls), |b|, e);
    }
  }

  lemma TailOf(log: Log, k: nat, e: Event)
    requires k < |log| && log[k] == e
    ensures log[k..] == [e] + log[k + 1..]
  {
  }

  lemma {:induction false} SpecLogSplit(p: Policy, log: Log, first: seq<Call>, rest: seq<Call>)
    ensures SpecLog(p, log, first + rest) == SpecLog(p, SpecLog(p, log, first), rest)
    decreases |first|
  {
    if first == [] {
      assert first + rest == rest;
    } else {
      assert (first + rest)[1..] == first[1..] + rest;
      SpecLogSplit(p, log + [SpecEvent(p, log, first[0])], first[1..], rest);
    }
  }

  lemma LogWithout(p: Policy, first: seq<Call>, c: Call, rest: seq<Call>)
    requires c.Attempt? && !SpecEvent(p, SpecLog(p, [], first), c).decision.Accept?
    ensures var all, k := SpecLog(p, [], first + ([c] + rest)), |first|;
            |all| == k + 1 + |rest| && SpecLog(p, [], first + rest) == all[..k] + all[k + 1..]
  {
    var log := SpecLog(p, [], first);
    var e := SpecEvent(p, log, c);
    SpecLogSplit(p, [], first, [c] + rest);
    SpecLogSplit(p, [], first, rest);
    assert ([c] + rest)[1..] == rest && ([c] + rest)[0] == c;
    var all := SpecLog(p, log + [e], rest);
    LogPrefix(p, log + [e], rest);
    LogPrefix(p, log, rest);
    assert all[..|log|] == all[..|log| + 1][..|log|] == log;
    RejectedKeepsFacts(p, log, c);
    SameFactsSameAnswers(p, log + [e], log, rest);
    var without := SpecLog(p, log, rest);
    assert without == without[..|log|] + without[|log|..];
  }

  /** The event of a rejected attempt, from the history before it. */
  lemma RejectedEvent(p: Policy, first: seq<Call>, c: Call, rest: seq<Call>)
    requires var calls := first + ([c] + rest);
             GoodRun(p, calls) && c.Attempt? && !Answers(p, map[], calls)[|first|].Accept?
    ensures !SpecEvent(p, SpecLog(p, [], first), c).decision.Accept?
  {
    var calls := first + ([c] + rest);
    assert calls[|first|] == c;
    RunAt(p, calls, |first|);
    RunAnswersLikeHistory(p, calls);
    SpecLogSplit(p, [], first, [c] + rest);
    LogPrefix(p, SpecLog(p, [], first), [c] + rest);
  }

  lemma WithoutRejected(p: Policy, first: seq<Call>, c: Call, rest: seq<Call>)
    requires var calls := first + ([c] + rest);
             GoodRun(p, calls) && c.Attempt? && !Answers(p, map[], calls)[|first|].Accept?
    ensures GoodRun(p, first + rest)
    ensures var all := RunLog(p, first + ([c] + rest)); RunLog(p, first + rest) == all[..|first|] + all[|first| + 1..]
  {
    RejectedEvent(p, first, c, rest);
    WithoutRejectedGood(p, first, c, rest);
    RunAnswersLikeHistory(p, first + ([c] + rest));
    RunAnswersLikeHistory(p, first + rest);
    LogWithout(p, first, c, rest);
  }

  /** Taking a rejected attempt out of a run changes no other answer. */
  lemma RejectedLeaveNoTrace(p: Policy, calls: seq<Call>, k: nat)
    requires GoodRun(p, calls) && k < |calls|
    requires calls[k].Attempt? && !Answers(p, map[], calls)[k].Accept?
    ensures GoodRun(p, calls[..k] + calls[k + 1..])
    ensures RunLog(p, calls[..k] + calls[k + 1..]) == RunLog(p, calls)[..k] + RunLog(p, calls)[k + 1..]
  {
    assert calls == calls[..k] + ([calls[k]] + calls[k + 1..]);
    WithoutRejected(p, calls[..k], calls[k], calls[k + 1..]);
  }

  lemma LogPrefix(p: Policy, log: Log, calls: seq<Call>)
    ensures SpecLog(p, log, calls)[..|log|] == log
  {
    if calls == [] {
      assert log[..|log|] == log;
    } else {
      SpecLogAt(p, log, calls, 0);
    }
  }
}
