/** Every answer of the connection guard, from the configuration, the calls and the earlier answers
    alone: nothing of the table, the log or the policy is mentioned. */
module AuthGuardAnswers {
  import opened Common
  import opened AuthGuard
  import opened AuthGuardLaws

  /** How many attempts of `ip` were accepted at times lo to hi. */
  ghost function AcceptCount(calls: seq<Call>, answers: seq<Decision>, ip: Ip, lo: int, hi: int): nat
    requires |calls| == |answers|
  {
    if calls == [] then 0
    else
      var n := |calls| - 1;
      var c := calls[n];
      AcceptCount(calls[..n], answers[..n], ip, lo, hi)
      + if c.Attempt? && CanonicalIp(c.ip) == ip && answers[n].Accept? && lo <= c.now <= hi then 1 else 0
  }

  /** Failures of `ip` since its last success. */
  ghost function Streak(calls: seq<Call>, ip: Ip): nat {
    if calls == [] then 0
    else
      var c, before := calls[|calls| - 1], calls[..|calls| - 1];
      if c.Finished? && CanonicalIp(c.ip) == ip then (if c.outcome.Success? then 0 else Streak(before, ip) + 1)
      else Streak(before, ip)
  }

  /** When the latest outcome of `ip` was recorded. */
  ghost function LastOutcomeAt(calls: seq<Call>, ip: Ip): Instant {
    if calls == [] then 0
    else
      var c := calls[|calls| - 1];
      if c.Finished? && CanonicalIp(c.ip) == ip then c.now else LastOutcomeAt(calls[..|calls| - 1], ip)
  }

  // ---------------------------------------------------------------------------
  // The log of a run is made of its calls and answers
  // ---------------------------------------------------------------------------

  lemma RecordedPrefix(calls: seq<Call>, answers: seq<Decision>, k: nat)
    requires |calls| == |answers| && k <= |calls|
    ensures Recorded(calls, answers)[..k] == Recorded(calls[..k], answers[..k])
  {
    forall i | 0 <= i < k
      ensures Recorded(calls, answers)[i] == Recorded(calls[..k], answers[..k])[i]
    {
      RecordedAt(calls, answers, i);
      RecordedAt(calls[..k], answers[..k], i);
    }
  }

  /** The last event, and the log before it. */
  lemma RecordedLast(calls: seq<Call>, answers: seq<Decision>)
    requires |calls| == |answers| > 0
    ensures var n, log := |calls| - 1, Recorded(calls, answers);
            && log[..n] == Recorded(calls[..n], answers[..n])
            && log[n] == match calls[n]
                         case Attempt(now, ip) => Tried(now, CanonicalIp(ip), answers[n])
                         case Finished(now, ip, outcome) => Done(now, CanonicalIp(ip), outcome)
  {
    RecordedPrefix(calls, answers, |calls| - 1);
    RecordedAt(calls, answers, |calls| - 1);
  }

  lemma {:induction false} RecentIsCount(calls: seq<Call>, answers: seq<Decision>, ip: Ip, now: Instant, window: nat)
    requires |calls| == |answers| && forall i :: 0 <= i < |calls| ==> calls[i].now <= now
    ensures Recent(Accepts(Recorded(calls, answers), ip), now, window) == AcceptCount(calls, answers, ip, now - window, now)
  {
    if calls != [] {
      var n := |calls| - 1;
      RecordedLast(calls, answers);
      RecentIsCount(calls[..n], answers[..n], ip, now, window);
      RecentOneMore(Accepts(Recorded(calls[..n], answers[..n]), ip), calls[n].now, now, window);
    }
  }

  lemma RecentOneMore(times: seq<Instant>, t: Instant, now: Instant, window: nat)
    ensures Recent(times + [t], now, window) == Recent(times, now, window) + if t + window >= now then 1 else 0
    ensures Recent(times + [], now, window) == Recent(times, now, window)
  {
    assert (times + [t])[..|times|] == times && times + [] == times;
  }

  lemma {:induction false} WindowIsCount(calls: seq<Call>, answers: seq<Decision>, ip: Ip, lo: int, hi: int)
    requires |calls| == |answers|
    ensures CountIn(Accepts(Recorded(calls, answers), ip), lo, hi) == AcceptCount(calls, answers, ip, lo, hi)
  {
    if calls != [] {
      var n := |calls| - 1;
      RecordedLast(calls, answers);
      WindowIsCount(calls[..n], answers[..n], ip, lo, hi);
      CountOneMore(Accepts(Recorded(calls[..n], answers[..n]), ip), calls[n].now, lo, hi);
    }
  }

  lemma CountOneMore(times: seq<Instant>, t: Instant, lo: int, hi: int)
    ensures CountIn(times + [t], lo, hi) == CountIn(times, lo, hi) + if lo <= t <= hi then 1 else 0
    ensures CountIn(times + [], lo, hi) == CountIn(times, lo, hi)
  {
    assert (times + [t])[..|times|] == times && times + [] == times;
  }

  lemma {:induction false} FailuresAreStreak(calls: seq<Call>, answers: seq<Decision>, ip: Ip)
    requires |calls| == |answers|
    ensures Failures(Recorded(calls, answers), ip) == Min(Streak(calls, ip), 4_294_967_295)
  {
    if calls != [] {
      RecordedLast(calls, answers);
      FailuresAreStreak(calls[..|calls| - 1], answers[..|calls| - 1], ip);
    }
  }

  /** The lockout in the log: earned by the latest failure, if the streak reaches the threshold. */
  lemma {:induction false} LockoutIsEarned(p: Policy, calls: seq<Call>, answers: seq<Decision>, ip: Ip)
    requires |calls| == |answers|
    ensures LockoutEnd(p, Recorded(calls, answers), ip)
         == if p.failureThreshold > 0 && Streak(calls, ip) >= p.failureThreshold
            then Some(LastOutcomeAt(calls, ip) + p.cooldown(Min(Streak(calls, ip), 4_294_967_295))) else None
  {
    if calls != [] {
      FailuresAreStreak(calls, answers, ip);
      RecordedLast(calls, answers);
      LockoutIsEarned(p, calls[..|calls| - 1], answers[..|calls| - 1], ip);
    }
  }

  lemma {:induction false} TimedUpTo(calls: seq<Call>, from: Instant, k: nat, i: nat)
    requires Timed(calls, from) && i <= k < |calls|
    ensures from <= calls[i].now <= calls[k].now
    decreases |calls|
  {
    if i > 0 {
      TimedUpTo(calls[1..], calls[0].now, k - 1, i - 1);
    } else if k > 0 {
      TimedUpTo(calls[1..], calls[0].now, k - 1, 0);
    }
  }

  // ---------------------------------------------------------------------------
  // The answers
  // ---------------------------------------------------------------------------

  /** The answer from the three facts about the address. */
  lemma AnswerOfFacts(p: Policy, f: Facts, now: Instant, accepted: nat, streak: nat, length: nat, last: Instant)
    requires accepted == Recent(f.accepts, now, p.window)
    requires f.lockoutEnd == if p.failureThreshold > 0 && streak >= p.failureThreshold then Some(last + length) else None
    ensures AnswerFrom(p, f, now)
         == if p.failureThreshold > 0 && streak >= p.failureThreshold && now < last + length then RejectCooldown(last + length - now)
            else if p.maxAttempts > 0 && accepted >= p.maxAttempts then RejectRateLimit(accepted)
            else Accept
  {
  }

  /** The answer to an address after some calls and answers. */
  lemma AnswerAfter(p: Policy, calls: seq<Call>, answers: seq<Decision>, ip: Ip, now: Instant, accepted: nat, streak: nat, length: nat)
    requires |calls| == |answers| && forall i :: 0 <= i < |calls| ==> calls[i].now <= now
    requires accepted == AcceptCount(calls, answers, ip, now - p.window, now) && streak == Streak(calls, ip)
    requires streak >= p.failureThreshold ==> length == p.cooldown(Min(streak, 4_294_967_295))
    ensures var until := LastOutcomeAt(calls, ip) + length;
            AnswerFrom(p, FactsOf(p, Recorded(calls, answers), ip), now) == (
              if p.failureThreshold > 0 && streak >= p.failureThreshold && now < until then RejectCooldown(until - now)
              else if p.maxAttempts > 0 && accepted >= p.maxAttempts then RejectRateLimit(accepted)
              else Accept)
  {
    RecentIsCount(calls, answers, ip, now, p.window);
    LockoutIsEarned(p, calls, answers, ip);
    AnswerOfFacts(p, FactsOf(p, Recorded(calls, answers), ip), now, accepted, streak, length, LastOutcomeAt(calls, ip));
  }

  /** Answer k of a run, from the calls and answers before it. */
  lemma AnswerAt(p: Policy, calls: seq<Call>, answers: seq<Decision>, k: nat)
    requires GoodRun(p, calls) && answers == Answers(p, map[], calls) && k < |calls| && calls[k].Attempt?
    ensures answers[k] == SpecAnswer(p, Recorded(calls[..k], answers[..k]), calls[k].now, CanonicalIp(calls[k].ip))
  {
    RunAt(p, calls, k);
    RecordedPrefix(calls, answers, k);
  }

  lemma NotLater(calls: seq<Call>, k: nat)
    requires Timed(calls, 0) && k < |calls|
    ensures forall i :: 0 <= i < k ==> calls[..k][i].now <= calls[k].now
  {
    forall i | 0 <= i < k
      ensures calls[..k][i].now <= calls[k].now
    {
      TimedUpTo(calls, 0, k, i);
    }
  }

  /** The lockout that a streak earns. */
  lemma EarnedLength(cfg: GuardConfig, streak: nat)
    requires Min(streak, 4_294_967_295) >= cfg.failureThreshold
    ensures PolicyOf(cfg).cooldown(Min(streak, 4_294_967_295))
         == Min(cfg.baseCooldown * Min(Pow2(Min(streak, 4_294_967_295) - cfg.failureThreshold), 4_294_967_295), cfg.maxCooldown)
  {
    CooldownLaw(Min(streak, 4_294_967_295), cfg.failureThreshold, cfg.baseCooldown, cfg.maxCooldown);
  }

  /** Every answer, exactly; `before` and `told` are the calls and answers before it.  Loopback is let
      in.  Another address is locked out from a failure that brings its streak to the threshold or
      further, for the base time doubled with every failure past the threshold, and told what is
      left of that.  Otherwise it is let in exactly while fewer than `maxAttempts` of its attempts
      were accepted in the window that ends now, and else told how many were. */
  lemma AnswerExactly(cfg: GuardConfig, calls: seq<Call>, k: nat, before: seq<Call>, told: seq<Decision>, ip: Ip, now: Instant)
    requires GoodRun(PolicyOf(cfg), calls) && k < |calls| && calls[k].Attempt?
    requires before == calls[..k] && told == Answers(PolicyOf(cfg), map[], calls)[..k]
    requires ip == CanonicalIp(calls[k].ip) && now == calls[k].now
    ensures var accepted := AcceptCount(before, told, ip, now - cfg.window, now);
            var streak := Streak(before, ip);
            var doublings := Min(streak, 4_294_967_295) - cfg.failureThreshold;
            var until := LastOutcomeAt(before, ip)
              + (if doublings < 0 then 0 else Min(cfg.baseCooldown * Min(Pow2(doublings), 4_294_967_295), cfg.maxCooldown));
            Answers(PolicyOf(cfg), map[], calls)[k] == (
              if IsLoopback(ip) then Accept
              else if cfg.failureThreshold > 0 && streak >= cfg.failureThreshold && now < until then RejectCooldown(until - now)
              else if cfg.maxAttempts > 0 && accepted >= cfg.maxAttempts then RejectRateLimit(accepted)
              else Accept)
  {
    AnswerAt(PolicyOf(cfg), calls, Answers(PolicyOf(cfg), map[], calls), k);
    if !IsLoopback(ip) {
      NotLater(calls, k);
      AnswerFor(cfg, before, told, ip, now);
    }
  }

  lemma AnswerFor(cfg: GuardConfig, calls: seq<Call>, answers: seq<Decision>, ip: Ip, now: Instant)
    requires |calls| == |answers| && forall i :: 0 <= i < |calls| ==> calls[i].now <= now
    ensures var accepted := AcceptCount(calls, answers, ip, now - cfg.window, now);
            var streak := Streak(calls, ip);
            var doublings := Min(streak, 4_294_967_295) - cfg.failureThreshold;
            var until := LastOutcomeAt(calls, ip)
              + (if doublings < 0 then 0 else Min(cfg.baseCooldown * Min(Pow2(doublings), 4_294_967_295), cfg.maxCooldown));
            AnswerFrom(PolicyOf(cfg), FactsOf(PolicyOf(cfg), Recorded(calls, answers), ip), now) == (
              if cfg.failureThreshold > 0 && streak >= cfg.failureThreshold && now < until then RejectCooldown(until - now)
              else if cfg.maxAttempts > 0 && accepted >= cfg.maxAttempts then RejectRateLimit(accepted)
              else Accept)
  {
    var streak := Streak(calls, ip);
    var doublings := Min(streak, 4_294_967_295) - cfg.failureThreshold;
    if doublings >= 0 {
      EarnedLength(cfg, streak);
    }
    var length := if doublings < 0 then 0 else Min(cfg.baseCooldown * Min(Pow2(doublings), 4_294_967_295), cfg.maxCooldown);
    AnswerAfter(PolicyOf(cfg), calls, answers, ip, now, AcceptCount(calls, answers, ip, now - cfg.window, now), streak, length);
  }

  /** At most `maxAttempts` accepts of one address in any window of the configured length, counted on
      the calls and answers of a run. */
  lemma AcceptedPerWindow(cfg: GuardConfig, calls: seq<Call>, ip: Ip, lo: int)
    requires GoodRun(PolicyOf(cfg), calls) && cfg.maxAttempts > 0 && !IsLoopback(ip)
    ensures AcceptCount(calls, Answers(PolicyOf(cfg), map[], calls), ip, lo, lo + cfg.window) <= cfg.maxAttempts
  {
    AcceptsPerWindow(cfg, calls, ip, lo);
    WindowIsCount(calls, Answers(PolicyOf(cfg), map[], calls), ip, lo, lo + cfg.window);
  }
}
