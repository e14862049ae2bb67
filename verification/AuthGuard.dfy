/** The connection guard: per-IP sliding-window rate limit and escalating lockout.

    `AuthGuardCore` is the running object, with its pruned attempt queues and its eviction of
    idle entries.  `Log` is the specification: it keeps everything and forgets nothing. */
module AuthGuard {
  import opened Common

  /** An address as a number: 32 bits for V4, 128 bits for V6. */
  datatype Ip = V4(addr: nat) | V6(addr: nat)

  /** Folds an IPv4-mapped IPv6 address (::ffff:a.b.c.d) to its IPv4 form. */
  function CanonicalIp(ip: Ip): (r: Ip)
    ensures r.V6? ==> r.addr / 0x1_0000_0000 != 0xFFFF
  {
    match ip
    case V6(a) => if a / 0x1_0000_0000 == 0xFFFF then V4(a % 0x1_0000_0000) else ip
    case V4(_) => ip
  }

  ghost predicate ValidIp(ip: Ip) {
    match ip
    case V4(a) => a < 0x1_0000_0000
    case V6(a) => a < 0x1_0000_0000_0000_0000_0000_0000_0000_0000
  }

  /** ::ffff:a.b.c.d for the IPv4 address a.b.c.d. */
  function Mapped(ip: Ip): Ip
    requires ip.V4?
  {
    V6(0xFFFF_0000_0000 + ip.addr)
  }

  /** Two addresses share a key if and only if they are the same, or one is the mapped form of the
      other; and a mapped loopback is a loopback. */
  lemma SameKeyExactly(x: Ip, y: Ip)
    requires ValidIp(x) && ValidIp(y)
    ensures CanonicalIp(x) == CanonicalIp(y) <==> x == y || (x.V4? && y == Mapped(x)) || (y.V4? && x == Mapped(y))
    ensures ValidIp(CanonicalIp(x)) && CanonicalIp(CanonicalIp(x)) == CanonicalIp(x)
    ensures x.V4? ==> Mapped(x) == V6(0xFFFF_0000_0000 + x.addr) && CanonicalIp(Mapped(x)) == CanonicalIp(x) == x
    ensures x.V4? ==> (IsLoopback(CanonicalIp(Mapped(x))) <==> IsLoopback(x))
  {
    if x.V4? {
      MappedBack(x.addr);
    }
    if y.V4? {
      MappedBack(y.addr);
    }
  }

  lemma MappedBack(a: nat)
    requires a < 0x1_0000_0000
    ensures CanonicalIp(Mapped(V4(a))) == V4(a)
  {
    assert (0xFFFF_0000_0000 + a) / 0x1_0000_0000 == 0xFFFF && (0xFFFF_0000_0000 + a) % 0x1_0000_0000 == a;
  }

  /** 127.0.0.0/8 or ::1. */
  predicate IsLoopback(ip: Ip) {
    match ip
    case V4(a) => a / 0x100_0000 == 127
    case V6(a) => a == 1
  }

  /** Loopback are the IPv4 addresses whose first byte is 127, and ::1. */
  lemma LoopbackOctets(a: byte, b: byte, c: byte, d: byte, v6: nat)
    ensures IsLoopback(V4(((a * 256 + b) * 256 + c) * 256 + d)) <==> a == 127
    ensures IsLoopback(V6(v6)) <==> v6 == 1
  {
    var low := (b * 256 + c) * 256 + d;
    assert ((a * 256 + b) * 256 + c) * 256 + d == a * 0x100_0000 + low;
    assert (a * 0x100_0000 + low) / 0x100_0000 == a;
  }

  const U64_MAX := 0xFFFF_FFFF_FFFF_FFFF
  const MAX_TRACKED_IPS := 50_000

  /** Nanoseconds; a duration holds 64 bits of seconds. */
  const MAX_DURATION := (U64_MAX + 1) * 1_000_000_000 - 1
  type Duration = d: nat | d <= MAX_DURATION
  type U32 = n: nat | n <= U32_MAX

  /** Nanoseconds of the monotonic clock. */
  type Instant = nat

  datatype GuardConfig = GuardConfig(window: Duration, maxAttempts: nat, failureThreshold: U32,
                                     baseCooldown: Duration, maxCooldown: Duration) {
    predicate RateLimitEnabled() { maxAttempts > 0 }
    predicate LockoutEnabled() { failureThreshold > 0 }
  }

  datatype Outcome = Success | Failure

  /** A configuration as the rules below use it, for any lockout schedule. */
  datatype Policy = Policy(window: nat, maxAttempts: nat, failureThreshold: U32, cooldown: U32 -> nat) {
    predicate RateLimitEnabled() { maxAttempts > 0 }
    predicate LockoutEnabled() { failureThreshold > 0 }
  }

  /** The schedule in force: `EscalatedCooldown`. */
  function PolicyOf(cfg: GuardConfig): Policy {
    Policy(cfg.window, cfg.maxAttempts, cfg.failureThreshold,
           n => EscalatedCooldown(n, cfg.failureThreshold, cfg.baseCooldown, cfg.maxCooldown))
  }

  datatype Decision =
    | Accept
    | RejectRateLimit(windowAttempts: nat)
    | RejectCooldown(retryAfter: nat)

  function Pow2(n: nat): (r: nat)
    ensures r > 0
  {
    if n == 0 then 1 else 2 * Pow2(n - 1)
  }

  /** `base << (n - threshold)`, saturating, capped at `max`. */
  function EscalatedCooldown(n: U32, threshold: U32, base: Duration, max: Duration): (r: Duration)
    ensures r <= max
  {
    var steps := Max(n - threshold, 0);
    var factor := Min(if steps < 64 then Pow2(steps) else U64_MAX, U32_MAX);
    var scaled := if base * factor > MAX_DURATION then max else base * factor;
    Min(scaled, max)
  }

  lemma {:induction false} Pow2Mono(m: nat, n: nat)
    requires m <= n
    ensures Pow2(m) <= Pow2(n)
    decreases n
  {
    if m < n {
      Pow2Mono(m, n - 1);
    }
  }

  lemma Pow2Of32()
    ensures Pow2(32) == 0x1_0000_0000
  {
    assert Pow2(8) == 256;
    assert Pow2(16) == 256 * Pow2(8);
    assert Pow2(24) == 256 * Pow2(16);
    assert Pow2(32) == 256 * Pow2(24);
  }

  /** The escalation law, for every failure count: doubling per failure past the threshold, the
      factor saturating at 2^32 - 1, the result capped. */
  lemma CooldownLaw(n: U32, threshold: U32, base: Duration, max: Duration)
    requires n >= threshold
    ensures EscalatedCooldown(n, threshold, base, max) == Min(base * Min(Pow2(n - threshold), U32_MAX), max)
  {
    if n - threshold >= 64 {
      Pow2Mono(32, n - threshold);
      Pow2Of32();
    }
  }

  /** The first lockout is the base, each failure after it doubles the last one up to the 31st, and
      from the 32nd on the base is taken 2^32 - 1 times; never more than the maximum. */
  lemma CooldownDoubles(n: U32, threshold: U32, base: Duration, max: Duration)
    requires n >= threshold
    ensures EscalatedCooldown(threshold, threshold, base, max) == Min(base, max)
    ensures 0 < n - threshold < 32 ==>
              EscalatedCooldown(n, threshold, base, max) == Min(2 * EscalatedCooldown(n - 1, threshold, base, max), max)
    ensures n - threshold >= 32 ==> EscalatedCooldown(n, threshold, base, max) == Min(base * 4_294_967_295, max)
  {
    CooldownLaw(threshold, threshold, base, max);
    CooldownLaw(n, threshold, base, max);
    Pow2Of32();
    var steps := n - threshold;
    if 0 < steps < 32 {
      CooldownLaw(n - 1, threshold, base, max);
      Pow2Mono(steps + 1, 32);
      assert Pow2(steps) == 2 * Pow2(steps - 1) && 2 * Pow2(steps) <= 0x1_0000_0000;
      TwiceProduct(base, Pow2(steps - 1));
    } else if steps >= 32 {
      Pow2Mono(32, steps);
    }
  }

  lemma TwiceProduct(a: nat, b: nat)
    ensures a * (2 * b) == 2 * (a * b)
  {
  }

  /** More failures never mean a shorter lockout. */
  lemma CooldownMonotone(n: U32, m: U32, threshold: U32, base: Duration, max: Duration)
    requires threshold <= n <= m
    ensures EscalatedCooldown(n, threshold, base, max) <= EscalatedCooldown(m, threshold, base, max)
  {
    CooldownLaw(n, threshold, base, max);
    CooldownLaw(m, threshold, base, max);
    Pow2Mono(n - threshold, m - threshold);
    var f, g := Min(Pow2(n - threshold), U32_MAX), Min(Pow2(m - threshold), U32_MAX);
    ScaleMono(base, f, g);
  }

  // ---------------------------------------------------------------------------
  // The running guard
  // ---------------------------------------------------------------------------

  datatype PerIp = PerIp(attempts: seq<Instant>, consecutiveFailures: U32, cooldownUntil: Option<Instant>, lastTouch: Instant) {
    predicate IsIdle(now: Instant) {
      attempts == [] && consecutiveFailures == 0 && (cooldownUntil.None? || now >= cooldownUntil.value)
    }
  }

  type Table = map<Ip, PerIp>

  function NewEntry(now: Instant): PerIp {
    PerIp([], 0, None, now)
  }

  /** The attempts that the prune loop leaves: everything from the first one inside the window. */
  function Prune(attempts: seq<Instant>, now: Instant, window: nat): seq<Instant> {
    if attempts != [] && now >= window && attempts[0] < now - window then Prune(attempts[1..], now, window) else attempts
  }

  ghost function PruneEntry(e: PerIp, now: Instant, window: nat): PerIp {
    e.(attempts := Prune(e.attempts, now, window))
  }

  /** The table after the retain pass: every queue pruned, idle entries gone. */
  ghost function Retained(ips: Table, now: Instant, window: nat): Table {
    map k | k in ips && !PruneEntry(ips[k], now, window).IsIdle(now) :: PruneEntry(ips[k], now, window)
  }

  /** Every entry of `drop` was touched no later than every entry outside it. */
  ghost predicate OldestFirst(ips: Table, drop: set<Ip>) {
    && drop <= ips.Keys
    && forall a, b :: a in drop && b in ips && b !in drop ==> ips[a].lastTouch <= ips[b].lastTouch
  }

  ghost predicate Evicted(ips: Table, now: Instant, window: nat, left: Table) {
    var kept := Retained(ips, now, window);
    if |kept| < MAX_TRACKED_IPS then left == kept
    else exists drop :: OldestFirst(kept, drop) && |drop| == |kept| / 10 + 1 && left == kept - drop
  }

  ghost function Unlocked(p: Policy, e: PerIp): PerIp {
    if p.LockoutEnabled() then e.(cooldownUntil := None) else e
  }

  /** What an attempt does to the entry of its address. */
  ghost function DecideEntry(p: Policy, e0: PerIp, now: Instant): (Decision, PerIp) {
    var e1 := PruneEntry(e0, now, p.window).(lastTouch := now);
    if p.LockoutEnabled() && e1.cooldownUntil.Some? && now < e1.cooldownUntil.value then
      (RejectCooldown(e1.cooldownUntil.value - now), e1)
    else
      var e2 := Unlocked(p, e1);
      if p.RateLimitEnabled() && |e2.attempts| >= p.maxAttempts then (RejectRateLimit(|e2.attempts|), e2)
      else (Accept, e2.(attempts := e2.attempts + [now]))
  }

  /** What an attempt does once the table has been swept. */
  ghost function DecideOn(p: Policy, ips: Table, now: Instant, ip: Ip): (Decision, Table) {
    var (d, e) := DecideEntry(p, if ip in ips then ips[ip] else NewEntry(now), now);
    (d, ips[ip := e])
  }

  ghost function RecordEntry(p: Policy, e0: PerIp, now: Instant, outcome: Outcome): PerIp {
    var e := e0.(lastTouch := now);
    match outcome
    case Success => e.(consecutiveFailures := 0, cooldownUntil := None)
    case Failure =>
      var n := Min(e.consecutiveFailures + 1, U32_MAX);
      var f := e.(consecutiveFailures := n);
      if p.LockoutEnabled() && n >= p.failureThreshold then
        f.(cooldownUntil := Some(now + p.cooldown(n)))
      else f
  }

  ghost function RecordOn(p: Policy, ips: Table, now: Instant, ip: Ip, outcome: Outcome): Table {
    ips[ip := RecordEntry(p, if ip in ips then ips[ip] else NewEntry(now), now, outcome)]
  }

  class AuthGuardCore {
    var ips: Table
    const cfg: GuardConfig

    constructor (cfg: GuardConfig)
      ensures ips == map[] && this.cfg == cfg
    {
      this.cfg := cfg;
      ips := map[];
    }

    method Decide(now: Instant, rawIp: Ip) returns (d: Decision)
      modifies this
      ensures IsLoopback(CanonicalIp(rawIp)) ==> d == Accept && ips == old(ips)
      ensures !IsLoopback(CanonicalIp(rawIp)) ==>
        exists left :: Evicted(old(ips), now, cfg.window, left) && (d, ips) == DecideOn(PolicyOf(cfg), left, now, CanonicalIp(rawIp))
      ensures var ip := CanonicalIp(rawIp);
              !IsLoopback(ip) ==>
                && ip in ips && ips[ip].lastTouch == now
                && (d.Accept? ==> ips[ip].attempts != [] && ips[ip].attempts[|ips[ip].attempts| - 1] == now)
                && (d.RejectRateLimit? ==> |ips[ip].attempts| == d.windowAttempts >= cfg.maxAttempts > 0)
    {
      var ip := CanonicalIp(rawIp);
      if IsLoopback(ip) {
        return Accept;
      }
      EvictStale(now);
      ghost var left := ips;
      var entry := if ip in ips then ips[ip] else NewEntry(now);
      entry := entry.(lastTouch := now);
      var attempts := PruneQueue(entry.attempts, now, cfg.window);
      entry := entry.(attempts := attempts);
      assert entry == PruneEntry(if ip in left then left[ip] else NewEntry(now), now, cfg.window).(lastTouch := now);
      if cfg.LockoutEnabled() && entry.cooldownUntil.Some? {
        var until := entry.cooldownUntil.value;
        if now < until {
          ips := ips[ip := entry];
          assert (RejectCooldown(until - now), ips) == DecideOn(PolicyOf(cfg), left, now, ip);
          return RejectCooldown(until - now);
        }
        entry := entry.(cooldownUntil := None);
      }
      if cfg.RateLimitEnabled() && |entry.attempts| >= cfg.maxAttempts {
        ips := ips[ip := entry];
        assert (RejectRateLimit(|entry.attempts|), ips) == DecideOn(PolicyOf(cfg), left, now, ip);
        return RejectRateLimit(|entry.attempts|);
      }
      ips := ips[ip := entry.(attempts := entry.attempts + [now])];
      assert (Accept, ips) == DecideOn(PolicyOf(cfg), left, now, ip);
      d := Accept;
    }

    method RecordOutcome(now: Instant, rawIp: Ip, outcome: Outcome)
      modifies this
      ensures ips == if IsLoopback(CanonicalIp(rawIp)) then old(ips)
                     else RecordOn(PolicyOf(cfg), old(ips), now, CanonicalIp(rawIp), outcome)
      ensures var ip := CanonicalIp(rawIp);
              !IsLoopback(ip) ==>
                && ips.Keys == old(ips).Keys + {ip}
                && (forall k :: k in old(ips) && k != ip ==> ips[k] == old(ips)[k])
                && ips[ip].lastTouch == now
                && ips[ip].attempts == (if ip in old(ips) then old(ips)[ip].attempts else [])
                && match outcome
                   case Success => ips[ip].consecutiveFailures == 0 && ips[ip].cooldownUntil == None
                   case Failure =>
                     ips[ip].consecutiveFailures == Min(if ip in old(ips) then old(ips)[ip].consecutiveFailures + 1 else 1, 4_294_967_295)
    {
      var ip := CanonicalIp(rawIp);
      if IsLoopback(ip) {
        return;
      }
      var entry := if ip in ips then ips[ip] else NewEntry(now);
      entry := entry.(lastTouch := now);
      match outcome
      case Success =>
        entry := entry.(consecutiveFailures := 0);
        ips := ips[ip := entry.(cooldownUntil := None)];
      case Failure =>
        entry := entry.(consecutiveFailures := Min(entry.consecutiveFailures + 1, U32_MAX));
        ips := ips[ip := entry];
        if cfg.LockoutEnabled() && entry.consecutiveFailures >= cfg.failureThreshold {
          var cooldown := EscalatedCooldown(entry.consecutiveFailures, cfg.failureThreshold, cfg.baseCooldown, cfg.maxCooldown);
          ips := ips[ip := entry.(cooldownUntil := Some(now + cooldown))];
        }
    }

    static method PruneQueue(attempts: seq<Instant>, now: Instant, window: nat) returns (left: seq<Instant>)
      ensures left == Prune(attempts, now, window)
    {
      left := attempts;
      while left != [] && now >= window && left[0] < now - window
        invariant Prune(left, now, window) == Prune(attempts, now, window)
        decreases |left|
      {
        left := left[1..];
      }
    }

    method EvictStale(now: Instant)
      modifies this
      ensures Evicted(old(ips), now, cfg.window, ips)
    {
      ghost var before := ips;
      var todo := ips.Keys;
      while todo != {}
        invariant todo <= ips.Keys
        invariant forall k :: k in todo ==> k in before && ips[k] == before[k]
        invariant forall k :: k in before && k !in todo ==>
          var e := PruneEntry(before[k], now, cfg.window);
          if e.IsIdle(now) then k !in ips else k in ips && ips[k] == e
        invariant ips.Keys <= before.Keys
        decreases |todo|
      {
        var k :| k in todo;
        todo := todo - {k};
        var attempts := PruneQueue(ips[k].attempts, now, cfg.window);
        var entry := ips[k].(attempts := attempts);
        ips := if entry.IsIdle(now) then ips - {k} else ips[k := entry];
      }
      assert ips == Retained(before, now, cfg.window);
      if |ips| >= MAX_TRACKED_IPS {
        DropOldest(|ips| / 10 + 1);
      }
    }

    /** Take the n entries with the oldest `lastTouch` out of the table. */
    method DropOldest(n: nat)
      requires n <= |ips|
      modifies this
      ensures exists drop :: OldestFirst(old(ips), drop) && |drop| == n && ips == old(ips) - drop
    {
      ghost var drop: set<Ip> := {};
      ghost var before := ips;
      for i := 0 to n
        invariant OldestFirst(before, drop) && |drop| == i && ips == before - drop
      {
        assert ips.Keys == before.Keys - drop && |ips.Keys| == |before.Keys| - i;
        OldestExists(ips, ips.Keys);
        var oldest :| oldest in ips && forall k :: k in ips ==> ips[oldest].lastTouch <= ips[k].lastTouch;
        DropOne(before, drop, oldest, ips);
        drop := drop + {oldest};
        ips := ips - {oldest};
      }
    }
  }

  /** What a sweep leaves: entries that lost nothing but attempts from the front of their queue; below
      50000 all that are not idle, and otherwise all but a tenth plus one of those, and the ones
      taken were touched no later than those left. */
  lemma SweepLaw(ips: Table, now: Instant, window: nat, left: Table)
    requires Evicted(ips, now, window, left)
    ensures var kept := Retained(ips, now, window);
            && left.Keys <= kept.Keys <= ips.Keys
            && |left| == |kept| - (if |kept| < 50_000 then 0 else |kept| / 10 + 1)
            && (forall a, b :: a in kept && a !in left && b in left ==> ips[a].lastTouch <= ips[b].lastTouch)
            && forall k :: k in left ==> OnlyShortened(ips[k], left[k])
  {
    var kept := Retained(ips, now, window);
    LeftOfKept(kept, left);
    forall k | k in left
      ensures OnlyShortened(ips[k], left[k])
    {
      PruneSuffix(ips[k].attempts, now, window);
    }
  }

  /** An entry that lost nothing but attempts from the front of its queue. */
  ghost predicate OnlyShortened(was: PerIp, e: PerIp) {
    && e.consecutiveFailures == was.consecutiveFailures && e.cooldownUntil == was.cooldownUntil && e.lastTouch == was.lastTouch
    && |e.attempts| <= |was.attempts| && e.attempts == was.attempts[|was.attempts| - |e.attempts|..]
  }

  lemma LeftOfKept(kept: Table, left: Table)
    requires if |kept| < MAX_TRACKED_IPS then left == kept
             else exists drop :: OldestFirst(kept, drop) && |drop| == |kept| / 10 + 1 && left == kept - drop
    ensures left.Keys <= kept.Keys && |left| == |kept| - (if |kept| < 50_000 then 0 else |kept| / 10 + 1)
    ensures forall k :: k in left ==> left[k] == kept[k]
    ensures forall a, b :: a in kept && a !in left && b in left ==> kept[a].lastTouch <= kept[b].lastTouch
  {
    if |kept| >= 50_000 {
      var drop :| OldestFirst(kept, drop) && |drop| == |kept| / 10 + 1 && left == kept - drop;
      SizeWithout(kept, drop);
    }
  }

  lemma SizeWithout(kept: Table, drop: set<Ip>)
    requires drop <= kept.Keys
    ensures |kept - drop| == |kept| - |drop|
  {
    assert (kept - drop).Keys == kept.Keys - drop && |kept| == |kept.Keys|;
    assert |(kept - drop).Keys| == |kept.Keys| - |drop| by { assert (kept.Keys - drop) + drop == kept.Keys; }
  }

  lemma {:induction false} PruneSuffix(attempts: seq<Instant>, now: Instant, window: nat)
    ensures var left := Prune(attempts, now, window);
            |left| <= |attempts| && left == attempts[|attempts| - |left|..]
  {
    if attempts != [] && now >= window && attempts[0] < now - window {
      PruneSuffix(attempts[1..], now, window);
    }
  }

  /** In an ordered queue an attempt at time a counts exactly while now <= a + window, so an entry
      goes exactly when its newest attempt is older than that, no failure stands against it, and no
      lockout is in force. */
  lemma RetainedExactly(ips: Table, now: Instant, window: nat, k: Ip)
    requires k in ips && Ordered(ips[k].attempts, now)
    ensures var e := ips[k];
            k in Retained(ips, now, window) <==>
              || (e.attempts != [] && now <= e.attempts[|e.attempts| - 1] + window)
              || e.consecutiveFailures > 0
              || (e.cooldownUntil.Some? && now < e.cooldownUntil.value)
  {
    var all := ips[k].attempts;
    var left := Prune(all, now, window);
    assert all[0..] == all;
    PruneKeepsRecent(all, 0, now, window);
    if all != [] {
      if left == [] {
        assert all[|all| - 1] + window < now;
      } else {
        PruneFront(all, now, window);
      }
    }
  }

  /** The first attempt left is inside the window. */
  lemma {:induction false} PruneFront(attempts: seq<Instant>, now: Instant, window: nat)
    ensures var left := Prune(attempts, now, window); left != [] ==> now <= left[0] + window
  {
    if attempts != [] && now >= window && attempts[0] < now - window {
      PruneFront(attempts[1..], now, window);
    }
  }

  lemma DropOne(before: Table, drop: set<Ip>, oldest: Ip, ips: Table)
    requires OldestFirst(before, drop) && ips == before - drop && oldest in ips
    requires forall k :: k in ips ==> ips[oldest].lastTouch <= ips[k].lastTouch
    ensures OldestFirst(before, drop + {oldest}) && ips - {oldest} == before - (drop + {oldest})
  {
    forall b | b in before && b !in drop
      ensures before[oldest].lastTouch <= before[b].lastTouch
    {
      assert b in ips && ips[b] == before[b];
    }
  }

  lemma {:induction false} OldestExists(ips: Table, keys: set<Ip>)
    requires keys <= ips.Keys && keys != {}
    ensures exists o :: o in keys && forall k :: k in keys ==> ips[o].lastTouch <= ips[k].lastTouch
    decreases |keys|
  {
    var x :| x in keys;
    if keys == {x} {
    } else {
      OldestExists(ips, keys - {x});
      var o :| o in keys - {x} && forall k :: k in keys - {x} ==> ips[o].lastTouch <= ips[k].lastTouch;
      assert forall k :: k in keys ==> k == x || k in keys - {x};
      var least := if ips[x].lastTouch < ips[o].lastTouch then x else o;
      assert least in keys && forall k :: k in keys ==> ips[least].lastTouch <= ips[k].lastTouch;
    }
  }

  // ---------------------------------------------------------------------------
  // Runs of the guard
  // ---------------------------------------------------------------------------

  datatype Call =
    | Attempt(now: Instant, ip: Ip)
    | Finished(now: Instant, ip: Ip, outcome: Outcome)

  /** `now` never goes back. */
  ghost predicate Timed(calls: seq<Call>, from: Instant) {
    calls != [] ==> from <= calls[0].now && Timed(calls[1..], calls[0].now)
  }

  /** One call below the hard cap: the answer (Accept for a recorded outcome) and the new table. */
  ghost function Step(p: Policy, ips: Table, c: Call): (Decision, Table) {
    var ip := CanonicalIp(c.ip);
    if IsLoopback(ip) then (Accept, ips)
    else match c
      case Attempt(now, _) => DecideOn(p, Retained(ips, now, p.window), now, ip)
      case Finished(now, _, outcome) => (Accept, RecordOn(p, ips, now, ip, outcome))
  }

  ghost function Answers(p: Policy, ips: Table, calls: seq<Call>): (r: seq<Decision>)
    ensures |r| == |calls|
    decreases |calls|
  {
    if calls == [] then [] else
      var (d, next) := Step(p, ips, calls[0]);
      [d] + Answers(p, next, calls[1..])
  }

  /** No sweep in the run leaves the table at the hard cap. */
  ghost predicate NeverFull(p: Policy, ips: Table, calls: seq<Call>)
    decreases |calls|
  {
    calls != [] ==>
      && (calls[0].Attempt? && !IsLoopback(CanonicalIp(calls[0].ip)) ==>
            |Retained(ips, calls[0].now, p.window)| < MAX_TRACKED_IPS)
      && NeverFull(p, Step(p, ips, calls[0]).1, calls[1..])
  }

  /** Below the cap the sweep is the retain pass alone, so `Step` is what the object does. */
  lemma SweepBelowCap(ips: Table, now: Instant, window: nat, left: Table)
    requires |Retained(ips, now, window)| < MAX_TRACKED_IPS && Evicted(ips, now, window, left)
    ensures left == Retained(ips, now, window)
  {
  }

  ghost function IpsOf(calls: seq<Call>): set<Ip> {
    set i | 0 <= i < |calls| :: CanonicalIp(calls[i].ip)
  }

  /** Fewer than the cap's worth of distinct peers can never fill the table. */
  lemma {:induction false} FewPeersNeverFull(p: Policy, ips: Table, calls: seq<Call>, peers: set<Ip>)
    requires ips.Keys <= peers && IpsOf(calls) <= peers && |peers| < 50_000
    ensures NeverFull(p, ips, calls)
    decreases |calls|
  {
    if calls != [] {
      var c := calls[0];
      assert CanonicalIp(c.ip) in IpsOf(calls);
      var kept := Retained(ips, c.now, p.window);
      assert kept.Keys <= peers;
      SubsetSize(kept.Keys, peers);
      assert IpsOf(calls[1..]) <= peers by {
        forall i | 0 <= i < |calls[1..]|
          ensures CanonicalIp(calls[1..][i].ip) in peers
        {
          assert CanonicalIp(calls[i + 1].ip) in IpsOf(calls);
        }
      }
      FewPeersNeverFull(p, Step(p, ips, c).1, calls[1..], peers);
    }
  }

  lemma {:induction false} SubsetSize<T>(a: set<T>, b: set<T>)
    requires a <= b
    ensures |a| <= |b|
  {
    assert |b| == |a| + |b - a| by { assert a + (b - a) == b; }
  }

  // ---------------------------------------------------------------------------
  // The specification: the whole history
  // ---------------------------------------------------------------------------

  datatype Event =
    | Tried(at: Instant, ip: Ip, decision: Decision)
    | Done(at: Instant, ip: Ip, outcome: Outcome)

  type Log = seq<Event>

  /** Times of the accepted attempts of one address. */
  ghost function Accepts(log: Log, ip: Ip): seq<Instant> {
    if log == [] then []
    else
      var last := log[|log| - 1];
      Accepts(log[..|log| - 1], ip) + if last.Tried? && last.ip == ip && last.decision.Accept? then [last.at] else []
  }

  /** Straight failures since the last success. */
  ghost function Failures(log: Log, ip: Ip): U32 {
    if log == [] then 0
    else
      var last, before := log[|log| - 1], log[..|log| - 1];
      if last.Done? && last.ip == ip then
        match last.outcome
        case Success => 0
        case Failure => Min(Failures(before, ip) + 1, U32_MAX)
      else Failures(before, ip)
  }

  /** End of the lockout that the failures so far have earned. */
  ghost function LockoutEnd(p: Policy, log: Log, ip: Ip): Option<Instant> {
    if log == [] then None
    else
      var last, before := log[|log| - 1], log[..|log| - 1];
      if last.Done? && last.ip == ip then
        match last.outcome
        case Success => None
        case Failure =>
          var n := Failures(log, ip);
          if p.LockoutEnabled() && n >= p.failureThreshold
          then Some(last.at + p.cooldown(n))
          else LockoutEnd(p, before, ip)
      else LockoutEnd(p, before, ip)
  }

  /** How many of `times` are no older than `window` at `now`. */
  ghost function Recent(times: seq<Instant>, now: Instant, window: nat): nat {
    if times == [] then 0
    else Recent(times[..|times| - 1], now, window) + if times[|times| - 1] + window >= now then 1 else 0
  }

  /** What the log says about one address. */
  datatype Facts = Facts(accepts: seq<Instant>, failures: U32, lockoutEnd: Option<Instant>)

  ghost function FactsOf(p: Policy, log: Log, ip: Ip): Facts {
    Facts(Accepts(log, ip), Failures(log, ip), LockoutEnd(p, log, ip))
  }

  /** The answer that the facts call for. */
  ghost function AnswerFrom(p: Policy, f: Facts, now: Instant): Decision {
    var n := Recent(f.accepts, now, p.window);
    if p.LockoutEnabled() && f.lockoutEnd.Some? && now < f.lockoutEnd.value then RejectCooldown(f.lockoutEnd.value - now)
    else if p.RateLimitEnabled() && n >= p.maxAttempts then RejectRateLimit(n)
    else Accept
  }

  ghost function SpecAnswer(p: Policy, log: Log, now: Instant, ip: Ip): Decision {
    if IsLoopback(ip) then Accept else AnswerFrom(p, FactsOf(p, log, ip), now)
  }

  ghost function SpecEvent(p: Policy, log: Log, c: Call): Event {
    var ip := CanonicalIp(c.ip);
    match c
    case Attempt(now, _) => Tried(now, ip, SpecAnswer(p, log, now, ip))
    case Finished(now, _, outcome) => Done(now, ip, outcome)
  }

  /** The log after a run, and with it every answer. */
  ghost function SpecLog(p: Policy, log: Log, calls: seq<Call>): (r: Log)
    ensures |r| == |log| + |calls|
    decreases |calls|
  {
    if calls == [] then log else SpecLog(p, log + [SpecEvent(p, log, calls[0])], calls[1..])
  }

  /** The run of the object, written down as a log. */
  ghost function Recorded(calls: seq<Call>, answers: seq<Decision>): (r: Log)
    requires |calls| == |answers|
    ensures |r| == |calls|
    decreases |calls|
  {
    if calls == [] then []
    else
      var e := match calls[0]
               case Attempt(now, ip) => Tried(now, CanonicalIp(ip), answers[0])
               case Finished(now, ip, outcome) => Done(now, CanonicalIp(ip), outcome);
      [e] + Recorded(calls[1..], answers[1..])
  }

  // ---------------------------------------------------------------------------
  // The object answers like the history
  // ---------------------------------------------------------------------------

  ghost predicate Ordered(times: seq<Instant>, upTo: Instant) {
    && (forall i, j :: 0 <= i < j < |times| ==> times[i] <= times[j])
    && forall i :: 0 <= i < |times| ==> times[i] <= upTo
  }

  ghost predicate OnlyAgedForgotten(all: seq<Instant>, left: seq<Instant>, window: nat, now: Instant) {
    var k := |all| - |left|;
    k >= 0 && left == all[k..] && forall i :: 0 <= i < k ==> all[i] + window < now
  }

  /** What the entry of one address may have forgotten by time `now`: aged attempts and a lockout
      that is over. */
  ghost predicate Remembers(p: Policy, e: PerIp, f: Facts, now: Instant) {
    && Ordered(f.accepts, now) && OnlyAgedForgotten(f.accepts, e.attempts, p.window, now)
    && e.consecutiveFailures == f.failures
    && SameLockout(e.cooldownUntil, f.lockoutEnd, now)
  }

  /** The same, or a lockout that is over and was cleared. */
  ghost predicate SameLockout(kept: Option<Instant>, end: Option<Instant>, now: Instant) {
    kept == end || (kept == None && end.Some? && end.value <= now)
  }

  ghost function EntryOf(ips: Table, ip: Ip): PerIp {
    if ip in ips then ips[ip] else NewEntry(0)
  }

  ghost predicate Simulates(p: Policy, ips: Table, log: Log, now: Instant) {
    forall ip :: !IsLoopback(ip) ==> Remembers(p, EntryOf(ips, ip), FactsOf(p, log, ip), now)
  }

  /** Pruning a suffix of an ordered history leaves exactly the recent part of it. */
  lemma {:induction false} PruneKeepsRecent(all: seq<Instant>, k: nat, now: Instant, window: nat)
    requires k <= |all| && Ordered(all, now) && forall i :: 0 <= i < k ==> all[i] + window < now
    ensures var left := Prune(all[k..], now, window);
            && |left| == Recent(all, now, window) <= |all| - k
            && left == all[|all| - |left|..]
            && forall i :: 0 <= i < |all| - |left| ==> all[i] + window < now
    decreases |all| - k
  {
    if k < |all| && all[k] + window < now {
      assert all[k..][1..] == all[k + 1..];
      PruneKeepsRecent(all, k + 1, now, window);
    } else {
      RecentSuffix(all, k, now, window);
    }
  }

  lemma {:induction false} RecentSuffix(all: seq<Instant>, k: nat, now: Instant, window: nat)
    requires k <= |all|
    requires forall i :: 0 <= i < |all| ==> (all[i] + window >= now <==> i >= k)
    ensures Recent(all, now, window) == |all| - k
  {
    if all != [] {
      var n := |all| - 1;
      assert forall i :: 0 <= i < n ==> all[..n][i] == all[i];
      RecentSuffix(all[..n], Min(k, n), now, window);
    }
  }

  /** The sweep at `now` forgets nothing that still matters. */
  lemma SweepRemembers(p: Policy, ips: Table, f: Facts, ip: Ip, before: Instant, now: Instant)
    requires Remembers(p, EntryOf(ips, ip), f, before) && before <= now
    ensures Remembers(p, EntryOf(Retained(ips, now, p.window), ip), f, now)
  {
    var e := PruneEntry(EntryOf(ips, ip), now, p.window);
    PruneRemembers(p, EntryOf(ips, ip), f, before, now);
    if ip in ips && !e.IsIdle(now) {
      assert EntryOf(Retained(ips, now, p.window), ip) == e;
    } else {
      assert EntryOf(Retained(ips, now, p.window), ip) == NewEntry(0);
      IdleForgotten(p, e, f, now);
    }
  }

  /** An idle entry says no more than no entry. */
  lemma IdleForgotten(p: Policy, e: PerIp, f: Facts, now: Instant)
    requires Remembers(p, e, f, now) && e.IsIdle(now)
    ensures Remembers(p, NewEntry(0), f, now)
  {
    assert NewEntry(0).attempts == e.attempts;
  }

  lemma PruneRemembers(p: Policy, e: PerIp, f: Facts, before: Instant, now: Instant)
    requires Remembers(p, e, f, before) && before <= now
    ensures Remembers(p, PruneEntry(e, now, p.window), f, now)
    ensures |PruneEntry(e, now, p.window).attempts| == Recent(f.accepts, now, p.window)
  {
    PruneKeepsRecent(f.accepts, |f.accepts| - |e.attempts|, now, p.window);
  }

  lemma AcceptRemembers(p: Policy, e: PerIp, f: Facts, now: Instant)
    requires Remembers(p, e, f, now)
    ensures Remembers(p, e.(attempts := e.attempts + [now]), TriedFacts(f, now, Accept), now)
  {
    var all, left := f.accepts, e.attempts;
    assert left + [now] == (all + [now])[|all| - |left|..];
  }

  ghost function TriedFacts(f: Facts, now: Instant, d: Decision): Facts {
    f.(accepts := f.accepts + if d.Accept? then [now] else [])
  }

  ghost function DoneFacts(p: Policy, f: Facts, now: Instant, outcome: Outcome): Facts {
    match outcome
    case Success => f.(failures := 0, lockoutEnd := None)
    case Failure =>
      var n := Min(f.failures + 1, U32_MAX);
      f.(failures := n, lockoutEnd := if p.LockoutEnabled() && n >= p.failureThreshold then Some(now + p.cooldown(n)) else f.lockoutEnd)
  }

  /** What an event adds to the facts of its own address, and of another one. */
  lemma FactsAfter(p: Policy, log: Log, e: Event, ip: Ip)
    ensures FactsOf(p, log + [e], ip) ==
            if e.ip != ip then FactsOf(p, log, ip)
            else match e
              case Tried(now, _, d) => TriedFacts(FactsOf(p, log, ip), now, d)
              case Done(now, _, outcome) => DoneFacts(p, FactsOf(p, log, ip), now, outcome)
  {
    assert (log + [e])[..|log|] == log;
  }

  lemma TouchRemembers(p: Policy, e: PerIp, f: Facts, now: Instant)
    requires Remembers(p, e, f, now)
    ensures Remembers(p, e.(lastTouch := now), f, now)
  {
  }

  /** A lockout that is over may be cleared. */
  lemma ClearRemembers(p: Policy, e: PerIp, f: Facts, now: Instant)
    requires Remembers(p, e, f, now) && (e.cooldownUntil.Some? ==> e.cooldownUntil.value <= now)
    ensures Remembers(p, e.(cooldownUntil := None), f, now)
  {
  }

  lemma CooldownKnown(p: Policy, e: PerIp, f: Facts, now: Instant)
    requires Remembers(p, e, f, now)
    ensures SameLockout(e.cooldownUntil, f.lockoutEnd, now)
  {
  }

  lemma AnswerOfParts(p: Policy, e: PerIp, f: Facts, now: Instant)
    requires |PruneEntry(e, now, p.window).attempts| == Recent(f.accepts, now, p.window)
    requires SameLockout(e.cooldownUntil, f.lockoutEnd, now)
    ensures DecideEntry(p, e, now).0 == AnswerFrom(p, f, now)
  {
  }

  lemma AttemptAnswer(p: Policy, e: PerIp, f: Facts, now: Instant)
    requires Remembers(p, e, f, now)
    ensures DecideEntry(p, e, now).0 == AnswerFrom(p, f, now)
  {
    PruneRemembers(p, e, f, now, now);
    CooldownKnown(p, e, f, now);
    AnswerOfParts(p, e, f, now);
  }

  /** The entry that an attempt leaves, by its answer. */
  lemma AttemptLeaves(p: Policy, e: PerIp, now: Instant)
    ensures var e1, (d, next) := PruneEntry(e, now, p.window).(lastTouch := now), DecideEntry(p, e, now);
            match d
            case RejectCooldown(_) => next == e1
            case RejectRateLimit(_) => next == Unlocked(p, e1) && (p.LockoutEnabled() && e1.cooldownUntil.Some? ==> e1.cooldownUntil.value <= now)
            case Accept => next == Unlocked(p, e1).(attempts := Unlocked(p, e1).attempts + [now])
                           && (p.LockoutEnabled() && e1.cooldownUntil.Some? ==> e1.cooldownUntil.value <= now)
  {
  }

  lemma AttemptRemembers(p: Policy, e: PerIp, f: Facts, now: Instant)
    requires Remembers(p, e, f, now)
    ensures var (d, next) := DecideEntry(p, e, now);
            d == AnswerFrom(p, f, now) && Remembers(p, next, TriedFacts(f, now, d), now)
  {
    AttemptAnswer(p, e, f, now);
    PruneRemembers(p, e, f, now, now);
    TouchRemembers(p, PruneEntry(e, now, p.window), f, now);
    AttemptLeaves(p, e, now);
    LeftRemembers(p, PruneEntry(e, now, p.window).(lastTouch := now), f, now, DecideEntry(p, e, now).0, DecideEntry(p, e, now).1);
  }

  lemma LeftRemembers(p: Policy, e1: PerIp, f: Facts, now: Instant, d: Decision, next: PerIp)
    requires Remembers(p, e1, f, now)
    requires !d.RejectCooldown? && p.LockoutEnabled() && e1.cooldownUntil.Some? ==> e1.cooldownUntil.value <= now
    requires next == match d
                     case RejectCooldown(_) => e1
                     case RejectRateLimit(_) => Unlocked(p, e1)
                     case Accept => Unlocked(p, e1).(attempts := Unlocked(p, e1).attempts + [now])
    ensures Remembers(p, next, TriedFacts(f, now, d), now)
  {
    if !d.Accept? {
      NothingTried(f, now, d);
    }
    if !d.RejectCooldown? && p.LockoutEnabled() {
      ClearRemembers(p, e1, f, now);
    }
    if d.Accept? {
      AcceptRemembers(p, Unlocked(p, e1), f, now);
    }
  }

  lemma NothingTried(f: Facts, now: Instant, d: Decision)
    ensures !d.Accept? ==> TriedFacts(f, now, d) == f
  {
  }

  lemma DoneRemembers(p: Policy, e: PerIp, f: Facts, before: Instant, now: Instant, outcome: Outcome)
    requires Remembers(p, e, f, before) && before <= now
    ensures Remembers(p, RecordEntry(p, e, now, outcome), DoneFacts(p, f, now, outcome), now)
  {
  }

  lemma OtherEntry(p: Policy, ips: Table, c: Call, other: Ip)
    requires other != CanonicalIp(c.ip)
    ensures EntryOf(Step(p, ips, c).1, other)
         == EntryOf(if c.Attempt? && !IsLoopback(CanonicalIp(c.ip)) then Retained(ips, c.now, p.window) else ips, other)
  {
  }

  lemma OtherRemembers(p: Policy, ips: Table, f: Facts, before: Instant, c: Call, other: Ip)
    requires Remembers(p, EntryOf(ips, other), f, before) && before <= c.now && other != CanonicalIp(c.ip)
    ensures Remembers(p, EntryOf(Step(p, ips, c).1, other), f, c.now)
  {
    SweepRemembers(p, ips, f, other, before, c.now);
    OtherEntry(p, ips, c, other);
  }

  lemma OwnRemembers(p: Policy, ips: Table, f: Facts, before: Instant, c: Call)
    requires var ip := CanonicalIp(c.ip);
             !IsLoopback(ip) && before <= c.now && Remembers(p, EntryOf(ips, ip), f, before)
    ensures var ip, (d, next) := CanonicalIp(c.ip), Step(p, ips, c);
            match c
            case Attempt(now, _) => d == AnswerFrom(p, f, now) && Remembers(p, EntryOf(next, ip), TriedFacts(f, now, d), now)
            case Finished(now, _, outcome) => Remembers(p, EntryOf(next, ip), DoneFacts(p, f, now, outcome), now)
  {
    var ip := CanonicalIp(c.ip);
    match c
    case Attempt(now, _) =>
      SweepRemembers(p, ips, f, ip, before, now);
      var kept := Retained(ips, now, p.window);
      AttemptRemembers(p, if ip in kept then kept[ip] else NewEntry(now), f, now);
    case Finished(now, _, outcome) =>
      DoneRemembers(p, if ip in ips then ips[ip] else NewEntry(now), f, before, now, outcome);
  }

  lemma StepSimulates(p: Policy, ips: Table, log: Log, before: Instant, c: Call)
    requires Simulates(p, ips, log, before) && before <= c.now
    ensures var (d, next) := Step(p, ips, c);
            var e := SpecEvent(p, log, c);
            && (c.Attempt? ==> d == e.decision)
            && Simulates(p, next, log + [e], c.now)
  {
    var next, e, ip := Step(p, ips, c).1, SpecEvent(p, log, c), CanonicalIp(c.ip);
    if !IsLoopback(ip) {
      OwnRemembers(p, ips, FactsOf(p, log, ip), before, c);
    }
    forall other | !IsLoopback(other)
      ensures Remembers(p, EntryOf(next, other), FactsOf(p, log + [e], other), c.now)
    {
      FactsAfter(p, log, e, other);
      if other != ip {
        OtherRemembers(p, ips, FactsOf(p, log, other), before, c, other);
      }
    }
  }

  /** Below the hard cap every answer of the object is the answer of the full history: pruning,
      lazy eviction and the clearing of expired lockouts cannot be observed. */
  lemma {:induction false} GuardRefinesHistory(p: Policy, ips: Table, log: Log, before: Instant, calls: seq<Call>)
    requires Simulates(p, ips, log, before) && Timed(calls, before) && NeverFull(p, ips, calls)
    ensures SpecLog(p, log, calls) == log + Recorded(calls, Answers(p, ips, calls))
    decreases |calls|
  {
    if calls != [] {
      var c := calls[0];
      var (d, next) := Step(p, ips, c);
      var e := SpecEvent(p, log, c);
      var later := Answers(p, next, calls[1..]);
      StepSimulates(p, ips, log, before, c);
      GuardRefinesHistory(p, next, log + [e], c.now, calls[1..]);
      assert Answers(p, ips, calls) == [d] + later;
      assert ([d] + later)[1..] == later;
      assert Recorded(calls, [d] + later) == [e] + Recorded(calls[1..], later);
      Assoc(log, [e], Recorded(calls[1..], later));
    }
  }

  /** An empty table says what an empty history says. */
  lemma StartSimulates(p: Policy)
    ensures Simulates(p, map[], [], 0)
  {
    assert Remembers(p, NewEntry(0), Facts([], 0, None), 0);
    forall ip | !IsLoopback(ip)
      ensures Remembers(p, EntryOf(map[], ip), FactsOf(p, [], ip), 0)
    {
      assert FactsOf(p, [], ip) == Facts([], 0, None);
    }
  }

  /** A whole run from the start. */
  lemma RunAnswersLikeHistory(p: Policy, calls: seq<Call>)
    requires Timed(calls, 0) && NeverFull(p, map[], calls)
    ensures Recorded(calls, Answers(p, map[], calls)) == SpecLog(p, [], calls)
  {
    var run := Recorded(calls, Answers(p, map[], calls));
    assert SpecLog(p, [], calls) == [] + run by {
      StartSimulates(p);
      GuardRefinesHistory(p, map[], [], 0, calls);
    }
    assert [] + run == run;
  }

  lemma {:induction false} AnswersSnoc(p: Policy, ips: Table, calls: seq<Call>, c: Call)
    ensures Answers(p, ips, calls + [c]) == Answers(p, ips, calls) + [Step(p, TableAfter(p, ips, calls), c).0]
    ensures TableAfter(p, ips, calls + [c]) == Step(p, TableAfter(p, ips, calls), c).1
    ensures NeverFull(p, ips, calls + [c]) ==> NeverFull(p, ips, calls) && NeverFull(p, TableAfter(p, ips, calls), [c])
    decreases |calls|
  {
    if calls == [] {
      assert [] + [c] == [c];
      assert Answers(p, ips, [c]) == [Step(p, ips, c).0] + Answers(p, Step(p, ips, c).1, [c][1..]);
    } else {
      assert (calls + [c])[0] == calls[0] && (calls + [c])[1..] == calls[1..] + [c];
      AnswersSnoc(p, Step(p, ips, calls[0]).1, calls[1..], c);
    }
  }

  /** The table after some calls below the cap. */
  ghost function TableAfter(p: Policy, ips: Table, calls: seq<Call>): Table
    decreases |calls|
  {
    if calls == [] then ips else TableAfter(p, Step(p, ips, calls[0]).1, calls[1..])
  }

  lemma {:induction false} NeverFullPrefix(p: Policy, ips: Table, calls: seq<Call>, i: nat)
    requires NeverFull(p, ips, calls) && i <= |calls|
    ensures NeverFull(p, ips, calls[..i])
    decreases |calls|
  {
    if 0 < i {
      assert calls[..i][0] == calls[0] && calls[..i][1..] == calls[1..][..i - 1];
      NeverFullPrefix(p, Step(p, ips, calls[0]).1, calls[1..], i - 1);
    }
  }

  /** One call of the object is one step, below the cap. */
  method ServeOne(core: AuthGuardCore, c: Call) returns (d: Decision)
    requires NeverFull(PolicyOf(core.cfg), core.ips, [c])
    modifies core
    ensures (d, core.ips) == Step(PolicyOf(core.cfg), old(core.ips), c)
  {
    match c
    case Attempt(now, ip) =>
      ghost var before := core.ips;
      d := core.Decide(now, ip);
      if !IsLoopback(CanonicalIp(ip)) {
        ghost var left :| Evicted(before, now, core.cfg.window, left)
          && (d, core.ips) == DecideOn(PolicyOf(core.cfg), left, now, CanonicalIp(ip));
        SweepBelowCap(before, now, core.cfg.window, left);
      }
    case Finished(now, ip, outcome) =>
      core.RecordOutcome(now, ip, outcome);
      d := Accept;
  }

  /** The object over any calls that stay below the cap: its answers are those of `Answers`, and so,
      by `RunAnswersLikeHistory`, those of the full history. */
  method Serve(cfg: GuardConfig, calls: seq<Call>) returns (answers: seq<Decision>)
    requires NeverFull(PolicyOf(cfg), map[], calls)
    ensures answers == Answers(PolicyOf(cfg), map[], calls)
    ensures Timed(calls, 0) ==> Recorded(calls, answers) == SpecLog(PolicyOf(cfg), [], calls)
  {
    ghost var p := PolicyOf(cfg);
    var core := new AuthGuardCore(cfg);
    answers := [];
    for i := 0 to |calls|
      invariant fresh(core) && core.cfg == cfg
      invariant answers == Answers(p, map[], calls[..i]) && core.ips == TableAfter(p, map[], calls[..i])
    {
      assert calls[..i + 1] == calls[..i] + [calls[i]];
      NeverFullPrefix(p, map[], calls, i + 1);
      AnswersSnoc(p, map[], calls[..i], calls[i]);
      var d := ServeOne(core, calls[i]);
      answers := answers + [d];
    }
    assert calls[..|calls|] == calls;
    if Timed(calls, 0) {
      RunAnswersLikeHistory(p, calls);
    }
  }
}
