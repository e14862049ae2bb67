/** The generation protocol of audio capture: every start claims a fresh generation and spawns a
    capture loop for it, a stop moves the shared generation on only if it is still its own, and a
    loop works only while the generation it reads is the one it was spawned with.  Any number of
    backends and loops interleave, one atomic action per step. */
module AudioGeneration {

  datatype Phase = Checking | Working | Exited

  datatype Loop = Loop(owner: nat, gen: nat, phase: Phase)

  /** `mine` has the generation each backend last claimed (absent: 0, not started);
      `starting` are the backends between claiming and spawning. */
  datatype State = State(generation: nat, mine: map<nat, nat>, starting: set<nat>, loops: seq<Loop>)

  datatype Label = Claim(b: nat) | Spawn(b: nat) | Stop(b: nat) | Check(i: nat) | Iterate(i: nat) | Die(i: nat)

  function Mine(s: State, b: nat): nat { if b in s.mine then s.mine[b] else 0 }

  function WithPhase(s: State, i: nat, phase: Phase): State
    requires i < |s.loops|
  {
    s.(loops := s.loops[i := s.loops[i].(phase := phase)])
  }

  predicate Active(s: State, i: nat)
    requires i < |s.loops|
  {
    s.loops[i].gen == s.generation
  }

  predicate Step(s: State, l: Label, t: State) {
    match l
    case Claim(b) =>
      b !in s.starting &&
      t == s.(generation := s.generation + 1, mine := s.mine[b := s.generation + 1], starting := s.starting + {b})
    case Spawn(b) =>
      b in s.starting && t == s.(starting := s.starting - {b}, loops := s.loops + [Loop(b, Mine(s, b), Checking)])
    case Stop(b) =>
      b !in s.starting && t == if s.generation == Mine(s, b) then s.(generation := Mine(s, b) + 1) else s
    case Check(i) =>
      i < |s.loops| && s.loops[i].phase.Checking? && t == WithPhase(s, i, if Active(s, i) then Working else Exited)
    case Iterate(i) => i < |s.loops| && s.loops[i].phase.Working? && t == WithPhase(s, i, Checking)
    case Die(i) => i < |s.loops| && t == WithPhase(s, i, Exited)
  }

  const INIT := State(0, map[], {}, [])

  /** Every claimed generation is positive, not in the future, and one backend's alone. */
  ghost predicate ClaimsInv(s: State) {
    && (forall b :: b in s.starting ==> b in s.mine)
    && (forall b :: b in s.mine ==> 0 < s.mine[b] <= s.generation)
    && (forall b, c :: b in s.mine && c in s.mine && s.mine[b] == s.mine[c] ==> b == c)
  }

  /** Every loop has a generation of its own, claimed by its owner before now; a backend still
      starting has no loop for its claim yet. */
  ghost predicate LoopsInv(s: State) {
    && (forall i :: 0 <= i < |s.loops| ==> 0 < s.loops[i].gen <= s.generation)
    && (forall i, k :: 0 <= i < |s.loops| && 0 <= k < |s.loops| && s.loops[i].gen == s.loops[k].gen ==> i == k)
    && (forall i, b :: 0 <= i < |s.loops| && b in s.mine && s.mine[b] == s.loops[i].gen ==> b == s.loops[i].owner && b !in s.starting)
  }

  lemma StepKeepsClaims(s: State, l: Label, t: State)
    requires ClaimsInv(s) && Step(s, l, t)
    ensures ClaimsInv(t)
  {
  }

  lemma SpawnKeepsLoops(s: State, b: nat, t: State)
    requires ClaimsInv(s) && LoopsInv(s) && Step(s, Spawn(b), t)
    ensures LoopsInv(t)
  {
    assert forall i :: 0 <= i < |s.loops| ==> t.loops[i] == s.loops[i];
    assert forall i :: 0 <= i < |s.loops| ==> s.loops[i].gen != s.mine[b];
  }

  /** Steps that claim nothing and spawn nothing. */
  lemma SameLoops(s: State, t: State)
    requires LoopsInv(s) && t.mine == s.mine && t.starting == s.starting && t.generation >= s.generation && |t.loops| == |s.loops|
    requires forall i :: 0 <= i < |s.loops| ==> t.loops[i].gen == s.loops[i].gen && t.loops[i].owner == s.loops[i].owner
    ensures LoopsInv(t)
  {
  }

  lemma StepKeepsLoops(s: State, l: Label, t: State)
    requires ClaimsInv(s) && LoopsInv(s) && Step(s, l, t)
    ensures LoopsInv(t)
  {
    match l
    case Claim(b) =>
    case Spawn(b) => SpawnKeepsLoops(s, b, t);
    case _ => SameLoops(s, t);
  }

  ghost predicate IsRun(run: seq<State>, labels: seq<Label>) {
    && |run| == |labels| + 1 && run[0] == INIT
    && forall i :: 0 <= i < |labels| ==> Step(run[i], labels[i], run[i + 1])
  }

  lemma RunStep(run: seq<State>, labels: seq<Label>, i: nat)
    requires IsRun(run, labels) && i < |labels|
    ensures Step(run[i], labels[i], run[i + 1])
  {
  }

  lemma {:induction false} RunInv(run: seq<State>, labels: seq<Label>, n: nat)
    requires IsRun(run, labels) && n <= |labels|
    ensures ClaimsInv(run[n]) && LoopsInv(run[n])
  {
    if n > 0 {
      RunInv(run, labels, n - 1);
      RunStep(run, labels, n - 1);
      StepKeepsClaims(run[n - 1], labels[n - 1], run[n]);
      StepKeepsLoops(run[n - 1], labels[n - 1], run[n]);
    }
  }

  /** At any moment of any run at most one loop is active. */
  lemma AtMostOneActive(run: seq<State>, labels: seq<Label>, n: nat, i: nat, k: nat)
    requires IsRun(run, labels) && n <= |labels| && i < |run[n].loops| && k < |run[n].loops|
    requires Active(run[n], i) && Active(run[n], k)
    ensures i == k
  {
    RunInv(run, labels, n);
  }

  /** Only a start, or the stop of the backend that spawned it, retires the active loop; in
      particular the stop of a backend whose loop was superseded never does. */
  lemma OnlyStartOrOwnerRetires(run: seq<State>, labels: seq<Label>, n: nat, i: nat)
    requires IsRun(run, labels) && n < |labels| && i < |run[n].loops| && Active(run[n], i)
    ensures i < |run[n + 1].loops| && run[n + 1].loops[i].gen == run[n].loops[i].gen
    ensures !Active(run[n + 1], i) <==> labels[n].Claim? || labels[n] == Stop(run[n].loops[i].owner)
  {
    RunInv(run, labels, n);
    RunStep(run, labels, n);
    OwnerHoldsClaim(run, labels, n, i);
  }

  ghost predicate OwnerHolds(s: State, i: nat)
    requires i < |s.loops|
  {
    Mine(s, s.loops[i].owner) == s.loops[i].gen && s.loops[i].owner !in s.starting
  }

  lemma OwnerStep(s: State, l: Label, t: State, i: nat)
    requires ClaimsInv(s) && LoopsInv(s) && Step(s, l, t) && i < |t.loops| && Active(t, i)
    ensures i < |s.loops| ==> Active(s, i) && (OwnerHolds(s, i) ==> OwnerHolds(t, i))
    ensures i >= |s.loops| ==> OwnerHolds(t, i)
  {
    if i < |s.loops| {
      StillActive(s, l, t, i);
    }
  }

  /** The active loop's generation is still the one its owner holds. */
  lemma {:induction false} OwnerHoldsClaim(run: seq<State>, labels: seq<Label>, n: nat, i: nat)
    requires IsRun(run, labels) && n <= |labels| && i < |run[n].loops| && Active(run[n], i)
    ensures OwnerHolds(run[n], i)
  {
    if n > 0 {
      RunInv(run, labels, n - 1);
      RunStep(run, labels, n - 1);
      OwnerStep(run[n - 1], labels[n - 1], run[n], i);
      if i < |run[n - 1].loops| {
        OwnerHoldsClaim(run, labels, n - 1, i);
      }
    }
  }

  lemma StillActive(s: State, l: Label, t: State, i: nat)
    requires LoopsInv(s) && Step(s, l, t) && i < |s.loops|
    ensures i < |t.loops| && t.loops[i].gen == s.loops[i].gen && t.loops[i].owner == s.loops[i].owner
    ensures Active(t, i) ==> Active(s, i) && !l.Claim?
  {
  }

  /** No generation at or beyond the shared one has been claimed: nothing is active, and nothing
      being started can become so. */
  ghost predicate Silent(s: State) {
    && (forall b :: b in s.mine ==> s.mine[b] < s.generation)
    && forall i :: 0 <= i < |s.loops| ==> s.loops[i].gen < s.generation
  }

  lemma SilentStep(s: State, l: Label, t: State)
    requires ClaimsInv(s) && Silent(s) && Step(s, l, t) && !l.Claim? && s.generation > 0
    ensures Silent(t) && t.generation == s.generation
  {
  }

  /** After a stop that moved the generation on, no loop is active until the next start. */
  lemma {:induction false} StopSilences(run: seq<State>, labels: seq<Label>, n: nat, m: nat)
    requires IsRun(run, labels) && n < m <= |labels|
    requires labels[n].Stop? && run[n + 1].generation != run[n].generation
    requires forall k :: n < k < m ==> !labels[k].Claim?
    ensures Silent(run[m]) && run[m].generation == run[n + 1].generation
    ensures forall i :: 0 <= i < |run[m].loops| ==> !Active(run[m], i)
  {
    if m == n + 1 {
      RunInv(run, labels, n);
      RunStep(run, labels, n);
    } else {
      StopSilences(run, labels, n, m - 1);
      RunInv(run, labels, m - 1);
      RunStep(run, labels, m - 1);
      SilentStep(run[m - 1], labels[m - 1], run[m]);
    }
  }

  /** A loop that is no longer active and not in the middle of an iteration never works again:
      a superseded loop finishes at most the iteration it is in. */
  lemma {:induction false} SupersededNeverWorks(run: seq<State>, labels: seq<Label>, n: nat, m: nat, i: nat)
    requires IsRun(run, labels) && n <= m <= |labels| && i < |run[n].loops|
    requires !Active(run[n], i) && !run[n].loops[i].phase.Working?
    ensures i < |run[m].loops| && !Active(run[m], i) && !run[m].loops[i].phase.Working?
  {
    if n < m {
      SupersededNeverWorks(run, labels, n, m - 1, i);
      RunInv(run, labels, m - 1);
      RunStep(run, labels, m - 1);
      StillActive(run[m - 1], labels[m - 1], run[m], i);
    }
  }

  // ---------------------------------------------------------------------------
  // The loop that may work, does
  // ---------------------------------------------------------------------------

  /** What each access to the shared generation does: a start adds one and keeps the new value as its
      own; a stop adds one if the value is still its own; a check lets the loop go on exactly if
      the value is the one it was spawned with, and otherwise ends it. */
  lemma AccessExactly(run: seq<State>, labels: seq<Label>, n: nat)
    requires IsRun(run, labels) && n < |labels|
    ensures var s, t := run[n], run[n + 1];
            match labels[n]
            case Claim(b) => t.generation == s.generation + 1 && b in t.mine && t.mine[b] == t.generation && t.loops == s.loops
            case Stop(b) =>
              && t.loops == s.loops && t.mine == s.mine
              && t.generation == s.generation + (if b in s.mine then (if s.mine[b] == s.generation then 1 else 0)
                                                 else if s.generation == 0 then 1 else 0)
            case Check(i) =>
              && t.generation == s.generation && i < |s.loops| == |t.loops|
              && t.loops[i].phase == (if s.loops[i].gen == s.generation then Working else Exited)
              && forall k :: 0 <= k < |s.loops| && k != i ==> t.loops[k] == s.loops[k]
            case _ => t.generation == s.generation
  {
    RunStep(run, labels, n);
  }

  /** Backend b is between claiming and spawning, with the newest generation. */
  ghost predicate HoldsNewest(s: State, b: nat, gen: nat) {
    b in s.starting && b in s.mine && s.mine[b] == gen == s.generation
  }

  lemma StillNewest(s: State, l: Label, t: State, b: nat, gen: nat)
    requires ClaimsInv(s) && Step(s, l, t) && HoldsNewest(s, b, gen) && gen > 0 && !l.Claim? && l != Spawn(b)
    ensures HoldsNewest(t, b, gen)
  {
  }

  lemma {:induction false} NewestUntilSpawn(run: seq<State>, labels: seq<Label>, n: nat, m: nat, b: nat)
    requires IsRun(run, labels) && n < m <= |labels| && labels[n] == Claim(b)
    requires forall k :: n < k < m ==> !labels[k].Claim? && labels[k] != Spawn(b)
    ensures HoldsNewest(run[m], b, run[n].generation + 1)
  {
    if m == n + 1 {
      RunStep(run, labels, n);
    } else {
      NewestUntilSpawn(run, labels, n, m - 1, b);
      RunInv(run, labels, m - 1);
      RunStep(run, labels, m - 1);
      StillNewest(run[m - 1], labels[m - 1], run[m], b, run[n].generation + 1);
    }
  }

  /** A start whose claim no other start follows before it spawns has spawned the active loop,
      whatever stops came in between. */
  lemma StartActivates(run: seq<State>, labels: seq<Label>, n: nat, m: nat, b: nat)
    requires IsRun(run, labels) && n < m < |labels| && labels[n] == Claim(b) && labels[m] == Spawn(b)
    requires forall k :: n < k < m ==> !labels[k].Claim? && labels[k] != Spawn(b)
    ensures var loops := run[m + 1].loops;
            |loops| == |run[m].loops| + 1 && loops[|loops| - 1] == Loop(b, run[m + 1].generation, Checking)
  {
    NewestUntilSpawn(run, labels, n, m, b);
    RunStep(run, labels, m);
  }

  /** An active loop stays active, and every check lets it work, until a start or the stop of its
      own backend. */
  lemma {:induction false} ActiveLoopWorks(run: seq<State>, labels: seq<Label>, n: nat, m: nat, i: nat)
    requires IsRun(run, labels) && n <= m <= |labels| && i < |run[n].loops| && run[n].loops[i].gen == run[n].generation
    requires forall k :: n <= k < m ==> !labels[k].Claim? && labels[k] != Stop(run[n].loops[i].owner)
    ensures i < |run[m].loops| && run[m].loops[i].gen == run[m].generation && run[m].loops[i].owner == run[n].loops[i].owner
    ensures m < |labels| && labels[m] == Check(i) ==> run[m + 1].loops[i].phase == Working
  {
    if n < m {
      ActiveLoopWorks(run, labels, n, m - 1, i);
      RunInv(run, labels, m - 1);
      RunStep(run, labels, m - 1);
      OnlyStartOrOwnerRetires(run, labels, m - 1, i);
      StillActive(run[m - 1], labels[m - 1], run[m], i);
    }
    if m < |labels| {
      RunStep(run, labels, m);
    }
  }
}
