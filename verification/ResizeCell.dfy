/** The debounced live-resize cell: one requester stores a size and then a time stamp, the capture
    loop takes the size once the stamp has settled.  Every atomic access is a step of its own, and
    the steps of the two sides interleave freely.

    All accesses are relaxed, so issuing a store and its becoming visible are two steps.  In an
    `ordered` run stores become visible in the order in which they were issued; in other runs a
    stamp may be seen before the size that belongs to it. */
module ResizeCell {
  import opened Common

  type U16 = n: nat | n <= 0xFFFF

  type Size = (U16, U16)

  function PackSize(width: U16, height: U16): nat { width * 0x1_0000 + height }

  function UnpackSize(packed: nat): (r: Size) { (packed / 0x1_0000 % 0x1_0000, packed % 0x1_0000) }

  lemma UnpackPacked(width: U16, height: U16)
    ensures UnpackSize(PackSize(width, height)) == (width, height)
    ensures PackSize(width, height) == width * 65_536 + height
  {
    assert (width * 0x1_0000 + height) / 0x1_0000 == width;
    assert (width * 0x1_0000 + height) % 0x1_0000 == height;
  }

  /** Where `take_settled` stands; `loaded` is the number of the request whose stamp was loaded. */
  datatype Taker = Waiting | StampLoaded(stamp: nat, loaded: int) | Settled(stamp: nat, loaded: int) | Won(loaded: int, consumed: int)

  /** A size that a take returned.  The rest is history: the request whose stamp it had loaded, the
      one whose stamp it consumed, and the one whose size it got (-1: none yet). */
  datatype Take = Take(size: Size, loaded: int, consumed: int, got: int)

  /** `size` and `stamp` are the shared cell; a stamp of 0 means nothing is pending.  `requests` and
      `stamps` are the stores issued so far, of which `sizeSeen` and `stampSeen` are visible. */
  datatype State = State(size: nat, stamp: nat, clock: nat, requests: seq<Size>, stamps: seq<nat>,
                         sizeSeen: nat, stampSeen: nat, taker: Taker, takes: seq<Take>)

  ghost predicate Init(s: State) {
    s == State(0, 0, s.clock, [], [], 0, 0, Waiting, [])
  }

  datatype Label =
    | Tick(to: nat) | IssueSize(width: U16, height: U16) | IssueStamp | CommitSize | CommitStamp
    | LoadStamp | CheckDebounce | CompareExchange | LoadSize

  datatype Mode = Mode(debounce: nat, ordered: bool)

  ghost predicate Step(m: Mode, s: State, l: Label, t: State) {
    match l
    case Tick(to) => s.clock <= to && t == s.(clock := to)
    case IssueSize(width, height) => |s.stamps| == |s.requests| && t == s.(requests := s.requests + [(width, height)])
    case IssueStamp => |s.stamps| < |s.requests| && t == s.(stamps := s.stamps + [Max(s.clock, 1)])
    case CommitSize =>
      s.sizeSeen < |s.requests| && (m.ordered ==> s.sizeSeen == s.stampSeen) &&
      t == s.(size := PackSize(s.requests[s.sizeSeen].0, s.requests[s.sizeSeen].1), sizeSeen := s.sizeSeen + 1)
    case CommitStamp =>
      s.stampSeen < |s.stamps| && (m.ordered ==> s.stampSeen < s.sizeSeen) &&
      t == s.(stamp := s.stamps[s.stampSeen], stampSeen := s.stampSeen + 1)
    case LoadStamp =>
      s.taker.Waiting? && t == if s.stamp == 0 then s else s.(taker := StampLoaded(s.stamp, s.stampSeen - 1))
    case CheckDebounce =>
      s.taker.StampLoaded? &&
      t == s.(taker := if Max(s.clock - s.taker.stamp, 0) < m.debounce then Waiting else Settled(s.taker.stamp, s.taker.loaded))
    case CompareExchange =>
      s.taker.Settled? &&
      t == if s.stamp == s.taker.stamp then s.(stamp := 0, taker := Won(s.taker.loaded, s.stampSeen - 1)) else s.(taker := Waiting)
    case LoadSize =>
      s.taker.Won? &&
      t == s.(taker := Waiting, takes := s.takes + [Take(UnpackSize(s.size), s.taker.loaded, s.taker.consumed, s.sizeSeen - 1)])
  }

  /** The size of request i; before any, the zeros the cell starts with. */
  function SizeOf(requests: seq<Size>, i: int): Size
    requires i < |requests|
  {
    if i < 0 then (0, 0) else requests[i]
  }

  ghost predicate GoodTake(m: Mode, s: State, k: Take) {
    && 0 <= k.loaded <= k.consumed < s.stampSeen && -1 <= k.got < s.sizeSeen <= |s.requests|
    && k.size == SizeOf(s.requests, k.got) && (m.ordered ==> k.consumed <= k.got)
  }

  /** The request whose stamp was consumed last, -1 when none was. */
  ghost function LastConsumed(s: State): int {
    if s.taker.Won? then s.taker.consumed
    else if s.takes != [] then s.takes[|s.takes| - 1].consumed
    else -1
  }

  /** The requester's side of the cell. */
  ghost predicate StoresInv(m: Mode, s: State) {
    && s.stampSeen <= |s.stamps| <= |s.requests| <= |s.stamps| + 1 && s.sizeSeen <= |s.requests|
    && (forall i :: 0 <= i < |s.stamps| ==> s.stamps[i] > 0)
    && (m.ordered ==> s.stampSeen <= s.sizeSeen <= s.stampSeen + 1)
    && (s.stamp != 0 ==> s.stampSeen > 0)
  }

  /** The visible size is that of the last request whose size is visible. */
  ghost predicate SizeInv(s: State) {
    s.sizeSeen <= |s.requests| && UnpackSize(s.size) == SizeOf(s.requests, s.sizeSeen - 1)
  }

  ghost predicate TakerInv(m: Mode, s: State) {
    && (s.taker.StampLoaded? || s.taker.Settled? ==> s.taker.stamp > 0 && 0 <= s.taker.loaded < s.stampSeen)
    && (s.taker.Settled? ==> Max(s.clock - s.taker.stamp, 0) >= m.debounce)
    && (s.taker.Won? ==> 0 <= s.taker.loaded <= s.taker.consumed < s.stampSeen)
    // every consumed stamp was stored, and a stored stamp is consumed at most once
    && |s.takes| + (if s.taker.Won? then 1 else 0) + (if s.stamp != 0 then 1 else 0) <= s.stampSeen
    // an empty cell means that the newest visible stamp was consumed
    && (s.stamp == 0 && s.stampSeen > 0 ==> LastConsumed(s) == s.stampSeen - 1)
  }

  ghost predicate Inv(m: Mode, s: State) {
    StoresInv(m, s) && SizeInv(s) && TakerInv(m, s) && forall k :: k in s.takes ==> GoodTake(m, s, k)
  }

  lemma StepKeepsStores(m: Mode, s: State, l: Label, t: State)
    requires StoresInv(m, s) && Step(m, s, l, t)
    ensures StoresInv(m, t)
  {
  }

  lemma StepKeepsSize(m: Mode, s: State, l: Label, t: State)
    requires SizeInv(s) && Step(m, s, l, t)
    ensures SizeInv(t)
  {
    if l.CommitSize? {
      UnpackPacked(s.requests[s.sizeSeen].0, s.requests[s.sizeSeen].1);
    } else {
      assert t.size == s.size && t.sizeSeen == s.sizeSeen;
      assert forall i :: 0 <= i < |s.requests| ==> t.requests[i] == s.requests[i];
    }
  }

  lemma StepKeepsTaker(m: Mode, s: State, l: Label, t: State)
    requires StoresInv(m, s) && TakerInv(m, s) && Step(m, s, l, t)
    ensures TakerInv(m, t)
  {
  }

  lemma StepKeepsTakes(m: Mode, s: State, l: Label, t: State)
    requires Inv(m, s) && Step(m, s, l, t)
    ensures forall k :: k in t.takes ==> GoodTake(m, t, k)
  {
    forall k | k in t.takes
      ensures GoodTake(m, t, k)
    {
      assert k in s.takes ==> GoodTake(m, s, k);
    }
  }

  lemma StepKeepsInv(m: Mode, s: State, l: Label, t: State)
    requires Inv(m, s) && Step(m, s, l, t)
    ensures Inv(m, t)
  {
    StepKeepsStores(m, s, l, t);
    StepKeepsSize(m, s, l, t);
    StepKeepsTaker(m, s, l, t);
    StepKeepsTakes(m, s, l, t);
  }

  ghost predicate IsRun(m: Mode, run: seq<State>, labels: seq<Label>) {
    && |run| == |labels| + 1 && Init(run[0])
    && forall i :: 0 <= i < |labels| ==> Step(m, run[i], labels[i], run[i + 1])
  }

  lemma RunStep(m: Mode, run: seq<State>, labels: seq<Label>, i: nat, next: nat)
    requires IsRun(m, run, labels) && i < |labels| && next == i + 1
    ensures Step(m, run[i], labels[i], run[next])
  {
  }

  lemma {:induction false} RunInv(m: Mode, run: seq<State>, labels: seq<Label>, k: nat)
    requires IsRun(m, run, labels) && k <= |labels|
    ensures Inv(m, run[k])
  {
    if k > 0 {
      RunInv(m, run, labels, k - 1);
      RunStep(m, run, labels, k - 1, k);
      StepKeepsInv(m, run[k - 1], labels[k - 1], run[k]);
    }
  }

  // ---------------------------------------------------------------------------
  // What takes return
  // ---------------------------------------------------------------------------

  /** In every run there are never more returns than requests, and what a take returns is a size
      that was requested or the zeros of the fresh cell; in every ordered run it is the size of the
      request that was found settled or of a newer one. */
  lemma TakesAreRequested(m: Mode, run: seq<State>, labels: seq<Label>, k: nat)
    requires IsRun(m, run, labels) && k <= |labels|
    ensures |run[k].takes| <= |run[k].requests|
    ensures forall i :: 0 <= i < |run[k].takes| ==>
      var take := run[k].takes[i];
      take.got < |run[k].requests| && take.size == SizeOf(run[k].requests, take.got) && (m.ordered ==> 0 <= take.loaded <= take.got)
  {
    RunInv(m, run, labels, k);
    forall i | 0 <= i < |run[k].takes|
      ensures GoodTake(m, run[k], run[k].takes[i])
    {
      assert run[k].takes[i] in run[k].takes;
    }
  }

  /** A stamp is consumed only after it has stood for the debounce time. */
  lemma OnlySettledConsumed(m: Mode, run: seq<State>, labels: seq<Label>, k: nat)
    requires IsRun(m, run, labels) && k < |labels| && labels[k].CompareExchange? && run[k + 1].taker.Won?
    ensures run[k].stamp > 0 && Max(run[k].clock - run[k].stamp, 0) >= m.debounce
    ensures m.debounce > 0 ==> run[k].clock >= run[k].stamp + m.debounce
  {
    RunInv(m, run, labels, k);
    RunStep(m, run, labels, k, k + 1);
  }

  /** What each atomic access of the taker does: a stamp is loaded unless none is pending; it is
      settled exactly if it has stood for the debounce time, and otherwise the call ends; the
      exchange wins exactly if the stamp is still the loaded one, and clears it. */
  lemma TakerSteps(m: Mode, run: seq<State>, labels: seq<Label>, k: nat)
    requires IsRun(m, run, labels) && k < |labels|
    ensures var s, t := run[k], run[k + 1];
            && (labels[k].LoadStamp? ==> (t.taker.StampLoaded? <==> s.stamp != 0) && (t.taker.StampLoaded? ==> t.taker.stamp == s.stamp))
            && (labels[k].CheckDebounce? ==>
                  && s.taker.StampLoaded? && (t.taker.Settled? <==> m.debounce == 0 || s.clock >= s.taker.stamp + m.debounce)
                  && (t.taker.Settled? ==> t.taker.stamp == s.taker.stamp) && (!t.taker.Settled? ==> t.taker.Waiting?))
            && (labels[k].CompareExchange? ==>
                  && s.taker.Settled? && (t.taker.Won? <==> s.stamp == s.taker.stamp)
                  && (t.taker.Won? ==> t.stamp == 0) && (!t.taker.Won? ==> t.taker.Waiting? && t.stamp == s.stamp))
            && (labels[k].LoadSize? ==> t.taker.Waiting? && t.stamp == s.stamp && |t.takes| == |s.takes| + 1)
  {
    RunStep(m, run, labels, k, k + 1);
  }

  // ---------------------------------------------------------------------------
  // A settled request is taken
  // ---------------------------------------------------------------------------

  /** Time passes or the requester issues stores; nothing becomes visible and the taker rests. */
  ghost predicate Quiet(l: Label) {
    l.Tick? || l.IssueSize? || l.IssueStamp?
  }

  ghost predicate QuietFrom(labels: seq<Label>, a: nat, b: nat) {
    a <= b <= |labels| && forall i :: a <= i < b ==> Quiet(labels[i])
  }

  /** The cell and the taker did not change and the clock did not go back. */
  ghost predicate SameCell(s: State, t: State) {
    && t.size == s.size && t.stamp == s.stamp && t.sizeSeen == s.sizeSeen && t.stampSeen == s.stampSeen
    && t.taker == s.taker && t.takes == s.takes && s.clock <= t.clock
  }

  lemma QuietStep(m: Mode, s: State, l: Label, t: State)
    requires Step(m, s, l, t) && Quiet(l)
    ensures SameCell(s, t)
  {
  }

  lemma {:induction false} QuietKeeps(m: Mode, run: seq<State>, labels: seq<Label>, a: nat, b: nat)
    requires IsRun(m, run, labels) && QuietFrom(labels, a, b)
    ensures SameCell(run[a], run[b])
    decreases b
  {
    if a < b {
      QuietKeeps(m, run, labels, a, b - 1);
      RunStep(m, run, labels, b - 1, b);
      QuietStep(m, run[b - 1], labels[b - 1], run[b]);
    }
  }

  /** The first half of a call: the stamp is loaded at step a and found settled at step b. */
  lemma StampSettles(m: Mode, run: seq<State>, labels: seq<Label>, a: nat, b: nat)
    requires IsRun(m, run, labels) && a < b < |labels| && QuietFrom(labels, a + 1, b)
    requires labels[a].LoadStamp? && labels[b].CheckDebounce?
    requires run[a].stamp != 0 && run[a].clock >= run[a].stamp + m.debounce
    ensures run[b + 1].taker == Settled(run[a].stamp, run[a].stampSeen - 1)
    ensures SameCell(run[a], run[b + 1].(taker := run[a].taker))
  {
    RunStep(m, run, labels, a, a + 1);
    QuietKeeps(m, run, labels, a + 1, b);
    RunStep(m, run, labels, b, b + 1);
  }

  /** The second half: the exchange at step c wins and the size is loaded at step d. */
  lemma SettledWins(m: Mode, run: seq<State>, labels: seq<Label>, c: nat, d: nat)
    requires IsRun(m, run, labels) && c < d < |labels| && QuietFrom(labels, c + 1, d)
    requires labels[c].CompareExchange? && labels[d].LoadSize?
    requires run[c].taker.Settled? && run[c].stamp == run[c].taker.stamp
    ensures run[d + 1].stamp == 0 && run[d + 1].taker == Waiting && |run[d + 1].takes| == |run[c].takes| + 1
    ensures run[d + 1].takes[|run[c].takes|] == Take(UnpackSize(run[c].size), run[c].taker.loaded, run[c].stampSeen - 1, run[c].sizeSeen - 1)
  {
    RunStep(m, run, labels, c, c + 1);
    QuietKeeps(m, run, labels, c + 1, d);
    RunStep(m, run, labels, d, d + 1);
  }

  /** A call that starts at rest with a stamp that has stood for the debounce time, and during which
      no store becomes visible, takes the newest requested size and leaves nothing pending. */
  lemma SettledIsTaken(m: Mode, run: seq<State>, labels: seq<Label>, a: nat, b: nat, c: nat, d: nat)
    requires IsRun(m, run, labels) && a < b < c < d < |labels|
    requires AtRest(run[a]) && run[a].stamp != 0 && run[a].clock >= run[a].stamp + m.debounce
    requires labels[a].LoadStamp? && labels[b].CheckDebounce? && labels[c].CompareExchange? && labels[d].LoadSize?
    requires QuietFrom(labels, a + 1, b) && QuietFrom(labels, b + 1, c) && QuietFrom(labels, c + 1, d)
    ensures run[a].requests != [] && run[d + 1].stamp == 0 && |run[d + 1].takes| == |run[a].takes| + 1
    ensures run[d + 1].takes[|run[a].takes|].size == run[a].requests[|run[a].requests| - 1]
  {
    RunInv(m, run, labels, a);
    StampSettles(m, run, labels, a, b);
    QuietKeeps(m, run, labels, b + 1, c);
    SettledWins(m, run, labels, c, d);
  }

  // ---------------------------------------------------------------------------
  // When the consumed request was made
  // ---------------------------------------------------------------------------

  /** At step k0 of the run the stamp of request i was issued. */
  ghost predicate IssuedAt(run: seq<State>, labels: seq<Label>, k0: nat, i: nat) {
    k0 < |labels| && k0 < |run| && labels[k0].IssueStamp? && |run[k0].stamps| == i
  }

  lemma {:induction false} StampOrigin(m: Mode, run: seq<State>, labels: seq<Label>, k: nat, i: nat) returns (k0: nat)
    requires IsRun(m, run, labels) && k <= |labels| && i < |run[k].stamps|
    ensures k0 < k && IssuedAt(run, labels, k0, i) && run[k].stamps[i] == (if run[k0].clock < 1 then 1 else run[k0].clock)
    decreases k
  {
    RunStep(m, run, labels, k - 1, k);
    if i < |run[k - 1].stamps| {
      k0 := StampOrigin(m, run, labels, k - 1, i);
      assert run[k].stamps[i] == run[k - 1].stamps[i];
    } else {
      k0 := k - 1;
    }
  }

  /** A pending stamp is the last one that became visible. */
  ghost predicate StampIsLast(s: State) {
    s.stamp != 0 ==> 0 < s.stampSeen <= |s.stamps| && s.stamp == s.stamps[s.stampSeen - 1]
  }

  lemma {:induction false} StampIsVisible(m: Mode, run: seq<State>, labels: seq<Label>, k: nat)
    requires IsRun(m, run, labels) && k <= |labels|
    ensures StampIsLast(run[k])
  {
    if k > 0 {
      StampIsVisible(m, run, labels, k - 1);
      RunInv(m, run, labels, k - 1);
      RunStep(m, run, labels, k - 1, k);
    }
  }

  /** The request whose stamp is consumed was made at least the debounce time before. */
  lemma ConsumedWasMade(m: Mode, run: seq<State>, labels: seq<Label>, k: nat) returns (k0: nat)
    requires IsRun(m, run, labels) && k < |labels| && labels[k].CompareExchange? && run[k + 1].taker.Won? && m.debounce > 0
    ensures k0 < k && labels[k0].IssueStamp? && |run[k0].stamps| == run[k + 1].taker.consumed
    ensures run[k].clock >= run[k0].clock + m.debounce
  {
    RunInv(m, run, labels, k);
    StampIsVisible(m, run, labels, k);
    OnlySettledConsumed(m, run, labels, k);
    RunStep(m, run, labels, k, k + 1);
    k0 := StampOrigin(m, run, labels, k, run[k].stampSeen - 1);
  }

  /** Both sides between calls, every store visible. */
  ghost predicate AtRest(s: State) {
    s.sizeSeen == s.stampSeen == |s.stamps| == |s.requests| && !s.taker.Won?
  }

  /** No request is lost in an ordered run: at rest the newest requested size is still pending in the
      cell, or the last take consumed its stamp and returned it.  In any run it is pending or its
      stamp was consumed. */
  lemma LastRequestNotLost(m: Mode, run: seq<State>, labels: seq<Label>, k: nat)
    requires IsRun(m, run, labels) && k <= |labels| && AtRest(run[k]) && run[k].requests != []
    ensures var s := run[k];
            var newest := |s.requests| - 1;
            if s.stamp != 0 then UnpackSize(s.size) == s.requests[newest]
            else s.takes != [] && var last := s.takes[|s.takes| - 1];
                 last.consumed == newest && (m.ordered ==> last.got == newest && last.size == s.requests[newest])
  {
    RunInv(m, run, labels, k);
    var s := run[k];
    if s.stamp == 0 {
      assert s.takes[|s.takes| - 1] in s.takes;
    }
  }

  // ---------------------------------------------------------------------------
  // Exactly which request a take returns
  // ---------------------------------------------------------------------------

  /** How many stores are visible only grows, and stays the same exactly while none is committed. */
  lemma {:induction false} SeenGrows(m: Mode, run: seq<State>, labels: seq<Label>, a: nat, b: nat)
    requires IsRun(m, run, labels) && a <= b <= |labels|
    ensures run[a].sizeSeen <= run[b].sizeSeen && run[a].stampSeen <= run[b].stampSeen
    ensures run[a].sizeSeen == run[b].sizeSeen <==> forall i :: a <= i < b ==> !labels[i].CommitSize?
    ensures run[a].stampSeen == run[b].stampSeen <==> forall i :: a <= i < b ==> !labels[i].CommitStamp?
    decreases b
  {
    if a < b {
      SeenGrows(m, run, labels, a, b - 1);
      RunStep(m, run, labels, b - 1, b);
    }
  }

  /** The call that loaded a stamp at step a goes on at step b. */
  ghost predicate SameCall(labels: seq<Label>, a: nat, b: nat) {
    a < b < |labels| && labels[a].LoadStamp? && forall i :: a < i < b ==> !labels[i].LoadStamp?
  }

  lemma {:induction false} CallCarries(m: Mode, run: seq<State>, labels: seq<Label>, a: nat, b: nat, i: nat)
    requires IsRun(m, run, labels) && SameCall(labels, a, b) && run[a].stamp != 0 && a < i <= b
    ensures run[i].taker.Waiting? || run[i].taker.loaded == run[a].stampSeen - 1
    decreases i
  {
    if i == a + 1 {
      RunStep(m, run, labels, a, i);
    } else {
      CallCarries(m, run, labels, a, b, i - 1);
      RunStep(m, run, labels, i - 1, i);
    }
  }

  /** A call that finds a stamp and goes on to load the size returns the very request it found
      settled if and only if that request's size was the last one visible when the stamp was loaded,
      and no newer size became visible before the size was. */
  lemma TakeReturnsLoadedExactly(m: Mode, run: seq<State>, labels: seq<Label>, a: nat, b: nat)
    requires IsRun(m, run, labels) && m.ordered && SameCall(labels, a, b) && run[a].stamp != 0 && labels[b].LoadSize?
    ensures var take := run[b + 1].takes[|run[b + 1].takes| - 1];
            && take.loaded == run[a].stampSeen - 1
            && (take.got == take.loaded <==> run[a].sizeSeen == run[a].stampSeen && forall i :: a <= i < b ==> !labels[i].CommitSize?)
  {
    RunInv(m, run, labels, a);
    RunStep(m, run, labels, b, b + 1);
    CallCarries(m, run, labels, a, b, b);
    SeenGrows(m, run, labels, a, b);
  }

  /** The stamp it consumes is the one it loaded if and only if no other became visible before the
      compare-exchange: the exchange cannot tell two equal stamps apart. */
  lemma TakeConsumesLoadedExactly(m: Mode, run: seq<State>, labels: seq<Label>, a: nat, c: nat)
    requires IsRun(m, run, labels) && SameCall(labels, a, c) && run[a].stamp != 0
    requires labels[c].CompareExchange? && run[c + 1].taker.Won?
    ensures run[c + 1].taker.loaded == run[a].stampSeen - 1
    ensures run[c + 1].taker.consumed == run[c + 1].taker.loaded <==> forall i :: a <= i < c ==> !labels[i].CommitStamp?
  {
    RunStep(m, run, labels, c, c + 1);
    CallCarries(m, run, labels, a, c, c);
    SeenGrows(m, run, labels, a, c);
  }

  /** When the last take of a run consumed the newest stamp, it returned the newest size if and only
      if no size became visible after it had loaded: without order that is how a request is lost. */
  lemma LostExactly(m: Mode, run: seq<State>, labels: seq<Label>, b: nat, k: nat)
    requires IsRun(m, run, labels) && b < k <= |labels| && labels[b].LoadSize? && (forall i :: b < i < k ==> !labels[i].LoadSize?)
    requires AtRest(run[k]) && run[k].requests != [] && run[k].stamp == 0
    ensures run[k].takes != []
    ensures var newest, last := |run[k].requests| - 1, run[k].takes[|run[k].takes| - 1];
            && last.consumed == newest
            && (last.got == newest <==> forall i :: b <= i < k ==> !labels[i].CommitSize?)
  {
    LastRequestNotLost(m, run, labels, k);
    RunStep(m, run, labels, b, b + 1);
    TakesStay(m, run, labels, b + 1, k);
    SeenGrows(m, run, labels, b, k);
  }

  lemma {:induction false} TakesStay(m: Mode, run: seq<State>, labels: seq<Label>, a: nat, k: nat)
    requires IsRun(m, run, labels) && a <= k <= |labels| && forall i :: a <= i < k ==> !labels[i].LoadSize?
    ensures run[k].takes == run[a].takes
    decreases k
  {
    if a < k {
      TakesStay(m, run, labels, a, k - 1);
      RunStep(m, run, labels, k - 1, k);
    }
  }

  // ---------------------------------------------------------------------------
  // Two runs
  // ---------------------------------------------------------------------------

  lemma RunGrows(m: Mode, run: seq<State>, labels: seq<Label>, l: Label, t: State)
    requires IsRun(m, run, labels) && Step(m, run[|labels|], l, t)
    ensures IsRun(m, run + [t], labels + [l])
  {
    var r, more := run + [t], labels + [l];
    forall i | 0 <= i < |more|
      ensures Step(m, r[i], more[i], r[i + 1])
    {
      if i < |labels| {
        RunStep(m, run, labels, i, i + 1);
      }
    }
  }

  const DEBOUNCE := 400

  const FRESH := State(0, 0, 1000, [], [], 0, 0, Waiting, [])

  /** From a visible stamp the taker waits for the debounce time and finds it settled. */
  lemma Settles(m: Mode, run: seq<State>, labels: seq<Label>) returns (run': seq<State>, labels': seq<Label>)
    requires IsRun(m, run, labels) && run[|labels|].taker.Waiting? && run[|labels|].stamp == run[|labels|].clock > 0
    ensures IsRun(m, run', labels')
    ensures var s := run[|labels|];
            run'[|labels'|] == s.(clock := s.clock + m.debounce, taker := Settled(s.stamp, s.stampSeen - 1))
  {
    var a := run[|labels|];
    var b := a.(clock := a.clock + m.debounce);
    RunGrows(m, run, labels, Tick(b.clock), b);
    run', labels' := run + [b], labels + [Tick(b.clock)];
    var c := b.(taker := StampLoaded(b.stamp, b.stampSeen - 1));
    RunGrows(m, run', labels', LoadStamp, c);
    run', labels' := run' + [c], labels' + [LoadStamp];
    var d := c.(taker := Settled(b.stamp, b.stampSeen - 1));
    RunGrows(m, run', labels', CheckDebounce, d);
    run', labels' := run' + [d], labels' + [CheckDebounce];
  }

  /** One request is visible, and within the same millisecond the next one has read the clock. */
  lemma SecondIssued(m: Mode) returns (run: seq<State>, labels: seq<Label>)
    ensures IsRun(m, run, labels)
    ensures run[|labels|] == State(PackSize(800, 600), 1000, 1000, [(800, 600), (1024, 768)], [1000, 1000], 1, 1, Waiting, [])
  {
    run, labels := [FRESH], [];
    var a := FRESH.(requests := [(800, 600)]);
    RunGrows(m, run, labels, IssueSize(800, 600), a);
    run, labels := run + [a], labels + [IssueSize(800, 600)];
    var b := a.(size := PackSize(800, 600), sizeSeen := 1);
    RunGrows(m, run, labels, CommitSize, b);
    run, labels := run + [b], labels + [CommitSize];
    var c := b.(stamps := [1000]);
    RunGrows(m, run, labels, IssueStamp, c);
    run, labels := run + [c], labels + [IssueStamp];
    var d := c.(stamp := 1000, stampSeen := 1);
    RunGrows(m, run, labels, CommitStamp, d);
    run, labels := run + [d], labels + [CommitStamp];
    var e := d.(requests := [(800, 600), (1024, 768)]);
    RunGrows(m, run, labels, IssueSize(1024, 768), e);
    run, labels := run + [e], labels + [IssueSize(1024, 768)];
    var f := e.(stamps := [1000, 1000]);
    RunGrows(m, run, labels, IssueStamp, f);
    run, labels := run + [f], labels + [IssueStamp];
  }

  /** Even with ordered stores the stamp of a newer request than the one loaded can be consumed: when
      the requester is held up between reading the clock and storing the same millisecond again. */
  lemma NewerStampConsumed() returns (run: seq<State>, labels: seq<Label>)
    ensures IsRun(Mode(DEBOUNCE, true), run, labels) && AtRest(run[|labels|])
    ensures run[|labels|].takes == [Take((1024, 768), 0, 1, 1)]
  {
    var m := Mode(DEBOUNCE, true);
    run, labels := SecondIssued(m);
    run, labels := Settles(m, run, labels);
    var c := run[|labels|].(size := PackSize(1024, 768), sizeSeen := 2);
    RunGrows(m, run, labels, CommitSize, c);
    run, labels := run + [c], labels + [CommitSize];
    var d := c.(stamp := 1000, stampSeen := 2);
    RunGrows(m, run, labels, CommitStamp, d);
    run, labels := run + [d], labels + [CommitStamp];
    var e := d.(stamp := 0, taker := Won(0, 1));
    RunGrows(m, run, labels, CompareExchange, e);
    run, labels := run + [e], labels + [CompareExchange];
    UnpackPacked(1024, 768);
    var f := e.(taker := Waiting, takes := [Take((1024, 768), 0, 1, 1)]);
    RunGrows(m, run, labels, LoadSize, f);
    run, labels := run + [f], labels + [LoadSize];
  }

  /** A stamp visible before its size. */
  lemma StampFirst(m: Mode) returns (run: seq<State>, labels: seq<Label>)
    requires !m.ordered
    ensures IsRun(m, run, labels) && run[|labels|] == State(0, 1000, 1000, [(800, 600)], [1000], 0, 1, Waiting, [])
  {
    run, labels := [FRESH], [];
    var a := FRESH.(requests := [(800, 600)]);
    RunGrows(m, run, labels, IssueSize(800, 600), a);
    run, labels := run + [a], labels + [IssueSize(800, 600)];
    var b := a.(stamps := [1000]);
    RunGrows(m, run, labels, IssueStamp, b);
    run, labels := run + [b], labels + [IssueStamp];
    var c := b.(stamp := 1000, stampSeen := 1);
    RunGrows(m, run, labels, CommitStamp, c);
    run, labels := run + [c], labels + [CommitStamp];
  }

  /** Order is needed: relaxed stores that become visible the other way round lose the only request,
      and the take returns the zeros of the fresh cell. */
  lemma RelaxedLosesRequest() returns (run: seq<State>, labels: seq<Label>)
    ensures IsRun(Mode(DEBOUNCE, false), run, labels) && AtRest(run[|labels|])
    ensures run[|labels|].requests == [(800, 600)] && run[|labels|].stamp == 0 && run[|labels|].takes == [Take((0, 0), 0, 0, -1)]
  {
    var m := Mode(DEBOUNCE, false);
    run, labels := StampFirst(m);
    run, labels := Settles(m, run, labels);
    var d := run[|labels|].(stamp := 0, taker := Won(0, 0));
    RunGrows(m, run, labels, CompareExchange, d);
    run, labels := run + [d], labels + [CompareExchange];
    var e := d.(taker := Waiting, takes := [Take((0, 0), 0, 0, -1)]);
    RunGrows(m, run, labels, LoadSize, e);
    run, labels := run + [e], labels + [LoadSize];
    var f := e.(size := PackSize(800, 600), sizeSeen := 1);
    RunGrows(m, run, labels, CommitSize, f);
    run, labels := run + [f], labels + [CommitSize];
  }
}
