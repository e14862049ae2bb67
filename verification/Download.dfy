/** The windowed parallel download of one remote file: a plan of chunks, a bounded window of chunk
    tasks, and the router that hands every reply to the task waiting for its stream id.  Tasks,
    replies and other users of the router interleave freely, one atomic action per step. */
module Download {
  import opened Common

  // ---------------------------------------------------------------------------
  // The plan
  // ---------------------------------------------------------------------------

  datatype Chunk = Chunk(pos: nat, size: nat)

  /** `plan` cuts `from .. total` into consecutive non-empty chunks of at most `chunkSize`. */
  ghost predicate Partitions(plan: seq<Chunk>, from: nat, total: nat, chunkSize: nat) {
    if plan == [] then from == total
    else plan[0].pos == from && 0 < plan[0].size <= chunkSize && Partitions(plan[1..], from + plan[0].size, total, chunkSize)
  }

  lemma {:induction false} PartitionsAppend(plan: seq<Chunk>, from: nat, mid: nat, last: Chunk, chunkSize: nat)
    requires Partitions(plan, from, mid, chunkSize) && last.pos == mid && 0 < last.size <= chunkSize
    ensures Partitions(plan + [last], from, mid + last.size, chunkSize)
    decreases |plan|
  {
    if plan == [] {
      assert Partitions([last][1..], mid + last.size, mid + last.size, chunkSize);
    } else {
      assert (plan + [last])[1..] == plan[1..] + [last];
      PartitionsAppend(plan[1..], from + plan[0].size, mid, last, chunkSize);
    }
  }

  method BuildPlan(total: nat, chunkSize: nat) returns (plan: seq<Chunk>)
    requires (0 < chunkSize || total == 0) && chunkSize < U32_LIMIT
    ensures Partitions(plan, 0, total, chunkSize)
    ensures forall i :: 0 <= i < |plan| ==> ChunkIs(plan[i], i, total, chunkSize)
    ensures (|plan| - 1) * chunkSize < total <= |plan| * chunkSize || total == |plan| == 0
  {
    plan := [];
    var pos := 0;
    while pos < total
      invariant pos <= total && Partitions(plan, 0, pos, chunkSize)
      invariant pos == Min(|plan| * chunkSize, total) && (plan != [] ==> (|plan| - 1) * chunkSize < total)
      invariant forall i :: 0 <= i < |plan| ==> ChunkIs(plan[i], i, total, chunkSize)
      decreases total - pos
    {
      var req := Min(total - pos, chunkSize);
      assert (|plan| + 1) * chunkSize == |plan| * chunkSize + chunkSize;
      PartitionsAppend(plan, 0, pos, Chunk(pos, req), chunkSize);
      plan := plan + [Chunk(pos, req)];
      pos := pos + req;
    }
  }

  /** Chunk i of the plan: a whole chunk at its place, only the last may be shorter. */
  ghost predicate ChunkIs(c: Chunk, i: int, total: int, chunkSize: int) {
    c.pos == i * chunkSize && c.size == Min(chunkSize, total - i * chunkSize)
  }

  /** The position of the loop of `BuildPlan` after n turns, for any chunk size. */
  ghost function PosAfter(total: nat, chunkSize: nat, n: nat): (pos: nat)
    ensures pos <= total
  {
    if n == 0 then 0
    else var pos := PosAfter(total, chunkSize, n - 1); pos + Min(total - pos, chunkSize)
  }

  /** The loop ends if and only if the chunk size is positive or the file is empty: with chunk size
      0 it pushes empty chunks for ever. */
  lemma PlanLoopEnds(total: nat, chunkSize: nat)
    ensures (exists n :: PosAfter(total, chunkSize, n) == total) <==> 0 < chunkSize || total == 0
  {
    if 0 < chunkSize {
      Advances(total, chunkSize, total);
      assert PosAfter(total, chunkSize, total) == total;
    } else {
      forall n: nat
        ensures PosAfter(total, chunkSize, n) == 0
      {
        StandsStill(total, n);
      }
      assert PosAfter(total, chunkSize, 0) == 0;
    }
  }

  lemma {:induction false} Advances(total: nat, chunkSize: nat, n: nat)
    requires 0 < chunkSize
    ensures PosAfter(total, chunkSize, n) >= Min(n, total)
    decreases n
  {
    if n > 0 {
      Advances(total, chunkSize, n - 1);
    }
  }

  lemma {:induction false} StandsStill(total: nat, n: nat)
    ensures PosAfter(total, 0, n) == 0
    decreases n
  {
    if n > 0 {
      StandsStill(total, n - 1);
    }
  }

  /** Chunk k lies in the file, and chunks before it end where it starts or earlier. */
  lemma {:induction false} ChunkInside(plan: seq<Chunk>, from: nat, total: nat, chunkSize: nat, k: nat)
    requires Partitions(plan, from, total, chunkSize) && k < |plan|
    ensures from <= plan[k].pos && 0 < plan[k].size <= chunkSize && plan[k].pos + plan[k].size <= total
    decreases |plan|
  {
    if k > 0 {
      ChunkInside(plan[1..], from + plan[0].size, total, chunkSize, k - 1);
    } else {
      PlanEnd(plan[1..], from + plan[0].size, total, chunkSize);
    }
  }

  lemma {:induction false} PlanEnd(plan: seq<Chunk>, from: nat, total: nat, chunkSize: nat)
    requires Partitions(plan, from, total, chunkSize)
    ensures from <= total
    decreases |plan|
  {
    if plan != [] {
      PlanEnd(plan[1..], from + plan[0].size, total, chunkSize);
    }
  }

  lemma {:induction false} ChunksDisjoint(plan: seq<Chunk>, from: nat, total: nat, chunkSize: nat, j: nat, k: nat)
    requires Partitions(plan, from, total, chunkSize) && j < k < |plan|
    ensures plan[j].pos + plan[j].size <= plan[k].pos
    decreases |plan|
  {
    if j == 0 {
      ChunkInside(plan[1..], from + plan[0].size, total, chunkSize, k - 1);
    } else {
      ChunksDisjoint(plan[1..], from + plan[0].size, total, chunkSize, j - 1, k - 1);
    }
  }

  /** Every byte is in some chunk. */
  lemma {:induction false} ChunkOf(plan: seq<Chunk>, from: nat, total: nat, chunkSize: nat, b: nat) returns (k: nat)
    requires Partitions(plan, from, total, chunkSize) && from <= b < total
    ensures k < |plan| && plan[k].pos <= b < plan[k].pos + plan[k].size
    decreases |plan|
  {
    if b < from + plan[0].size {
      k := 0;
    } else {
      k := ChunkOf(plan[1..], from + plan[0].size, total, chunkSize, b);
      k := k + 1;
    }
  }

  // ---------------------------------------------------------------------------
  // The router
  // ---------------------------------------------------------------------------

  datatype Reply = Failed | Data(bytes: Bytes)

  /** A registrant: drew id 0 and must draw again, has its id, waits in the table, was answered. */
  datatype Registrant = Retry | HasId(sid: nat) | Waiting(sid: nat) | Answered(sid: nat, reply: Reply)

  /** `draws` counts the fetch-adds on the id counter, `begun` the registrations. */
  datatype Router = Router(draws: nat, begun: nat, regs: map<nat, Registrant>, pending: map<nat, nat>)

  /** The 32-bit value the next fetch-add returns. */
  function NextStreamId(r: Router): nat { r.draws % U32_LIMIT }

  datatype RouterLabel = Draw(who: nat) | DrawAgain(who: nat) | Insert(who: nat) | Deliver(sid: nat, reply: Reply)

  ghost predicate RouterStep(r: Router, l: RouterLabel, t: Router) {
    match l
    case Draw(who) =>
      who !in r.regs &&
      t == r.(draws := r.draws + 1, begun := r.begun + 1,
              regs := r.regs[who := if NextStreamId(r) == 0 then Retry else HasId(NextStreamId(r))])
    case DrawAgain(who) =>
      who in r.regs && r.regs[who].Retry? && t == r.(draws := r.draws + 1, regs := r.regs[who := HasId(NextStreamId(r))])
    case Insert(who) =>
      who in r.regs && r.regs[who].HasId? &&
      t == r.(regs := r.regs[who := Waiting(r.regs[who].sid)], pending := r.pending[r.regs[who].sid := who])
    case Deliver(sid, reply) =>
      if sid in r.pending && r.pending[sid] in r.regs
      then t == r.(pending := r.pending - {sid}, regs := r.regs[r.pending[sid] := Answered(sid, reply)])
      else t == r
  }

  /** At most one registrant drew the id 0, and only it draws twice. */
  ghost predicate OneRetry(r: Router) {
    && r.draws <= r.begun + 1
    && (forall a :: a in r.regs && r.regs[a].Retry? ==> 0 < r.draws <= r.begun)
    && (forall a, b :: a in r.regs && b in r.regs && r.regs[a].Retry? && r.regs[b].Retry? ==> a == b)
  }

  /** Stream ids are drawn, not 0, and no two registrants share one. */
  ghost predicate IdsUnique(r: Router) {
    && (forall a :: a in r.regs && !r.regs[a].Retry? ==> 0 < r.regs[a].sid < r.draws)
    && (forall a, b :: a in r.regs && b in r.regs && !r.regs[a].Retry? && !r.regs[b].Retry? && r.regs[a].sid == r.regs[b].sid ==> a == b)
  }

  /** The table holds exactly the waiting registrants. */
  ghost predicate TableExact(r: Router) {
    && (forall s :: s in r.pending ==> r.pending[s] in r.regs && r.regs[r.pending[s]] == Waiting(s))
    && (forall a :: a in r.regs && r.regs[a].Waiting? ==> r.regs[a].sid in r.pending)
  }

  ghost predicate RouterInv(r: Router) { OneRetry(r) && IdsUnique(r) && TableExact(r) }

  /** Fewer than 2^32 - 1 registrations. */
  ghost predicate FewRegistrations(r: Router) { r.begun < U32_LIMIT - 1 }

  lemma DrawKeepsRetry(r: Router, who: nat, t: Router)
    requires RouterInv(r) && (RouterStep(r, Draw(who), t) || RouterStep(r, DrawAgain(who), t)) && r.draws < U32_LIMIT
    ensures OneRetry(t)
  {
    assert NextStreamId(r) == r.draws;
  }

  lemma DrawKeepsIds(r: Router, who: nat, t: Router)
    requires IdsUnique(r) && (RouterStep(r, Draw(who), t) || RouterStep(r, DrawAgain(who), t)) && r.draws < U32_LIMIT
    requires RouterStep(r, DrawAgain(who), t) ==> r.draws > 0
    ensures IdsUnique(t)
  {
    assert NextStreamId(r) == r.draws;
    forall a, b | a in t.regs && b in t.regs && !t.regs[a].Retry? && !t.regs[b].Retry? && t.regs[a].sid == t.regs[b].sid
      ensures a == b
    {
      assert a != who ==> t.regs[a] == r.regs[a];
      assert b != who ==> t.regs[b] == r.regs[b];
    }
  }

  lemma DrawKeepsInv(r: Router, who: nat, t: Router)
    requires RouterInv(r) && (RouterStep(r, Draw(who), t) || RouterStep(r, DrawAgain(who), t)) && r.draws < U32_LIMIT
    ensures RouterInv(t)
  {
    DrawKeepsRetry(r, who, t);
    DrawKeepsIds(r, who, t);
  }

  /** Steps that draw no id only move one registrant along. */
  lemma SameIds(r: Router, who: nat, to: Registrant, t: Router)
    requires OneRetry(r) && IdsUnique(r) && t.draws == r.draws && t.begun == r.begun && who in r.regs && t.regs == r.regs[who := to]
    requires !r.regs[who].Retry? && !to.Retry? && to.sid == r.regs[who].sid
    ensures OneRetry(t) && IdsUnique(t)
  {
  }

  lemma InsertKeepsInv(r: Router, who: nat, t: Router)
    requires RouterInv(r) && RouterStep(r, Insert(who), t)
    ensures RouterInv(t)
  {
    SameIds(r, who, t.regs[who], t);
  }

  lemma DeliverKeepsTable(r: Router, sid: nat, reply: Reply, t: Router)
    requires IdsUnique(r) && TableExact(r) && RouterStep(r, Deliver(sid, reply), t)
    ensures TableExact(t)
  {
  }

  lemma DeliverKeepsInv(r: Router, sid: nat, reply: Reply, t: Router)
    requires RouterInv(r) && RouterStep(r, Deliver(sid, reply), t)
    ensures RouterInv(t)
  {
    DeliverKeepsTable(r, sid, reply, t);
    if sid in r.pending {
      SameIds(r, r.pending[sid], Answered(sid, reply), t);
    }
  }

  lemma RouterStepKeepsInv(r: Router, l: RouterLabel, t: Router)
    requires RouterInv(r) && RouterStep(r, l, t) && FewRegistrations(t)
    ensures RouterInv(t)
  {
    match l
    case Draw(who) => DrawKeepsInv(r, who, t);
    case DrawAgain(who) => DrawKeepsInv(r, who, t);
    case Insert(who) => InsertKeepsInv(r, who, t);
    case Deliver(sid, reply) => DeliverKeepsInv(r, sid, reply, t);
  }

  /** A reply reaches the one registrant that drew its stream id, which is not 0, and leaves every
      other registrant as it was; a reply nobody waits for changes nothing. */
  lemma ReplyReachesItsRegistrant(r: Router, sid: nat, reply: Reply, t: Router)
    requires RouterInv(r) && RouterStep(r, Deliver(sid, reply), t)
    ensures forall a :: a in r.regs && r.regs[a] == Waiting(sid) ==> t.regs[a] == Answered(sid, reply) && sid != 0
    ensures forall a :: a in r.regs && r.regs[a] != Waiting(sid) ==> a in t.regs && t.regs[a] == r.regs[a]
    ensures (forall a :: a in r.regs ==> r.regs[a] != Waiting(sid)) ==> t == r
  {
  }

  ghost function Drawn(r: Router, who: nat): Router {
    r.(draws := r.draws + 1, begun := r.begun + 1, regs := r.regs[who := if NextStreamId(r) == 0 then Retry else HasId(NextStreamId(r))])
  }

  ghost function DrawnAgain(r: Router, who: nat): Router {
    r.(draws := r.draws + 1, regs := r.regs[who := HasId(NextStreamId(r))])
  }

  ghost function Inserted(r: Router, who: nat): Router
    requires who in r.regs && r.regs[who].HasId?
  {
    r.(regs := r.regs[who := Waiting(r.regs[who].sid)], pending := r.pending[r.regs[who].sid := who])
  }

  /** A whole registration: one draw, or two when the first is 0, and the insertion. */
  ghost function Registered(r: Router, who: nat): Router {
    Inserted(if NextStreamId(r) == 0 then DrawnAgain(Drawn(r, who), who) else Drawn(r, who), who)
  }

  lemma NextId(draws: nat)
    ensures (draws + 1) % U32_LIMIT == (draws % U32_LIMIT + 1) % U32_LIMIT
  {
  }

  function StreamIdFor(r: Router): nat { if NextStreamId(r) == 0 then 1 else NextStreamId(r) }

  /** What a registration does to the router. */
  lemma RegisteredShape(r: Router, who: nat)
    requires who !in r.regs
    ensures var sid, t := StreamIdFor(r), Registered(r, who);
            && t.regs == r.regs[who := Waiting(sid)] && t.pending == r.pending[sid := who]
            && NextStreamId(t) == (sid + 1) % U32_LIMIT && t.begun == r.begun + 1
  {
    NextId(r.draws);
    NextId(r.draws + 1);
  }

  /** The insertion of a registrant that has just drawn its id. */
  lemma OwnerInserted(r: Router, who: nat, owner: Router)
    requires RouterInv(owner) && FewRegistrations(owner) && who !in r.regs && who in owner.regs && owner.regs[who].HasId?
    requires forall a :: a in r.regs ==> a in owner.regs && owner.regs[a] == r.regs[a]
    ensures RouterInv(Inserted(owner, who)) && FreshFor(r, owner.regs[who].sid)
  {
    OwnerFresh(r, who, owner);
    InsertKeepsInv(owner, who, Inserted(owner, who));
  }

  lemma RegisteredLaw(r: Router, who: nat)
    requires who !in r.regs && RouterInv(r) && FewRegistrations(Registered(r, who))
    ensures RouterInv(Registered(r, who)) && FreshFor(r, StreamIdFor(r))
  {
    var drawn := Drawn(r, who);
    DrawKeepsInv(r, who, drawn);
    if NextStreamId(r) == 0 {
      RegisteredTwice(r, who, drawn, DrawnAgain(drawn, who));
    } else {
      OwnerInserted(r, who, drawn);
    }
  }

  lemma AgainKeepsInv(r: Router, who: nat, t: Router)
    requires RouterInv(r) && who in r.regs && r.regs[who].Retry? && t == DrawnAgain(r, who) && r.draws < U32_LIMIT
    ensures RouterInv(t)
  {
    assert RouterStep(r, DrawAgain(who), t);
    DrawKeepsInv(r, who, t);
  }

  lemma SecondDraw(r: Router, who: nat, drawn: Router, owner: Router)
    requires who !in r.regs && drawn == Drawn(r, who) && owner == DrawnAgain(drawn, who) && NextStreamId(drawn) == 1
    ensures who in owner.regs && owner.regs[who] == HasId(1) && owner.begun == drawn.begun
    ensures forall a :: a in r.regs ==> a in owner.regs && owner.regs[a] == r.regs[a]
  {
  }

  lemma RegisteredTwice(r: Router, who: nat, drawn: Router, owner: Router)
    requires who !in r.regs && RouterInv(drawn) && drawn == Drawn(r, who) && NextStreamId(r) == 0
    requires owner == DrawnAgain(drawn, who) && FewRegistrations(drawn)
    ensures RouterInv(Inserted(owner, who)) && FreshFor(r, 1)
  {
    NextId(r.draws);
    AgainKeepsInv(drawn, who, owner);
    SecondDraw(r, who, drawn, owner);
    OwnerInserted(r, who, owner);
  }

  ghost predicate FreshFor(r: Router, sid: nat) {
    forall a :: a in r.regs && r.regs[a].Waiting? ==> r.regs[a].sid != sid
  }

  lemma OwnerFresh(r: Router, who: nat, owner: Router)
    requires who !in r.regs && IdsUnique(owner) && who in owner.regs && owner.regs[who].HasId?
    requires forall a :: a in r.regs ==> a in owner.regs && owner.regs[a] == r.regs[a]
    ensures FreshFor(r, owner.regs[who].sid)
  {
  }

  /** The router itself: what one call does, seen as steps of the protocol. */
  class DownloadRouter {
    var pending: map<nat, nat>
    var nextStreamId: nat
    ghost var model: Router

    ghost predicate Valid()
      reads this
    {
      && nextStreamId == NextStreamId(model) && pending == model.pending
      && (FewRegistrations(model) ==> RouterInv(model))
    }

    /** The counter starts at 0, so the first registration skips it. */
    constructor ()
      ensures Valid() && model == Router(0, 0, map[], map[])
    {
      pending := map[];
      nextStreamId := 0;
      model := Router(0, 0, map[], map[]);
    }

    /** The id is never 0, even when the counter wraps; it is new while registrations are few. */
    method Register(who: nat) returns (sid: nat)
      requires Valid() && who !in model.regs
      modifies this
      ensures Valid() && 0 < sid < U32_LIMIT && model == Registered(old(model), who)
      ensures pending == old(pending)[sid := who] && model.regs == old(model).regs[who := Waiting(sid)]
      ensures FewRegistrations(model) ==> FreshFor(old(model), sid)
      ensures sid == (if old(nextStreamId) == 0 then 1 else old(nextStreamId)) && nextStreamId == (sid + 1) % 4_294_967_296
    {
      ghost var after := Registered(model, who);
      RegisteredShape(model, who);
      if FewRegistrations(after) {
        RegisteredLaw(model, who);
      }
      sid := nextStreamId;
      nextStreamId := (nextStreamId + 1) % U32_LIMIT;
      if sid == 0 {
        sid := nextStreamId;
        nextStreamId := (nextStreamId + 1) % U32_LIMIT;
      }
      pending := pending[sid := who];
      model := after;
    }

    /** Hands the reply to whoever waits for the id, and says who that was. */
    method Deliver(sid: nat, reply: Reply) returns (waiter: Option<nat>)
      requires Valid()
      modifies this
      ensures Valid() && pending == old(pending) - {sid}
      ensures waiter == if sid in old(pending) then Some(old(pending)[sid]) else None
      ensures FewRegistrations(model) ==> RouterStep(old(model), RouterLabel.Deliver(sid, reply), model)
    {
      ghost var before := model;
      if sid in pending {
        waiter := Some(pending[sid]);
        pending := pending - {sid};
        model := model.(pending := pending, regs := model.regs[before.pending[sid] := Answered(sid, reply)]);
      } else {
        waiter := None;
        assert pending == pending - {sid};
      }
      if FewRegistrations(before) {
        RouterStepKeepsInv(before, RouterLabel.Deliver(sid, reply), model);
      }
    }
  }

  // ---------------------------------------------------------------------------
  // The file
  // ---------------------------------------------------------------------------

  function Zeros(n: nat): (z: Bytes)
    ensures |z| == n
  {
    seq(n, i => 0)
  }

  /** Positional write of `data` at `at`: bytes past the end extend the file, a gap reads as zeros. */
  function WriteAt(file: Bytes, at: nat, data: Bytes): (r: Bytes)
    ensures |r| == if data == [] then |file| else Max(|file|, at + |data|)
  {
    if data == [] then file
    else seq(Max(|file|, at + |data|),
             i requires i >= 0 => if at <= i < at + |data| then data[i - at] else if i < |file| then file[i] else 0)
  }

  /** The file handle that all chunk tasks share. */
  class SharedFile {
    var contents: Bytes

    /** Created, truncated and set to its full length. */
    constructor (total: nat)
      ensures contents == Zeros(total)
    {
      contents := Zeros(total);
    }

    /** One positional write of the system: it fails, or takes some first part of the data. */
    method PWrite(at: nat, data: Bytes) returns (n: Option<nat>)
      modifies this
      ensures n.None? ==> contents == old(contents)
      ensures n.Some? ==> n.value <= |data| && contents == WriteAt(old(contents), at, data[..n.value])
    {
      var failed: bool := *;
      if failed {
        return None;
      }
      var taken: nat :| taken <= |data|;
      contents := WriteAt(contents, at, data[..taken]);
      n := Some(taken);
    }

    /** The write loop of a chunk task, whatever number of bytes each write takes. */
    method WriteAll(position: nat, bytes: Bytes) returns (ok: bool)
      modifies this
      ensures ok ==> contents == WriteAt(old(contents), position, bytes)
      ensures !ok ==> exists n :: 0 <= n <= |bytes| && contents == WriteAt(old(contents), position, bytes[..n])
    {
      ghost var before := contents;
      var written := 0;
      while written < |bytes|
        invariant written <= |bytes| && contents == WriteAt(before, position, bytes[..written])
        decreases |bytes| - written
      {
        var n := PWrite(position + written, bytes[written..]);
        if n == None || n == Some(0) {
          return false;
        }
        WriteTwice(before, position, bytes, written, n.value);
        written := written + n.value;
      }
      assert bytes[..written] == bytes;
      ok := true;
    }
  }

  /** Two writes one after the other are one write of both. */
  lemma WriteTwice(file: Bytes, at: nat, bytes: Bytes, written: nat, n: nat)
    requires written + n <= |bytes|
    ensures WriteAt(WriteAt(file, at, bytes[..written]), at + written, bytes[written..][..n]) == WriteAt(file, at, bytes[..written + n])
  {
    assert bytes[written..][..n] == bytes[written..written + n];
  }

  // ---------------------------------------------------------------------------
  // The fetch
  // ---------------------------------------------------------------------------

  /** A chunk task: asking for its range, writing what it got, returned. */
  datatype Task = Asking | Writing(bytes: Bytes, done: nat) | Returned(ok: bool)

  /** Where `fetch_one_file` is: filling the window, waiting for a task, after a join, back. */
  datatype Control = Priming | Joining | Refilling | Finished(ok: bool)

  /** Chunk task k registers with the router as registrant k.  `sent` are the requests on the
      wire: whose chunk a stream id asks for, `None` for other users.  `written` is history: what
      each chunk task has put into the file. */
  datatype State = State(router: Router, file: Bytes, next: nat, tasks: map<nat, Task>, finished: set<nat>,
                         control: Control, sent: map<nat, Option<nat>>, written: map<nat, Bytes>)

  /** The download at hand. */
  datatype Job = Job(remote: Bytes, plan: seq<Chunk>, maxParallel: nat)

  datatype Label =
    | Prime | PrimeDone | JoinOk(k: nat) | JoinErr(k: nat) | Refill | Finish
    | Registers(l: RouterLabel)
    | Send(k: nat) | SendForeign(sid: nat) | GiveUp(k: nat)
    | Replies(sid: nat, reply: Reply)
    | Receive(k: nat) | WriteSome(k: nat, n: nat) | Complete(k: nat)

  ghost predicate Spawned(s: State, t: State, control: Control) {
    t == s.(tasks := s.tasks[s.next := Asking], next := s.next + 1, control := control)
  }

  function Put(written: map<nat, Bytes>, k: nat): Bytes { if k in written then written[k] else [] }

  ghost predicate Step(j: Job, s: State, l: Label, t: State) {
    match l
    case Prime => s.control.Priming? && s.next < |j.plan| && |s.tasks| < j.maxParallel && Spawned(s, t, Priming)
    case PrimeDone => s.control.Priming? && !(s.next < |j.plan| && |s.tasks| < j.maxParallel) && t == s.(control := Joining)
    case JoinOk(k) =>
      s.control.Joining? && k in s.tasks && s.tasks[k] == Returned(true) &&
      t == s.(tasks := s.tasks - {k}, finished := s.finished + {k}, control := Refilling)
    case JoinErr(k) =>
      s.control.Joining? && k in s.tasks && s.tasks[k] == Returned(false) && t == s.(tasks := map[], control := Finished(false))
    case Refill =>
      s.control.Refilling? && if s.next < |j.plan| then Spawned(s, t, Joining) else t == s.(control := Joining)
    case Finish => s.control.Joining? && s.tasks == map[] && t == s.(control := Finished(true))
    case Registers(r) =>
      // chunk tasks register once spawned; other users have numbers beyond the plan
      && !r.Deliver? && (r.who < |j.plan| ==> r.who in s.tasks && s.tasks[r.who].Asking?)
      && RouterStep(s.router, r, t.router) && t == s.(router := t.router)
    case Send(k) =>
      && k in s.tasks && s.tasks[k].Asking? && k in s.router.regs && s.router.regs[k].Waiting?
      && t == s.(sent := s.sent[s.router.regs[k].sid := Some(k)])
    case SendForeign(sid) =>
      && (exists w :: w >= |j.plan| && w in s.router.regs && s.router.regs[w] == Waiting(sid))
      && t == s.(sent := s.sent[sid := None])
    case GiveUp(k) =>
      // send, reply or write failed, or the reply was empty
      k in s.tasks && !s.tasks[k].Returned? && t == s.(tasks := s.tasks[k := Returned(false)])
    case Replies(sid, reply) =>
      // anything the peer may send, asked for or not
      RouterStep(s.router, Deliver(sid, reply), t.router) && t == s.(router := t.router)
    case Receive(k) =>
      && k in s.tasks && s.tasks[k].Asking? && k in s.router.regs && s.router.regs[k].Answered? && s.router.regs[k].reply.Data?
      && s.router.regs[k].reply.bytes != []
      && t == s.(tasks := s.tasks[k := Writing(s.router.regs[k].reply.bytes, 0)])
    case WriteSome(k, n) =>
      && k in s.tasks && s.tasks[k].Writing? && k < |j.plan|
      && var (bytes, done) := (s.tasks[k].bytes, s.tasks[k].done);
      && 0 < n && done + n <= |bytes|
      && t == s.(file := WriteAt(s.file, j.plan[k].pos + done, bytes[done..done + n]),
                 tasks := s.tasks[k := Writing(bytes, done + n)],
                 written := s.written[k := Put(s.written, k) + bytes[done..done + n]])
    case Complete(k) =>
      && k in s.tasks && s.tasks[k].Writing? && s.tasks[k].done == |s.tasks[k].bytes|
      && t == s.(tasks := s.tasks[k := Returned(true)])
  }

  /** The file is created at its full size, all zeros; other users may already be registered. */
  ghost predicate Init(j: Job, s: State) {
    && RouterInv(s.router) && (forall w :: w in s.router.regs ==> w >= |j.plan|)
    && s.file == Zeros(|j.remote|) && s.next == 0 && s.tasks == map[] && s.finished == {} && s.written == map[]
    && s.control == Priming
    && (forall sid :: sid in s.sent ==> s.sent[sid] == None && sid < s.router.draws)
  }

  // ---------------------------------------------------------------------------
  // The window
  // ---------------------------------------------------------------------------

  /** Every chunk below `next` was started once and is either in flight or finished. */
  ghost predicate WindowInv(j: Job, s: State) {
    && s.next <= |j.plan| && (j.maxParallel == 0 ==> s.next == 0)
    && (s.control.Finished? || (forall k: nat :: k in s.tasks || k in s.finished <==> k < s.next))
    && (forall k :: k in s.tasks ==> k !in s.finished)
    && (forall k :: k in s.tasks ==> k < s.next)
    && (forall k :: k in s.finished ==> k < s.next)
    && |s.tasks| <= j.maxParallel
    && match s.control
       case Priming => s.finished == {}
       case Joining => s.next == |j.plan| || |s.tasks| == j.maxParallel
       case Refilling => |s.tasks| < j.maxParallel && (s.next == |j.plan| || |s.tasks| + 1 == j.maxParallel)
       case Finished(ok) => ok && j.maxParallel > 0 ==> s.next == |j.plan| && forall k :: 0 <= k < |j.plan| ==> k in s.finished
  }

  lemma SpawnSize(tasks: map<nat, Task>, k: nat, t: Task)
    requires k !in tasks
    ensures |tasks[k := t]| == |tasks| + 1
  {
    assert tasks[k := t].Keys == tasks.Keys + {k};
  }

  lemma UpdateSize(tasks: map<nat, Task>, k: nat, t: Task)
    requires k in tasks
    ensures |tasks[k := t]| == |tasks| && tasks[k := t].Keys == tasks.Keys
  {
    assert tasks[k := t].Keys == tasks.Keys;
  }

  lemma RemoveSize(tasks: map<nat, Task>, k: nat)
    requires k in tasks
    ensures |tasks - {k}| == |tasks| - 1
  {
    assert (tasks - {k}).Keys == tasks.Keys - {k};
  }

  /** Steps that touch neither the window nor who is in it. */
  lemma TaskStepKeepsWindow(j: Job, s: State, t: State)
    requires WindowInv(j, s) && t.next == s.next && t.finished == s.finished && t.control == s.control
    requires t.tasks.Keys == s.tasks.Keys && |t.tasks| == |s.tasks|
    ensures WindowInv(j, t)
  {
    assert forall k :: k in t.tasks <==> k in s.tasks;
  }

  lemma SpawnKeepsWindow(j: Job, s: State, t: State)
    requires WindowInv(j, s) && s.next < |j.plan| && |s.tasks| < j.maxParallel
    requires (s.control.Priming? && Spawned(s, t, Priming)) || (s.control.Refilling? && Spawned(s, t, Joining))
    ensures WindowInv(j, t)
  {
    assert s.next !in s.tasks;
    SpawnSize(s.tasks, s.next, Asking);
  }

  lemma JoinKeepsWindow(j: Job, s: State, k: nat, t: State)
    requires WindowInv(j, s) && Step(j, s, JoinOk(k), t)
    ensures WindowInv(j, t)
  {
    RemoveSize(s.tasks, k);
  }

  lemma ControlStepKeepsWindow(j: Job, s: State, l: Label, t: State)
    requires WindowInv(j, s) && Step(j, s, l, t)
    requires l.Prime? || l.PrimeDone? || l.JoinOk? || l.JoinErr? || l.Refill? || l.Finish?
    ensures WindowInv(j, t)
  {
    match l
    case Prime => SpawnKeepsWindow(j, s, t);
    case JoinOk(k) => JoinKeepsWindow(j, s, k, t);
    case Refill =>
      if s.next < |j.plan| {
        SpawnKeepsWindow(j, s, t);
      }
    case _ =>
  }

  lemma StepKeepsWindow(j: Job, s: State, l: Label, t: State)
    requires WindowInv(j, s) && Step(j, s, l, t)
    ensures WindowInv(j, t)
  {
    match l
    case Registers(_) => TaskStepKeepsWindow(j, s, t);
    case Replies(_, _) => TaskStepKeepsWindow(j, s, t);
    case Send(_) => TaskStepKeepsWindow(j, s, t);
    case SendForeign(_) => TaskStepKeepsWindow(j, s, t);
    case GiveUp(k) => UpdateSize(s.tasks, k, t.tasks[k]); TaskStepKeepsWindow(j, s, t);
    case Receive(k) => UpdateSize(s.tasks, k, t.tasks[k]); TaskStepKeepsWindow(j, s, t);
    case WriteSome(k, n) => UpdateSize(s.tasks, k, t.tasks[k]); TaskStepKeepsWindow(j, s, t);
    case Complete(k) => UpdateSize(s.tasks, k, t.tasks[k]); TaskStepKeepsWindow(j, s, t);
    case _ => ControlStepKeepsWindow(j, s, l, t);
  }

  // ---------------------------------------------------------------------------
  // The contents
  // ---------------------------------------------------------------------------

  ghost predicate PlanOk(j: Job) {
    && (forall k :: 0 <= k < |j.plan| ==> j.plan[k].size > 0 && j.plan[k].pos + j.plan[k].size <= |j.remote|)
    && (forall i, k :: 0 <= i < k < |j.plan| ==> j.plan[i].pos + j.plan[i].size <= j.plan[k].pos)
  }

  /** `bytes`, put where chunk k starts, reach over byte b. */
  ghost predicate Reaches(j: Job, k: nat, bytes: Bytes, b: nat) {
    k < |j.plan| && j.plan[k].pos <= b < j.plan[k].pos + |bytes|
  }

  ghost predicate Puts(j: Job, written: map<nat, Bytes>, k: nat, b: nat, v: byte) {
    Reaches(j, k, Put(written, k), b) && Put(written, k)[b - j.plan[k].pos] == v
  }

  ghost predicate Untouched(j: Job, written: map<nat, Bytes>, b: nat) {
    forall k :: !Reaches(j, k, Put(written, k), b)
  }

  /** A byte is what some task put there, or a zero of the created file. */
  ghost predicate ByteInv(j: Job, file: Bytes, written: map<nat, Bytes>, b: nat)
    requires b < |file|
  {
    (b < |j.remote| && file[b] == 0 && Untouched(j, written, b)) || exists k :: Puts(j, written, k, b, file[b])
  }

  ghost predicate BytesInv(j: Job, file: Bytes, written: map<nat, Bytes>) {
    forall b :: 0 <= b < |file| ==> ByteInv(j, file, written, b)
  }

  /** The file is at least as long as it was created, and nothing written is cut off. */
  ghost predicate ExtentInv(j: Job, file: Bytes, written: map<nat, Bytes>) {
    && |j.remote| <= |file|
    && (forall k :: k in written ==> k < |j.plan| && j.plan[k].pos + |written[k]| <= |file|)
  }

  ghost predicate FileInv(j: Job, file: Bytes, written: map<nat, Bytes>) {
    ExtentInv(j, file, written) && BytesInv(j, file, written)
  }

  /** Byte by byte: the data at its place, what was there elsewhere, zeros in a gap. */
  lemma WriteAtLaw(file: Bytes, at: nat, data: Bytes, b: nat)
    requires data != [] && b < |WriteAt(file, at, data)|
    ensures if at <= b < at + |data| then WriteAt(file, at, data)[b] == data[b - at]
            else if b < |file| then WriteAt(file, at, data)[b] == file[b]
            else |file| <= b < at && WriteAt(file, at, data)[b] == 0
  {
  }

  lemma WriteAtByte(file: Bytes, at: nat, data: Bytes, b: nat)
    requires data != [] && at <= |file| && b < |WriteAt(file, at, data)|
    ensures if at <= b < at + |data| then WriteAt(file, at, data)[b] == data[b - at]
            else b < |file| && WriteAt(file, at, data)[b] == file[b]
  {
  }

  lemma WrittenByte(j: Job, written: map<nat, Bytes>, k: nat, more: Bytes, b: nat)
    requires k < |j.plan|
    requires var at := j.plan[k].pos + |Put(written, k)|; at <= b < at + |more|
    ensures Puts(j, written[k := Put(written, k) + more], k, b, more[b - (j.plan[k].pos + |Put(written, k)|)])
  {
  }

  lemma KeptByte(j: Job, written: map<nat, Bytes>, k: nat, more: Bytes, writer: nat, b: nat, v: byte)
    requires Puts(j, written, writer, b, v)
    ensures Puts(j, written[k := Put(written, k) + more], writer, b, v)
  {
  }

  lemma WriteKeepsByte(j: Job, file: Bytes, written: map<nat, Bytes>, k: nat, more: Bytes, at: nat, b: nat)
    requires k < |j.plan| && more != [] && at == j.plan[k].pos + |Put(written, k)| <= |file| && b < |WriteAt(file, at, more)|
    requires b < |file| ==> ByteInv(j, file, written, b)
    ensures ByteInv(j, WriteAt(file, at, more), written[k := Put(written, k) + more], b)
  {
    WriteAtByte(file, at, more, b);
    if at <= b < at + |more| {
      WrittenByte(j, written, k, more, b);
    } else if writer :| Puts(j, written, writer, b, file[b]) {
      KeptByte(j, written, k, more, writer, b, file[b]);
    } else {
      UntouchedStays(j, written, k, more, b);
    }
  }

  lemma UntouchedStays(j: Job, written: map<nat, Bytes>, k: nat, more: Bytes, b: nat)
    requires k < |j.plan| && Untouched(j, written, b)
    requires var at := j.plan[k].pos + |Put(written, k)|; !(at <= b < at + |more|)
    ensures Untouched(j, written[k := Put(written, k) + more], b)
  {
    var now := written[k := Put(written, k) + more];
    forall d
      ensures !Reaches(j, d, Put(now, d), b)
    {
      assert !Reaches(j, d, Put(written, d), b);
    }
  }

  lemma WriteKeepsBytes(j: Job, file: Bytes, written: map<nat, Bytes>, k: nat, more: Bytes, at: nat)
    requires k < |j.plan| && more != [] && at == j.plan[k].pos + |Put(written, k)| <= |file| && BytesInv(j, file, written)
    ensures BytesInv(j, WriteAt(file, at, more), written[k := Put(written, k) + more])
  {
    var after, now := WriteAt(file, at, more), written[k := Put(written, k) + more];
    forall b | 0 <= b < |after|
      ensures ByteInv(j, after, now, b)
    {
      WriteKeepsByte(j, file, written, k, more, at, b);
    }
  }

  lemma WriteKeepsExtent(j: Job, file: Bytes, written: map<nat, Bytes>, k: nat, more: Bytes, at: nat)
    requires k < |j.plan| && more != [] && at == j.plan[k].pos + |Put(written, k)| && ExtentInv(j, file, written)
    ensures ExtentInv(j, WriteAt(file, at, more), written[k := Put(written, k) + more])
  {
  }

  lemma WriteStarts(j: Job, file: Bytes, written: map<nat, Bytes>, k: nat)
    requires PlanOk(j) && ExtentInv(j, file, written) && k < |j.plan|
    ensures j.plan[k].pos + |Put(written, k)| <= |file|
  {
  }

  /** A positional write of any task, in any order and of any length, keeps every byte accounted for. */
  lemma WriteKeepsFile(j: Job, file: Bytes, written: map<nat, Bytes>, k: nat, more: Bytes, at: nat, after: Bytes, now: map<nat, Bytes>)
    requires PlanOk(j) && ExtentInv(j, file, written) && BytesInv(j, file, written) && k < |j.plan| && more != []
    requires at == j.plan[k].pos + |Put(written, k)| && after == WriteAt(file, at, more) && now == written[k := Put(written, k) + more]
    ensures ExtentInv(j, after, now) && BytesInv(j, after, now)
  {
    WriteStarts(j, file, written, k);
    WriteKeepsBytes(j, file, written, k, more, at);
    WriteKeepsExtent(j, file, written, k, more, at);
  }

  /** The data that answered the request of chunk k. */
  ghost function Got(router: Router, k: nat): Bytes {
    if k in router.regs && router.regs[k].Answered? && router.regs[k].reply.Data? then router.regs[k].reply.bytes else []
  }

  ghost predicate HasAnswer(router: Router, k: nat) { k in router.regs && router.regs[k].Answered? }

  /** What the task of chunk k has put into the file is the part of its reply it has come to. */
  ghost predicate TaskInv(task: Task, put: Bytes, got: Bytes, answered: bool) {
    match task
    case Asking => put == []
    case Writing(bytes, done) => answered && bytes == got != [] && done <= |bytes| && put == bytes[..done]
    case Returned(ok) => ok ==> answered && put == got != []
  }

  ghost predicate ChunkInv(s: State, k: nat) {
    && (k in s.tasks ==> TaskInv(s.tasks[k], Put(s.written, k), Got(s.router, k), HasAnswer(s.router, k)))
    && (k in s.finished ==> HasAnswer(s.router, k) && Put(s.written, k) == Got(s.router, k) != [])
    && (k >= s.next ==> Put(s.written, k) == [] && k !in s.router.regs)
  }

  ghost predicate ChunksInv(j: Job, s: State) {
    forall k :: 0 <= k < |j.plan| ==> ChunkInv(s, k)
  }

  ghost predicate Inv(j: Job, s: State) {
    PlanOk(j) && RouterInv(s.router) && WindowInv(j, s) && FileInv(j, s.file, s.written) && ChunksInv(j, s)
  }

  /** An answered registrant keeps its answer. */
  lemma AnswersStay(r: Router, l: RouterLabel, t: Router, k: nat)
    requires RouterInv(r) && RouterStep(r, l, t)
    ensures HasAnswer(r, k) ==> HasAnswer(t, k) && Got(t, k) == Got(r, k)
    ensures k in t.regs ==> k in r.regs || (l.Draw? && l.who == k)
  {
  }

  lemma RouterPartKeepsChunks(j: Job, s: State, l: Label, r: RouterLabel, t: State)
    requires Inv(j, s) && Step(j, s, l, t) && RouterStep(s.router, r, t.router)
    requires l == Registers(r) || (l.Replies? && r == Deliver(l.sid, l.reply))
    ensures ChunksInv(j, t)
  {
    forall k | 0 <= k < |j.plan|
      ensures ChunkInv(t, k)
    {
      assert ChunkInv(s, k);
      AnswersStay(s.router, r, t.router, k);
    }
  }

  lemma RouterPartKeepsInv(j: Job, s: State, l: Label, t: State)
    requires Inv(j, s) && Step(j, s, l, t) && FewRegistrations(t.router) && (l.Registers? || l.Replies?)
    ensures Inv(j, t)
  {
    var r := if l.Registers? then l.l else Deliver(l.sid, l.reply);
    StepKeepsWindow(j, s, l, t);
    RouterStepKeepsInv(s.router, r, t.router);
    RouterPartKeepsChunks(j, s, l, r, t);
  }

  lemma WriteKeepsChunks(j: Job, s: State, k: nat, n: nat, t: State)
    requires Inv(j, s) && Step(j, s, WriteSome(k, n), t)
    ensures ChunksInv(j, t)
  {
    var bytes, done := s.tasks[k].bytes, s.tasks[k].done;
    assert ChunkInv(s, k);
    assert bytes[..done] + bytes[done..done + n] == bytes[..done + n];
    forall o | 0 <= o < |j.plan|
      ensures ChunkInv(t, o)
    {
      assert ChunkInv(s, o);
    }
  }

  lemma WriteKeepsInv(j: Job, s: State, k: nat, n: nat, t: State)
    requires Inv(j, s) && Step(j, s, WriteSome(k, n), t)
    ensures Inv(j, t)
  {
    StepKeepsWindow(j, s, WriteSome(k, n), t);
    WriteKeepsChunks(j, s, k, n, t);
    assert ChunkInv(s, k);
    PutLength(s, k);
    WriteKeepsFileInv(j, s, k, n, t);
  }

  lemma PutLength(s: State, k: nat)
    requires ChunkInv(s, k) && k in s.tasks && s.tasks[k].Writing?
    ensures |Put(s.written, k)| == s.tasks[k].done
  {
  }

  lemma WriteKeepsFileInv(j: Job, s: State, k: nat, n: nat, t: State)
    requires PlanOk(j) && FileInv(j, s.file, s.written) && Step(j, s, WriteSome(k, n), t)
    requires |Put(s.written, k)| == s.tasks[k].done
    ensures FileInv(j, t.file, t.written)
  {
    var bytes, done := s.tasks[k].bytes, s.tasks[k].done;
    WriteKeepsFile(j, s.file, s.written, k, bytes[done..done + n], j.plan[k].pos + done, t.file, t.written);
  }

  lemma TaskPartKeepsChunks(j: Job, s: State, l: Label, t: State)
    requires Inv(j, s) && Step(j, s, l, t) && !l.Registers? && !l.Replies? && !l.WriteSome?
    ensures ChunksInv(j, t)
  {
    forall k | 0 <= k < |j.plan|
      ensures ChunkInv(t, k)
    {
      assert ChunkInv(s, k);
      OneChunkKept(j, s, l, t, k);
    }
  }

  lemma OneChunkKept(j: Job, s: State, l: Label, t: State, k: nat)
    requires WindowInv(j, s) && Step(j, s, l, t) && !l.Registers? && !l.Replies? && !l.WriteSome? && ChunkInv(s, k)
    ensures ChunkInv(t, k)
  {
    if l.Receive? && l.k == k {
      assert Got(s.router, k)[..0] == [];
    }
    if l.Complete? && l.k == k {
      assert s.tasks[k].bytes[..|s.tasks[k].bytes|] == s.tasks[k].bytes;
    }
  }

  lemma TaskPartKeepsInv(j: Job, s: State, l: Label, t: State)
    requires Inv(j, s) && Step(j, s, l, t) && !l.Registers? && !l.Replies? && !l.WriteSome?
    ensures Inv(j, t)
  {
    StepKeepsWindow(j, s, l, t);
    TaskPartKeepsChunks(j, s, l, t);
  }

  /** Every step of the fetch, the tasks, the router and any peer at all. */
  lemma StepKeepsInv(j: Job, s: State, l: Label, t: State)
    requires Inv(j, s) && Step(j, s, l, t) && FewRegistrations(t.router)
    ensures Inv(j, t)
  {
    match l
    case Registers(_) => RouterPartKeepsInv(j, s, l, t);
    case Replies(_, _) => RouterPartKeepsInv(j, s, l, t);
    case WriteSome(k, n) => WriteKeepsInv(j, s, k, n, t);
    case _ => TaskPartKeepsInv(j, s, l, t);
  }

  // ---------------------------------------------------------------------------
  // Whole runs
  // ---------------------------------------------------------------------------

  ghost predicate IsRun(j: Job, run: seq<State>, labels: seq<Label>) {
    && |run| == |labels| + 1 && Init(j, run[0])
    && (forall i :: 0 <= i < |labels| ==> Step(j, run[i], labels[i], run[i + 1]))
    && forall i :: 0 <= i < |run| ==> FewRegistrations(run[i].router)
  }

  lemma PartitionOk(j: Job, chunkSize: nat)
    requires Partitions(j.plan, 0, |j.remote|, chunkSize)
    ensures PlanOk(j)
  {
    forall k | 0 <= k < |j.plan|
      ensures j.plan[k].size > 0 && j.plan[k].pos + j.plan[k].size <= |j.remote|
    {
      ChunkInside(j.plan, 0, |j.remote|, chunkSize, k);
    }
    forall i, k | 0 <= i < k < |j.plan|
      ensures j.plan[i].pos + j.plan[i].size <= j.plan[k].pos
    {
      ChunksDisjoint(j.plan, 0, |j.remote|, chunkSize, i, k);
    }
  }

  lemma InitInv(j: Job, s: State)
    requires PlanOk(j) && Init(j, s)
    ensures Inv(j, s)
  {
    assert |s.tasks| == 0;
    forall b | 0 <= b < |s.file|
      ensures ByteInv(j, s.file, s.written, b)
    {
      assert Untouched(j, s.written, b);
    }
  }

  lemma RunStep(j: Job, run: seq<State>, labels: seq<Label>, i: nat, next: nat)
    requires IsRun(j, run, labels) && i < |labels| && next == i + 1
    ensures Step(j, run[i], labels[i], run[next]) && FewRegistrations(run[next].router)
  {
  }

  /** The first `n` states of a run are good. */
  ghost predicate InvUpTo(j: Job, run: seq<State>, n: nat)
    requires n <= |run|
  {
    n > 0 ==> InvUpTo(j, run, n - 1) && Inv(j, run[n - 1])
  }

  lemma StepInv(j: Job, run: seq<State>, labels: seq<Label>, n: nat)
    requires IsRun(j, run, labels) && 0 < n <= |labels| && InvUpTo(j, run, n)
    ensures InvUpTo(j, run, n + 1)
  {
    RunStep(j, run, labels, n - 1, n);
    StepKeepsInv(j, run[n - 1], labels[n - 1], run[n]);
  }

  lemma {:induction false} RunInvUpTo(j: Job, run: seq<State>, labels: seq<Label>, k: nat, chunkSize: nat)
    requires Partitions(j.plan, 0, |j.remote|, chunkSize) && IsRun(j, run, labels) && k <= |labels|
    ensures InvUpTo(j, run, k + 1)
  {
    if k == 0 {
      PartitionOk(j, chunkSize);
      InitInv(j, run[0]);
      assert InvUpTo(j, run, 0);
    } else {
      RunInvUpTo(j, run, labels, k - 1, chunkSize);
      StepInv(j, run, labels, k);
    }
  }

  lemma RunInv(j: Job, run: seq<State>, labels: seq<Label>, k: nat, chunkSize: nat)
    requires Partitions(j.plan, 0, |j.remote|, chunkSize) && IsRun(j, run, labels) && k <= |labels|
    ensures Inv(j, run[k])
  {
    RunInvUpTo(j, run, labels, k, chunkSize);
  }

  predicate NoData(reply: Reply) { reply.Failed? || reply.bytes == [] }

  /** Task c of a good state that has not returned can go on: it registers, waits for the peer, takes
      its answer or writes; it gives up only on a failure or an empty answer. */
  lemma TaskGoesOn(j: Job, s: State, c: nat) returns (l: Label, t: State)
    requires Inv(j, s) && c in s.tasks && !s.tasks[c].Returned?
    ensures Step(j, s, l, t)
    ensures l.Registers? || l.Replies? || l == Receive(c) || l.WriteSome? || l == Complete(c) || l == GiveUp(c)
    ensures l.GiveUp? ==> HasAnswer(s.router, c) && NoData(s.router.regs[c].reply)
  {
    assert ChunkInv(s, c);
    var r := s.router;
    match s.tasks[c]
    case Asking =>
      if c !in r.regs {
        l, t := Registers(Draw(c)), s.(router := Drawn(r, c));
      } else {
        match r.regs[c]
        case Retry => l, t := Registers(DrawAgain(c)), s.(router := DrawnAgain(r, c));
        case HasId(_) => l, t := Registers(Insert(c)), s.(router := Inserted(r, c));
        case Waiting(sid) =>
          l := Replies(sid, Failed);
          t := s.(router := r.(pending := r.pending - {sid}, regs := r.regs[r.pending[sid] := Answered(sid, Failed)]));
        case Answered(_, reply) =>
          if reply.Data? && reply.bytes != [] {
            l, t := Receive(c), s.(tasks := s.tasks[c := Writing(reply.bytes, 0)]);
          } else {
            l, t := GiveUp(c), s.(tasks := s.tasks[c := Returned(false)]);
          }
      }
    case Writing(bytes, done) =>
      if done == |bytes| {
        l, t := Complete(c), s.(tasks := s.tasks[c := Returned(true)]);
      } else {
        l := WriteSome(c, 1);
        t := s.(file := WriteAt(s.file, j.plan[c].pos + done, bytes[done..done + 1]), tasks := s.tasks[c := Writing(bytes, done + 1)],
                written := s.written[c := Put(s.written, c) + bytes[done..done + 1]]);
      }
  }

  /** What `fetch_one_file` itself can do next. */
  lemma ControlGoesOn(j: Job, s: State) returns (l: Label, t: State)
    requires !s.control.Finished?
    requires s.control.Joining? ==> s.tasks == map[] || exists c :: c in s.tasks && s.tasks[c].Returned?
    ensures Step(j, s, l, t)
    ensures match s.control
            case Priming => l == if s.next < |j.plan| && |s.tasks| < j.maxParallel then Prime else PrimeDone
            case Joining => l == Finish || l.JoinOk? || l.JoinErr?
            case Refilling => l == Refill
            case Finished(_) => false
  {
    match s.control
    case Priming =>
      if s.next < |j.plan| && |s.tasks| < j.maxParallel {
        l, t := Prime, s.(tasks := s.tasks[s.next := Asking], next := s.next + 1, control := Priming);
      } else {
        l, t := PrimeDone, s.(control := Joining);
      }
    case Refilling =>
      l := Refill;
      t := if s.next < |j.plan| then s.(tasks := s.tasks[s.next := Asking], next := s.next + 1, control := Joining)
           else s.(control := Joining);
    case Joining =>
      if s.tasks == map[] {
        l, t := Finish, s.(control := Finished(true));
      } else {
        var c :| c in s.tasks && s.tasks[c].Returned?;
        if s.tasks[c].ok {
          l, t := JoinOk(c), s.(tasks := s.tasks - {c}, finished := s.finished + {c}, control := Refilling);
        } else {
          l, t := JoinErr(c), s.(tasks := map[], control := Finished(false));
        }
      }
  }

  /** No fetch gets stuck: at every point of every run that is not over, `fetch_one_file` can go on,
      or it waits for tasks none of which has returned and each of which can go on. */
  lemma NeverStuck(j: Job, run: seq<State>, labels: seq<Label>, k: nat, chunkSize: nat) returns (l: Label, t: State)
    requires Partitions(j.plan, 0, |j.remote|, chunkSize) && IsRun(j, run, labels) && k <= |labels|
    requires !run[k].control.Finished?
    ensures Step(j, run[k], l, t)
    ensures l.GiveUp? ==> HasAnswer(run[k].router, l.k) && NoData(run[k].router.regs[l.k].reply)
    ensures run[k].control.Joining? && (exists c :: c in run[k].tasks && run[k].tasks[c].Returned?) ==> l.JoinOk? || l.JoinErr?
  {
    RunInv(j, run, labels, k, chunkSize);
    var s := run[k];
    if s.control.Joining? && s.tasks != map[] && !exists c :: c in s.tasks && s.tasks[c].Returned? {
      var c :| c in s.tasks;
      l, t := TaskGoesOn(j, s, c);
    } else {
      l, t := ControlGoesOn(j, s);
    }
  }

  /** No task has failed, and neither has the fetch. */
  ghost predicate NoneFailed(s: State) {
    s.control != Finished(false) && forall c :: c in s.tasks ==> s.tasks[c] != Returned(false)
  }

  lemma NoneFailedStep(j: Job, s: State, l: Label, t: State)
    requires NoneFailed(s) && Step(j, s, l, t) && !l.GiveUp?
    ensures NoneFailed(t)
  {
  }

  /** A fetch reports an error only if one of its tasks gave up. */
  lemma {:induction false} ErrorHasReason(j: Job, run: seq<State>, labels: seq<Label>, k: nat)
    requires IsRun(j, run, labels) && k <= |labels|
    ensures NoneFailed(run[k]) || exists i :: 0 <= i < k && labels[i].GiveUp?
  {
    if k > 0 {
      ErrorHasReason(j, run, labels, k - 1);
      RunStep(j, run, labels, k - 1, k);
      if !labels[k - 1].GiveUp? && NoneFailed(run[k - 1]) {
        NoneFailedStep(j, run[k - 1], labels[k - 1], run[k]);
      }
    }
  }

  /** In every run, at every point: at most `maxParallel` tasks are in flight, and the chunks
      started so far are the first ones of the plan, each in flight or finished, never both. */
  lemma WindowBounded(j: Job, run: seq<State>, labels: seq<Label>, k: nat, chunkSize: nat)
    requires Partitions(j.plan, 0, |j.remote|, chunkSize) && IsRun(j, run, labels) && k <= |labels|
    ensures |run[k].tasks| <= j.maxParallel
    ensures run[k].control.Joining? ==> run[k].next == |j.plan| || |run[k].tasks| == j.maxParallel
    ensures !run[k].control.Finished? ==> forall c: nat :: c in run[k].tasks || c in run[k].finished <==> c < run[k].next
    ensures forall c :: c in run[k].tasks ==> c !in run[k].finished
  {
    RunInv(j, run, labels, k, chunkSize);
  }

  // ---------------------------------------------------------------------------
  // What a fetch that reports success has written
  // ---------------------------------------------------------------------------

  /** The reply accepted for chunk k reaches over byte b. */
  ghost predicate Covers(j: Job, s: State, k: nat, b: nat) { Reaches(j, k, Got(s.router, k), b) }

  ghost function ReplyByte(j: Job, s: State, k: nat, b: nat): byte
    requires Covers(j, s, k, b)
  {
    Got(s.router, k)[b - j.plan[k].pos]
  }

  ghost predicate Covered(j: Job, s: State, b: nat) { exists k :: Covers(j, s, k, b) }

  /** Byte b is one of the accepted replies' or, where none reaches, a zero of the created file. */
  ghost predicate ByteAssembled(j: Job, s: State, b: nat)
    requires b < |s.file|
  {
    if Covered(j, s, b) then exists k :: Covers(j, s, k, b) && s.file[b] == ReplyByte(j, s, k, b)
    else b < |j.remote| && s.file[b] == 0
  }

  /** The file is put together from the accepted replies, and none is cut off. */
  ghost predicate Assembled(j: Job, s: State) {
    && |j.remote| <= |s.file|
    && (forall k :: 0 <= k < |j.plan| ==> j.plan[k].pos + |Got(s.router, k)| <= |s.file|)
    && (forall b :: 0 <= b < |s.file| ==> ByteAssembled(j, s, b))
  }

  lemma AllPut(j: Job, s: State)
    requires Inv(j, s) && s.control == Finished(true)
    ensures forall k :: 0 <= k < |j.plan| ==> Put(s.written, k) == Got(s.router, k)
  {
    forall k | 0 <= k < |j.plan|
      ensures Put(s.written, k) == Got(s.router, k)
    {
      assert ChunkInv(s, k);
    }
  }

  lemma AssembledFile(j: Job, s: State)
    requires PlanOk(j) && FileInv(j, s.file, s.written) && forall k :: 0 <= k < |j.plan| ==> Put(s.written, k) == Got(s.router, k)
    ensures Assembled(j, s)
  {
    forall b | 0 <= b < |s.file|
      ensures ByteAssembled(j, s, b)
    {
      assert ByteInv(j, s.file, s.written, b);
      if writer :| Puts(j, s.written, writer, b, s.file[b]) {
        assert Covers(j, s, writer, b) && s.file[b] == ReplyByte(j, s, writer, b);
      } else {
        forall k: nat
          ensures !Covers(j, s, k, b)
        {
          assert !Reaches(j, k, Put(s.written, k), b);
        }
      }
    }
    forall k | 0 <= k < |j.plan|
      ensures j.plan[k].pos + |Got(s.router, k)| <= |s.file|
    {
      assert k in s.written || Got(s.router, k) == [];
    }
  }

  /** Whatever the peer sends, in whatever order replies and writes come, for any window. */
  lemma FileIsAssembled(j: Job, run: seq<State>, labels: seq<Label>, k: nat, chunkSize: nat)
    requires Partitions(j.plan, 0, |j.remote|, chunkSize) && IsRun(j, run, labels) && k <= |labels|
    requires run[k].control == Finished(true)
    ensures Assembled(j, run[k])
  {
    RunInv(j, run, labels, k, chunkSize);
    AllPut(j, run[k]);
    AssembledFile(j, run[k]);
  }

  /** With a positive window, success means that every chunk of the plan was run and its request was
      answered with data, none of it empty. */
  lemma SuccessMeansAnswered(j: Job, run: seq<State>, labels: seq<Label>, k: nat, chunkSize: nat, c: nat)
    requires Partitions(j.plan, 0, |j.remote|, chunkSize) && IsRun(j, run, labels) && k <= |labels|
    requires run[k].control == Finished(true) && j.maxParallel > 0 && c < |j.plan|
    ensures c in run[k].finished && c in run[k].router.regs && run[k].router.regs[c].Answered?
    ensures var reply := run[k].router.regs[c].reply; reply.Data? && reply.bytes != []
  {
    RunInv(j, run, labels, k, chunkSize);
    assert ChunkInv(run[k], c);
  }

  /** Replies that reach over the same byte say the same about it.  Replies no longer than asked
      never reach over the same byte. */
  ghost predicate Consistent(j: Job, s: State) {
    forall c, d, b :: Covers(j, s, c, b) && Covers(j, s, d, b) ==> ReplyByte(j, s, c, b) == ReplyByte(j, s, d, b)
  }

  lemma NotLongerConsistent(j: Job, s: State)
    requires PlanOk(j) && forall k :: 0 <= k < |j.plan| ==> |Got(s.router, k)| <= j.plan[k].size
    ensures Consistent(j, s)
  {
    forall c: nat, d: nat, b: nat | Covers(j, s, c, b) && Covers(j, s, d, b)
      ensures c == d
    {
      OneReacher(j, c, Got(s.router, c), d, Got(s.router, d), b);
    }
  }

  lemma OneReacher(j: Job, c: nat, x: Bytes, d: nat, y: Bytes, b: nat)
    requires PlanOk(j) && Reaches(j, c, x, b) && Reaches(j, d, y, b) && |x| <= j.plan[c].size && |y| <= j.plan[d].size
    ensures c == d
  {
  }

  /** `bytes` are the remote file's own from the start of chunk k. */
  ghost predicate Agrees(j: Job, k: nat, bytes: Bytes)
    requires k < |j.plan|
  {
    j.plan[k].pos + |bytes| <= |j.remote| && bytes == j.remote[j.plan[k].pos..j.plan[k].pos + |bytes|]
  }

  ghost predicate AllAgree(j: Job, s: State) {
    forall k :: 0 <= k < |j.plan| ==> Agrees(j, k, Got(s.router, k))
  }

  /** Where no reply reaches, the remote file is zero. */
  ghost predicate GapsAreZero(j: Job, s: State) {
    forall b :: 0 <= b < |j.remote| ==> j.remote[b] == 0 || Covered(j, s, b)
  }

  lemma AgreedByte(j: Job, s: State, k: nat, b: nat)
    requires Covers(j, s, k, b) && Agrees(j, k, Got(s.router, k))
    ensures b < |j.remote| && ReplyByte(j, s, k, b) == j.remote[b]
  {
    var got, pos := Got(s.router, k), j.plan[k].pos;
    assert got[b - pos] == j.remote[pos..pos + |got|][b - pos];
  }

  lemma RightByte(j: Job, s: State, b: nat)
    requires Assembled(j, s) && AllAgree(j, s) && GapsAreZero(j, s) && b < |s.file|
    ensures b < |j.remote| && s.file[b] == j.remote[b]
  {
    assert ByteAssembled(j, s, b);
    if Covered(j, s, b) {
      var k :| Covers(j, s, k, b) && s.file[b] == ReplyByte(j, s, k, b);
      AgreedByte(j, s, k, b);
    }
  }

  lemma RightReplies(j: Job, s: State)
    requires Assembled(j, s) && AllAgree(j, s) && GapsAreZero(j, s)
    ensures s.file == j.remote
  {
    if s.file != [] {
      RightByte(j, s, |s.file| - 1);
    }
    forall b | 0 <= b < |s.file|
      ensures s.file[b] == j.remote[b]
    {
      RightByte(j, s, b);
    }
  }

  lemma WrongRepliesShow(j: Job, s: State)
    requires Assembled(j, s) && Consistent(j, s) && s.file == j.remote
    ensures AllAgree(j, s) && GapsAreZero(j, s)
  {
    forall k | 0 <= k < |j.plan|
      ensures Agrees(j, k, Got(s.router, k))
    {
      var got, pos := Got(s.router, k), j.plan[k].pos;
      forall i | 0 <= i < |got|
        ensures got[i] == j.remote[pos + i]
      {
        assert Covers(j, s, k, pos + i) && ReplyByte(j, s, k, pos + i) == got[i];
        assert Covered(j, s, pos + i) && ByteAssembled(j, s, pos + i);
        var d :| Covers(j, s, d, pos + i) && s.file[pos + i] == ReplyByte(j, s, d, pos + i);
      }
    }
    forall b | 0 <= b < |j.remote|
      ensures j.remote[b] == 0 || Covered(j, s, b)
    {
      assert ByteAssembled(j, s, b);
    }
  }

  /** Success against the code, for every window, every peer and every order: as long as replies
      that overlap do not contradict each other, a fetch that reports success has the remote file
      if and only if every accepted reply is a piece of the remote file at its chunk's place and
      the remote file is zero wherever no reply reached. */
  lemma OkExactly(j: Job, run: seq<State>, labels: seq<Label>, k: nat, chunkSize: nat)
    requires Partitions(j.plan, 0, |j.remote|, chunkSize) && IsRun(j, run, labels) && k <= |labels|
    requires run[k].control == Finished(true)
    ensures AllAgree(j, run[k]) && GapsAreZero(j, run[k]) ==> run[k].file == j.remote
    ensures Consistent(j, run[k]) && run[k].file == j.remote ==> AllAgree(j, run[k]) && GapsAreZero(j, run[k])
  {
    FileIsAssembled(j, run, labels, k, chunkSize);
    if AllAgree(j, run[k]) && GapsAreZero(j, run[k]) {
      RightReplies(j, run[k]);
    }
    if Consistent(j, run[k]) && run[k].file == j.remote {
      WrongRepliesShow(j, run[k]);
    }
  }

  /** The guard that would make success safe: every chunk was answered with its own bytes, no fewer
      than asked. */
  lemma FullRepliesSuffice(j: Job, run: seq<State>, labels: seq<Label>, k: nat, chunkSize: nat)
    requires Partitions(j.plan, 0, |j.remote|, chunkSize) && IsRun(j, run, labels) && k <= |labels|
    requires run[k].control == Finished(true) && AllAgree(j, run[k])
    requires forall c :: 0 <= c < |j.plan| ==> |Got(run[k].router, c)| >= j.plan[c].size
    ensures run[k].file == j.remote
  {
    forall b: nat | b < |j.remote|
      ensures Covered(j, run[k], b)
    {
      var c := ChunkOf(j.plan, 0, |j.remote|, chunkSize, b);
      assert Covers(j, run[k], c, b);
    }
    OkExactly(j, run, labels, k, chunkSize);
  }

  /** With a window of 0 no request is ever made, so success is right exactly for a remote file of
      zeros. */
  lemma EmptyWindowExactly(j: Job, run: seq<State>, labels: seq<Label>, k: nat, chunkSize: nat)
    requires Partitions(j.plan, 0, |j.remote|, chunkSize) && IsRun(j, run, labels) && k <= |labels|
    requires run[k].control == Finished(true) && j.maxParallel == 0
    ensures run[k].file == Zeros(|j.remote|)
    ensures run[k].file == j.remote <==> forall b :: 0 <= b < |j.remote| ==> j.remote[b] == 0
  {
    RunInv(j, run, labels, k, chunkSize);
    FileIsAssembled(j, run, labels, k, chunkSize);
    var s := run[k];
    forall c: nat, b: nat
      ensures !Covers(j, s, c, b)
    {
      if c < |j.plan| {
        assert ChunkInv(s, c);
      }
    }
    BareFile(j, s);
  }

  lemma BareFile(j: Job, s: State)
    requires Assembled(j, s) && forall c: nat, b: nat :: !Covers(j, s, c, b)
    ensures s.file == Zeros(|j.remote|)
  {
    if s.file != [] {
      assert ByteAssembled(j, s, |s.file| - 1);
    }
    forall b | 0 <= b < |s.file|
      ensures s.file[b] == 0
    {
      assert ByteAssembled(j, s, b);
    }
  }

  /** And with a window of 0 every fetch can report success, in two steps. */
  lemma EmptyWindowSucceedsAtOnce(j: Job, s: State)
    requires Init(j, s) && j.maxParallel == 0 && FewRegistrations(s.router)
    ensures IsRun(j, [s, s.(control := Joining), s.(control := Finished(true))], [PrimeDone, Finish])
  {
    var run, labels := [s, s.(control := Joining), s.(control := Finished(true))], [PrimeDone, Finish];
    assert Step(j, run[0], labels[0], run[1]) && Step(j, run[1], labels[1], run[2]);
  }

  // ---------------------------------------------------------------------------
  // An honest peer
  // ---------------------------------------------------------------------------

  /** The peer answers only requests it was sent, and a request for a chunk with a failure or with
      bytes of the remote file from the chunk's start -- as many as it likes. */
  ghost predicate Honest(j: Job, s: State, l: Label) {
    l.Replies? ==>
      && l.sid in s.sent
      && (s.sent[l.sid].Some? && l.reply.Data? ==> s.sent[l.sid].value < |j.plan| && Agrees(j, s.sent[l.sid].value, l.reply.bytes))
  }

  /** What is on the wire under the id of chunk k asks for chunk k, and what came back is of its place. */
  ghost predicate RoutedInv(j: Job, s: State, k: nat)
    requires k < |j.plan|
  {
    && Agrees(j, k, Got(s.router, k))
    && (k in s.router.regs && !s.router.regs[k].Retry? && s.router.regs[k].sid in s.sent ==> s.sent[s.router.regs[k].sid] == Some(k))
  }

  ghost predicate HonestInv(j: Job, s: State) {
    && (forall sid :: sid in s.sent ==> sid < s.router.draws)
    && forall k :: 0 <= k < |j.plan| ==> RoutedInv(j, s, k)
  }

  lemma RegistersKeepsRouted(j: Job, s: State, r: RouterLabel, t: State, k: nat)
    requires RouterInv(s.router) && HonestInv(j, s) && Step(j, s, Registers(r), t) && FewRegistrations(t.router) && k < |j.plan|
    ensures RoutedInv(j, t, k)
  {
    assert RoutedInv(j, s, k);
    if r.who == k && !r.Insert? {
      assert NextStreamId(s.router) == s.router.draws;
    }
  }

  lemma ReplyKeepsRouted(j: Job, s: State, sid: nat, reply: Reply, t: State, k: nat)
    requires RouterInv(s.router) && HonestInv(j, s) && Step(j, s, Replies(sid, reply), t) && Honest(j, s, Replies(sid, reply)) && k < |j.plan|
    ensures RoutedInv(j, t, k)
  {
    assert RoutedInv(j, s, k);
    if k in s.router.regs && s.router.regs[k] != Waiting(sid) {
      ReplyReachesItsRegistrant(s.router, sid, reply, t.router);
    }
  }

  lemma SendKeepsRouted(j: Job, s: State, l: Label, t: State, k: nat)
    requires RouterInv(s.router) && HonestInv(j, s) && Step(j, s, l, t) && (l.Send? || l.SendForeign?) && k < |j.plan|
    ensures RoutedInv(j, t, k)
  {
    assert RoutedInv(j, s, k);
  }

  lemma StepKeepsRouted(j: Job, s: State, l: Label, t: State, k: nat)
    requires RouterInv(s.router) && HonestInv(j, s) && Step(j, s, l, t) && Honest(j, s, l) && FewRegistrations(t.router) && k < |j.plan|
    ensures RoutedInv(j, t, k)
  {
    match l
    case Registers(r) => RegistersKeepsRouted(j, s, r, t, k);
    case Replies(sid, reply) => ReplyKeepsRouted(j, s, sid, reply, t, k);
    case Send(_) => SendKeepsRouted(j, s, l, t, k);
    case SendForeign(_) => SendKeepsRouted(j, s, l, t, k);
    case _ => assert RoutedInv(j, s, k);
  }

  lemma StepKeepsHonest(j: Job, s: State, l: Label, t: State)
    requires RouterInv(s.router) && HonestInv(j, s) && Step(j, s, l, t) && Honest(j, s, l) && FewRegistrations(t.router)
    ensures HonestInv(j, t)
  {
    forall k | 0 <= k < |j.plan|
      ensures RoutedInv(j, t, k)
    {
      StepKeepsRouted(j, s, l, t, k);
    }
  }

  ghost predicate HonestRun(j: Job, run: seq<State>, labels: seq<Label>)
    requires |run| == |labels| + 1
  {
    forall i :: 0 <= i < |labels| ==> Honest(j, run[i], labels[i])
  }

  lemma {:induction false} RunHonest(j: Job, run: seq<State>, labels: seq<Label>, k: nat, chunkSize: nat)
    requires Partitions(j.plan, 0, |j.remote|, chunkSize) && IsRun(j, run, labels) && HonestRun(j, run, labels) && k <= |labels|
    ensures HonestInv(j, run[k])
  {
    if k == 0 {
      PartitionOk(j, chunkSize);
    } else {
      RunHonest(j, run, labels, k - 1, chunkSize);
      RunInv(j, run, labels, k - 1, chunkSize);
      RunStep(j, run, labels, k - 1, k);
      StepKeepsHonest(j, run[k - 1], labels[k - 1], run[k]);
    }
  }

  /** With an honest peer a fetch that reports success has the remote file if and only if the remote
      file is zero wherever the replies fell short; in particular whenever none fell short. */
  lemma HonestPeer(j: Job, run: seq<State>, labels: seq<Label>, k: nat, chunkSize: nat)
    requires Partitions(j.plan, 0, |j.remote|, chunkSize) && IsRun(j, run, labels) && HonestRun(j, run, labels) && k <= |labels|
    requires run[k].control == Finished(true)
    ensures run[k].file == j.remote <==> GapsAreZero(j, run[k])
    ensures (forall c :: 0 <= c < |j.plan| ==> |Got(run[k].router, c)| >= j.plan[c].size) ==> run[k].file == j.remote
  {
    RunHonest(j, run, labels, k, chunkSize);
    forall c | 0 <= c < |j.plan|
      ensures Agrees(j, c, Got(run[k].router, c))
    {
      assert RoutedInv(j, run[k], c);
    }
    AgreeingConsistent(j, run[k]);
    OkExactly(j, run, labels, k, chunkSize);
    if forall c :: 0 <= c < |j.plan| ==> |Got(run[k].router, c)| >= j.plan[c].size {
      FullRepliesSuffice(j, run, labels, k, chunkSize);
    }
  }

  lemma AgreeingConsistent(j: Job, s: State)
    requires AllAgree(j, s)
    ensures Consistent(j, s)
  {
    forall c: nat, d: nat, b: nat | Covers(j, s, c, b) && Covers(j, s, d, b)
      ensures ReplyByte(j, s, c, b) == ReplyByte(j, s, d, b)
    {
      AgreedByte(j, s, c, b);
      AgreedByte(j, s, d, b);
    }
  }

  // ---------------------------------------------------------------------------
  // One chunk, any reply
  // ---------------------------------------------------------------------------

  ghost function OneChunkJob(remote: Bytes): Job { Job(remote, [Chunk(0, |remote|)], 1) }

  ghost function StartOf(j: Job): State {
    State(Router(0, 0, map[], map[]), Zeros(|j.remote|), 0, map[], {}, Priming, map[], map[])
  }

  lemma RunGrows(j: Job, run: seq<State>, labels: seq<Label>, l: Label, t: State)
    requires IsRun(j, run, labels) && Step(j, run[|labels|], l, t) && FewRegistrations(t.router)
    ensures IsRun(j, run + [t], labels + [l])
  {
    var r, m := run + [t], labels + [l];
    forall i | 0 <= i < |m|
      ensures Step(j, r[i], m[i], r[i + 1])
    {
      if i < |labels| {
        RunStep(j, run, labels, i, i + 1);
      }
    }
  }

  /** The states of the fetch of one chunk, by what changes. */
  ghost function OneChunkState(remote: Bytes, router: Router, task: Task, sent: map<nat, Option<nat>>, written: Bytes): State {
    State(router, WriteAt(Zeros(|remote|), 0, written), 1, map[0 := task], {}, Joining, sent,
          if written == [] then map[] else map[0 := written])
  }

  /** The task of the only chunk is started ... */
  lemma OneChunkStarts(remote: Bytes) returns (run: seq<State>, labels: seq<Label>)
    requires remote != []
    ensures IsRun(OneChunkJob(remote), run, labels)
    ensures run[|labels|] == OneChunkState(remote, Router(0, 0, map[], map[]), Asking, map[], [])
  {
    var j := OneChunkJob(remote);
    var s := StartOf(j);
    run, labels := [s], [];
    var s1 := s.(next := 1, tasks := map[0 := Asking]);
    RunGrows(j, run, labels, Prime, s1);
    run, labels := run + [s1], labels + [Prime];
    var s2 := s1.(control := Joining);
    RunGrows(j, run, labels, PrimeDone, s2);
    run, labels := run + [s2], labels + [PrimeDone];
  }

  /** ... registers, drawing 0 and then 1 ... */
  lemma OneChunkRegisters(remote: Bytes) returns (run: seq<State>, labels: seq<Label>)
    requires remote != []
    ensures IsRun(OneChunkJob(remote), run, labels)
    ensures run[|labels|] == OneChunkState(remote, Router(2, 1, map[0 := Waiting(1)], map[1 := 0]), Asking, map[], [])
  {
    var j := OneChunkJob(remote);
    run, labels := OneChunkStarts(remote);
    var s3 := OneChunkState(remote, Router(1, 1, map[0 := Retry], map[]), Asking, map[], []);
    RunGrows(j, run, labels, Registers(Draw(0)), s3);
    run, labels := run + [s3], labels + [Registers(Draw(0))];
    var s4 := OneChunkState(remote, Router(2, 1, map[0 := HasId(1)], map[]), Asking, map[], []);
    RunGrows(j, run, labels, Registers(DrawAgain(0)), s4);
    run, labels := run + [s4], labels + [Registers(DrawAgain(0))];
    var s5 := OneChunkState(remote, Router(2, 1, map[0 := Waiting(1)], map[1 := 0]), Asking, map[], []);
    RunGrows(j, run, labels, Registers(Insert(0)), s5);
    run, labels := run + [s5], labels + [Registers(Insert(0))];
  }

  /** ... sends its request and is answered ... */
  lemma OneChunkAnswered(remote: Bytes, reply: Bytes) returns (run: seq<State>, labels: seq<Label>)
    requires remote != [] && reply != []
    ensures IsRun(OneChunkJob(remote), run, labels)
    ensures run[|labels|] == OneChunkState(remote, RepliedRouter(reply), Asking, map[1 := Some(0)], [])
  {
    var j := OneChunkJob(remote);
    run, labels := OneChunkRegisters(remote);
    var s6 := OneChunkState(remote, Router(2, 1, map[0 := Waiting(1)], map[1 := 0]), Asking, map[1 := Some(0)], []);
    RunGrows(j, run, labels, Send(0), s6);
    run, labels := run + [s6], labels + [Send(0)];
    var s7 := OneChunkState(remote, RepliedRouter(reply), Asking, map[1 := Some(0)], []);
    assert map[1 := 0] - {1} == map[];
    RunGrows(j, run, labels, Replies(1, Data(reply)), s7);
    run, labels := run + [s7], labels + [Replies(1, Data(reply))];
  }

  /** ... takes the reply ... */
  lemma OneChunkReceives(remote: Bytes, reply: Bytes) returns (run: seq<State>, labels: seq<Label>)
    requires remote != [] && reply != []
    ensures IsRun(OneChunkJob(remote), run, labels)
    ensures run[|labels|] == OneChunkState(remote, RepliedRouter(reply), Writing(reply, 0), map[1 := Some(0)], [])
  {
    var j := OneChunkJob(remote);
    run, labels := OneChunkAnswered(remote, reply);
    var s8 := OneChunkState(remote, RepliedRouter(reply), Writing(reply, 0), map[1 := Some(0)], []);
    RunGrows(j, run, labels, Receive(0), s8);
    run, labels := run + [s8], labels + [Receive(0)];
  }

  ghost function RepliedRouter(reply: Bytes): Router { Router(2, 1, map[0 := Answered(1, Data(reply))], map[]) }

  lemma OneChunkWriteStep(remote: Bytes, reply: Bytes)
    requires remote != [] && reply != []
    ensures Step(OneChunkJob(remote), OneChunkState(remote, RepliedRouter(reply), Writing(reply, 0), map[1 := Some(0)], []), WriteSome(0, |reply|),
                 OneChunkState(remote, RepliedRouter(reply), Writing(reply, |reply|), map[1 := Some(0)], reply))
  {
    assert reply[0..|reply|] == reply && [] + reply == reply;
  }

  /** ... and writes it. */
  lemma OneChunkWrites(remote: Bytes, reply: Bytes) returns (run: seq<State>, labels: seq<Label>)
    requires remote != [] && reply != []
    ensures IsRun(OneChunkJob(remote), run, labels)
    ensures run[|labels|] == OneChunkState(remote, RepliedRouter(reply), Returned(true), map[1 := Some(0)], reply)
  {
    var j := OneChunkJob(remote);
    run, labels := OneChunkReceives(remote, reply);
    var s9 := OneChunkState(remote, RepliedRouter(reply), Writing(reply, |reply|), map[1 := Some(0)], reply);
    OneChunkWriteStep(remote, reply);
    RunGrows(j, run, labels, WriteSome(0, |reply|), s9);
    run, labels := run + [s9], labels + [WriteSome(0, |reply|)];
    var s10 := OneChunkState(remote, RepliedRouter(reply), Returned(true), map[1 := Some(0)], reply);
    RunGrows(j, run, labels, Complete(0), s10);
    run, labels := run + [s10], labels + [Complete(0)];
  }

  /** Any non-empty reply to the only request of a file makes the fetch report success with exactly
      that reply in the file. */
  lemma AnyReplySucceeds(remote: Bytes, reply: Bytes) returns (run: seq<State>, labels: seq<Label>)
    requires remote != [] && reply != []
    ensures IsRun(OneChunkJob(remote), run, labels) && run[|labels|].control == Finished(true)
    ensures Got(run[|labels|].router, 0) == reply && run[|labels|].file == WriteAt(Zeros(|remote|), 0, reply)
  {
    var j := OneChunkJob(remote);
    run, labels := OneChunkWrites(remote, reply);
    var s10 := run[|labels|];
    var s11 := s10.(tasks := map[], finished := {0}, control := Refilling);
    assert map[0 := Returned(true)] - {0} == map[];
    RunGrows(j, run, labels, JoinOk(0), s11);
    run, labels := run + [s11], labels + [JoinOk(0)];
    var s12 := s11.(control := Joining);
    RunGrows(j, run, labels, Refill, s12);
    run, labels := run + [s12], labels + [Refill];
    var s13 := s12.(control := Finished(true));
    RunGrows(j, run, labels, Finish, s13);
    run, labels := run + [s13], labels + [Finish];
  }

  /** So a reply that stops before the last non-zero byte of the remote file, or runs past its end,
      is a wrong file reported as success. */
  lemma WrongLengthAccepted(remote: Bytes, reply: Bytes) returns (run: seq<State>, labels: seq<Label>)
    requires remote != [] && reply != []
    requires |reply| > |remote| || exists b :: |reply| <= b < |remote| && remote[b] != 0
    ensures IsRun(OneChunkJob(remote), run, labels) && run[|labels|].control == Finished(true)
    ensures run[|labels|].file != remote
  {
    run, labels := AnyReplySucceeds(remote, reply);
    var file := WriteAt(Zeros(|remote|), 0, reply);
    if |reply| <= |remote| {
      var b :| |reply| <= b < |remote| && remote[b] != 0;
      assert file[b] == 0;
    }
  }
}
