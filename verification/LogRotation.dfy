/** The rotating log file: `<base>` is appended to, and before an event would push it over the cap
    it moves to `<base>.1`, pushing the archives along and the oldest out. */
module LogRotation {
  import opened Common

  // ---------------------------------------------------------------------------
  // What happens to the files
  // ---------------------------------------------------------------------------

  /** A log directory as a list: the live file, then the archives .1, .2, ... */
  type Files = seq<Bytes>

  function Opened(files: Files): (r: Files)
    ensures |r| > 0
  {
    if files == [] then [[]] else files
  }

  /** A fresh live file; the newest `maxFiles` of the old ones stay, each one place further. */
  function Rotated(files: Files, maxFiles: nat): (r: Files)
    ensures |r| > 0
  {
    [[]] + files[..Min(|files|, maxFiles)]
  }

  predicate NeedsRotation(files: Files, event: Bytes, maxBytes: nat)
    requires |files| > 0
  {
    |files[0]| > 0 && |files[0]| + |event| > maxBytes
  }

  function Appended(files: Files, event: Bytes): Files
    requires |files| > 0
  {
    files[0 := files[0] + event]
  }

  function Logged(files: Files, event: Bytes, maxBytes: nat, maxFiles: nat): (r: Files)
    requires |files| > 0
    ensures |r| > 0
  {
    Appended(if NeedsRotation(files, event, maxBytes) then Rotated(files, maxFiles) else files, event)
  }

  // ---------------------------------------------------------------------------
  // The rotator
  // ---------------------------------------------------------------------------

  /** The files are numbered 0 (live), 1, 2, ... without gaps. */
  ghost predicate Dense(files: map<nat, Bytes>, count: nat) {
    forall n: nat :: n in files <==> n < count
  }

  ghost function Listing(files: map<nat, Bytes>, count: nat): (r: Files)
    requires Dense(files, count)
    ensures |r| == count
  {
    seq(count, n requires 0 <= n < count => files[n])
  }

  /** A directory: file 0 is `<base>`, file n is `<base>.n`. */
  class Directory {
    var files: map<nat, Bytes>
    ghost var count: nat

    constructor ()
      ensures Valid() && Contents() == []
    {
      files := map[];
      count := 0;
    }

    ghost predicate Valid()
      reads this
    {
      Dense(files, count)
    }

    ghost function Contents(): Files
      requires Valid()
      reads this
    {
      Listing(files, count)
    }

    method Rename(n: nat, to: nat)
      requires n in files && n != to
      modifies this`files
      ensures files == (old(files) - {n})[to := old(files)[n]]
    {
      files := (files - {n})[to := files[n]];
    }
  }

  /** Files below `i` are where they were. */
  ghost predicate SameBelow(was: map<nat, Bytes>, files: map<nat, Bytes>, i: nat) {
    && (forall m: nat :: m < i && m in was ==> m in files && files[m] == was[m])
    && (forall m: nat :: m < i && m in files ==> m in was)
  }

  /** Files `i` and above have moved one place. */
  ghost predicate MovedAbove(was: map<nat, Bytes>, files: map<nat, Bytes>, i: nat, maxFiles: nat) {
    && (forall m: nat, k: nat :: i <= m < maxFiles && k == m + 1 && m in was ==> k in files && files[k] == was[m])
    && (forall m: nat, k: nat :: i <= m < maxFiles && k == m + 1 && k in files ==> m in was)
    && (forall k: nat :: k in files ==> k <= maxFiles)
    && (i < maxFiles ==> i !in files)
  }

  ghost predicate Shifted(was: map<nat, Bytes>, files: map<nat, Bytes>, i: nat, maxFiles: nat) {
    SameBelow(was, files, i) && MovedAbove(was, files, i, maxFiles)
  }

  function MoveUp(files: map<nat, Bytes>, i: nat): map<nat, Bytes> {
    if i in files then (files - {i})[i + 1 := files[i]] else files
  }

  lemma MoveUpBelow(was: map<nat, Bytes>, files: map<nat, Bytes>, i: nat)
    requires SameBelow(was, files, i + 1)
    ensures SameBelow(was, MoveUp(files, i), i)
  {
  }

  lemma MoveUpAbove(was: map<nat, Bytes>, files: map<nat, Bytes>, i: nat, maxFiles: nat, count: nat)
    requires MovedAbove(was, files, i + 1, maxFiles) && i + 1 <= maxFiles && Dense(was, count) && count <= maxFiles + 1
    requires i in was ==> i in files && files[i] == was[i]
    requires i in files ==> i in was
    requires i + 1 == maxFiles ==> files == was
    ensures MovedAbove(was, MoveUp(files, i), i, maxFiles)
  {
    var after := MoveUp(files, i);
    assert forall k: nat :: k != i && k != i + 1 ==> (k in after <==> k in files) && (k in files ==> after[k] == files[k]);
  }

  lemma ShiftedNext(was: map<nat, Bytes>, files: map<nat, Bytes>, i: nat, maxFiles: nat, count: nat)
    requires Shifted(was, files, i + 1, maxFiles) && i + 1 <= maxFiles && Dense(was, count) && count <= maxFiles + 1
    requires i + 1 == maxFiles ==> files == was
    ensures Shifted(was, MoveUp(files, i), i, maxFiles)
  {
    MoveUpBelow(was, files, i);
    MoveUpAbove(was, files, i, maxFiles, count);
  }

  /** After the cascade, file m + 1 is what file m was, as far as archives are kept. */
  lemma MovedOne(was: map<nat, Bytes>, files: map<nat, Bytes>, maxFiles: nat, count: nat, m: nat)
    requires Shifted(was, files, 0, maxFiles) && Dense(was, count)
    ensures m + 1 in files <==> m < Min(count, maxFiles)
    ensures m < Min(count, maxFiles) ==> files[m + 1] == was[m]
  {
    var k := m + 1;
    if m < maxFiles {
      assert m in was ==> k in files && files[k] == was[m];
      assert k in files ==> m in was;
    }
  }

  lemma ShiftedDense(was: map<nat, Bytes>, files: map<nat, Bytes>, maxFiles: nat, count: nat)
    requires Shifted(was, files, 0, maxFiles) && Dense(was, count)
    ensures Dense(files[0 := []], Min(count, maxFiles) + 1)
  {
    var after := files[0 := []];
    forall n: nat
      ensures n in after <==> n < Min(count, maxFiles) + 1
    {
      if n > 0 {
        MovedOne(was, files, maxFiles, count, n - 1);
      }
    }
  }

  lemma ShiftedAll(was: map<nat, Bytes>, files: map<nat, Bytes>, maxFiles: nat, count: nat)
    requires Shifted(was, files, 0, maxFiles) && Dense(was, count)
    ensures var kept := Min(count, maxFiles);
            && Dense(files[0 := []], kept + 1)
            && Listing(files[0 := []], kept + 1) == Rotated(Listing(was, count), maxFiles)
  {
    var kept, after := Min(count, maxFiles), files[0 := []];
    ShiftedDense(was, files, maxFiles, count);
    forall n | 0 <= n < kept + 1
      ensures Listing(after, kept + 1)[n] == Rotated(Listing(was, count), maxFiles)[n]
    {
      if n > 0 {
        MovedOne(was, files, maxFiles, count, n - 1);
        assert after[n] == was[n - 1];
      }
    }
  }

  /** Archive m + 1 is what file m was, for the newest `maxFiles` of the `count` files. */
  ghost predicate MovedUp(was: map<nat, Bytes>, now: map<nat, Bytes>, count: nat, maxFiles: nat) {
    && (forall n: nat :: n in now <==> n <= Min(count, maxFiles))
    && forall m: nat, k: nat :: k == m + 1 && k <= count && k <= maxFiles ==> m in was && k in now && now[k] == was[m]
  }

  lemma ListedMoved(was: map<nat, Bytes>, now: map<nat, Bytes>, count: nat, maxFiles: nat)
    requires Dense(was, count) && Dense(now, Min(count, maxFiles) + 1)
    requires Listing(now, Min(count, maxFiles) + 1) == Rotated(Listing(was, count), maxFiles)
    ensures MovedUp(was, now, count, maxFiles) && now[0] == []
  {
    var a, b := Listing(now, Min(count, maxFiles) + 1), Listing(was, count);
    assert a[0] == now[0];
    forall m: nat, k: nat | k == m + 1 && k <= count && k <= maxFiles
      ensures m in was && k in now && now[k] == was[m]
    {
      assert a[k] == now[k] && b[m] == was[m];
    }
  }

  class Rotator {
    const dir: Directory
    var written: nat
    const maxBytes: nat
    const maxFiles: nat

    /** `written` is the length of the live file, and archives never outnumber `maxFiles`. */
    ghost predicate Valid()
      reads this, dir
    {
      dir.Valid() && 0 < dir.count <= maxFiles + 1 && written == |dir.Contents()[0]|
    }

    /** Appends to a live file that is there; creates it otherwise. */
    constructor Open(dir: Directory, maxBytes: nat, maxFiles: nat)
      requires dir.Valid() && dir.count <= maxFiles + 1
      modifies dir
      ensures Valid() && this.dir == dir && this.maxBytes == maxBytes && this.maxFiles == maxFiles
      ensures dir.Contents() == Opened(old(dir.Contents()))
    {
      this.dir := dir;
      this.maxBytes := maxBytes;
      this.maxFiles := maxFiles;
      if 0 !in dir.files {
        dir.files := dir.files[0 := []];
        dir.count := 1;
      }
      written := |dir.files[0]|;
    }

    /** The descending rename cascade over the archives. */
    method MoveArchives()
      requires Valid()
      modifies dir`files
      ensures Shifted(old(dir.files), dir.files, Min(1, maxFiles), maxFiles)
      ensures maxFiles <= 1 ==> dir.files == old(dir.files)
    {
      ghost var was := dir.files;
      var n := maxFiles;
      while n > 1
        invariant Min(1, maxFiles) <= n <= maxFiles
        invariant n == maxFiles ==> dir.files == was
        invariant Shifted(was, dir.files, n, maxFiles)
      {
        n := n - 1;
        ShiftedNext(was, dir.files, n, maxFiles, dir.count);
        if n in dir.files {
          dir.Rename(n, n + 1);
        }
      }
    }

    method Rotate()
      requires Valid()
      modifies this, dir
      ensures Valid() && written == 0 && dir.Contents() == Rotated(old(dir.Contents()), maxFiles)
      ensures dir.files[0] == [] && MovedUp(old(dir.files), dir.files, old(dir.count), maxFiles)
    {
      ghost var was, count := dir.files, dir.count;
      MoveArchives();
      if maxFiles >= 1 {
        ShiftedNext(was, dir.files, 0, maxFiles, count);
        dir.Rename(0, 1);
      } else {
        dir.files := dir.files - {0};
      }
      ShiftedAll(was, dir.files, maxFiles, count);
      dir.files := dir.files[0 := []];
      dir.count := Min(count, maxFiles) + 1;
      written := 0;
      ListedMoved(was, dir.files, count, maxFiles);
    }

    method Write(event: Bytes) returns (n: nat)
      requires Valid()
      modifies this, dir
      ensures Valid() && n == |event| && dir.Contents() == Logged(old(dir.Contents()), event, maxBytes, maxFiles)
      ensures 0 in old(dir.files) && old(written) == |old(dir.files)[0]|
      ensures if old(written) > 0 && old(written) + |event| > maxBytes
              then dir.files[0] == event && MovedUp(old(dir.files), dir.files, old(dir.count), maxFiles)
              else dir.files == old(dir.files)[0 := old(dir.files)[0] + event]
    {
      if written > 0 && written + |event| > maxBytes {
        Rotate();
      }
      ghost var before := dir.Contents();
      dir.files := dir.files[0 := dir.files[0] + event];
      assert dir.Contents() == Appended(before, event);
      n := |event|;
      written := written + n;
    }
  }

  // ---------------------------------------------------------------------------
  // Whole runs
  // ---------------------------------------------------------------------------

  datatype Event = Log(bytes: Bytes) | Restart

  /** The directory after a run that began with none of the files. */
  ghost function Run(events: seq<Event>, maxBytes: nat, maxFiles: nat): (r: Files)
    ensures |r| > 0
  {
    if events == [] then Opened([])
    else
      var before := Run(events[..|events| - 1], maxBytes, maxFiles);
      match events[|events| - 1]
      case Log(bytes) => Logged(before, bytes, maxBytes, maxFiles)
      case Restart => Opened(before)
  }

  /** The process itself: each restart opens the files it finds. */
  method Live(events: seq<Event>, maxBytes: nat, maxFiles: nat) returns (dir: Directory)
    ensures fresh(dir) && dir.Valid() && dir.Contents() == Run(events, maxBytes, maxFiles)
  {
    dir := new Directory();
    var rotator := new Rotator.Open(dir, maxBytes, maxFiles);
    for i := 0 to |events|
      invariant rotator.Valid() && rotator.dir == dir && rotator.maxBytes == maxBytes && rotator.maxFiles == maxFiles
      invariant fresh(dir) && fresh(rotator) && dir.Contents() == Run(events[..i], maxBytes, maxFiles)
    {
      assert events[..i + 1][..i] == events[..i];
      if events[i].Log? {
        var n := rotator.Write(events[i].bytes);
      } else {
        rotator := new Rotator.Open(dir, maxBytes, maxFiles);
      }
    }
    assert events[..|events|] == events;
  }

  /** Everything logged, oldest first. */
  ghost function Lines(events: seq<Event>): seq<Bytes> {
    if events == [] then []
    else Lines(events[..|events| - 1]) + if events[|events| - 1].Log? then [events[|events| - 1].bytes] else []
  }

  ghost function Join(lines: seq<Bytes>): Bytes {
    if lines == [] then [] else Join(lines[..|lines| - 1]) + lines[|lines| - 1]
  }

  lemma JoinSnoc(lines: seq<Bytes>, line: Bytes)
    ensures Join(lines + [line]) == Join(lines) + line
  {
    assert (lines + [line])[..|lines|] == lines;
  }

  /** The lines of all files, oldest file first; `groups` lists the newest first. */
  ghost function InOrder(groups: seq<seq<Bytes>>): seq<Bytes> {
    if groups == [] then [] else InOrder(groups[1..]) + groups[0]
  }

  ghost predicate IsSuffix(a: seq<Bytes>, b: seq<Bytes>) {
    |a| <= |b| && b[|b| - |a|..] == a
  }

  /** File k holds exactly the lines of group k, whole and in order. */
  ghost predicate Describes(groups: seq<seq<Bytes>>, files: Files) {
    |groups| == |files| && forall k :: 0 <= k < |files| ==> files[k] == Join(groups[k])
  }

  /** What is lost is lost from the old end, and only once `maxFiles` archives are there. */
  ghost predicate Keeps(groups: seq<seq<Bytes>>, lines: seq<Bytes>, maxFiles: nat) {
    |groups| <= maxFiles + 1 && IsSuffix(InOrder(groups), lines) && (|groups| <= maxFiles ==> InOrder(groups) == lines)
  }

  /** A file over the cap holds one event and nothing before it. */
  ghost predicate CappedAt(group: seq<Bytes>, file: Bytes, maxBytes: nat) {
    |file| > maxBytes ==> group != [] && Join(group[..|group| - 1]) == []
  }

  ghost predicate Capped(groups: seq<seq<Bytes>>, files: Files, maxBytes: nat) {
    |groups| == |files| && forall k :: 0 <= k < |files| ==> CappedAt(groups[k], files[k], maxBytes)
  }

  /** The next older file was not closed early: what this one begins with would not have fitted. */
  ghost predicate FilledAt(group: seq<Bytes>, older: Bytes, maxBytes: nat) {
    group != [] && |older| > 0 && |older| + |group[0]| > maxBytes
  }

  ghost predicate Filled(groups: seq<seq<Bytes>>, files: Files, maxBytes: nat) {
    |groups| == |files| && forall k, o :: 0 <= k < o < |files| && o == k + 1 ==> FilledAt(groups[k], files[o], maxBytes)
  }

  lemma {:induction false} InOrderTake(groups: seq<seq<Bytes>>, m: nat)
    requires m <= |groups|
    ensures IsSuffix(InOrder(groups[..m]), InOrder(groups))
    decreases |groups|
  {
    if m > 0 {
      InOrderTake(groups[1..], m - 1);
      assert groups[..m][1..] == groups[1..][..m - 1];
    }
  }

  lemma SuffixTrans(a: seq<Bytes>, b: seq<Bytes>, c: seq<Bytes>)
    requires IsSuffix(a, b) && IsSuffix(b, c)
    ensures IsSuffix(a, c)
  {
  }

  lemma SuffixSnoc(a: seq<Bytes>, b: seq<Bytes>, x: Bytes)
    requires IsSuffix(a, b)
    ensures IsSuffix(a + [x], b + [x])
  {
  }

  /** Appending to the live file. */
  lemma AppendKeeps(groups: seq<seq<Bytes>>, lines: seq<Bytes>, maxFiles: nat, x: Bytes)
    requires Keeps(groups, lines, maxFiles) && groups != []
    ensures Keeps(groups[0 := groups[0] + [x]], lines + [x], maxFiles)
  {
    var after := groups[0 := groups[0] + [x]];
    assert after[1..] == groups[1..];
    Assoc(InOrder(groups[1..]), groups[0], [x]);
    SuffixSnoc(InOrder(groups), lines, x);
  }

  lemma AppendDescribes(groups: seq<seq<Bytes>>, files: Files, maxBytes: nat, x: Bytes)
    requires Describes(groups, files) && Capped(groups, files, maxBytes) && Filled(groups, files, maxBytes)
    requires files != [] && !NeedsRotation(files, x, maxBytes)
    ensures var g, f := groups[0 := groups[0] + [x]], Appended(files, x);
            Describes(g, f) && Capped(g, f, maxBytes) && Filled(g, f, maxBytes)
  {
    JoinSnoc(groups[0], x);
    var last := groups[0] + [x];
    assert last[..|last| - 1] == groups[0];
    assert groups[0] != [] ==> last[0] == groups[0][0];
  }

  /** Rotating, and then writing to the fresh live file. */
  lemma RotateKeeps(groups: seq<seq<Bytes>>, lines: seq<Bytes>, maxFiles: nat, x: Bytes)
    requires Keeps(groups, lines, maxFiles) && groups != []
    ensures Keeps([[x]] + groups[..Min(|groups|, maxFiles)], lines + [x], maxFiles)
  {
    var kept := groups[..Min(|groups|, maxFiles)];
    InOrderTake(groups, |kept|);
    SuffixTrans(InOrder(kept), InOrder(groups), lines);
    SuffixSnoc(InOrder(kept), lines, x);
    assert ([[x]] + kept)[1..] == kept;
    assert |groups| <= maxFiles ==> kept == groups;
  }

  lemma RotateDescribes(groups: seq<seq<Bytes>>, files: Files, maxBytes: nat, m: nat, x: Bytes)
    requires Describes(groups, files) && Capped(groups, files, maxBytes) && m <= |files|
    ensures Describes([[x]] + groups[..m], [x] + files[..m]) && Capped([[x]] + groups[..m], [x] + files[..m], maxBytes)
  {
    var g, f := [[x]] + groups[..m], [x] + files[..m];
    JoinSnoc([], x);
    assert [] + [x] == [x] && [] + x == x;
    forall k | 0 <= k < |f|
      ensures f[k] == Join(g[k]) && CappedAt(g[k], f[k], maxBytes)
    {
      if k > 0 {
        assert f[k] == files[k - 1] && g[k] == groups[k - 1];
      }
    }
  }

  lemma RotateFilled(groups: seq<seq<Bytes>>, files: Files, maxBytes: nat, m: nat, x: Bytes)
    requires Filled(groups, files, maxBytes) && m <= |files| && files != [] && NeedsRotation(files, x, maxBytes)
    ensures Filled([[x]] + groups[..m], [x] + files[..m], maxBytes)
  {
    var g, f := [[x]] + groups[..m], [x] + files[..m];
    forall k, o | 0 <= k < o < |f| && o == k + 1
      ensures FilledAt(g[k], f[o], maxBytes)
    {
      assert f[o] == files[k];
      if k > 0 {
        assert g[k] == groups[k - 1] && FilledAt(groups[k - 1], files[k], maxBytes);
      }
    }
  }

  ghost predicate Explains(groups: seq<seq<Bytes>>, files: Files, lines: seq<Bytes>, maxBytes: nat, maxFiles: nat) {
    && Describes(groups, files) && Keeps(groups, lines, maxFiles)
    && Capped(groups, files, maxBytes) && Filled(groups, files, maxBytes)
  }

  lemma LoggedExplained(groups: seq<seq<Bytes>>, files: Files, lines: seq<Bytes>, maxBytes: nat, maxFiles: nat, x: Bytes)
    returns (after: seq<seq<Bytes>>)
    requires files != [] && Explains(groups, files, lines, maxBytes, maxFiles)
    ensures Explains(after, Logged(files, x, maxBytes, maxFiles), lines + [x], maxBytes, maxFiles)
  {
    if NeedsRotation(files, x, maxBytes) {
      var m := Min(|groups|, maxFiles);
      RotateKeeps(groups, lines, maxFiles, x);
      RotateDescribes(groups, files, maxBytes, m, x);
      RotateFilled(groups, files, maxBytes, m, x);
      after := [[x]] + groups[..m];
      assert Logged(files, x, maxBytes, maxFiles) == [x] + files[..m];
    } else {
      AppendKeeps(groups, lines, maxFiles, x);
      AppendDescribes(groups, files, maxBytes, x);
      after := groups[0 := groups[0] + [x]];
    }
  }

  /** After any run of events and restarts: every event is whole in one file; the files hold, oldest
      first, a suffix of all that was logged, and all of it until `maxFiles` archives exist; there
      are never more archives; a file over the cap is a single event; none was closed early. */
  lemma {:induction false} RunLaw(events: seq<Event>, maxBytes: nat, maxFiles: nat) returns (groups: seq<seq<Bytes>>)
    ensures var files := Run(events, maxBytes, maxFiles);
            && Describes(groups, files) && Keeps(groups, Lines(events), maxFiles)
            && Capped(groups, files, maxBytes) && Filled(groups, files, maxBytes)
    decreases |events|
  {
    if events == [] {
      groups := [[]];
      assert InOrder([[]]) == [];
    } else {
      var before, last := events[..|events| - 1], events[|events| - 1];
      groups := RunLaw(before, maxBytes, maxFiles);
      if last.Log? {
        groups := LoggedExplained(groups, Run(before, maxBytes, maxFiles), Lines(before), maxBytes, maxFiles, last.bytes);
      }
    }
  }
}
