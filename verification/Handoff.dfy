/**
 * Model of the file-locked state handoff between processes.
 *
 * The environment offers three guarantees, each built into the steps below: the lock is exclusive
 * and is freed when its holder dies; replacing the path is atomic; and a file opened before a
 * replacement keeps its contents. Every step of every process may be interleaved with every step
 * of every other, and any process may crash between any two of its steps.
 */
module StateHandoff {
  import opened Common

  type Pid = int
  type Inode = int

  /** A JSON object, with its values kept as text. */
  type Doc = map<string, string>

  /** A transaction body: None when it raises. */
  type Body = Doc -> Option<Doc>

  /** What a file may hold; Truncated stands for any text that does not parse. */
  datatype Content =
    | Truncated
    | NotAnObject
    | Envelope(version: Option<int>, state: Option<Doc>)

  datatype LoadError = Unreadable | NotObject | VersionMismatch | StateMissing

  datatype Phase =
    | Idle
    | Acquiring(body: Body)
    | Locked(body: Body)
    | Loading(body: Body, inode: Inode)
    | InBody(body: Body, before: Doc)
    | Committing(body: Body, before: Doc, after: Doc)
    | Writing(body: Body, before: Doc, after: Doc, temp: Inode)
    | Synced(body: Body, before: Doc, after: Doc, temp: Inode)
    | Replaced
    | FoundPath
    | Reading(inode: Inode)

  datatype Commit = Commit(pid: Pid, version: int, body: Body, before: Doc, after: Doc)

  /** A finished lock-free read: `at` is the number of commits when it opened the file. */
  datatype Snapshot = Snapshot(pid: Pid, at: nat, result: Result<Option<Doc>, LoadError>)

  /**
   * `origin` is what the path held at the start. `commits`, `snapshots` and `born` (the number of
   * commits at the moment a file became the one at the path) record the history.
   */
  datatype System = System(
    lock: Option<Pid>, path: Option<Inode>, inodes: map<Inode, Content>, phases: map<Pid, Phase>,
    origin: Option<Content>, commits: seq<Commit>, snapshots: seq<Snapshot>, born: map<Inode, nat>)

  datatype Action =
    | Begin(pid: Pid, body: Body)
    | Acquire(pid: Pid)
    | GiveUp(pid: Pid)
    | Open(pid: Pid)
    | Load(pid: Pid)
    | RunBody(pid: Pid)
    | CreateTemp(pid: Pid, temp: Inode)
    | WriteTemp(pid: Pid)
    | FailCommit(pid: Pid)
    | Replace(pid: Pid)
    | Release(pid: Pid)
    | Crash(pid: Pid)
    | CheckPath(pid: Pid)
    | OpenPath(pid: Pid)
    | FinishRead(pid: Pid)

  /** The envelope check of one store, which expects schema version `v`. */
  function Unwrap(v: int, c: Content): Result<Doc, LoadError> {
    match c
    case Truncated => Err(Unreadable)
    case NotAnObject => Err(NotObject)
    case Envelope(version, state) =>
      if version != Some(v) then Err(VersionMismatch)
      else if state.None? then Err(StateMissing)
      else Ok(state.value)
  }

  // ---------------------------------------------------------------------------
  // The steps
  // ---------------------------------------------------------------------------

  function PhaseOf(s: System, p: Pid): Phase {
    if p in s.phases then s.phases[p] else Idle
  }

  function To(s: System, p: Pid, phase: Phase): System {
    s.(phases := s.phases[p := phase])
  }

  /** Leaving the transaction, normally or by an exception: the lock is released. */
  function Leave(s: System, p: Pid): System {
    To(s, p, Idle).(lock := None)
  }

  predicate HoldsLock(ph: Phase) {
    ph.Locked? || ph.Loading? || ph.InBody? || ph.Committing? || ph.Writing? || ph.Synced? || ph.Replaced?
  }

  predicate Enabled(s: System, a: Action) {
    var ph := PhaseOf(s, a.pid);
    match a
    case Begin(_, _) => ph.Idle?
    case Acquire(_) => ph.Acquiring? && s.lock == None
    case GiveUp(_) => ph.Acquiring? && s.lock.Some?
    case Open(_) => ph.Locked?
    case Load(_) => ph.Loading? && ph.inode in s.inodes
    case RunBody(_) => ph.InBody?
    case CreateTemp(_, temp) => ph.Committing? && temp !in s.inodes
    case WriteTemp(_) => ph.Writing?
    case FailCommit(_) => ph.Committing? || ph.Writing? || ph.Synced?
    case Replace(_) => ph.Synced?
    case Release(_) => ph.Replaced?
    case Crash(_) => true
    case CheckPath(_) => ph.Idle?
    case OpenPath(_) => ph.FoundPath? && s.path.Some?
    case FinishRead(_) => ph.Reading? && ph.inode in s.inodes && ph.inode in s.born
  }

  function Step(ver: Pid -> int, s: System, a: Action): System
    requires Enabled(s, a)
  {
    var p := a.pid;
    var ph := PhaseOf(s, p);
    match a
    case Begin(_, body) => To(s, p, Acquiring(body))
    case Acquire(_) => To(s, p, Locked(ph.body)).(lock := Some(p))
    case GiveUp(_) => To(s, p, Idle)
    case Open(_) => To(s, p, if s.path.None? then InBody(ph.body, map[]) else Loading(ph.body, s.path.value))
    case Load(_) =>
      var r := Unwrap(ver(p), s.inodes[ph.inode]);
      if r.Ok? then To(s, p, InBody(ph.body, r.value)) else Leave(s, p)
    case RunBody(_) =>
      var after := ph.body(ph.before);
      if after.Some? then To(s, p, Committing(ph.body, ph.before, after.value)) else Leave(s, p)
    case CreateTemp(_, temp) =>
      To(s, p, Writing(ph.body, ph.before, ph.after, temp)).(inodes := s.inodes[temp := Truncated])
    case WriteTemp(_) =>
      To(s, p, Synced(ph.body, ph.before, ph.after, ph.temp))
        .(inodes := s.inodes[ph.temp := Envelope(Some(ver(p)), Some(ph.after))])
    case FailCommit(_) => Leave(s, p)
    case Replace(_) =>
      To(s, p, Replaced)
        .(path := Some(ph.temp), born := s.born[ph.temp := |s.commits| + 1],
          commits := s.commits + [Commit(p, ver(p), ph.body, ph.before, ph.after)])
    case Release(_) => Leave(s, p)
    case Crash(_) => To(s, p, Idle).(lock := if s.lock == Some(p) then None else s.lock)
    case CheckPath(_) =>
      if s.path.None? then s.(snapshots := s.snapshots + [Snapshot(p, |s.commits|, Ok(None))]) else To(s, p, FoundPath)
    case OpenPath(_) => To(s, p, Reading(s.path.value))
    case FinishRead(_) =>
      var r := Unwrap(ver(p), s.inodes[ph.inode]);
      var result := if r.Ok? then Ok(Some(r.value)) else Err(r.error);
      To(s, p, Idle).(snapshots := s.snapshots + [Snapshot(p, s.born[ph.inode], result)])
  }

  /** Nothing running yet; the path may hold anything, or nothing. */
  function Start(origin: Option<Content>): System {
    if origin.None? then System(None, None, map[], map[], origin, [], [], map[])
    else System(None, Some(0), map[0 := origin.value], map[], origin, [], [], map[0 := 0])
  }

  function Run(ver: Pid -> int, origin: Option<Content>, schedule: seq<Action>): Option<System> {
    if schedule == [] then Some(Start(origin))
    else
      var before := Run(ver, origin, Init(schedule));
      if before.Some? && Enabled(before.value, Last(schedule))
      then Some(Step(ver, before.value, Last(schedule)))
      else None
  }

  // ---------------------------------------------------------------------------
  // The invariant
  // ---------------------------------------------------------------------------

  /** What the path held after `k` commits. */
  function ContentAt(s: System, k: nat): Option<Content>
    requires k <= |s.commits|
  {
    if k == 0 then s.origin
    else Some(Envelope(Some(s.commits[k - 1].version), Some(s.commits[k - 1].after)))
  }

  /** The state a transaction of a store with version `v` starts from after `k` commits, if it may start. */
  function StateAt(s: System, v: int, k: nat): Result<Doc, LoadError>
    requires k <= |s.commits|
  {
    var c := ContentAt(s, k);
    if c.None? then Ok(map[]) else Unwrap(v, c.value)
  }

  ghost predicate Mutex(s: System) {
    forall p :: HoldsLock(PhaseOf(s, p)) <==> s.lock == Some(p)
  }

  /** Every file that was ever at the path still holds what it was committed with. */
  ghost predicate FilesImmutable(s: System) {
    && (forall i :: i in s.born ==>
          i in s.inodes && s.born[i] <= |s.commits| && ContentAt(s, s.born[i]) == Some(s.inodes[i]))
    && (s.path.None? ==> s.origin.None? && s.commits == [])
    && (s.path.Some? ==> s.path.value in s.born && s.born[s.path.value] == |s.commits|)
  }

  /** Each commit applied its body to the state of the commit before it. */
  ghost predicate Chained(s: System) {
    forall k :: 0 <= k < |s.commits| ==>
      && StateAt(s, s.commits[k].version, k) == Ok(s.commits[k].before)
      && s.commits[k].body(s.commits[k].before) == Some(s.commits[k].after)
  }

  ghost predicate ProcessOk(ver: Pid -> int, s: System, p: Pid) {
    match PhaseOf(s, p)
    case Loading(_, inode) => s.path == Some(inode)
    case InBody(_, before) => StateAt(s, ver(p), |s.commits|) == Ok(before)
    case Committing(body, before, after) =>
      StateAt(s, ver(p), |s.commits|) == Ok(before) && body(before) == Some(after)
    case Writing(body, before, after, temp) =>
      && StateAt(s, ver(p), |s.commits|) == Ok(before) && body(before) == Some(after)
      && temp in s.inodes && temp !in s.born
    case Synced(body, before, after, temp) =>
      && StateAt(s, ver(p), |s.commits|) == Ok(before) && body(before) == Some(after)
      && temp in s.inodes && temp !in s.born && s.inodes[temp] == Envelope(Some(ver(p)), Some(after))
    case FoundPath => s.path.Some?
    case Reading(inode) =>
      && inode in s.born
      && forall i :: 0 <= i < |s.snapshots| && s.snapshots[i].pid == p ==> s.snapshots[i].at <= s.born[inode]
    case _ => true
  }

  /** Each finished read saw a committed state, and no reader ever went back to an older one. */
  ghost predicate ReadsOk(ver: Pid -> int, s: System) {
    && (forall i :: 0 <= i < |s.snapshots| ==> s.snapshots[i].at <= |s.commits| && ReadsCommit(ver, s, s.snapshots[i]))
    && (forall i, j :: 0 <= i < j < |s.snapshots| && s.snapshots[i].pid == s.snapshots[j].pid ==>
        s.snapshots[i].at <= s.snapshots[j].at)
  }

  /** The result of a read is what the envelope committed by commit number `at` unwraps to. */
  ghost predicate ReadsCommit(ver: Pid -> int, s: System, r: Snapshot)
    requires r.at <= |s.commits|
  {
    match ContentAt(s, r.at)
    case None => r.result == Ok(None)
    case Some(c) =>
      var u := Unwrap(ver(r.pid), c);
      r.result == if u.Ok? then Ok(Some(u.value)) else Err(u.error)
  }

  ghost predicate Inv(ver: Pid -> int, s: System) {
    Mutex(s) && FilesImmutable(s) && Chained(s) && ReadsOk(ver, s) && forall p :: ProcessOk(ver, s, p)
  }

  // ---------------------------------------------------------------------------
  // Every step keeps it
  // ---------------------------------------------------------------------------

  /** Steps that leave the files, the history and every other process alone. */
  ghost predicate LocalStep(s: System, t: System, p: Pid) {
    && t == s.(phases := t.phases, lock := t.lock)
    && (forall q :: q != p ==> PhaseOf(t, q) == PhaseOf(s, q))
    && (HoldsLock(PhaseOf(t, p)) <==> t.lock == Some(p))
    && (t.lock == s.lock || (s.lock == None && t.lock == Some(p)) || (s.lock == Some(p) && t.lock == None))
  }

  lemma LocalStepKeepsInv(ver: Pid -> int, s: System, t: System, p: Pid)
    requires Inv(ver, s) && LocalStep(s, t, p) && ProcessOk(ver, t, p)
    ensures Inv(ver, t)
  {
    forall q ensures ProcessOk(ver, t, q) && (HoldsLock(PhaseOf(t, q)) <==> t.lock == Some(q)) {
      assert ProcessOk(ver, s, q);
      assert HoldsLock(PhaseOf(s, q)) <==> s.lock == Some(q);
    }
    assert forall k :: 0 <= k <= |s.commits| ==> ContentAt(t, k) == ContentAt(s, k);
  }

  predicate IsLocal(a: Action) {
    a.Begin? || a.Acquire? || a.GiveUp? || a.Open? || a.Load? || a.RunBody? || a.FailCommit? || a.Release? ||
    a.Crash? || a.OpenPath?
  }

  /** What a transaction loads is the state after the latest commit. */
  lemma LoadOk(ver: Pid -> int, s: System, p: Pid)
    requires FilesImmutable(s) && PhaseOf(s, p).Loading? && s.path == Some(PhaseOf(s, p).inode)
    ensures PhaseOf(s, p).inode in s.inodes
    ensures StateAt(s, ver(p), |s.commits|) == Unwrap(ver(p), s.inodes[PhaseOf(s, p).inode])
  {
    var i := PhaseOf(s, p).inode;
    assert i in s.born && s.born[i] == |s.commits|;
  }

  /** After a local step the acting process is in order, and holds the lock or not as its phase says. */
  lemma LocalEffect(ver: Pid -> int, s: System, a: Action)
    requires FilesImmutable(s) && ReadsOk(ver, s) && ProcessOk(ver, s, a.pid)
    requires HoldsLock(PhaseOf(s, a.pid)) <==> s.lock == Some(a.pid)
    requires Enabled(s, a) && IsLocal(a)
    ensures ProcessOk(ver, Step(ver, s, a), a.pid) && LocalStep(s, Step(ver, s, a), a.pid)
  {
    if a.Load? {
      LoadOk(ver, s, a.pid);
    }
  }

  lemma LocalActions(ver: Pid -> int, s: System, a: Action)
    requires Inv(ver, s) && Enabled(s, a) && IsLocal(a)
    ensures Inv(ver, Step(ver, s, a))
  {
    assert ProcessOk(ver, s, a.pid);
    assert HoldsLock(PhaseOf(s, a.pid)) <==> s.lock == Some(a.pid);
    LocalEffect(ver, s, a);
    LocalStepKeepsInv(ver, s, Step(ver, s, a), a.pid);
  }

  /** Writing a file that is not at the path, and never was, leaves every other process alone. */
  lemma PrivateFileKeepsInv(ver: Pid -> int, s: System, t: System, p: Pid, temp: Inode)
    requires Inv(ver, s) && temp !in s.born && HoldsLock(PhaseOf(s, p)) && HoldsLock(PhaseOf(t, p))
    requires t == s.(phases := s.phases[p := PhaseOf(t, p)], inodes := t.inodes)
    requires forall i :: i in s.inodes ==> i in t.inodes
    requires forall i :: i in s.inodes && i != temp ==> t.inodes[i] == s.inodes[i]
    requires ProcessOk(ver, t, p)
    ensures Inv(ver, t)
  {
    assert forall k :: 0 <= k <= |s.commits| ==> ContentAt(t, k) == ContentAt(s, k);
    forall q ensures ProcessOk(ver, t, q) && (HoldsLock(PhaseOf(t, q)) <==> t.lock == Some(q)) {
      assert ProcessOk(ver, s, q);
      assert HoldsLock(PhaseOf(s, q)) <==> s.lock == Some(q);
      assert HoldsLock(PhaseOf(s, p)) <==> s.lock == Some(p);
    }
  }

  lemma CreateTempAction(ver: Pid -> int, s: System, p: Pid, temp: Inode)
    requires Inv(ver, s) && Enabled(s, CreateTemp(p, temp))
    ensures Inv(ver, Step(ver, s, CreateTemp(p, temp)))
  {
    assert ProcessOk(ver, s, p);
    PrivateFileKeepsInv(ver, s, Step(ver, s, CreateTemp(p, temp)), p, temp);
  }

  lemma WriteTempAction(ver: Pid -> int, s: System, p: Pid)
    requires Inv(ver, s) && Enabled(s, WriteTemp(p))
    ensures Inv(ver, Step(ver, s, WriteTemp(p)))
  {
    assert ProcessOk(ver, s, p);
    PrivateFileKeepsInv(ver, s, Step(ver, s, WriteTemp(p)), p, PhaseOf(s, p).temp);
  }

  lemma ReplaceAction(ver: Pid -> int, s: System, p: Pid)
    requires Inv(ver, s) && Enabled(s, Replace(p))
    ensures Inv(ver, Step(ver, s, Replace(p)))
  {
    var t := Step(ver, s, Replace(p));
    assert ProcessOk(ver, s, p);
    assert forall k :: 0 <= k <= |s.commits| ==> ContentAt(t, k) == ContentAt(s, k);
    forall q ensures ProcessOk(ver, t, q) && (HoldsLock(PhaseOf(t, q)) <==> t.lock == Some(q)) {
      assert ProcessOk(ver, s, q);
      assert HoldsLock(PhaseOf(s, q)) <==> s.lock == Some(q);
      assert HoldsLock(PhaseOf(s, p)) <==> s.lock == Some(p);
    }
    forall k | 0 <= k < |t.commits|
      ensures StateAt(t, t.commits[k].version, k) == Ok(t.commits[k].before)
      ensures t.commits[k].body(t.commits[k].before) == Some(t.commits[k].after)
    {
      if k < |s.commits| {
        assert t.commits[k] == s.commits[k];
      }
    }
    forall i | 0 <= i < |t.snapshots| ensures ReadsCommit(ver, t, t.snapshots[i]) {
      assert ReadsCommit(ver, s, s.snapshots[i]);
    }
  }

  /** Logging a snapshot of a committed state, no older than the reader's earlier ones. */
  lemma LoggedSnapshotKeepsInv(ver: Pid -> int, s: System, t: System, r: Snapshot)
    requires Inv(ver, s) && PhaseOf(s, r.pid).Idle? != PhaseOf(s, r.pid).Reading?
    requires t == s.(phases := t.phases, snapshots := s.snapshots + [r])
    requires PhaseOf(t, r.pid).Idle? && forall q :: q != r.pid ==> PhaseOf(t, q) == PhaseOf(s, q)
    requires r.at <= |s.commits| && ReadsCommit(ver, s, r)
    requires forall i :: 0 <= i < |s.snapshots| && s.snapshots[i].pid == r.pid ==> s.snapshots[i].at <= r.at
    ensures Inv(ver, t)
  {
    assert forall k :: 0 <= k <= |s.commits| ==> ContentAt(t, k) == ContentAt(s, k);
    forall q ensures ProcessOk(ver, t, q) && (HoldsLock(PhaseOf(t, q)) <==> t.lock == Some(q)) {
      assert ProcessOk(ver, s, q);
      assert HoldsLock(PhaseOf(s, q)) <==> s.lock == Some(q);
    }
    forall i | 0 <= i < |t.snapshots| ensures t.snapshots[i].at <= |t.commits| && ReadsCommit(ver, t, t.snapshots[i]) {
      if i < |s.snapshots| {
        assert ReadsCommit(ver, s, s.snapshots[i]);
      }
    }
  }

  lemma CheckPathAction(ver: Pid -> int, s: System, p: Pid)
    requires Inv(ver, s) && Enabled(s, CheckPath(p))
    ensures Inv(ver, Step(ver, s, CheckPath(p)))
  {
    var t := Step(ver, s, CheckPath(p));
    assert ProcessOk(ver, s, p);
    assert HoldsLock(PhaseOf(s, p)) <==> s.lock == Some(p);
    if s.path.None? {
      LoggedSnapshotKeepsInv(ver, s, t, Snapshot(p, |s.commits|, Ok(None)));
    } else {
      LocalStepKeepsInv(ver, s, t, p);
    }
  }

  lemma FinishReadAction(ver: Pid -> int, s: System, p: Pid)
    requires Inv(ver, s) && Enabled(s, FinishRead(p))
    ensures Inv(ver, Step(ver, s, FinishRead(p)))
  {
    assert ProcessOk(ver, s, p);
    var t := Step(ver, s, FinishRead(p));
    LoggedSnapshotKeepsInv(ver, s, t, t.snapshots[|s.snapshots|]);
  }

  lemma {:induction false} Safety(ver: Pid -> int, origin: Option<Content>, schedule: seq<Action>)
    requires Run(ver, origin, schedule).Some?
    ensures Inv(ver, Run(ver, origin, schedule).value) && Run(ver, origin, schedule).value.origin == origin
  {
    if schedule == [] {
    } else {
      Safety(ver, origin, Init(schedule));
      var s, a := Run(ver, origin, Init(schedule)).value, Last(schedule);
      if IsLocal(a) {
        LocalActions(ver, s, a);
      } else if a.Replace? {
        ReplaceAction(ver, s, a.pid);
      } else if a.CheckPath? {
        CheckPathAction(ver, s, a.pid);
      } else if a.FinishRead? {
        FinishReadAction(ver, s, a.pid);
      } else if a.CreateTemp? {
        CreateTempAction(ver, s, a.pid, a.temp);
      } else {
        WriteTempAction(ver, s, a.pid);
      }
    }
  }

  // ---------------------------------------------------------------------------
  // What every run guarantees
  // ---------------------------------------------------------------------------

  /**
   * No lost update: the state committed by commit `k` is its transaction body applied to the state
   * the commit before it left (the original contents, or the empty state, for the first).
   */
  lemma NoLostUpdate(ver: Pid -> int, origin: Option<Content>, schedule: seq<Action>, k: nat)
    requires Run(ver, origin, schedule).Some? && k < |Run(ver, origin, schedule).value.commits|
    ensures LinkOk(Run(ver, origin, schedule).value, k) && Run(ver, origin, schedule).value.origin == origin
  {
    Safety(ver, origin, schedule);
    ChainLink(Run(ver, origin, schedule).value, k);
  }

  ghost predicate LinkOk(s: System, k: nat)
    requires k < |s.commits|
  {
    var c := s.commits[k];
    && c.body(c.before) == Some(c.after)
    && (k > 0 ==> c.before == s.commits[k - 1].after)
    && (k == 0 && s.origin.None? ==> c.before == map[])
    && (k == 0 && s.origin.Some? ==> s.origin.value == Envelope(Some(c.version), Some(c.before)))
  }

  lemma ChainLink(s: System, k: nat)
    requires Chained(s) && k < |s.commits|
    ensures LinkOk(s, k)
  {
    assert StateAt(s, s.commits[k].version, k) == Ok(s.commits[k].before);
  }

  /** All committed envelopes carry one schema version, which is that of the original file if there was one. */
  lemma OneSchemaVersion(ver: Pid -> int, origin: Option<Content>, schedule: seq<Action>, k: nat)
    requires Run(ver, origin, schedule).Some? && k < |Run(ver, origin, schedule).value.commits|
    ensures var c := Run(ver, origin, schedule).value.commits;
            && c[k].version == c[0].version
            && (origin.Some? ==> origin.value.Envelope? && origin.value.version == Some(c[k].version))
  {
    Safety(ver, origin, schedule);
    ChainedVersions(Run(ver, origin, schedule).value, k);
  }

  lemma {:induction false} ChainedVersions(s: System, k: nat)
    requires Chained(s) && k < |s.commits|
    ensures s.commits[k].version == s.commits[0].version
    ensures s.origin.Some? ==> s.origin.value.Envelope? && s.origin.value.version == Some(s.commits[k].version)
  {
    assert StateAt(s, s.commits[k].version, k).Ok?;
    if k > 0 {
      ChainedVersions(s, k - 1);
    }
  }

  /**
   * A file that is no envelope of a participating store is never overwritten: text that does not parse, a
   * value that is no object, another schema version, or an envelope without a state object.
   */
  lemma ForeignFileSurvives(ver: Pid -> int, origin: Content, schedule: seq<Action>)
    requires Run(ver, Some(origin), schedule).Some?
    requires forall p :: origin.Envelope? && origin.version == Some(ver(p)) ==> origin.state.None?
    ensures var s := Run(ver, Some(origin), schedule).value;
            s.commits == [] && s.path.Some? && s.path.value in s.inodes && s.inodes[s.path.value] == origin
  {
    Safety(ver, Some(origin), schedule);
    CommitVersions(ver, Some(origin), schedule);
    NoAcceptedCommit(ver, Run(ver, Some(origin), schedule).value);
  }

  lemma NoAcceptedCommit(ver: Pid -> int, s: System)
    requires Chained(s) && FilesImmutable(s) && s.origin.Some?
    requires forall c :: c in s.commits ==> c.version == ver(c.pid)
    requires forall p :: Unwrap(ver(p), s.origin.value).Err?
    ensures s.commits == [] && s.path.Some? && s.path.value in s.inodes && s.inodes[s.path.value] == s.origin.value
  {
    assert s.commits != [] ==> StateAt(s, s.commits[0].version, 0) == Unwrap(ver(s.commits[0].pid), s.origin.value);
    PathContent(s);
  }

  /** A step commits at most once, under the version of the acting process. */
  lemma StepCommits(ver: Pid -> int, s: System, a: Action)
    requires Enabled(s, a)
    ensures var t := Step(ver, s, a);
            || t.commits == s.commits
            || (&& |t.commits| > 0 && t.commits == s.commits + [Last(t.commits)]
                && Last(t.commits).version == ver(Last(t.commits).pid))
  {
  }

  lemma {:induction false} CommitVersions(ver: Pid -> int, origin: Option<Content>, schedule: seq<Action>)
    requires Run(ver, origin, schedule).Some?
    ensures forall c :: c in Run(ver, origin, schedule).value.commits ==> c.version == ver(c.pid)
  {
    if schedule != [] {
      CommitVersions(ver, origin, Init(schedule));
      StepCommits(ver, Run(ver, origin, Init(schedule)).value, Last(schedule));
    }
  }

  /** Whenever the file is looked at, it is complete and holds the latest committed state. */
  lemma PathHoldsLatestCommit(ver: Pid -> int, origin: Option<Content>, schedule: seq<Action>)
    requires Run(ver, origin, schedule).Some?
    ensures HoldsLatest(Run(ver, origin, schedule).value)
  {
    Safety(ver, origin, schedule);
    LatestContent(Run(ver, origin, schedule).value);
  }

  ghost predicate HoldsLatest(s: System) {
    s.commits != [] ==>
      && s.path.Some? && s.path.value in s.inodes
      && s.inodes[s.path.value] == Envelope(Some(Last(s.commits).version), Some(Last(s.commits).after))
  }

  lemma LatestContent(s: System)
    requires FilesImmutable(s)
    ensures HoldsLatest(s)
  {
    if s.commits != [] {
      PathContent(s);
    }
  }

  lemma PathContent(s: System)
    requires FilesImmutable(s) && (s.origin.Some? || s.commits != [])
    ensures s.path.Some? && s.path.value in s.inodes && ContentAt(s, |s.commits|) == Some(s.inodes[s.path.value])
  {
    var i := s.path.value;
    assert i in s.born && s.born[i] == |s.commits|;
    assert i in s.inodes && ContentAt(s, s.born[i]) == Some(s.inodes[i]);
  }

  /**
   * Each lock-free snapshot returns exactly the state of one commit (or reports what the original
   * file deserves), and the snapshots of one process never go back to an earlier commit.
   */
  lemma SnapshotsAreCommitted(ver: Pid -> int, origin: Option<Content>, schedule: seq<Action>, i: nat)
    requires Run(ver, origin, schedule).Some? && i < |Run(ver, origin, schedule).value.snapshots|
    ensures SnapshotOk(ver, Run(ver, origin, schedule).value, i)
  {
    Safety(ver, origin, schedule);
    SnapshotResult(ver, Run(ver, origin, schedule).value, i);
  }

  ghost predicate SnapshotOk(ver: Pid -> int, s: System, i: nat)
    requires i < |s.snapshots|
  {
    var r := s.snapshots[i];
    && r.at <= |s.commits|
    && (r.at > 0 ==> r.result == if s.commits[r.at - 1].version == ver(r.pid)
                                 then Ok(Some(s.commits[r.at - 1].after)) else Err(VersionMismatch))
    && (r.at == 0 && s.origin.None? ==> r.result == Ok(None))
    && (r.at == 0 && s.origin.Some? ==>
          match s.origin.value
          case Truncated => r.result == Err(Unreadable)
          case NotAnObject => r.result == Err(NotObject)
          case Envelope(version, state) =>
            if version != Some(ver(r.pid)) then r.result == Err(VersionMismatch)
            else if state.None? then r.result == Err(StateMissing)
            else r.result == Ok(state))
    && (forall j :: 0 <= j < i && s.snapshots[j].pid == r.pid ==> s.snapshots[j].at <= r.at)
  }

  lemma SnapshotResult(ver: Pid -> int, s: System, i: nat)
    requires ReadsOk(ver, s) && i < |s.snapshots|
    ensures SnapshotOk(ver, s, i)
  {
    assert ReadsCommit(ver, s, s.snapshots[i]);
  }

  // ---------------------------------------------------------------------------
  // An undisturbed transaction
  // ---------------------------------------------------------------------------

  function AfterSteps(ver: Pid -> int, s: System, steps: seq<Action>): Option<System>
    decreases |steps|
  {
    if steps == [] then Some(s)
    else if Enabled(s, steps[0]) then AfterSteps(ver, Step(ver, s, steps[0]), steps[1..])
    else None
  }

  lemma TakeStep(ver: Pid -> int, s: System, a: Action, rest: seq<Action>)
    requires Enabled(s, a)
    ensures AfterSteps(ver, s, [a] + rest) == AfterSteps(ver, Step(ver, s, a), rest)
  {
    assert ([a] + rest)[1..] == rest;
  }

  /** The state a store with version `v` starts a transaction from: what the path holds, or the empty state. */
  ghost predicate StartsFrom(s: System, v: int, before: Doc) {
    match s.path
    case None => before == map[]
    case Some(i) => i in s.inodes && s.inodes[i] == Envelope(Some(v), Some(before))
  }

  function LoadSteps(s: System, p: Pid): seq<Action> {
    if s.path.None? then [Open(p)] else [Open(p), Load(p)]
  }

  /** Begin and acquire, with the lock free. */
  lemma ReachLocked(ver: Pid -> int, s: System, p: Pid, body: Body, rest: seq<Action>)
    requires PhaseOf(s, p).Idle? && s.lock.None?
    ensures AfterSteps(ver, s, [Begin(p, body), Acquire(p)] + rest)
            == AfterSteps(ver, To(s, p, Locked(body)).(lock := Some(p)), rest)
  {
    assert [Begin(p, body), Acquire(p)] + rest == [Begin(p, body)] + ([Acquire(p)] + rest);
    TakeStep(ver, s, Begin(p, body), [Acquire(p)] + rest);
    var begun := Step(ver, s, Begin(p, body));
    TakeStep(ver, begun, Acquire(p), rest);
    assert Step(ver, begun, Acquire(p)) == To(s, p, Locked(body)).(lock := Some(p));
  }

  /** Opening and loading what the path holds. */
  lemma ReachLoaded(ver: Pid -> int, s: System, p: Pid, before: Doc, rest: seq<Action>)
    requires PhaseOf(s, p).Locked? && StartsFrom(s, ver(p), before)
    ensures AfterSteps(ver, s, LoadSteps(s, p) + rest)
            == AfterSteps(ver, To(s, p, InBody(PhaseOf(s, p).body, before)), rest)
  {
    if s.path.None? {
      TakeStep(ver, s, Open(p), rest);
    } else {
      assert LoadSteps(s, p) + rest == [Open(p)] + ([Load(p)] + rest);
      TakeStep(ver, s, Open(p), [Load(p)] + rest);
      var loading := Step(ver, s, Open(p));
      TakeStep(ver, loading, Load(p), rest);
      assert Step(ver, loading, Load(p)) == To(s, p, InBody(PhaseOf(s, p).body, before));
    }
  }

  lemma ReachBody(ver: Pid -> int, s: System, p: Pid, body: Body, before: Doc, rest: seq<Action>)
    requires PhaseOf(s, p).Idle? && s.lock.None? && StartsFrom(s, ver(p), before)
    ensures AfterSteps(ver, s, [Begin(p, body), Acquire(p)] + (LoadSteps(s, p) + rest))
            == AfterSteps(ver, To(s, p, InBody(body, before)).(lock := Some(p)), rest)
  {
    var locked := To(s, p, Locked(body)).(lock := Some(p));
    ReachLocked(ver, s, p, body, LoadSteps(s, p) + rest);
    ReachLoaded(ver, locked, p, before, rest);
    assert To(locked, p, InBody(body, before)) == To(s, p, InBody(body, before)).(lock := Some(p));
  }

  /**
   * From any state in which the lock is free and the path holds an envelope of this store (or nothing), a
   * transaction that is left alone commits its body's result, or, if the body raises, ends with everything
   * as it was; in both cases the lock is free again.
   */
  lemma UndisturbedTransaction(ver: Pid -> int, s: System, p: Pid, body: Body, before: Doc, temp: Inode)
    requires PhaseOf(s, p).Idle? && s.lock.None? && StartsFrom(s, ver(p), before) && temp !in s.inodes
    ensures var start := [Begin(p, body), Acquire(p)] + (LoadSteps(s, p) + [RunBody(p)]);
            body(before).None? ==> AfterSteps(ver, s, start) == Some(To(s, p, Idle))
    ensures var commit := [RunBody(p), CreateTemp(p, temp), WriteTemp(p), Replace(p), Release(p)];
            var end := AfterSteps(ver, s, [Begin(p, body), Acquire(p)] + (LoadSteps(s, p) + commit));
            body(before).Some? ==>
              && end.Some? && end.value.path == Some(temp) && end.value.lock.None? && PhaseOf(end.value, p).Idle?
              && end.value.inodes == s.inodes[temp := Envelope(Some(ver(p)), body(before))]
              && end.value.commits == s.commits + [Commit(p, ver(p), body, before, body(before).value)]
              && forall q :: q != p ==> PhaseOf(end.value, q) == PhaseOf(s, q)
  {
    var inBody := To(s, p, InBody(body, before)).(lock := Some(p));
    if body(before).None? {
      ReachBody(ver, s, p, body, before, [RunBody(p)]);
      TakeStep(ver, inBody, RunBody(p), []);
      assert [RunBody(p)] + [] == [RunBody(p)];
      assert Step(ver, inBody, RunBody(p)) == To(s, p, Idle);
    } else {
      var commit := [RunBody(p), CreateTemp(p, temp), WriteTemp(p), Replace(p), Release(p)];
      ReachBody(ver, s, p, body, before, commit);
      CommitSteps(ver, inBody, p, temp);
    }
  }

  lemma CommitSteps(ver: Pid -> int, s: System, p: Pid, temp: Inode)
    requires PhaseOf(s, p).InBody? && PhaseOf(s, p).body(PhaseOf(s, p).before).Some? && temp !in s.inodes
    ensures var InBody(body, before) := PhaseOf(s, p);
            var end := AfterSteps(ver, s, [RunBody(p), CreateTemp(p, temp), WriteTemp(p), Replace(p), Release(p)]);
            && end.Some? && end.value.path == Some(temp) && end.value.lock.None? && PhaseOf(end.value, p).Idle?
            && end.value.inodes == s.inodes[temp := Envelope(Some(ver(p)), body(before))]
            && end.value.commits == s.commits + [Commit(p, ver(p), body, before, body(before).value)]
            && forall q :: q != p ==> PhaseOf(end.value, q) == PhaseOf(s, q)
  {
    var body, before := PhaseOf(s, p).body, PhaseOf(s, p).before;
    var d := [WriteTemp(p), Replace(p), Release(p)];
    var s1 := Step(ver, s, RunBody(p));
    var s2 := Step(ver, s1, CreateTemp(p, temp));
    TakeStep(ver, s, RunBody(p), [CreateTemp(p, temp)] + d);
    assert [RunBody(p)] + ([CreateTemp(p, temp)] + d)
        == [RunBody(p), CreateTemp(p, temp), WriteTemp(p), Replace(p), Release(p)];
    TakeStep(ver, s1, CreateTemp(p, temp), d);
    assert PhaseOf(s2, p) == Writing(body, before, body(before).value, temp);
    ReplaceSteps(ver, s2, p);
    assert s2.inodes == s.inodes[temp := Truncated];
  }

  /** From a created temporary file to the released lock. */
  lemma ReplaceSteps(ver: Pid -> int, s: System, p: Pid)
    requires PhaseOf(s, p).Writing?
    ensures var Writing(body, before, after, temp) := PhaseOf(s, p);
            var end := AfterSteps(ver, s, [WriteTemp(p), Replace(p), Release(p)]);
            && end.Some? && end.value.path == Some(temp) && end.value.lock.None? && PhaseOf(end.value, p).Idle?
            && end.value.inodes == s.inodes[temp := Envelope(Some(ver(p)), Some(after))]
            && end.value.commits == s.commits + [Commit(p, ver(p), body, before, after)]
            && forall q :: q != p ==> PhaseOf(end.value, q) == PhaseOf(s, q)
  {
    var s3 := Step(ver, s, WriteTemp(p));
    var s4 := Step(ver, s3, Replace(p));
    TakeStep(ver, s, WriteTemp(p), [Replace(p)] + [Release(p)]);
    TakeStep(ver, s3, Replace(p), [Release(p)]);
    TakeStep(ver, s4, Release(p), []);
    assert [WriteTemp(p)] + ([Replace(p)] + [Release(p)]) == [WriteTemp(p), Replace(p), Release(p)];
    assert [Release(p)] + [] == [Release(p)];
  }
}
