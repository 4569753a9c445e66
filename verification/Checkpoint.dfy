/**
 * Model of the append-only checkpoint log and its resume engine: pairing of begin and end records,
 * the resume plan, and what the plan means for every log a run can leave behind.
 */
module CheckpointResume {
  import opened Common

  type StepId = string
  type Hash = string

  /** One line of the log; the payload that the engine only copies is left out. */
  datatype Event =
    | Begin(id: StepId, index: int, inputHash: Hash)
    | End(id: StepId, index: int, outputHash: Hash, exit: Option<string>)

  datatype StepRecord = StepRecord(
    id: StepId, index: int, inputHash: Hash, outputHash: Option<Hash>, exit: Option<string>)

  datatype PlanState = Fresh | Resume | Invalidated | Complete

  datatype ResumePlan = ResumePlan(state: PlanState, next: int, committed: seq<StepRecord>, invalidated: Option<StepId>)

  predicate Committed(r: StepRecord) {
    r.outputHash.Some? && r.exit.Some?
  }

  // ---------------------------------------------------------------------------
  // Loading: pair by step id, order by index
  // ---------------------------------------------------------------------------

  /** Step ids in order of first appearance. */
  function Ids(log: seq<Event>): seq<StepId> {
    if log == [] then []
    else if Last(log).id in Ids(Init(log)) then Ids(Init(log))
    else Ids(Init(log)) + [Last(log).id]
  }

  function LastBegin(log: seq<Event>, id: StepId): Option<Event> {
    if log == [] then None
    else if Last(log).Begin? && Last(log).id == id then Some(Last(log))
    else LastBegin(Init(log), id)
  }

  function LastEnd(log: seq<Event>, id: StepId): Option<Event> {
    if log == [] then None
    else if Last(log).End? && Last(log).id == id then Some(Last(log))
    else LastEnd(Init(log), id)
  }

  lemma {:induction false} LastKinds(log: seq<Event>, id: StepId)
    ensures LastBegin(log, id).Some? ==> LastBegin(log, id).value.Begin? && LastBegin(log, id).value.id == id
    ensures LastEnd(log, id).Some? ==> LastEnd(log, id).value.End? && LastEnd(log, id).value.id == id
  {
    if log != [] {
      LastKinds(Init(log), id);
    }
  }

  function PairUp(id: StepId, b: Option<Event>, e: Option<Event>): StepRecord
    requires b.Some? && b.value.Begin? && (e.Some? ==> e.value.End?)
  {
    StepRecord(id, b.value.index, b.value.inputHash,
               if e.Some? then Some(e.value.outputHash) else None,
               if e.Some? then e.value.exit else None)
  }

  function RecordOf(log: seq<Event>, id: StepId): StepRecord
    requires LastBegin(log, id).Some?
  {
    LastKinds(log, id);
    PairUp(id, LastBegin(log, id), LastEnd(log, id))
  }

  /** Records of the ids that have a begin, in the given order. */
  function Paired(log: seq<Event>, ids: seq<StepId>): seq<StepRecord> {
    if ids == [] then []
    else if LastBegin(log, Last(ids)).Some? then Paired(log, Init(ids)) + [RecordOf(log, Last(ids))]
    else Paired(log, Init(ids))
  }

  /** Stable insertion by step index. */
  function Insert(sorted: seq<StepRecord>, r: StepRecord): seq<StepRecord> {
    if sorted == [] || Last(sorted).index <= r.index then sorted + [r]
    else Insert(Init(sorted), r) + [Last(sorted)]
  }

  function SortByIndex(s: seq<StepRecord>): seq<StepRecord> {
    if s == [] then [] else Insert(SortByIndex(Init(s)), Last(s))
  }

  function Load(log: seq<Event>): seq<StepRecord> {
    SortByIndex(Paired(log, Ids(log)))
  }

  ghost predicate Ordered(s: seq<StepRecord>) {
    forall i, j :: 0 <= i < j < |s| ==> s[i].index <= s[j].index
  }

  lemma {:induction false} InsertFacts(s: seq<StepRecord>, r: StepRecord)
    requires Ordered(s)
    ensures Ordered(Insert(s, r)) && multiset(Insert(s, r)) == multiset(s) + multiset{r}
  {
    InsertSame(s, r);
    if s != [] && Last(s).index > r.index {
      InsertFacts(Init(s), r);
      var front := Insert(Init(s), r);
      InsertSame(Init(s), r);
      forall i | 0 <= i < |front| ensures front[i].index <= Last(s).index {
        assert front[i] in multiset(front);
        assert front[i] == r || front[i] in Init(s);
      }
      OrderedSnoc(front, Last(s));
    }
  }

  lemma {:induction false} InsertSame(s: seq<StepRecord>, r: StepRecord)
    ensures multiset(Insert(s, r)) == multiset(s) + multiset{r}
  {
    if s != [] && Last(s).index > r.index {
      InsertSame(Init(s), r);
      assert s == Init(s) + [Last(s)];
    }
  }

  lemma OrderedSnoc(s: seq<StepRecord>, r: StepRecord)
    requires Ordered(s) && forall i :: 0 <= i < |s| ==> s[i].index <= r.index
    ensures Ordered(s + [r])
  {
  }

  /** Loading orders the paired records by index and neither loses nor invents one. */
  lemma {:induction false} SortFacts(s: seq<StepRecord>)
    ensures Ordered(SortByIndex(s)) && multiset(SortByIndex(s)) == multiset(s)
  {
    if s != [] {
      SortFacts(Init(s));
      InsertFacts(SortByIndex(Init(s)), Last(s));
      assert s == Init(s) + [Last(s)];
    }
  }

  lemma InsertLast(s: seq<StepRecord>)
    requires s != [] && Ordered(s)
    ensures Ordered(Init(s)) && Insert(Init(s), Last(s)) == s
  {
    if Init(s) != [] {
      assert s[|s| - 2].index <= s[|s| - 1].index;
    }
    assert s == Init(s) + [Last(s)];
  }

  lemma {:induction false} SortOfOrdered(s: seq<StepRecord>)
    requires Ordered(s)
    ensures SortByIndex(s) == s
  {
    if s != [] {
      InsertLast(s);
      SortOfOrdered(Init(s));
    }
  }

  datatype Slot = Slot(begin: Option<Event>, end: Option<Event>)

  ghost predicate SlotsHold(log: seq<Event>, slots: map<StepId, Slot>, order: seq<StepId>) {
    && order == Ids(log)
    && (forall id :: id in slots <==> id in order)
    && (forall id :: id in slots ==> slots[id] == Slot(LastBegin(log, id), LastEnd(log, id)))
  }

  lemma {:induction false} UnseenHasNoRecords(log: seq<Event>, id: StepId)
    requires id !in Ids(log)
    ensures LastBegin(log, id).None? && LastEnd(log, id).None?
  {
    if log != [] {
      UnseenHasNoRecords(Init(log), id);
    }
  }

  /** The slot dictionary of the loader: later lines of the same kind overwrite earlier ones. */
  method FillSlots(log: seq<Event>) returns (slots: map<StepId, Slot>, order: seq<StepId>)
    ensures SlotsHold(log, slots, order)
  {
    slots, order := map[], [];
    for n := 0 to |log|
      invariant SlotsHold(log[..n], slots, order)
    {
      assert Init(log[..n + 1]) == log[..n];
      var evt := log[n];
      if evt.id !in slots {
        UnseenHasNoRecords(log[..n], evt.id);
        slots := slots[evt.id := Slot(None, None)];
        order := order + [evt.id];
      }
      var slot := slots[evt.id];
      slots := slots[evt.id := if evt.Begin? then slot.(begin := Some(evt)) else slot.(end := Some(evt))];
    }
    assert log[..|log|] == log;
  }

  method LoadCheckpoint(log: seq<Event>) returns (records: seq<StepRecord>)
    ensures records == Load(log)
  {
    var slots, order := FillSlots(log);
    records := [];
    for n := 0 to |order|
      invariant records == Paired(log, order[..n])
    {
      assert Init(order[..n + 1]) == order[..n];
      var slot := slots[order[n]];
      if slot.begin.Some? {
        LastKinds(log, order[n]);
        records := records + [PairUp(order[n], slot.begin, slot.end)];
      }
    }
    assert order[..|order|] == order;
    records := SortByIndex(records);
  }

  // ---------------------------------------------------------------------------
  // Planning
  // ---------------------------------------------------------------------------

  /** A record the walk steps over: committed, still expected with the same hash, not final. */
  predicate Passes(r: StepRecord, expected: map<int, Hash>) {
    Matches(r, expected) && r.exit != Some("done")
  }

  predicate Matches(r: StepRecord, expected: map<int, Hash>) {
    Committed(r) && r.index in expected && expected[r.index] == r.inputHash
  }

  /** Position of the first record at or after `k` that is not stepped over. */
  function FirstStop(records: seq<StepRecord>, expected: map<int, Hash>, k: nat): (n: nat)
    requires k <= |records|
    ensures k <= n <= |records|
    ensures forall i :: k <= i < n ==> Passes(records[i], expected)
    ensures n < |records| ==> !Passes(records[n], expected)
    decreases |records| - k
  {
    if k < |records| && Passes(records[k], expected) then FirstStop(records, expected, k + 1) else k
  }

  /** The plan, read off the first record the walk cannot step over. */
  function PlanFor(records: seq<StepRecord>, expected: map<int, Hash>): ResumePlan {
    if records == [] then ResumePlan(Fresh, 0, [], None)
    else
      var n := FirstStop(records, expected, 0);
      if n == |records| then ResumePlan(Resume, Last(records).index + 1, records, None)
      else
        var r := records[n];
        if !Committed(r) then ResumePlan(Resume, r.index, records[..n], None)
        else if !Matches(r, expected) then ResumePlan(Invalidated, r.index, records[..n], Some(r.id))
        else ResumePlan(Complete, r.index + 1, records[..n + 1], None)
  }

  method PlanResume(records: seq<StepRecord>, expected: map<int, Hash>) returns (plan: ResumePlan)
    ensures plan == PlanFor(records, expected)
  {
    if records == [] {
      return ResumePlan(Fresh, 0, [], None);
    }
    var committed := [];
    for k := 0 to |records|
      invariant committed == records[..k]
      invariant FirstStop(records, expected, 0) == FirstStop(records, expected, k)
    {
      var r := records[k];
      if !Committed(r) {
        return ResumePlan(Resume, r.index, committed, None);
      }
      if r.index !in expected {
        return ResumePlan(Invalidated, r.index, committed, Some(r.id));
      }
      if expected[r.index] != r.inputHash {
        return ResumePlan(Invalidated, r.index, committed, Some(r.id));
      }
      committed := committed + [r];
      if r.exit == Some("done") {
        return ResumePlan(Complete, r.index + 1, committed, None);
      }
    }
    return ResumePlan(Resume, Last(committed).index + 1, committed, None);
  }

  // ---------------------------------------------------------------------------
  // Logs that runs leave behind
  // ---------------------------------------------------------------------------

  datatype Done = Done(id: StepId, hash: Hash, output: Hash, exit: string)

  /** Steps ended so far, and the step begun but not ended, if any. */
  datatype RunState = RunState(ended: seq<Done>, open: Option<(StepId, Hash)>)

  ghost predicate EndedId(r: RunState, id: StepId) {
    exists i :: 0 <= i < |r.ended| && r.ended[i].id == id
  }

  /** A run begins step N after N ends; an unended step may be begun again under the same id. */
  ghost predicate MayAppend(r: RunState, e: Event) {
    && e.index == |r.ended|
    && match e
       case Begin(id, _, _) => if r.open.Some? then r.open.value.0 == id else !EndedId(r, id)
       case End(id, _, _, exit) => r.open.Some? && r.open.value.0 == id && exit.Some?
  }

  function Append(r: RunState, e: Event): RunState
    requires e.End? ==> r.open.Some? && e.exit.Some?
  {
    match e
    case Begin(id, _, h) => r.(open := Some((id, h)))
    case End(id, _, out, exit) => RunState(r.ended + [Done(id, r.open.value.1, out, exit.value)], None)
  }

  /** The run a log records, or None when no run could have written it. */
  ghost function Replay(log: seq<Event>): Option<RunState> {
    if log == [] then Some(RunState([], None))
    else
      var r := Replay(Init(log));
      if r.Some? && MayAppend(r.value, Last(log)) then Some(Append(r.value, Last(log))) else None
  }

  /** Cutting the log of a run at any record leaves the log of a run. */
  lemma {:induction false} CutIsRun(log: seq<Event>, n: nat)
    requires Replay(log).Some? && n <= |log|
    ensures Replay(log[..n]).Some?
  {
    if n == |log| {
      assert log[..n] == log;
    } else {
      CutIsRun(Init(log), n);
      assert Init(log)[..n] == log[..n];
    }
  }

  function EndedRecord(d: Done, i: int): StepRecord {
    StepRecord(d.id, i, d.hash, Some(d.output), Some(d.exit))
  }

  function RunIds(r: RunState): seq<StepId> {
    seq(|r.ended|, i requires 0 <= i < |r.ended| => r.ended[i].id) + if r.open.Some? then [r.open.value.0] else []
  }

  function RunRecords(r: RunState): seq<StepRecord> {
    seq(|r.ended|, i requires 0 <= i < |r.ended| => EndedRecord(r.ended[i], i)) +
    if r.open.Some? then [StepRecord(r.open.value.0, |r.ended|, r.open.value.1, None, None)] else []
  }

  /** What the log says about every step of the run. */
  ghost predicate LogAgrees(log: seq<Event>, r: RunState) {
    && Ids(log) == RunIds(r)
    && (forall i :: 0 <= i < |RunIds(r)| ==>
          LastBegin(log, RunIds(r)[i]).Some? && RecordOf(log, RunIds(r)[i]) == RunRecords(r)[i])
    && (forall i, j :: 0 <= i < j < |RunIds(r)| ==> RunIds(r)[i] != RunIds(r)[j])
  }

  lemma BeginAgrees(log: seq<Event>, r: RunState, e: Event)
    requires LogAgrees(log, r) && e.Begin? && MayAppend(r, e)
    ensures LogAgrees(log + [e], Append(r, e))
  {
    var r' := Append(r, e);
    assert Init(log + [e]) == log;
    var n := |r.ended|;
    if r.open.Some? {
      assert RunIds(r)[n] == e.id;
      assert LastEnd(log, e.id).None?;
      assert RunIds(r') == RunIds(r);
    } else {
      assert e.id !in Ids(log);
      UnseenHasNoRecords(log, e.id);
      assert RunIds(r') == RunIds(r) + [e.id];
    }
    forall i | 0 <= i < |RunIds(r')|
      ensures LastBegin(log + [e], RunIds(r')[i]).Some? && RecordOf(log + [e], RunIds(r')[i]) == RunRecords(r')[i]
    {
      if i < n {
        assert RunIds(r')[i] == RunIds(r)[i] && RunIds(r)[i] != e.id;
        assert RecordOf(log, RunIds(r)[i]) == RunRecords(r)[i];
      }
    }
  }

  lemma EndAgrees(log: seq<Event>, r: RunState, e: Event)
    requires LogAgrees(log, r) && e.End? && MayAppend(r, e)
    ensures LogAgrees(log + [e], Append(r, e))
  {
    var r' := Append(r, e);
    assert Init(log + [e]) == log;
    var n := |r.ended|;
    assert RunIds(r)[n] == e.id && RunIds(r') == RunIds(r);
    forall i | 0 <= i < |RunIds(r')|
      ensures LastBegin(log + [e], RunIds(r')[i]).Some? && RecordOf(log + [e], RunIds(r')[i]) == RunRecords(r')[i]
    {
      assert RecordOf(log, RunIds(r)[i]) == RunRecords(r)[i];
      if i < n {
        assert RunIds(r)[i] != e.id;
      }
    }
  }

  lemma {:induction false} RunAgrees(log: seq<Event>)
    requires Replay(log).Some?
    ensures LogAgrees(log, Replay(log).value)
  {
    if log != [] {
      RunAgrees(Init(log));
      assert log == Init(log) + [Last(log)];
      var r := Replay(Init(log)).value;
      if Last(log).Begin? {
        BeginAgrees(Init(log), r, Last(log));
      } else {
        EndAgrees(Init(log), r, Last(log));
      }
    }
  }

  lemma {:induction false} PairedAll(log: seq<Event>, ids: seq<StepId>, records: seq<StepRecord>)
    requires |records| == |ids|
    requires forall i :: 0 <= i < |ids| ==> LastBegin(log, ids[i]).Some? && RecordOf(log, ids[i]) == records[i]
    ensures Paired(log, ids) == records
  {
    if ids != [] {
      PairedAll(log, Init(ids), Init(records));
      assert records == Init(records) + [Last(records)];
    }
  }

  lemma LoadAgrees(log: seq<Event>, r: RunState)
    requires LogAgrees(log, r)
    ensures Load(log) == RunRecords(r)
  {
    PairedAll(log, Ids(log), RunRecords(r));
    SortOfOrdered(RunRecords(r));
  }

  /** Loading the log of a run gives back its steps in order, ended ones complete, the open one bare. */
  lemma LoadIsRun(log: seq<Event>)
    requires Replay(log).Some?
    ensures Load(log) == RunRecords(Replay(log).value)
  {
    RunAgrees(log);
    LoadAgrees(log, Replay(log).value);
  }

  /** Step `i` ended under the hash the planner expects now. */
  predicate Trusted(r: RunState, expected: map<int, Hash>, i: nat) {
    i < |r.ended| && i in expected && expected[i] == r.ended[i].hash
  }

  /** The plan keeps a prefix of ended, trusted steps, and its state says why the prefix stops there. */
  ghost predicate ExactPlan(r: RunState, expected: map<int, Hash>, plan: ResumePlan) {
    var n := |plan.committed|;
    && n <= |r.ended| && plan.next == n
    && (forall i :: 0 <= i < n ==> plan.committed[i] == EndedRecord(r.ended[i], i) && Trusted(r, expected, i))
    && (forall i :: 0 <= i < n ==> (i == n - 1 && plan.state.Complete?) || r.ended[i].exit != "done")
    && match plan.state
       case Fresh => r == RunState([], None)
       case Resume => n == |r.ended| && r != RunState([], None)
       case Invalidated => n < |r.ended| && !Trusted(r, expected, n) && plan.invalidated == Some(r.ended[n].id)
       case Complete => n > 0 && r.ended[n - 1].exit == "done"
  }

  lemma RunPlanExact(r: RunState, expected: map<int, Hash>)
    ensures ExactPlan(r, expected, PlanFor(RunRecords(r), expected))
  {
    var records := RunRecords(r);
    var k := FirstStop(records, expected, 0);
    StopsWithinEnded(r, expected, k);
    if k < |r.ended| {
      assert records[k] == EndedRecord(r.ended[k], k);
    }
  }

  /** Every record the walk steps over is that of an ended, trusted step that is not final. */
  lemma StopsWithinEnded(r: RunState, expected: map<int, Hash>, k: nat)
    requires k <= |RunRecords(r)| && forall i :: 0 <= i < k ==> Passes(RunRecords(r)[i], expected)
    ensures k <= |r.ended|
    ensures forall i :: 0 <= i < k ==> Trusted(r, expected, i) && r.ended[i].exit != "done"
  {
    var records := RunRecords(r);
    forall i | 0 <= i < k ensures i < |r.ended| && Trusted(r, expected, i) && r.ended[i].exit != "done" {
      assert Passes(records[i], expected);
    }
    if k > 0 {
      assert Passes(records[k - 1], expected);
      assert k - 1 < |r.ended|;
    }
  }

  /**
   * For any cut of any run and any planner hashes, the plan stops at the smallest index that is
   * unended, untrusted or final, in the matching state, with exactly the steps before it committed:
   * no committed step is redone and no unended step is skipped.
   */
  lemma PlanIsExact(log: seq<Event>, cut: nat, expected: map<int, Hash>)
    requires Replay(log).Some? && cut <= |log|
    ensures Replay(log[..cut]).Some?
    ensures ExactPlan(Replay(log[..cut]).value, expected, PlanFor(Load(log[..cut]), expected))
    ensures PlanFor(Load(log[..cut]), expected).state.Fresh? <==> cut == 0
  {
    CutIsRun(log, cut);
    LoadIsRun(log[..cut]);
    NoRecordsNoLog(log[..cut]);
    RunPlanExact(Replay(log[..cut]).value, expected);
  }

  lemma {:induction false} NoRecordsNoLog(log: seq<Event>)
    requires Replay(log).Some?
    ensures RunRecords(Replay(log).value) == [] <==> log == []
  {
    if log != [] {
      NoRecordsNoLog(Init(log));
    }
  }

  // ---------------------------------------------------------------------------
  // Beginning an ended step again
  // ---------------------------------------------------------------------------

  /** The latest record of a step. */
  function LastOf(log: seq<Event>, id: StepId): Option<Event> {
    if log == [] then None else if Last(log).id == id then Some(Last(log)) else LastOf(Init(log), id)
  }

  /** An ended step was begun again and has not ended since. */
  predicate RebegunAfterEnd(log: seq<Event>, id: StepId) {
    && LastOf(log, id).Some? && LastOf(log, id).value.Begin?
    && exists i :: 0 <= i < |log| && log[i].End? && log[i].id == id
  }

  lemma {:induction false} EndsFound(log: seq<Event>, id: StepId)
    ensures LastEnd(log, id).Some? <==> exists i :: 0 <= i < |log| && log[i].End? && log[i].id == id
    ensures LastOf(log, id).Some? && LastOf(log, id).value.End? ==> LastEnd(log, id).Some?
  {
    if log != [] {
      EndsFound(Init(log), id);
      var n := |log| - 1;
      if LastEnd(log, id).Some? && LastEnd(Init(log), id).Some? {
        var i :| 0 <= i < |Init(log)| && Init(log)[i].End? && Init(log)[i].id == id;
        assert log[i].End? && log[i].id == id;
      }
      if i :| 0 <= i < |log| && log[i].End? && log[i].id == id {
        assert i < n ==> Init(log)[i] == log[i];
      }
    }
  }

  /**
   * The loader reports an output for a begun step exactly when its latest record is an end, unless
   * an ended step was begun again: then the new begin is paired with the old end.
   */
  lemma PairingIsFaithful(log: seq<Event>, id: StepId)
    requires LastBegin(log, id).Some?
    ensures (RecordOf(log, id).outputHash.Some? <==> LastOf(log, id).Some? && LastOf(log, id).value.End?)
            <==> !RebegunAfterEnd(log, id)
  {
    EndsFound(log, id);
    BegunIsSeen(log, id);
  }

  lemma {:induction false} BegunIsSeen(log: seq<Event>, id: StepId)
    requires LastBegin(log, id).Some?
    ensures LastOf(log, id).Some?
  {
    if Last(log).id != id {
      BegunIsSeen(Init(log), id);
    }
  }

  /** The run as the loader sees it once step `i`, ended before, was begun again with hash `h`. */
  function Rehashed(r: RunState, i: nat, h: Hash): RunState
    requires i < |r.ended|
  {
    r.(ended := r.ended[i := r.ended[i].(hash := h)])
  }

  lemma RebegunAgrees(log: seq<Event>, r: RunState, i: nat, h: Hash)
    requires LogAgrees(log, r) && i < |r.ended|
    ensures LogAgrees(log + [Begin(r.ended[i].id, i, h)], Rehashed(r, i, h))
  {
    var e, r' := Begin(r.ended[i].id, i, h), Rehashed(r, i, h);
    assert Init(log + [e]) == log;
    assert RunIds(r)[i] == e.id && RunIds(r') == RunIds(r);
    forall k | 0 <= k < |RunIds(r')|
      ensures LastBegin(log + [e], RunIds(r')[k]).Some? && RecordOf(log + [e], RunIds(r')[k]) == RunRecords(r')[k]
    {
      assert RecordOf(log, RunIds(r)[k]) == RunRecords(r)[k];
      if k != i {
        assert RunIds(r)[k] != e.id;
      }
    }
  }

  lemma RebegunIsMarked(log: seq<Event>, r: RunState, i: nat, h: Hash)
    requires LogAgrees(log, r) && i < |r.ended|
    ensures RebegunAfterEnd(log + [Begin(r.ended[i].id, i, h)], r.ended[i].id)
  {
    var d := r.ended[i];
    var again := log + [Begin(d.id, i, h)];
    assert Init(again) == log && RunIds(r)[i] == d.id;
    assert RecordOf(log, d.id) == EndedRecord(d, i);
    EndsFound(log, d.id);
    var k :| 0 <= k < |log| && log[k].End? && log[k].id == d.id;
    assert again[k] == log[k];
  }

  /**
   * A step that is being redone when the host dies is taken for finished. In the log of any run,
   * beginning an ended step again leaves its record with the old output and the new hash; and if the
   * planner expects that hash, and trusts the steps before, none of them final, the plan counts the
   * step as committed although its latest record is a begin.
   */
  lemma RebegunStaysCommitted(log: seq<Event>, i: nat, h: Hash, expected: map<int, Hash>)
    requires Replay(log).Some? && i < |Replay(log).value.ended|
    ensures var r := Replay(log).value;
            var d := r.ended[i];
            var again := log + [Begin(d.id, i, h)];
            var plan := PlanFor(Load(again), expected);
            && RebegunAfterEnd(again, d.id) && Load(again) == RunRecords(Rehashed(r, i, h))
            && (i in expected && expected[i] == h
                && (forall k :: 0 <= k < i ==> Trusted(r, expected, k) && r.ended[k].exit != "done")
                ==> i < |plan.committed| && plan.committed[i] == EndedRecord(d.(hash := h), i) && plan.next > i)
  {
    RunAgrees(log);
    var r := Replay(log).value;
    RebegunAgrees(log, r, i, h);
    RebegunIsMarked(log, r, i, h);
    LoadAgrees(log + [Begin(r.ended[i].id, i, h)], Rehashed(r, i, h));
    RehashedPlan(r, i, h, expected);
  }

  lemma RehashedPlan(r: RunState, i: nat, h: Hash, expected: map<int, Hash>)
    requires i < |r.ended|
    ensures var plan := PlanFor(RunRecords(Rehashed(r, i, h)), expected);
            i in expected && expected[i] == h
            && (forall k :: 0 <= k < i ==> Trusted(r, expected, k) && r.ended[k].exit != "done")
            ==> i < |plan.committed| && plan.committed[i] == EndedRecord(r.ended[i].(hash := h), i) && plan.next > i
  {
    var r' := Rehashed(r, i, h);
    RunPlanExact(r', expected);
    if i in expected && expected[i] == h
       && (forall k :: 0 <= k < i ==> Trusted(r, expected, k) && r.ended[k].exit != "done")
    {
      forall k | 0 <= k <= i ensures Trusted(r', expected, k) && (k < i ==> r'.ended[k].exit != "done") {
        assert k < i ==> Trusted(r, expected, k);
      }
    }
  }

  // ---------------------------------------------------------------------------
  // Any log, any records
  // ---------------------------------------------------------------------------

  /** Record `k` of the log is the latest one of its step and of its kind. */
  ghost predicate Latest(log: seq<Event>, k: nat, id: StepId, begin: bool) {
    && k < |log| && log[k].id == id && log[k].Begin? == begin
    && forall j :: k < j < |log| ==> log[j].id != id || log[j].Begin? != begin
  }

  ghost predicate Mentions(log: seq<Event>, id: StepId, begin: bool) {
    exists k :: 0 <= k < |log| && log[k].id == id && log[k].Begin? == begin
  }

  lemma {:induction false} LatestFound(log: seq<Event>, id: StepId, begin: bool) returns (k: nat)
    requires Mentions(log, id, begin)
    ensures Latest(log, k, id, begin)
    ensures (if begin then LastBegin(log, id) else LastEnd(log, id)) == Some(log[k])
  {
    if Last(log).id == id && Last(log).Begin? == begin {
      k := |log| - 1;
    } else {
      var i :| 0 <= i < |log| && log[i].id == id && log[i].Begin? == begin;
      assert Init(log)[i] == log[i];
      k := LatestFound(Init(log), id, begin);
      forall j | k < j < |log| ensures log[j].id != id || log[j].Begin? != begin {
        assert j < |log| - 1 ==> Init(log)[j] == log[j];
      }
    }
  }

  lemma {:induction false} NotMentioned(log: seq<Event>, id: StepId, begin: bool)
    requires !Mentions(log, id, begin)
    ensures (if begin then LastBegin(log, id) else LastEnd(log, id)).None?
  {
    if log != [] {
      assert log[|log| - 1] == Last(log);
      forall k | 0 <= k < |Init(log)| ensures Init(log)[k].id != id || Init(log)[k].Begin? != begin {
        assert Init(log)[k] == log[k];
      }
      NotMentioned(Init(log), id, begin);
    }
  }

  /** The record combines the latest begin of its step with the latest end, if there is one. */
  ghost predicate CombinesLatest(log: seq<Event>, r: StepRecord) {
    && (exists b: nat :: Latest(log, b, r.id, true) && r.index == log[b].index && r.inputHash == log[b].inputHash)
    && (if Mentions(log, r.id, false)
        then exists e: nat :: Latest(log, e, r.id, false)
                              && r.outputHash == Some(log[e].outputHash) && r.exit == log[e].exit
        else r.outputHash.None? && r.exit.None?)
  }

  lemma RecordCombinesLatest(log: seq<Event>, id: StepId)
    requires Mentions(log, id, true)
    ensures LastBegin(log, id).Some? && RecordOf(log, id).id == id && CombinesLatest(log, RecordOf(log, id))
  {
    var b := LatestFound(log, id, true);
    var r := RecordOf(log, id);
    assert r.index == log[b].index && r.inputHash == log[b].inputHash;
    if Mentions(log, id, false) {
      var e := LatestFound(log, id, false);
      assert r.outputHash == Some(log[e].outputHash) && r.exit == log[e].exit;
    } else {
      NotMentioned(log, id, false);
    }
  }

  lemma {:induction false} IdsFacts(log: seq<Event>)
    ensures forall id :: id in Ids(log) <==> Mentions(log, id, true) || Mentions(log, id, false)
    ensures forall i, j :: 0 <= i < j < |Ids(log)| ==> Ids(log)[i] != Ids(log)[j]
  {
    if log != [] {
      IdsFacts(Init(log));
      forall id ensures id in Ids(log) <==> Mentions(log, id, true) || Mentions(log, id, false) {
        MentionsSnoc(log, id, true);
        MentionsSnoc(log, id, false);
      }
    }
  }

  lemma MentionsSnoc(log: seq<Event>, id: StepId, begin: bool)
    requires log != []
    ensures Mentions(log, id, begin) <==>
            Mentions(Init(log), id, begin) || (Last(log).id == id && Last(log).Begin? == begin)
  {
    if Mentions(Init(log), id, begin) {
      var k :| 0 <= k < |Init(log)| && Init(log)[k].id == id && Init(log)[k].Begin? == begin;
      assert log[k] == Init(log)[k];
    }
    if Last(log).id == id && Last(log).Begin? == begin {
      assert log[|log| - 1] == Last(log);
    }
    if Mentions(log, id, begin) {
      var k :| 0 <= k < |log| && log[k].id == id && log[k].Begin? == begin;
      assert k < |log| - 1 ==> Init(log)[k] == log[k];
    }
  }

  lemma {:induction false} PairedFacts(log: seq<Event>, ids: seq<StepId>)
    requires forall i, j :: 0 <= i < j < |ids| ==> ids[i] != ids[j]
    ensures forall r :: r in Paired(log, ids) ==> r.id in ids && LastBegin(log, r.id).Some? && r == RecordOf(log, r.id)
    ensures forall id :: id in ids && LastBegin(log, id).Some? ==> RecordOf(log, id) in Paired(log, ids)
    ensures forall i, j :: 0 <= i < j < |Paired(log, ids)| ==> Paired(log, ids)[i].id != Paired(log, ids)[j].id
  {
    if ids != [] {
      PairedFacts(log, Init(ids));
      assert ids == Init(ids) + [Last(ids)];
    }
  }

  /**
   * Loading any log, written by a run or not: the records stand in order of index, one for each step that
   * has a begin, and each combines the latest begin of its step with the latest end, if there is one. A
   * step with an end but no begin is skipped.
   */
  lemma LoadAnyLog(log: seq<Event>)
    ensures Ordered(Load(log))
    ensures forall r :: r in Load(log) ==> CombinesLatest(log, r)
    ensures forall id :: Mentions(log, id, true) ==> exists r :: r in Load(log) && r.id == id
    ensures forall r, q :: r in Load(log) && q in Load(log) && r.id == q.id ==> r == q
  {
    var paired := Paired(log, Ids(log));
    SortFacts(paired);
    IdsFacts(log);
    PairedFacts(log, Ids(log));
    forall r ensures r in Load(log) <==> r in paired {
      assert r in multiset(Load(log)) <==> r in multiset(paired);
    }
    forall r | r in Load(log) ensures CombinesLatest(log, r) {
      if !Mentions(log, r.id, true) {
        NotMentioned(log, r.id, true);
      }
      RecordCombinesLatest(log, r.id);
    }
    forall id | Mentions(log, id, true) ensures exists r :: r in Load(log) && r.id == id {
      RecordCombinesLatest(log, id);
      assert RecordOf(log, id) in Load(log);
    }
  }

  /** The step has ended under the hash the planner expects for its index. */
  predicate StillGood(r: StepRecord, expected: map<int, Hash>) {
    r.outputHash.Some? && r.exit.Some? && r.index in expected && expected[r.index] == r.inputHash
  }

  /**
   * The plan for any list of records. It commits a prefix of records that ended under the expected hash,
   * none but its last one final, and its state says what stopped it: no record at all, a final step, a
   * step whose hash is no longer expected, a step that never ended, or the end of the list.
   */
  lemma PlanForAnyRecords(records: seq<StepRecord>, expected: map<int, Hash>)
    ensures var plan := PlanFor(records, expected);
            var n := |plan.committed|;
            && n <= |records| && plan.committed == records[..n]
            && (forall i :: 0 <= i < n ==> StillGood(records[i], expected))
            && (forall i :: 0 <= i < n && records[i].exit == Some("done") ==> i == n - 1 && plan.state.Complete?)
            && (plan.state.Invalidated? <==> plan.invalidated.Some?)
            && match plan.state
               case Fresh => records == [] && plan.next == 0
               case Complete => n > 0 && records[n - 1].exit == Some("done") && plan.next == records[n - 1].index + 1
               case Invalidated =>
                 && n < |records| && records[n].outputHash.Some? && records[n].exit.Some?
                 && !StillGood(records[n], expected)
                 && plan.next == records[n].index && plan.invalidated == Some(records[n].id)
               case Resume =>
                 && records != []
                 && if n == |records| then plan.next == records[n - 1].index + 1
                    else (records[n].outputHash.None? || records[n].exit.None?) && plan.next == records[n].index
  {
    var n := FirstStop(records, expected, 0);
    forall i | 0 <= i < n ensures StillGood(records[i], expected) && records[i].exit != Some("done") {
      assert Passes(records[i], expected);
    }
  }
}
