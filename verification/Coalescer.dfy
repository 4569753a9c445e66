/**
 * Model of the background-thread embedding coalescer as a protocol of atomic steps.
 *
 * Submitters and closers take the lock for one step each. The single worker takes a batch under the
 * lock and then counts it, calls upstream and resolves futures one at a time outside the lock, so
 * any submit or close may fall between any two worker steps.
 */
module BatchCoalescer {
  import opened Common

  type Text = string
  type Vector = seq<real>
  type FutureId = nat

  datatype Item = Item(text: Text, future: FutureId, submittedAt: real)

  datatype Failure = CoalescerClosed | Upstream(message: string) | WrongLength(got: nat, want: nat)

  type Outcome = Result<Vector, Failure>

  /** What the caller's batch function does with a list of texts. */
  datatype Reply = Raised(message: string) | Returned(vectors: seq<Vector>)

  datatype Reason = ByClose | BySize | ByTime

  datatype Flush = Flush(batch: seq<Item>, reason: Reason, reply: Reply)

  datatype Worker =
    | Waiting
    | Taken(batch: seq<Item>, reason: Reason)
    | Calling(batch: seq<Item>, reason: Reason)
    | Resolving(batch: seq<Item>, reason: Reason, reply: Reply, next: nat)
    | Exited

  datatype Stats = Stats(
    submitted: nat, batchesFlushed: nat, itemsInBatches: nat, upstreamCalls: nat, upstreamItems: nat,
    flushedBySize: nat, flushedByTime: nat, flushedByClose: nat, errors: nat)

  datatype Config = Config(maxBatch: nat, maxWait: real)

  /**
   * `accepted` (items in submission order), `flushed` (finished batches with the reply each got) and
   * `log` (every resolution of an accepted future, in order) record the history of the run.
   */
  datatype State = State(
    pending: seq<Item>, closed: bool, worker: Worker, stats: Stats,
    futures: map<FutureId, Outcome>, nextFuture: FutureId,
    accepted: seq<Item>, flushed: seq<Flush>, log: seq<(FutureId, Outcome)>)

  datatype Action =
    | Submit(text: Text, now: real)
    | Close
    | Take(now: real)
    | Count
    | Answer(reply: Reply)
    | Resolve
    | Exit

  const NO_STATS := Stats(0, 0, 0, 0, 0, 0, 0, 0, 0)

  const INITIAL := State([], false, Waiting, NO_STATS, map[], 0, [], [], [])

  predicate ValidConfig(cfg: Config) {
    cfg.maxBatch >= 1 && cfg.maxWait >= 0.0
  }

  // ---------------------------------------------------------------------------
  // Dedup and fan-out
  // ---------------------------------------------------------------------------

  function Texts(batch: seq<Item>): seq<Text> {
    seq(|batch|, i requires 0 <= i < |batch| => batch[i].text)
  }

  /** Distinct texts in order of first occurrence. */
  function Unique(texts: seq<Text>): seq<Text> {
    if texts == [] then []
    else if Last(texts) in Unique(Init(texts)) then Unique(Init(texts))
    else Unique(Init(texts)) + [Last(texts)]
  }

  /** The upstream list has no duplicates and covers exactly the texts of the batch. */
  lemma {:induction false} UniqueCoversOnce(texts: seq<Text>)
    ensures var u := Unique(texts);
            && (forall i, j :: 0 <= i < j < |u| ==> u[i] != u[j])
            && (forall t :: t in u <==> t in texts)
            && |u| <= |texts|
  {
    if texts != [] {
      UniqueCoversOnce(Init(texts));
      assert texts == Init(texts) + [Last(texts)];
    }
  }

  function TextSet(batch: seq<Item>): set<Text> {
    set item | item in batch :: item.text
  }

  lemma DistinctTexts(batch: seq<Item>)
    ensures |Unique(Texts(batch))| == |TextSet(batch)|
  {
    var u := Unique(Texts(batch));
    UniqueCoversOnce(Texts(batch));
    var distinct := TextSet(batch);
    assert forall i :: 0 <= i < |batch| ==> Texts(batch)[i] == batch[i].text;
    assert distinct == set t | t in u by {
      forall t ensures t in distinct <==> t in u {
        if t in Texts(batch) {
          var i :| 0 <= i < |batch| && Texts(batch)[i] == t;
          assert batch[i] in batch;
        }
      }
    }
    SetOfDistinct(u);
  }

  lemma {:induction false} SetOfDistinct(u: seq<Text>)
    requires forall i, j :: 0 <= i < j < |u| ==> u[i] != u[j]
    ensures |set t | t in u| == |u|
  {
    if u != [] {
      SetOfDistinct(Init(u));
      assert u == Init(u) + [Last(u)];
      assert (set t | t in u) == (set t | t in Init(u)) + {Last(u)};
    }
  }

  function IndexOf(u: seq<Text>, t: Text): (i: nat)
    requires t in u
    ensures i < |u| && u[i] == t
  {
    if u[0] == t then 0 else 1 + IndexOf(u[1..], t)
  }

  /** The outcome of the future that asked for `t`, when its batch sent `u` upstream. */
  function OutcomeOf(u: seq<Text>, reply: Reply, t: Text): Outcome
    requires t in u
  {
    match reply
    case Raised(m) => Err(Upstream(m))
    case Returned(vs) => if |vs| != |u| then Err(WrongLength(|vs|, |u|)) else Ok(vs[IndexOf(u, t)])
  }

  function ItemOutcome(batch: seq<Item>, reply: Reply, i: nat): Outcome
    requires i < |batch|
  {
    UniqueCoversOnce(Texts(batch));
    assert Texts(batch)[i] in Texts(batch);
    OutcomeOf(Unique(Texts(batch)), reply, batch[i].text)
  }

  predicate ReplyFails(batch: seq<Item>, reply: Reply) {
    reply.Raised? || |reply.vectors| != |Unique(Texts(batch))|
  }

  // ---------------------------------------------------------------------------
  // The steps
  // ---------------------------------------------------------------------------

  predicate WindowElapsed(cfg: Config, s: State, now: real)
    requires s.pending != []
  {
    cfg.maxWait - (now - s.pending[0].submittedAt) <= 0.0
  }

  predicate Enabled(cfg: Config, s: State, a: Action) {
    match a
    case Submit(_, _) => true
    case Close => true
    case Take(now) =>
      s.worker.Waiting? && s.pending != [] && (s.closed || |s.pending| >= cfg.maxBatch || WindowElapsed(cfg, s, now))
    case Count => s.worker.Taken?
    case Answer(_) => s.worker.Calling?
    case Resolve => s.worker.Resolving? && s.worker.next < |s.worker.batch|
    case Exit => s.worker.Waiting? && s.pending == [] && s.closed
  }

  function BatchSize(cfg: Config, s: State): nat {
    if |s.pending| <= cfg.maxBatch then |s.pending| else cfg.maxBatch
  }

  function FlushReason(cfg: Config, s: State): Reason {
    if s.closed then ByClose else if |s.pending| >= cfg.maxBatch then BySize else ByTime
  }

  function Counted(t: Stats, batch: seq<Item>, reason: Reason): Stats {
    t.(batchesFlushed := t.batchesFlushed + 1,
       itemsInBatches := t.itemsInBatches + |batch|,
       flushedBySize := t.flushedBySize + (if reason.BySize? then 1 else 0),
       flushedByTime := t.flushedByTime + (if reason.ByTime? then 1 else 0),
       flushedByClose := t.flushedByClose + (if reason.ByClose? then 1 else 0),
       upstreamCalls := t.upstreamCalls + 1,
       upstreamItems := t.upstreamItems + |Unique(Texts(batch))|)
  }

  /** Sets a future unless it is already done. */
  function SetFuture(s: State, f: FutureId, o: Outcome): State {
    if f in s.futures then s else s.(futures := s.futures[f := o], log := s.log + [(f, o)])
  }

  function Step(cfg: Config, s: State, a: Action): State
    requires Enabled(cfg, s, a)
  {
    match a
    case Submit(text, now) =>
      var f := s.nextFuture;
      if s.closed then s.(nextFuture := f + 1, futures := s.futures[f := Err(CoalescerClosed)])
      else
        var item := Item(text, f, now);
        s.(nextFuture := f + 1, pending := s.pending + [item], accepted := s.accepted + [item],
           stats := s.stats.(submitted := s.stats.submitted + 1))
    case Close => s.(closed := true)
    case Take(_) =>
      var n := BatchSize(cfg, s);
      s.(pending := s.pending[n..], worker := Taken(s.pending[..n], FlushReason(cfg, s)))
    case Count =>
      s.(worker := Calling(s.worker.batch, s.worker.reason), stats := Counted(s.stats, s.worker.batch, s.worker.reason))
    case Answer(reply) =>
      var errors := s.stats.errors + if ReplyFails(s.worker.batch, reply) then 1 else 0;
      s.(worker := Resolving(s.worker.batch, s.worker.reason, reply, 0), stats := s.stats.(errors := errors))
    case Resolve =>
      var Resolving(batch, reason, reply, i) := s.worker;
      var t := SetFuture(s, batch[i].future, ItemOutcome(batch, reply, i));
      if i + 1 < |batch| then t.(worker := Resolving(batch, reason, reply, i + 1))
      else t.(worker := Waiting, flushed := t.flushed + [Flush(batch, reason, reply)])
    case Exit => s.(worker := Exited)
  }

  /** The state a schedule of steps leads to from `s`, or None when some step was not enabled. */
  function After(cfg: Config, s: State, schedule: seq<Action>): Option<State> {
    if schedule == [] then Some(s)
    else
      var before := After(cfg, s, Init(schedule));
      if before.Some? && Enabled(cfg, before.value, Last(schedule))
      then Some(Step(cfg, before.value, Last(schedule)))
      else None
  }

  function Run(cfg: Config, schedule: seq<Action>): Option<State> {
    After(cfg, INITIAL, schedule)
  }

  // ---------------------------------------------------------------------------
  // The invariant
  // ---------------------------------------------------------------------------

  /** The accepted items whose batches are finished. */
  function Flat(flushed: seq<Flush>): seq<Item> {
    if flushed == [] then [] else Flat(Init(flushed)) + Last(flushed).batch
  }

  /** The resolutions a list of finished batches should have produced. */
  function Resolutions(batch: seq<Item>, reply: Reply, n: nat): seq<(FutureId, Outcome)>
    requires n <= |batch|
  {
    seq(n, i requires 0 <= i < n => (batch[i].future, ItemOutcome(batch, reply, i)))
  }

  function FlatResolutions(flushed: seq<Flush>): seq<(FutureId, Outcome)> {
    if flushed == [] then []
    else FlatResolutions(Init(flushed)) + Resolutions(Last(flushed).batch, Last(flushed).reply, |Last(flushed).batch|)
  }

  function InFlight(w: Worker): seq<Item> {
    if w.Taken? || w.Calling? || w.Resolving? then w.batch else []
  }

  ghost predicate BatchesInBounds(cfg: Config, s: State) {
    && (forall i :: 0 <= i < |s.flushed| ==> 1 <= |s.flushed[i].batch| <= cfg.maxBatch)
    && (InFlight(s.worker) == [] ==> s.worker.Waiting? || s.worker.Exited?)
    && |InFlight(s.worker)| <= cfg.maxBatch
    && (s.worker.Resolving? ==> s.worker.next < |s.worker.batch|)
  }

  /** Batches and pending items are a cut of the submission order. */
  ghost predicate InOrder(s: State) {
    s.accepted == Flat(s.flushed) + InFlight(s.worker) + s.pending
  }

  /** Futures are numbered in submission order. */
  ghost predicate FreshFutures(s: State) {
    && (forall i :: 0 <= i < |s.accepted| ==> s.accepted[i].future < s.nextFuture)
    && (forall i, j :: 0 <= i < j < |s.accepted| ==> s.accepted[i].future < s.accepted[j].future)
  }

  function PartlyResolved(w: Worker): seq<(FutureId, Outcome)>
    requires w.Resolving? ==> w.next <= |w.batch|
  {
    if w.Resolving? then Resolutions(w.batch, w.reply, w.next) else []
  }

  /** The log is exactly what the finished batches and the resolved part of the current one owe. */
  ghost predicate LogFollowsBatches(s: State)
    requires s.worker.Resolving? ==> s.worker.next <= |s.worker.batch|
  {
    && s.log == FlatResolutions(s.flushed) + PartlyResolved(s.worker)
    && (forall i :: |s.log| <= i < |s.accepted| ==> s.accepted[i].future !in s.futures)
    && (forall f :: f in s.futures ==> f < s.nextFuture)
    && (forall i :: 0 <= i < |s.log| ==> s.log[i].0 in s.futures && s.futures[s.log[i].0] == s.log[i].1)
  }

  ghost predicate HasFuture(items: seq<Item>, f: FutureId) {
    exists i :: 0 <= i < |items| && items[i].future == f
  }

  ghost predicate Rejected(s: State, f: FutureId) {
    f in s.futures && s.futures[f] == Err(CoalescerClosed)
  }

  /** Every future handed out belongs to an accepted item or was failed at once because of close. */
  ghost predicate NoneForgotten(s: State) {
    forall f :: 0 <= f < s.nextFuture ==> HasFuture(s.accepted, f) || Rejected(s, f)
  }

  ghost predicate StatsAddUp(s: State) {
    && s.stats.submitted == |s.accepted|
    && s.stats.itemsInBatches + |s.pending| + (if s.worker.Taken? then |s.worker.batch| else 0) == s.stats.submitted
    && s.stats.batchesFlushed == |s.flushed| + (if IsCounted(s.worker) then 1 else 0)
    && s.stats.upstreamCalls == s.stats.batchesFlushed
    && s.stats.upstreamItems == DistinctItems(s.flushed)
                                + (if IsCounted(s.worker) then |TextSet(s.worker.batch)| else 0)
    && s.stats.flushedBySize == ReasonCount(s.flushed, BySize) + CountedFor(s.worker, BySize)
    && s.stats.flushedByTime == ReasonCount(s.flushed, ByTime) + CountedFor(s.worker, ByTime)
    && s.stats.flushedByClose == ReasonCount(s.flushed, ByClose) + CountedFor(s.worker, ByClose)
    && s.stats.errors == ErrorCount(s.flushed)
                         + (if s.worker.Resolving? && ReplyFails(s.worker.batch, s.worker.reply) then 1 else 0)
  }

  /** The worker has counted its batch and not finished it. */
  predicate IsCounted(w: Worker) {
    w.Calling? || w.Resolving?
  }

  function CountedFor(w: Worker, r: Reason): nat {
    if IsCounted(w) && w.reason == r then 1 else 0
  }

  function ReasonCount(flushed: seq<Flush>, r: Reason): nat {
    if flushed == [] then 0 else ReasonCount(Init(flushed), r) + if Last(flushed).reason == r then 1 else 0
  }

  /** Texts sent upstream by finished batches, after dedup. */
  function DistinctItems(flushed: seq<Flush>): nat {
    if flushed == [] then 0 else DistinctItems(Init(flushed)) + |TextSet(Last(flushed).batch)|
  }

  /** A batch flushed for its size is full, and one flushed because of close came after close. */
  ghost predicate ReasonsHold(cfg: Config, s: State) {
    && (forall i :: 0 <= i < |s.flushed| ==> ReasonHolds(cfg, s, s.flushed[i].batch, s.flushed[i].reason))
    && (InFlight(s.worker) != [] ==> ReasonHolds(cfg, s, s.worker.batch, s.worker.reason))
  }

  ghost predicate ReasonHolds(cfg: Config, s: State, batch: seq<Item>, r: Reason) {
    (r.BySize? ==> |batch| == cfg.maxBatch) && (r.ByClose? ==> s.closed) && (r.ByTime? ==> |batch| < cfg.maxBatch)
  }

  function ErrorCount(flushed: seq<Flush>): nat {
    if flushed == [] then 0
    else ErrorCount(Init(flushed)) + if ReplyFails(Last(flushed).batch, Last(flushed).reply) then 1 else 0
  }

  ghost predicate Inv(cfg: Config, s: State) {
    && BatchesInBounds(cfg, s)
    && InOrder(s)
    && FreshFutures(s)
    && LogFollowsBatches(s)
    && NoneForgotten(s)
    && ReasonsHold(cfg, s)
    && StatsAddUp(s)
    && (s.worker.Exited? ==> s.closed && s.pending == [])
  }

  lemma FlatResolutionsLength(flushed: seq<Flush>)
    ensures |FlatResolutions(flushed)| == |Flat(flushed)|
  {
  }

  lemma AppendAtEnd(a: seq<Item>, b: seq<Item>, x: Item)
    ensures (a + b) + [x] == a + (b + [x])
  {
  }

  lemma SubmitKeepsOrder(cfg: Config, s: State, text: Text, now: real)
    requires BatchesInBounds(cfg, s) && InOrder(s) && FreshFutures(s)
    ensures var t := Step(cfg, s, Submit(text, now));
            BatchesInBounds(cfg, t) && InOrder(t) && FreshFutures(t)
  {
    var t := Step(cfg, s, Submit(text, now));
    if !s.closed {
      AppendAtEnd(Flat(s.flushed) + InFlight(s.worker), s.pending, Last(t.pending));
    }
  }

  lemma SubmitKeepsLog(cfg: Config, s: State, text: Text, now: real)
    requires BatchesInBounds(cfg, s) && InOrder(s) && FreshFutures(s) && LogFollowsBatches(s)
    ensures LogFollowsBatches(Step(cfg, s, Submit(text, now)))
  {
    FlatResolutionsLength(s.flushed);
  }

  lemma StepSubmit(cfg: Config, s: State, text: Text, now: real)
    requires Inv(cfg, s)
    ensures Inv(cfg, Step(cfg, s, Submit(text, now)))
  {
    SubmitKeepsOrder(cfg, s, text, now);
    SubmitKeepsLog(cfg, s, text, now);
    NoneForgottenSubmit(cfg, s, text, now);
  }

  lemma NoneForgottenSubmit(cfg: Config, s: State, text: Text, now: real)
    requires NoneForgotten(s) && forall f :: f in s.futures ==> f < s.nextFuture
    ensures NoneForgotten(Step(cfg, s, Submit(text, now)))
  {
    var t := Step(cfg, s, Submit(text, now));
    forall f | 0 <= f < t.nextFuture ensures HasFuture(t.accepted, f) || Rejected(t, f) {
      if f == s.nextFuture && !s.closed {
        assert t.accepted[|s.accepted|].future == f;
      } else if f < s.nextFuture && HasFuture(s.accepted, f) {
        var i :| 0 <= i < |s.accepted| && s.accepted[i].future == f;
        assert t.accepted[i].future == f;
      }
    }
  }

  lemma StepTake(cfg: Config, s: State, now: real)
    requires ValidConfig(cfg) && Inv(cfg, s) && Enabled(cfg, s, Take(now))
    ensures Inv(cfg, Step(cfg, s, Take(now)))
  {
    var n := BatchSize(cfg, s);
    var t := Step(cfg, s, Take(now));
    CutInTwo(s.pending, n);
    assert InOrder(t) by {
      RejoinAtEnd(Flat(s.flushed), s.pending[..n], s.pending[n..]);
    }
  }

  lemma CutInTwo(s: seq<Item>, n: nat)
    requires n <= |s|
    ensures s == s[..n] + s[n..]
  {
  }

  lemma RejoinAtEnd(a: seq<Item>, b: seq<Item>, c: seq<Item>)
    ensures a + [] + (b + c) == a + b + c
  {
  }

  lemma StepCount(cfg: Config, s: State)
    requires Inv(cfg, s) && Enabled(cfg, s, Count)
    ensures Inv(cfg, Step(cfg, s, Count))
  {
    DistinctTexts(s.worker.batch);
  }

  lemma StepAnswer(cfg: Config, s: State, reply: Reply)
    requires Inv(cfg, s) && Enabled(cfg, s, Answer(reply))
    ensures Inv(cfg, Step(cfg, s, Answer(reply)))
  {
    assert Resolutions(s.worker.batch, reply, 0) == [];
  }

  /** The future about to be resolved is the next accepted one, and it is not done yet. */
  lemma NextToResolve(cfg: Config, s: State)
    requires Inv(cfg, s) && s.worker.Resolving?
    ensures |s.log| < |s.accepted|
    ensures s.accepted[|s.log|] == s.worker.batch[s.worker.next]
    ensures s.worker.batch[s.worker.next].future !in s.futures
  {
    FlatResolutionsLength(s.flushed);
  }

  /** What resolving one future changes, now that it is known not to be done. */
  lemma ResolveEffect(cfg: Config, s: State)
    requires Inv(cfg, s) && Enabled(cfg, s, Resolve)
    ensures var Resolving(batch, reason, reply, i) := s.worker;
            var t, f, o := Step(cfg, s, Resolve), batch[i].future, ItemOutcome(batch, reply, i);
            && t == s.(futures := s.futures[f := o], log := s.log + [(f, o)], worker := t.worker, flushed := t.flushed)
            && (if i + 1 < |batch| then t.worker == Resolving(batch, reason, reply, i + 1) && t.flushed == s.flushed
                else t.worker == Waiting && t.flushed == s.flushed + [Flush(batch, reason, reply)])
  {
    NextToResolve(cfg, s);
  }

  lemma ResolveKeepsOrder(cfg: Config, s: State)
    requires Inv(cfg, s) && Enabled(cfg, s, Resolve)
    ensures var t := Step(cfg, s, Resolve);
            BatchesInBounds(cfg, t) && InOrder(t) && FreshFutures(t) && NoneForgotten(t)
  {
    ResolveEffect(cfg, s);
    NextToResolve(cfg, s);
    var t := Step(cfg, s, Resolve);
    if t.worker.Waiting? {
      assert Init(t.flushed) == s.flushed;
    }
    forall f | 0 <= f < t.nextFuture ensures HasFuture(t.accepted, f) || Rejected(t, f) {
      assert HasFuture(s.accepted, f) || Rejected(s, f);
    }
  }

  lemma ResolveKeepsStats(cfg: Config, s: State)
    requires Inv(cfg, s) && Enabled(cfg, s, Resolve)
    ensures ReasonsHold(cfg, Step(cfg, s, Resolve)) && StatsAddUp(Step(cfg, s, Resolve))
  {
    ResolveEffect(cfg, s);
    var t := Step(cfg, s, Resolve);
    if t.worker.Waiting? {
      assert Init(t.flushed) == s.flushed;
    }
  }

  lemma ResolveKeepsLog(cfg: Config, s: State)
    requires Inv(cfg, s) && Enabled(cfg, s, Resolve)
    ensures LogFollowsBatches(Step(cfg, s, Resolve))
  {
    ResolveEffect(cfg, s);
    NextToResolve(cfg, s);
    var Resolving(batch, reason, reply, i) := s.worker;
    var t := Step(cfg, s, Resolve);
    NextResolution(batch, reply, i);
    if t.worker.Waiting? {
      assert Init(t.flushed) == s.flushed;
      LogAfterLast(s, t);
    } else {
      LogAfterOne(s, t);
    }
  }

  lemma NextResolution(batch: seq<Item>, reply: Reply, i: nat)
    requires i < |batch|
    ensures Resolutions(batch, reply, i + 1)
            == Resolutions(batch, reply, i) + [(batch[i].future, ItemOutcome(batch, reply, i))]
  {
  }

  /** The log grows by one resolution, in the middle of a batch. */
  lemma LogAfterOne(s: State, t: State)
    requires s.worker.Resolving? && s.worker.next + 1 < |s.worker.batch| && LogFollowsBatches(s)
    requires t.worker == s.worker.(next := s.worker.next + 1) && t.flushed == s.flushed && ResolvedNext(s, t)
    ensures LogFollowsBatches(t)
  {
    NextResolution(s.worker.batch, s.worker.reply, s.worker.next);
    assert t.log == FlatResolutions(t.flushed) + PartlyResolved(t.worker);
  }

  /** The log grows by the last resolution of a batch. */
  lemma LogAfterLast(s: State, t: State)
    requires s.worker.Resolving? && s.worker.next + 1 == |s.worker.batch| && LogFollowsBatches(s)
    requires t.worker.Waiting? && ResolvedNext(s, t)
    requires t.flushed != [] && Init(t.flushed) == s.flushed
    requires Last(t.flushed).batch == s.worker.batch && Last(t.flushed).reply == s.worker.reply
    ensures LogFollowsBatches(t)
  {
    NextResolution(s.worker.batch, s.worker.reply, s.worker.next);
    assert t.log == FlatResolutions(t.flushed) + PartlyResolved(t.worker);
  }

  /** The next accepted future, not done before, was given its outcome and logged. */
  ghost predicate ResolvedNext(s: State, t: State)
    requires s.worker.Resolving? && s.worker.next < |s.worker.batch|
  {
    var Resolving(batch, _, reply, i) := s.worker;
    var f, o := batch[i].future, ItemOutcome(batch, reply, i);
    && f !in s.futures && f < s.nextFuture && t.nextFuture == s.nextFuture
    && t.accepted == s.accepted && |s.log| < |s.accepted| && s.accepted[|s.log|].future == f
    && (forall k :: |s.log| < k < |s.accepted| ==> s.accepted[k].future != f)
    && t.futures == s.futures[f := o] && t.log == s.log + [(f, o)]
  }

  lemma StepResolve(cfg: Config, s: State)
    requires Inv(cfg, s) && Enabled(cfg, s, Resolve)
    ensures Inv(cfg, Step(cfg, s, Resolve))
  {
    ResolveKeepsOrder(cfg, s);
    ResolveKeepsStats(cfg, s);
    ResolveKeepsLog(cfg, s);
    ResolveEffect(cfg, s);
  }

  lemma StepClose(cfg: Config, s: State)
    requires Inv(cfg, s)
    ensures Inv(cfg, Step(cfg, s, Close))
  {
  }

  lemma StepExit(cfg: Config, s: State)
    requires Inv(cfg, s) && Enabled(cfg, s, Exit)
    ensures Inv(cfg, Step(cfg, s, Exit))
  {
  }

  lemma {:induction false} StepKeepsInv(cfg: Config, s: State, a: Action)
    requires ValidConfig(cfg) && Inv(cfg, s) && Enabled(cfg, s, a)
    ensures Inv(cfg, Step(cfg, s, a))
  {
    match a {
      case Submit(text, now) => StepSubmit(cfg, s, text, now);
      case Close => StepClose(cfg, s);
      case Take(now) => StepTake(cfg, s, now);
      case Count => StepCount(cfg, s);
      case Answer(reply) => StepAnswer(cfg, s, reply);
      case Resolve => StepResolve(cfg, s);
      case Exit => StepExit(cfg, s);
    }
  }

  lemma InitialInv(cfg: Config)
    ensures Inv(cfg, INITIAL)
  {
    NothingYet(cfg, INITIAL);
  }

  lemma NothingYet(cfg: Config, s: State)
    requires s.pending == [] && s.accepted == [] && s.flushed == [] && s.log == [] && s.worker.Waiting?
    requires |s.futures| == 0 && s.nextFuture == 0 && s.stats == NO_STATS
    ensures Inv(cfg, s)
  {
    assert FlatResolutions(s.flushed) == [] && PartlyResolved(s.worker) == [];
  }

  lemma RunStep(cfg: Config, schedule: seq<Action>)
    requires schedule != [] && Run(cfg, schedule).Some?
    ensures Run(cfg, Init(schedule)).Some? && Enabled(cfg, Run(cfg, Init(schedule)).value, Last(schedule))
    ensures Run(cfg, schedule).value == Step(cfg, Run(cfg, Init(schedule)).value, Last(schedule))
  {
  }

  /** Every interleaving keeps the invariant. */
  lemma {:induction false} Safety(cfg: Config, schedule: seq<Action>)
    requires ValidConfig(cfg) && Run(cfg, schedule).Some?
    ensures Inv(cfg, Run(cfg, schedule).value)
  {
    if schedule == [] {
      InitialInv(cfg);
    } else {
      RunStep(cfg, schedule);
      var before := Run(cfg, Init(schedule)).value;
      Safety(cfg, Init(schedule));
      StepKeepsInv(cfg, before, Last(schedule));
    }
  }

  // ---------------------------------------------------------------------------
  // What callers can rely on, in every run
  // ---------------------------------------------------------------------------

  lemma {:induction false} ResolutionsFollowItems(flushed: seq<Flush>, i: nat)
    requires i < |Flat(flushed)|
    ensures |FlatResolutions(flushed)| == |Flat(flushed)|
    ensures FlatResolutions(flushed)[i].0 == Flat(flushed)[i].future
  {
    FlatResolutionsLength(flushed);
    FlatResolutionsLength(Init(flushed));
    if i < |Flat(Init(flushed))| {
      ResolutionsFollowItems(Init(flushed), i);
    }
  }

  /**
   * Accepted futures are resolved strictly in submission order, each at most once, and the future
   * still holds what was first written to it.
   */
  lemma ResolvedInOrderOnce(cfg: Config, schedule: seq<Action>)
    requires ValidConfig(cfg) && Run(cfg, schedule).Some?
    ensures var s := Run(cfg, schedule).value;
            && |s.log| <= |s.accepted|
            && (forall i :: 0 <= i < |s.log| ==> s.log[i].0 == s.accepted[i].future)
            && (forall i, j :: 0 <= i < j < |s.log| ==> s.log[i].0 != s.log[j].0)
            && (forall i :: 0 <= i < |s.log| ==> s.log[i].0 in s.futures && s.futures[s.log[i].0] == s.log[i].1)
            && (forall i :: |s.log| <= i < |s.accepted| ==> s.accepted[i].future !in s.futures)
  {
    Safety(cfg, schedule);
    var s := Run(cfg, schedule).value;
    FlatResolutionsLength(s.flushed);
    forall i | 0 <= i < |s.log| ensures s.log[i].0 == s.accepted[i].future {
      if i < |Flat(s.flushed)| {
        ResolutionsFollowItems(s.flushed, i);
      }
    }
  }

  lemma AllResolved(s: State)
    requires NoneForgotten(s) && |s.log| == |s.accepted|
    requires forall i :: 0 <= i < |s.log| ==> s.log[i].0 == s.accepted[i].future && s.log[i].0 in s.futures
    ensures forall f :: 0 <= f < s.nextFuture ==> f in s.futures
  {
    forall f | 0 <= f < s.nextFuture ensures f in s.futures {
      if HasFuture(s.accepted, f) {
        var i :| 0 <= i < |s.accepted| && s.accepted[i].future == f;
        assert s.log[i].0 == f;
      }
    }
  }

  lemma ExitedLogIsComplete(cfg: Config, s: State)
    requires Inv(cfg, s) && s.worker.Exited?
    ensures s.closed && |s.log| == |s.accepted| == |Flat(s.flushed)|
  {
    FlatResolutionsLength(s.flushed);
  }

  /** Once the worker has returned, no future ever handed out is left unresolved. */
  lemma ExitLeavesNothingPending(cfg: Config, schedule: seq<Action>)
    requires ValidConfig(cfg) && Run(cfg, schedule).Some? && Run(cfg, schedule).value.worker.Exited?
    ensures var s := Run(cfg, schedule).value;
            && s.closed && |s.log| == |s.accepted| == |Flat(s.flushed)|
            && (forall f :: 0 <= f < s.nextFuture ==> f in s.futures)
  {
    ResolvedInOrderOnce(cfg, schedule);
    Safety(cfg, schedule);
    ExitedLogIsComplete(cfg, Run(cfg, schedule).value);
    AllResolved(Run(cfg, schedule).value);
  }

  function FailureOf(batch: seq<Item>, reply: Reply): Failure
    requires ReplyFails(batch, reply)
  {
    match reply
    case Raised(m) => Upstream(m)
    case Returned(vs) => WrongLength(|vs|, |Unique(Texts(batch))|)
  }

  /** A failing reply fails every future of its batch with one exception; a good one fails none. */
  lemma BatchSharesFailure(batch: seq<Item>, reply: Reply)
    ensures ReplyFails(batch, reply) ==>
              forall i :: 0 <= i < |batch| ==> ItemOutcome(batch, reply, i) == Err(FailureOf(batch, reply))
    ensures !ReplyFails(batch, reply) ==> forall i :: 0 <= i < |batch| ==> ItemOutcome(batch, reply, i).Ok?
  {
  }

  lemma {:induction false} FlatResolutionOf(flushed: seq<Flush>, k: nat, i: nat) returns (n: nat)
    requires k < |flushed| && i < |flushed[k].batch|
    ensures n < |FlatResolutions(flushed)|
    ensures FlatResolutions(flushed)[n]
            == (flushed[k].batch[i].future, ItemOutcome(flushed[k].batch, flushed[k].reply, i))
  {
    if k == |flushed| - 1 {
      n := |FlatResolutions(Init(flushed))| + i;
    } else {
      n := FlatResolutionOf(Init(flushed), k, i);
    }
  }

  /**
   * In every run, the futures of a finished batch are all failed with the one exception of that
   * batch, or all served, according to the reply to that batch alone.
   */
  lemma FailureStaysInBatch(cfg: Config, schedule: seq<Action>, k: nat, i: nat)
    requires ValidConfig(cfg) && Run(cfg, schedule).Some? && k < |Run(cfg, schedule).value.flushed|
    requires i < |Run(cfg, schedule).value.flushed[k].batch|
    ensures var s := Run(cfg, schedule).value;
            var Flush(batch, _, reply) := s.flushed[k];
            && batch[i].future in s.futures
            && (s.futures[batch[i].future].Err? <==> ReplyFails(batch, reply))
            && (ReplyFails(batch, reply) ==> s.futures[batch[i].future] == Err(FailureOf(batch, reply)))
  {
    Safety(cfg, schedule);
    var s := Run(cfg, schedule).value;
    var n := FlatResolutionOf(s.flushed, k, i);
    assert s.log[n] == FlatResolutions(s.flushed)[n];
    BatchSharesFailure(s.flushed[k].batch, s.flushed[k].reply);
  }

  /** The same holds of the futures resolved so far in the batch at hand. */
  lemma FailureStaysInBatchAtHand(cfg: Config, schedule: seq<Action>, i: nat)
    requires ValidConfig(cfg) && Run(cfg, schedule).Some? && Run(cfg, schedule).value.worker.Resolving?
    requires i < Run(cfg, schedule).value.worker.next
    ensures var s := Run(cfg, schedule).value;
            var Resolving(batch, _, reply, next) := s.worker;
            && next < |batch| && batch[i].future in s.futures
            && (s.futures[batch[i].future].Err? <==> ReplyFails(batch, reply))
            && (ReplyFails(batch, reply) ==> s.futures[batch[i].future] == Err(FailureOf(batch, reply)))
  {
    Safety(cfg, schedule);
    var s := Run(cfg, schedule).value;
    var n := |FlatResolutions(s.flushed)| + i;
    assert s.log[n] == PartlyResolved(s.worker)[i];
    BatchSharesFailure(s.worker.batch, s.worker.reply);
  }

  /** Some item among the first `n` of the batch asked for future `f`, and the reply failed with `e`. */
  ghost predicate FailedWith(batch: seq<Item>, reply: Reply, n: nat, f: FutureId, e: Failure) {
    && n <= |batch| && ReplyFails(batch, reply) && FailureOf(batch, reply) == e
    && exists i :: 0 <= i < n && batch[i].future == f
  }

  /** A failed future has its failure from the reply to its own batch, or from close. */
  ghost predicate FailureExplained(s: State, f: FutureId, e: Failure) {
    || e == CoalescerClosed
    || (exists k :: 0 <= k < |s.flushed|
                    && FailedWith(s.flushed[k].batch, s.flushed[k].reply, |s.flushed[k].batch|, f, e))
    || (s.worker.Resolving? && FailedWith(s.worker.batch, s.worker.reply, s.worker.next, f, e))
  }

  lemma ItemFailure(batch: seq<Item>, reply: Reply, n: nat, i: nat, e: Failure)
    requires i < n <= |batch| && ItemOutcome(batch, reply, i) == Err(e)
    ensures FailedWith(batch, reply, n, batch[i].future, e)
  {
    BatchSharesFailure(batch, reply);
  }

  lemma {:induction false} FlatFailure(flushed: seq<Flush>, n: nat, f: FutureId, e: Failure)
    requires n < |FlatResolutions(flushed)| && FlatResolutions(flushed)[n] == (f, Err(e))
    ensures exists k :: 0 <= k < |flushed| && FailedWith(flushed[k].batch, flushed[k].reply, |flushed[k].batch|, f, e)
  {
    var before, last := FlatResolutions(Init(flushed)), Last(flushed);
    if n < |before| {
      FlatFailure(Init(flushed), n, f, e);
      var k :| 0 <= k < |Init(flushed)|
               && FailedWith(Init(flushed)[k].batch, Init(flushed)[k].reply, |Init(flushed)[k].batch|, f, e);
      assert flushed[k] == Init(flushed)[k];
    } else {
      ItemFailure(last.batch, last.reply, |last.batch|, n - |before|, e);
      assert flushed[|flushed| - 1] == last;
    }
  }

  lemma LoggedFailure(s: State, n: nat, f: FutureId, e: Failure)
    requires s.worker.Resolving? ==> s.worker.next < |s.worker.batch|
    requires LogFollowsBatches(s) && n < |s.log| && s.log[n] == (f, Err(e))
    ensures FailureExplained(s, f, e)
  {
    var before := FlatResolutions(s.flushed);
    if n < |before| {
      FlatFailure(s.flushed, n, f, e);
    } else {
      assert s.log[n] == PartlyResolved(s.worker)[n - |before|];
      ItemFailure(s.worker.batch, s.worker.reply, s.worker.next, n - |before|, e);
    }
  }

  /**
   * No other future is touched by a failing reply: in every run, a future that holds an exception was
   * refused because of close, or belongs to a finished batch or to the resolved part of the batch at
   * hand, and the reply to that very batch failed with this exception.
   */
  lemma FailureHasOwnCause(cfg: Config, schedule: seq<Action>, f: FutureId)
    requires ValidConfig(cfg) && Run(cfg, schedule).Some?
    requires f in Run(cfg, schedule).value.futures && Run(cfg, schedule).value.futures[f].Err?
    ensures FailureExplained(Run(cfg, schedule).value, f, Run(cfg, schedule).value.futures[f].error)
  {
    Safety(cfg, schedule);
    ResolvedInOrderOnce(cfg, schedule);
    var s := Run(cfg, schedule).value;
    assert HasFuture(s.accepted, f) || Rejected(s, f);
    if HasFuture(s.accepted, f) {
      var n :| 0 <= n < |s.accepted| && s.accepted[n].future == f;
      assert s.log[n].0 == f;
      LoggedFailure(s, n, f, s.futures[f].error);
    }
  }

  // ---------------------------------------------------------------------------
  // Coalescing with dedup refines one-at-a-time embedding
  // ---------------------------------------------------------------------------

  /** The batch function returned `f` of each text it was sent. */
  ghost predicate Pointwise(f: Text -> Vector, batch: seq<Item>, reply: Reply) {
    var u := Unique(Texts(batch));
    reply.Returned? && |reply.vectors| == |u| && forall i :: 0 <= i < |u| ==> reply.vectors[i] == f(u[i])
  }

  /** Every upstream call of the schedule acted pointwise as `f`. */
  ghost predicate EmbedsAs(cfg: Config, schedule: seq<Action>, f: Text -> Vector) {
    schedule == [] ||
    (&& EmbedsAs(cfg, Init(schedule), f)
     && (Last(schedule).Answer? && Run(cfg, schedule).Some? ==>
           Pointwise(f, Run(cfg, Init(schedule)).value.worker.batch, Last(schedule).reply)))
  }

  ghost predicate RepliesPointwise(f: Text -> Vector, s: State) {
    && (forall i :: 0 <= i < |s.flushed| ==> Pointwise(f, s.flushed[i].batch, s.flushed[i].reply))
    && (s.worker.Resolving? ==> Pointwise(f, s.worker.batch, s.worker.reply))
  }

  lemma {:induction false} RunRepliesPointwise(cfg: Config, schedule: seq<Action>, f: Text -> Vector)
    requires Run(cfg, schedule).Some? && EmbedsAs(cfg, schedule, f)
    ensures RepliesPointwise(f, Run(cfg, schedule).value)
  {
    if schedule != [] {
      RunRepliesPointwise(cfg, Init(schedule), f);
    }
  }

  lemma PointwiseOutcome(f: Text -> Vector, batch: seq<Item>, reply: Reply, i: nat)
    requires Pointwise(f, batch, reply) && i < |batch|
    ensures ItemOutcome(batch, reply, i) == Ok(f(batch[i].text))
  {
    UniqueCoversOnce(Texts(batch));
    assert Texts(batch)[i] in Texts(batch);
  }

  lemma {:induction false} FlatPointwise(flushed: seq<Flush>, f: Text -> Vector, i: nat)
    requires forall k :: 0 <= k < |flushed| ==> Pointwise(f, flushed[k].batch, flushed[k].reply)
    requires i < |Flat(flushed)|
    ensures |FlatResolutions(flushed)| == |Flat(flushed)|
    ensures FlatResolutions(flushed)[i] == (Flat(flushed)[i].future, Ok(f(Flat(flushed)[i].text)))
  {
    FlatResolutionsLength(flushed);
    FlatResolutionsLength(Init(flushed));
    var n := |Flat(Init(flushed))|;
    if i < n {
      FlatPointwise(Init(flushed), f, i);
    } else {
      PointwiseOutcome(f, Last(flushed).batch, Last(flushed).reply, i - n);
    }
  }

  /** The i-th accepted future, if resolved, holds `f` of its own text. */
  ghost predicate ServedBy(f: Text -> Vector, s: State) {
    && |s.log| <= |s.accepted|
    && forall i :: 0 <= i < |s.log| ==> s.log[i] == (s.accepted[i].future, Ok(f(s.accepted[i].text)))
  }

  /** If the batch function acts as `f`, every resolved future was served as if embedded alone. */
  lemma CoalescingRefinesSingle(cfg: Config, schedule: seq<Action>, f: Text -> Vector)
    requires ValidConfig(cfg) && Run(cfg, schedule).Some? && EmbedsAs(cfg, schedule, f)
    ensures ServedBy(f, Run(cfg, schedule).value)
  {
    Safety(cfg, schedule);
    RunRepliesPointwise(cfg, schedule, f);
    InvServedBy(cfg, Run(cfg, schedule).value, f);
  }

  lemma InvServedBy(cfg: Config, s: State, f: Text -> Vector)
    requires Inv(cfg, s) && RepliesPointwise(f, s)
    ensures ServedBy(f, s)
  {
    FlatResolutionsLength(s.flushed);
    forall i | 0 <= i < |s.log| ensures s.log[i] == (s.accepted[i].future, Ok(f(s.accepted[i].text))) {
      LoggedPointwise(s, f, i);
    }
  }

  lemma LoggedPointwise(s: State, f: Text -> Vector, i: nat)
    requires s.worker.Resolving? ==> s.worker.next < |s.worker.batch|
    requires InOrder(s) && LogFollowsBatches(s) && RepliesPointwise(f, s) && i < |s.log|
    ensures i < |s.accepted| && s.log[i] == (s.accepted[i].future, Ok(f(s.accepted[i].text)))
  {
    FlatResolutionsLength(s.flushed);
    var n := |Flat(s.flushed)|;
    if i < n {
      FlatPointwise(s.flushed, f, i);
    } else {
      PointwiseOutcome(f, s.worker.batch, s.worker.reply, i - n);
    }
  }

  // ---------------------------------------------------------------------------
  // Shutdown terminates
  // ---------------------------------------------------------------------------

  predicate IsWorkerStep(a: Action) {
    !a.Submit? && !a.Close?
  }

  /** Work left for the worker once no more items are accepted. */
  function Work(s: State): nat
    requires s.worker.Resolving? ==> s.worker.next <= |s.worker.batch|
  {
    4 * |s.pending| +
    match s.worker
    case Waiting => 1
    case Taken(b, _) => 1 + 3 * |b|
    case Calling(b, _) => 1 + 2 * |b|
    case Resolving(b, _, _, i) => 1 + |b| - i
    case Exited => 0
  }

  lemma ClosedStep(cfg: Config, s: State, a: Action)
    requires ValidConfig(cfg) && Inv(cfg, s) && Enabled(cfg, s, a) && s.closed
    ensures Inv(cfg, Step(cfg, s, a)) && Step(cfg, s, a).closed && Step(cfg, s, a).accepted == s.accepted
    ensures if IsWorkerStep(a) then Work(Step(cfg, s, a)) < Work(s) else Work(Step(cfg, s, a)) == Work(s)
  {
    StepKeepsInv(cfg, s, a);
  }

  /** The worker is never blocked after close: it has a step to take until it has returned. */
  lemma ClosedWorkerCanMove(cfg: Config, s: State, now: real, reply: Reply)
    requires ValidConfig(cfg) && Inv(cfg, s) && s.closed
    ensures s.worker.Exited? <==>
            forall a :: a in [Take(now), Count, Answer(reply), Resolve, Exit] ==> !Enabled(cfg, s, a)
  {
    if s.worker.Waiting? {
      var a := if s.pending == [] then Exit else Take(now);
      assert Enabled(cfg, s, a);
    } else if !s.worker.Exited? {
      var a := if s.worker.Taken? then Count else if s.worker.Calling? then Answer(reply) else Resolve;
      assert Enabled(cfg, s, a);
    }
  }

  function WorkerSteps(schedule: seq<Action>): nat {
    if schedule == [] then 0 else WorkerSteps(Init(schedule)) + if IsWorkerStep(Last(schedule)) then 1 else 0
  }

  /** After close the worker takes at most `Work` further steps, however submitters interleave. */
  lemma {:induction false} ShutdownTerminates(cfg: Config, before: seq<Action>, after: seq<Action>)
    requires ValidConfig(cfg) && Run(cfg, before).Some? && Run(cfg, before).value.closed
    requires Run(cfg, before + after).Some?
    ensures Inv(cfg, Run(cfg, before).value) && Inv(cfg, Run(cfg, before + after).value)
    ensures Run(cfg, before + after).value.closed
    ensures Work(Run(cfg, before + after).value) + WorkerSteps(after) <= Work(Run(cfg, before).value)
    ensures Run(cfg, before + after).value.accepted == Run(cfg, before).value.accepted
  {
    Safety(cfg, before);
    if after == [] {
      assert before + after == before;
    } else {
      var all := before + after;
      assert Init(all) == before + Init(after) && Last(all) == Last(after);
      ShutdownTerminates(cfg, before, Init(after));
      ClosedStep(cfg, Run(cfg, Init(all)).value, Last(all));
    }
  }

  // ---------------------------------------------------------------------------
  // The object
  // ---------------------------------------------------------------------------

  /** The dedup loop: one slot per distinct text, and for each item the slot that serves it. */
  method Dedup(texts: seq<Text>) returns (unique: seq<Text>, slots: seq<nat>)
    ensures unique == Unique(texts)
    ensures |slots| == |texts|
    ensures forall i :: 0 <= i < |slots| ==> slots[i] < |unique| && unique[slots[i]] == texts[i]
  {
    unique, slots := [], [];
    var indexOf: map<Text, nat> := map[];
    for n := 0 to |texts|
      invariant unique == Unique(texts[..n])
      invariant |slots| == n
      invariant forall k :: 0 <= k < |unique| ==> unique[k] in indexOf
      invariant forall t :: t in indexOf ==> indexOf[t] < |unique| && unique[indexOf[t]] == t
      invariant forall i :: 0 <= i < n ==> slots[i] < |unique| && unique[slots[i]] == texts[i]
    {
      assert Init(texts[..n + 1]) == texts[..n];
      var t := texts[n];
      if t !in indexOf {
        indexOf := indexOf[t := |unique|];
        unique := unique + [t];
      }
      slots := slots + [indexOf[t]];
    }
    assert texts[..|texts|] == texts;
  }

  /** A call from another thread. */
  predicate FromOutside(a: Action) {
    a.Submit? || a.Close?
  }

  predicate AllFromOutside(calls: seq<Action>) {
    forall i :: 0 <= i < |calls| ==> FromOutside(calls[i])
  }

  /** The first `n` turns of the fan-out, with the calls from outside that precede each of them. */
  function FanOut(others: seq<seq<Action>>, n: nat): seq<Action>
    requires n <= |others|
  {
    if n == 0 then [] else FanOut(others, n - 1) + (others[n - 1] + [Resolve])
  }

  /** The flush of a batch: `during` falls into the upstream call, `others` between the resolutions. */
  function FlushSteps(reply: Reply, during: seq<Action>, others: seq<seq<Action>>): seq<Action> {
    [Count] + during + [Answer(reply)] + FanOut(others, |others|)
  }

  lemma {:induction false} AfterConcat(cfg: Config, s: State, a: seq<Action>, b: seq<Action>)
    requires After(cfg, s, a).Some?
    ensures After(cfg, s, a + b) == After(cfg, After(cfg, s, a).value, b)
  {
    if b == [] {
      assert a + b == a;
    } else {
      AfterConcat(cfg, s, a, Init(b));
      assert Init(a + b) == a + Init(b) && Last(a + b) == Last(b);
    }
  }

  lemma AfterOne(cfg: Config, s: State, a: Action)
    requires Enabled(cfg, s, a)
    ensures After(cfg, s, [a]) == Some(Step(cfg, s, a))
  {
    assert Init([a]) == [];
  }

  lemma AfterSnoc(cfg: Config, s: State, schedule: seq<Action>, a: Action)
    requires After(cfg, s, schedule).Some? && Enabled(cfg, After(cfg, s, schedule).value, a)
    ensures After(cfg, s, schedule + [a]) == Some(Step(cfg, After(cfg, s, schedule).value, a))
  {
    AfterConcat(cfg, s, schedule, [a]);
    AfterOne(cfg, After(cfg, s, schedule).value, a);
  }

  class Coalescer {
    const cfg: Config
    const embed: seq<Text> -> Reply
    var pending: seq<Item>
    var closed: bool
    var stats: Stats
    var futures: map<FutureId, Outcome>
    var nextFuture: FutureId
    ghost var worker: Worker
    ghost var accepted: seq<Item>
    ghost var flushed: seq<Flush>
    ghost var log: seq<(FutureId, Outcome)>

    ghost function Model(): State
      reads this
    {
      State(pending, closed, worker, stats, futures, nextFuture, accepted, flushed, log)
    }

    constructor (cfg: Config, embed: seq<Text> -> Reply)
      requires ValidConfig(cfg)
      ensures Model() == INITIAL && this.cfg == cfg && this.embed == embed
    {
      this.cfg, this.embed := cfg, embed;
      pending, closed, stats, futures, nextFuture := [], false, NO_STATS, map[], 0;
      worker, accepted, flushed, log := Waiting, [], [], [];
    }

    method Submit(text: Text, now: real) returns (f: FutureId)
      modifies this
      ensures Model() == Step(cfg, old(Model()), Action.Submit(text, now))
      ensures f == old(nextFuture) && (old(closed) ==> f in futures && futures[f] == Err(CoalescerClosed))
    {
      f := nextFuture;
      nextFuture := nextFuture + 1;
      if closed {
        futures := futures[f := Err(CoalescerClosed)];
        return;
      }
      pending := pending + [Item(text, f, now)];
      accepted := accepted + [Item(text, f, now)];
      stats := stats.(submitted := stats.submitted + 1);
    }

    method Close()
      modifies this
      ensures Model() == Step(cfg, old(Model()), Action.Close)
    {
      closed := true;
    }

    /** The part of the worker loop that runs under the lock, once a flush is due. */
    method TakeBatch(now: real) returns (batch: seq<Item>, reason: Reason)
      requires ValidConfig(cfg) && Enabled(cfg, Model(), Take(now))
      modifies this
      ensures Model() == Step(cfg, old(Model()), Take(now))
      ensures worker == Taken(batch, reason) && 1 <= |batch| <= cfg.maxBatch
      ensures batch + pending == old(pending) && (pending == [] || |batch| == cfg.maxBatch)
      ensures reason.ByClose? <==> old(closed)
      ensures reason.BySize? <==> !old(closed) && |old(pending)| >= cfg.maxBatch
      ensures reason.ByTime? ==> now - batch[0].submittedAt >= cfg.maxWait
    {
      if closed {
        reason := ByClose;
      } else if |pending| >= cfg.maxBatch {
        reason := BySize;
      } else {
        reason := ByTime;
      }
      var n := if |pending| <= cfg.maxBatch then |pending| else cfg.maxBatch;
      batch := pending[..n];
      pending := pending[n..];
      worker := Taken(batch, reason);
    }

    /** One turn of the fan-out loop: sets the future of item `i` from its upstream slot. */
    method ResolveOne(batch: seq<Item>, ghost reason: Reason, reply: Reply, i: nat, unique: seq<Text>, slot: nat)
      requires worker == Resolving(batch, reason, reply, i)
      requires i < |batch| && unique == Unique(Texts(batch)) && slot < |unique| && unique[slot] == batch[i].text
      modifies this
      ensures Model() == Step(cfg, old(Model()), Resolve)
    {
      UniqueCoversOnce(Texts(batch));
      var o: Outcome :=
        if reply.Raised? then Err(Upstream(reply.message))
        else if |reply.vectors| != |unique| then Err(WrongLength(|reply.vectors|, |unique|))
        else Ok(reply.vectors[slot]);
      assert o == ItemOutcome(batch, reply, i);
      if batch[i].future !in futures {
        futures := futures[batch[i].future := o];
        log := log + [(batch[i].future, o)];
      }
      if i + 1 < |batch| {
        worker := Resolving(batch, reason, reply, i + 1);
      } else {
        worker, flushed := Waiting, flushed + [Flush(batch, reason, reply)];
      }
    }

    /** Calls that other threads make while the worker is between two of its steps. */
    method Interfere(calls: seq<Action>)
      requires AllFromOutside(calls)
      modifies this
      ensures Some(Model()) == After(cfg, old(Model()), calls) && worker == old(worker)
    {
      for i := 0 to |calls|
        invariant Some(Model()) == After(cfg, old(Model()), calls[..i]) && worker == old(worker)
      {
        AfterSnoc(cfg, old(Model()), calls[..i], calls[i]);
        assert calls[..i + 1] == calls[..i] + [calls[i]];
        match calls[i] {
          case Submit(text, now) => var _ := Submit(text, now);
          case Close => Close();
        }
      }
      assert calls[..|calls|] == calls;
    }

    /**
     * The first half of a flush: counters, dedup, the upstream call and its length check. The calls
     * `during` come from other threads while the upstream call runs.
     */
    method CountAndCall(batch: seq<Item>, reason: Reason, during: seq<Action>)
      returns (unique: seq<Text>, slots: seq<nat>, reply: Reply)
      requires worker == Taken(batch, reason) && AllFromOutside(during)
      modifies this
      ensures unique == Unique(Texts(batch)) && reply == embed(unique)
      ensures |slots| == |batch|
      ensures forall i :: 0 <= i < |slots| ==> slots[i] < |unique| && unique[slots[i]] == batch[i].text
      ensures worker == Resolving(batch, reason, reply, 0)
      ensures Some(Model()) == After(cfg, old(Model()), [Count] + during + [Answer(reply)])
    {
      AfterOne(cfg, Model(), Count);
      unique, slots := CountBatch(batch, reason);
      Interfere(during);
      AfterConcat(cfg, old(Model()), [Count], during);
      reply := embed(unique);
      AfterSnoc(cfg, old(Model()), [Count] + during, Answer(reply));
      TakeAnswer(batch, reason, unique, reply);
    }

    method CountBatch(batch: seq<Item>, reason: Reason) returns (unique: seq<Text>, slots: seq<nat>)
      requires worker == Taken(batch, reason)
      modifies this
      ensures unique == Unique(Texts(batch)) && |slots| == |batch|
      ensures forall i :: 0 <= i < |slots| ==> slots[i] < |unique| && unique[slots[i]] == batch[i].text
      ensures worker == Calling(batch, reason) && Model() == Step(cfg, old(Model()), Count)
    {
      unique, slots := Dedup(Texts(batch));
      stats := Counted(stats, batch, reason);
      worker := Calling(batch, reason);
    }

    method TakeAnswer(batch: seq<Item>, ghost reason: Reason, unique: seq<Text>, reply: Reply)
      requires worker == Calling(batch, reason) && unique == Unique(Texts(batch))
      modifies this
      ensures worker == Resolving(batch, reason, reply, 0) && Model() == Step(cfg, old(Model()), Answer(reply))
    {
      if reply.Raised? || |reply.vectors| != |unique| {
        stats := stats.(errors := stats.errors + 1);
      }
      worker := Resolving(batch, reason, reply, 0);
    }

    /** The fan-out loop over the whole batch, with the calls `others[i]` before item `i` is resolved. */
    method ResolveBatch(batch: seq<Item>, ghost reason: Reason, reply: Reply, unique: seq<Text>, slots: seq<nat>,
                        others: seq<seq<Action>>)
      requires worker == Resolving(batch, reason, reply, 0) && batch != []
      requires unique == Unique(Texts(batch)) && |slots| == |batch|
      requires forall i :: 0 <= i < |slots| ==> slots[i] < |unique| && unique[slots[i]] == batch[i].text
      requires |others| == |batch| && forall i :: 0 <= i < |others| ==> AllFromOutside(others[i])
      modifies this
      ensures worker.Waiting?
      ensures Some(Model()) == After(cfg, old(Model()), FanOut(others, |batch|))
    {
      for i := 0 to |batch|
        invariant worker == if i < |batch| then Resolving(batch, reason, reply, i) else Waiting
        invariant Some(Model()) == After(cfg, old(Model()), FanOut(others, i))
      {
        AfterConcat(cfg, old(Model()), FanOut(others, i), others[i] + [Resolve]);
        ResolveTurn(batch, reason, reply, i, unique, slots[i], others[i]);
      }
    }

    /** Calls from outside, then one turn of the fan-out loop. */
    method ResolveTurn(batch: seq<Item>, ghost reason: Reason, reply: Reply, i: nat, unique: seq<Text>, slot: nat,
                       calls: seq<Action>)
      requires worker == Resolving(batch, reason, reply, i) && AllFromOutside(calls)
      requires i < |batch| && unique == Unique(Texts(batch)) && slot < |unique| && unique[slot] == batch[i].text
      modifies this
      ensures worker == if i + 1 < |batch| then Resolving(batch, reason, reply, i + 1) else Waiting
      ensures Some(Model()) == After(cfg, old(Model()), calls + [Resolve])
    {
      Interfere(calls);
      AfterSnoc(cfg, old(Model()), calls, Resolve);
      ResolveOne(batch, reason, reply, i, unique, slot);
    }

    /**
     * The flush of one batch: it counts, dedups, calls upstream and resolves each future, while other
     * threads submit and close between any two of these steps, and ends where the corresponding
     * schedule of the protocol ends.
     */
    method FlushBatch(batch: seq<Item>, reason: Reason, during: seq<Action>, others: seq<seq<Action>>)
      requires worker == Taken(batch, reason) && batch != [] && AllFromOutside(during)
      requires |others| == |batch| && forall i :: 0 <= i < |others| ==> AllFromOutside(others[i])
      modifies this
      ensures worker.Waiting?
      ensures Some(Model()) == After(cfg, old(Model()), FlushSteps(embed(Unique(Texts(batch))), during, others))
    {
      var unique, slots, reply := CountAndCall(batch, reason, during);
      ResolveBatch(batch, reason, reply, unique, slots, others);
      AfterConcat(cfg, old(Model()), [Count] + during + [Answer(reply)], FanOut(others, |others|));
    }
  }
}
