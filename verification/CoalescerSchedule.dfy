/**
 * The coalescer against its schedule alone: which submissions are accepted, when a batch is due, what
 * it holds and why it was flushed, in terms of the calls made, their clock readings and the limits.
 */
module CoalescerSchedule {
  import opened Common
  import opened BatchCoalescer

  datatype Submission = Submission(text: Text, now: real)

  /** The submissions of a schedule, in order; submission `f` is the one that got future `f`. */
  function Submits(schedule: seq<Action>): seq<Submission> {
    if schedule == [] then []
    else
      match Last(schedule)
      case Submit(text, now) => Submits(Init(schedule)) + [Submission(text, now)]
      case _ => Submits(Init(schedule))
  }

  /** The part of a schedule before its first close. */
  function BeforeClose(schedule: seq<Action>): seq<Action> {
    if schedule == [] then []
    else if Close in Init(schedule) then BeforeClose(Init(schedule))
    else if Last(schedule).Close? then Init(schedule)
    else schedule
  }

  function TakeCount(schedule: seq<Action>): nat {
    if schedule == [] then 0 else TakeCount(Init(schedule)) + if Last(schedule).Take? then 1 else 0
  }

  // ---------------------------------------------------------------------------
  // Which submissions are accepted
  // ---------------------------------------------------------------------------

  /** Accepted items are the submissions before close, with their texts and clock readings. */
  ghost predicate AcceptsBeforeClose(schedule: seq<Action>, s: State) {
    var all, open := Submits(schedule), |Submits(BeforeClose(schedule))|;
    && s.nextFuture == |all| && |s.accepted| == open <= |all|
    && (forall i :: 0 <= i < open ==> s.accepted[i] == Item(all[i].text, i, all[i].now))
    && (forall f :: open <= f < |all| ==> f in s.futures && s.futures[f] == Err(CoalescerClosed))
    && (s.closed <==> Close in schedule)
  }

  lemma CloseInSnoc(schedule: seq<Action>)
    requires schedule != []
    ensures Close in schedule <==> Close in Init(schedule) || Last(schedule) == Close
  {
    assert schedule == Init(schedule) + [Last(schedule)];
  }

  lemma OpenSchedule(schedule: seq<Action>)
    requires Close !in schedule
    ensures BeforeClose(schedule) == schedule
  {
    if schedule != [] {
      CloseInSnoc(schedule);
    }
  }

  lemma AcceptSubmit(cfg: Config, schedule: seq<Action>, s: State)
    requires schedule != [] && AcceptsBeforeClose(Init(schedule), s) && Last(schedule).Submit?
    ensures AcceptsBeforeClose(schedule, Step(cfg, s, Last(schedule)))
  {
    CloseInSnoc(schedule);
    if Close !in Init(schedule) {
      OpenSchedule(Init(schedule));
      OpenSchedule(schedule);
    }
  }

  /** A step that hands out no future and forgets none leaves the accepted items as they are. */
  lemma AcceptOther(schedule: seq<Action>, s: State, t: State)
    requires schedule != [] && AcceptsBeforeClose(Init(schedule), s) && !Last(schedule).Submit?
    requires t.accepted == s.accepted && t.nextFuture == s.nextFuture
    requires t.closed == (s.closed || Last(schedule).Close?)
    requires forall f :: f in s.futures ==> f in t.futures && t.futures[f] == s.futures[f]
    ensures AcceptsBeforeClose(schedule, t)
  {
    CloseInSnoc(schedule);
    if Close !in Init(schedule) {
      OpenSchedule(Init(schedule));
    }
    assert |Submits(BeforeClose(schedule))| == |Submits(BeforeClose(Init(schedule)))|;
  }

  lemma AcceptStep(cfg: Config, schedule: seq<Action>, s: State)
    requires schedule != [] && AcceptsBeforeClose(Init(schedule), s)
    requires Inv(cfg, s) && Enabled(cfg, s, Last(schedule))
    ensures AcceptsBeforeClose(schedule, Step(cfg, s, Last(schedule)))
  {
    if Last(schedule).Submit? {
      AcceptSubmit(cfg, schedule, s);
    } else {
      if Last(schedule).Resolve? {
        ResolveEffect(cfg, s);
        NextToResolve(cfg, s);
      }
      AcceptOther(schedule, s, Step(cfg, s, Last(schedule)));
    }
  }

  /**
   * In every run the accepted items are the submissions made before the first close, in order, each
   * with its own text and clock reading, and every later submission was failed at once.
   */
  lemma {:induction false} AcceptedAreSubmissions(cfg: Config, schedule: seq<Action>)
    requires ValidConfig(cfg) && Run(cfg, schedule).Some?
    ensures AcceptsBeforeClose(schedule, Run(cfg, schedule).value)
  {
    if schedule != [] {
      RunStep(cfg, schedule);
      AcceptedAreSubmissions(cfg, Init(schedule));
      Safety(cfg, Init(schedule));
      AcceptStep(cfg, schedule, Run(cfg, Init(schedule)).value);
    }
  }

  // ---------------------------------------------------------------------------
  // When a batch is due
  // ---------------------------------------------------------------------------

  /** A batch is due once it is closed, full, or its oldest submission has waited long enough. */
  ghost predicate Due(cfg: Config, schedule: seq<Action>, done: nat, now: real) {
    && done < |Submits(BeforeClose(schedule))| <= |Submits(schedule)|
    && (|| Close in schedule
        || |Submits(BeforeClose(schedule))| - done >= cfg.maxBatch
        || now - Submits(schedule)[done].now >= cfg.maxWait)
  }

  /**
   * In every run, a waiting worker may take a batch at `now` exactly when some submission is left over
   * from the finished batches and close was called, or `max_batch_size` of them are left, or
   * `max_wait_s` has passed since the oldest of them was submitted.
   */
  lemma TakeWhenDue(cfg: Config, schedule: seq<Action>, now: real)
    requires ValidConfig(cfg) && Run(cfg, schedule).Some? && Run(cfg, schedule).value.worker.Waiting?
    ensures Enabled(cfg, Run(cfg, schedule).value, Take(now))
            <==> Due(cfg, schedule, |Flat(Run(cfg, schedule).value.flushed)|, now)
  {
    var s := Run(cfg, schedule).value;
    Safety(cfg, schedule);
    AcceptedAreSubmissions(cfg, schedule);
    if s.pending != [] {
      assert s.pending[0] == s.accepted[|Flat(s.flushed)|];
    }
  }

  // ---------------------------------------------------------------------------
  // What was taken, and why
  // ---------------------------------------------------------------------------

  type Cut = (seq<Item>, Reason)

  /** The batches cut so far, each with the reason it was flushed for, the one at hand last. */
  function Cuts(s: State): seq<Cut> {
    FlushedCuts(s.flushed) +
    if s.worker.Taken? || s.worker.Calling? || s.worker.Resolving? then [(s.worker.batch, s.worker.reason)] else []
  }

  function FlushedCuts(flushed: seq<Flush>): seq<Cut> {
    seq(|flushed|, i requires 0 <= i < |flushed| => (flushed[i].batch, flushed[i].reason))
  }

  /** Only taking a batch adds a cut, and no cut ever changes. */
  lemma CutsStep(cfg: Config, s: State, a: Action)
    requires Inv(cfg, s) && Enabled(cfg, s, a)
    ensures a.Take? ==> |Cuts(Step(cfg, s, a))| == |Cuts(s)| + 1 && Cuts(s) == Cuts(Step(cfg, s, a))[..|Cuts(s)|]
    ensures !a.Take? ==> Cuts(Step(cfg, s, a)) == Cuts(s)
  {
    if a.Resolve? {
      ResolveEffect(cfg, s);
    }
  }

  lemma {:induction false} CutsGrow(cfg: Config, schedule: seq<Action>, m: nat)
    requires ValidConfig(cfg) && Run(cfg, schedule).Some? && m <= |schedule|
    ensures Run(cfg, schedule[..m]).Some? && Cuts(Run(cfg, schedule[..m]).value) <= Cuts(Run(cfg, schedule).value)
    ensures |Cuts(Run(cfg, schedule).value)| == TakeCount(schedule)
    decreases |schedule|
  {
    if schedule != [] {
      RunStep(cfg, schedule);
      Safety(cfg, Init(schedule));
      CutsStep(cfg, Run(cfg, Init(schedule)).value, Last(schedule));
      CutsGrow(cfg, Init(schedule), if m == |schedule| then 0 else m);
      assert m < |schedule| ==> Init(schedule)[..m] == schedule[..m];
    }
    assert schedule[..|schedule|] == schedule;
  }

  /** The batch is made of the submissions from `first` on. */
  ghost predicate Submitted(batch: seq<Item>, first: nat, all: seq<Submission>) {
    && first + |batch| <= |all|
    && forall i :: 0 <= i < |batch| ==> batch[i] == Item(all[first + i].text, first + i, all[first + i].now)
  }

  /** The cut is the next run of submissions, as long as possible, and its reason is the true one. */
  ghost predicate CutIsRight(cfg: Config, before: seq<Action>, now: real, all: seq<Submission>, cut: Cut) {
    && cut.0 != []
    && var first := cut.0[0].future;
       var left := |Submits(BeforeClose(before))| - first;
       && |cut.0| == (if left <= cfg.maxBatch then left else cfg.maxBatch)
       && Submitted(cut.0, first, all)
       && (cut.1.ByClose? <==> Close in before)
       && (cut.1.BySize? <==> Close !in before && left >= cfg.maxBatch)
       && (cut.1.ByTime? ==> now - all[first].now >= cfg.maxWait)
  }

  /** The pending items are the submissions the finished batches have left. */
  lemma PendingAreNext(schedule: seq<Action>, s: State)
    requires AcceptsBeforeClose(schedule, s) && InOrder(s) && s.worker.Waiting?
    ensures |Flat(s.flushed)| + |s.pending| == |Submits(BeforeClose(schedule))| <= |Submits(schedule)|
    ensures Submitted(s.pending, |Flat(s.flushed)|, Submits(schedule))
  {
    RestSubmitted(Flat(s.flushed), s.pending, Submits(schedule), s.accepted);
  }

  lemma RestSubmitted(done: seq<Item>, pending: seq<Item>, all: seq<Submission>, accepted: seq<Item>)
    requires accepted == done + [] + pending && |accepted| <= |all|
    requires forall i :: 0 <= i < |accepted| ==> accepted[i] == Item(all[i].text, i, all[i].now)
    ensures Submitted(pending, |done|, all)
  {
    forall i | 0 <= i < |pending|
      ensures pending[i] == Item(all[|done| + i].text, |done| + i, all[|done| + i].now)
    {
      assert pending[i] == accepted[|done| + i];
    }
  }

  lemma CutOfPending(cfg: Config, before: seq<Action>, s: State, now: real)
    requires ValidConfig(cfg) && AcceptsBeforeClose(before, s) && InOrder(s) && Enabled(cfg, s, Take(now))
    ensures CutIsRight(cfg, before, now, Submits(before), (s.pending[..BatchSize(cfg, s)], FlushReason(cfg, s)))
  {
    PendingAreNext(before, s);
    var batch, first := s.pending[..BatchSize(cfg, s)], |Flat(s.flushed)|;
    PrefixSubmitted(s.pending, first, Submits(before), BatchSize(cfg, s));
    assert batch[0] == s.pending[0] && batch[0].future == first;
  }

  lemma PrefixSubmitted(pending: seq<Item>, first: nat, all: seq<Submission>, n: nat)
    requires n <= |pending| && Submitted(pending, first, all)
    ensures Submitted(pending[..n], first, all)
  {
  }

  lemma CutAtTake(cfg: Config, before: seq<Action>, now: real)
    requires ValidConfig(cfg) && Run(cfg, before + [Take(now)]).Some?
    ensures var cuts := Cuts(Run(cfg, before + [Take(now)]).value);
            cuts != [] && CutIsRight(cfg, before, now, Submits(before), Last(cuts))
  {
    RunStep(cfg, before + [Take(now)]);
    assert Init(before + [Take(now)]) == before;
    Safety(cfg, before);
    AcceptedAreSubmissions(cfg, before);
    CutOfPending(cfg, before, Run(cfg, before).value, now);
  }

  lemma {:induction false} SubmitsPrefix(schedule: seq<Action>, m: nat)
    requires m <= |schedule|
    ensures Submits(schedule[..m]) <= Submits(schedule)
  {
    if m < |schedule| {
      SubmitsPrefix(Init(schedule), m);
      assert Init(schedule)[..m] == schedule[..m];
    } else {
      assert schedule[..m] == schedule;
    }
  }

  /**
   * In every run, the batch cut by the n-th step is the next run of submissions: all that are left, up to
   * `max_batch_size`. It was flushed because of close exactly when close had been called by then, for its
   * size exactly when it was not and that many were left, and for time only when `max_wait_s` had passed
   * since its first item was submitted.
   */
  lemma FlushesForTheRightReason(cfg: Config, schedule: seq<Action>, n: nat)
    requires ValidConfig(cfg) && Run(cfg, schedule).Some? && n < |schedule| && schedule[n].Take?
    ensures var cuts, k := Cuts(Run(cfg, schedule).value), TakeCount(schedule[..n]);
            k < |cuts| == TakeCount(schedule)
            && CutIsRight(cfg, schedule[..n], schedule[n].now, Submits(schedule), cuts[k])
  {
    var before, now := schedule[..n], schedule[n].now;
    assert schedule[..n + 1] == before + [Take(now)];
    var cut := CutInPlace(cfg, schedule, n);
    CutAtTake(cfg, before, now);
    SubmitsPrefix(schedule, n);
    RightLater(cfg, before, now, Submits(before), Submits(schedule), cut);
  }

  lemma CutInPlace(cfg: Config, schedule: seq<Action>, n: nat) returns (cut: Cut)
    requires ValidConfig(cfg) && Run(cfg, schedule).Some? && n < |schedule| && schedule[n].Take?
    ensures var cuts, k := Cuts(Run(cfg, schedule).value), TakeCount(schedule[..n]);
            k < |cuts| == TakeCount(schedule) && cuts[k] == cut
    ensures Run(cfg, schedule[..n + 1]).Some? && Cuts(Run(cfg, schedule[..n + 1]).value) != []
    ensures cut == Last(Cuts(Run(cfg, schedule[..n + 1]).value))
  {
    CutsGrow(cfg, schedule, n + 1);
    var upTo := schedule[..n + 1];
    CutsGrow(cfg, upTo, n);
    assert upTo[..n] == schedule[..n] == Init(upTo);
    cut := Last(Cuts(Run(cfg, upTo).value));
  }

  lemma RightLater(cfg: Config, before: seq<Action>, now: real, all: seq<Submission>, later: seq<Submission>, cut: Cut)
    requires all <= later && CutIsRight(cfg, before, now, all, cut)
    ensures CutIsRight(cfg, before, now, later, cut)
  {
  }

  // ---------------------------------------------------------------------------
  // What goes upstream, and what a wrong reply means
  // ---------------------------------------------------------------------------

  /** The upstream list is in order of first occurrence. */
  lemma {:induction false} UniqueInOrder(texts: seq<Text>, k: nat) returns (p: nat)
    requires k < |Unique(texts)|
    ensures p < |texts| && texts[p] == Unique(texts)[k] && Unique(texts)[k] !in texts[..p]
    ensures forall t :: t in texts[..p] <==> t in Unique(texts)[..k]
  {
    var before := Init(texts);
    if k < |Unique(before)| {
      p := UniqueInOrder(before, k);
      assert before[..p] == texts[..p] && Unique(before)[..k] == Unique(texts)[..k];
    } else {
      p := |texts| - 1;
      UniqueCoversOnce(before);
      assert Unique(texts)[..k] == Unique(before) && texts[..p] == before;
    }
  }

  /**
   * In every run, what a future of a finished batch holds: the exception that was raised, a complaint with
   * the number of vectors returned and of distinct texts sent, or the vector at the place its text had in
   * the list sent upstream.
   */
  lemma FinishedFutureHolds(cfg: Config, schedule: seq<Action>, k: nat, i: nat)
    requires ValidConfig(cfg) && Run(cfg, schedule).Some? && k < |Run(cfg, schedule).value.flushed|
    requires i < |Run(cfg, schedule).value.flushed[k].batch|
    ensures var s := Run(cfg, schedule).value;
            var Flush(batch, _, reply) := s.flushed[k];
            var f, want := batch[i].future, |TextSet(batch)|;
            && f in s.futures
            && match reply
               case Raised(m) => s.futures[f] == Err(Upstream(m))
               case Returned(vs) =>
                 if |vs| != want then s.futures[f] == Err(WrongLength(|vs|, want))
                 else exists j :: 0 <= j < |vs| && |Unique(Texts(batch))| == |vs|
                               && Unique(Texts(batch))[j] == batch[i].text && s.futures[f] == Ok(vs[j])
  {
    Safety(cfg, schedule);
    var s := Run(cfg, schedule).value;
    var batch, reply := s.flushed[k].batch, s.flushed[k].reply;
    var n := FlatResolutionOf(s.flushed, k, i);
    assert s.log[n] == FlatResolutions(s.flushed)[n];
    DistinctTexts(batch);
    UniqueCoversOnce(Texts(batch));
    assert Texts(batch)[i] in Texts(batch);
    var j := IndexOf(Unique(Texts(batch)), batch[i].text);
    assert Unique(Texts(batch))[j] == batch[i].text;
  }
}
