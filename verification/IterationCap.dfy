/**
 * Model of the defensive iteration cap: four stop conditions, the stuck window and the exponential
 * cooldown. Steps and fingerprints are arbitrary functions of the state, clock readings of the iteration.
 */
module IterationCap {
  import opened Common

  type Fingerprint = string

  /**
   * The injected callables. `step` gives the next state and whether it is done, `fingerprint` is
   * None where the callable raises, and `now(i)` is the clock reading taken before iteration `i`.
   */
  datatype World<!S> = World(initial: S, step: S -> (S, bool), fingerprint: S -> Option<Fingerprint>, now: nat -> real)

  datatype Config = Config(
    maxIterations: int, deadline: Option<real>, stuckThreshold: int, cooldownAfter: int, base: real, maxCooldown: real)

  datatype ConfigError = NegativeIterations | ThresholdTooSmall | NegativeCooldown | CooldownOrder

  datatype Outcome = Done | Stuck | Exhausted | Expired | FingerprintRaised

  /** `sleeps` lists the waits in order, as the injected sleep sees them. */
  datatype LoopOutcome<S> = LoopOutcome(
    outcome: Outcome, iterations: nat, finalState: S, cooldowns: nat, totalCooldown: real,
    stuckFingerprint: Option<Fingerprint>, fingerprints: seq<Fingerprint>, sleeps: seq<real>)

  function CheckConfig(c: Config): Option<ConfigError> {
    if c.maxIterations < 0 then Some(NegativeIterations)
    else if c.stuckThreshold < 2 then Some(ThresholdTooSmall)
    else if c.base < 0.0 || c.maxCooldown < 0.0 then Some(NegativeCooldown)
    else if c.maxCooldown < c.base then Some(CooldownOrder)
    else None
  }

  // ---------------------------------------------------------------------------
  // Specification: runs of equal fingerprints
  // ---------------------------------------------------------------------------

  /** Length of the longest tail of equal fingerprints. */
  function TrailingRun(fps: seq<Fingerprint>): nat {
    if fps == [] then 0
    else if |fps| >= 2 && fps[|fps| - 1] == fps[|fps| - 2] then TrailingRun(fps[..|fps| - 1]) + 1
    else 1
  }

  /** The last `n` fingerprints are all equal. */
  ghost predicate EqualWindow(fps: seq<Fingerprint>, n: nat) {
    n <= |fps| && forall i, j :: |fps| - n <= i < j < |fps| ==> fps[i] == fps[j]
  }

  lemma {:induction false} TrailingRunIsLongest(fps: seq<Fingerprint>, n: nat)
    ensures EqualWindow(fps, n) <==> n <= TrailingRun(fps)
    ensures TrailingRun(fps) <= |fps|
  {
    if fps != [] {
      var before := fps[..|fps| - 1];
      TrailingRunIsLongest(before, if n == 0 then 0 else n - 1);
      if n >= 2 {
        assert EqualWindow(fps, n) ==> fps[|fps| - 1] == fps[|fps| - 2];
        if EqualWindow(fps, n) {
          assert EqualWindow(before, n - 1);
        } else if n <= TrailingRun(fps) {
          assert EqualWindow(before, n - 1);
          forall i, j | |fps| - n <= i < j < |fps| ensures fps[i] == fps[j] {
            assert before[if i < |before| then i else |before| - 1] == before[|before| - 1];
          }
        }
      }
    }
  }

  function Pow2(n: nat): real {
    if n == 0 then 1.0 else 2.0 * Pow2(n - 1)
  }

  function MinReal(x: real, y: real): real {
    if x <= y then x else y
  }

  /** The wait before an iteration, given the no-progress counter; None when no cooldown applies. */
  function Wait(c: Config, noProgress: nat): Option<real> {
    if noProgress >= c.cooldownAfter && c.base > 0.0
    then Some(MinReal(c.base * Pow2(noProgress - c.cooldownAfter), c.maxCooldown))
    else None
  }

  function Sum(s: seq<real>): real {
    if s == [] then 0.0 else Sum(s[..|s| - 1]) + s[|s| - 1]
  }

  /** No-progress counter after a list of fingerprints: the trailing run less one. */
  function NoProgress(fps: seq<Fingerprint>): nat {
    if TrailingRun(fps) == 0 then 0 else TrailingRun(fps) - 1
  }

  // ---------------------------------------------------------------------------
  // Specification: the run a world gives rise to
  // ---------------------------------------------------------------------------

  function StateAt<S>(w: World<S>, n: nat): S {
    if n == 0 then w.initial else w.step(StateAt(w, n - 1)).0
  }

  predicate DoneAt<S>(w: World<S>, n: nat)
    requires n > 0
  {
    w.step(StateAt(w, n - 1)).1
  }

  predicate Readable<S>(w: World<S>, n: nat) {
    w.fingerprint(StateAt(w, n)).Some?
  }

  /** Fingerprints of the first `n` results; a state that has none contributes nothing. */
  function Prints<S>(w: World<S>, n: nat): seq<Fingerprint> {
    if n == 0 then []
    else if Readable(w, n) then Prints(w, n - 1) + [w.fingerprint(StateAt(w, n)).value]
    else Prints(w, n - 1)
  }

  predicate Late<S>(w: World<S>, c: Config, n: nat) {
    c.deadline.Some? && w.now(n) >= c.deadline.value
  }

  /** Iteration `n` runs to its end without stopping the loop. */
  ghost predicate Passes<S>(w: World<S>, c: Config, n: nat)
    requires n > 0 && c.stuckThreshold >= 2
  {
    !Late(w, c, n) && !DoneAt(w, n) && Readable(w, n) && !EqualWindow(Prints(w, n), c.stuckThreshold)
  }

  /** The waits before the first `n` iterations. */
  function Waits<S>(w: World<S>, c: Config, n: nat): seq<real> {
    if n == 0 then []
    else
      var wait := Wait(c, NoProgress(Prints(w, n - 1)));
      if wait.Some? then Waits(w, c, n - 1) + [wait.value] else Waits(w, c, n - 1)
  }

  /** Why the loop stopped, in terms of the run alone. */
  ghost predicate StopsFor<S>(w: World<S>, c: Config, o: Outcome, n: nat)
    requires c.stuckThreshold >= 2
  {
    match o
    case Exhausted => n == c.maxIterations
    case Expired => n < c.maxIterations && Late(w, c, n + 1)
    case Done => n > 0 && !Late(w, c, n) && DoneAt(w, n)
    case FingerprintRaised => n > 0 && !Late(w, c, n) && !DoneAt(w, n) && !Readable(w, n)
    case Stuck =>
      && n > 0 && !Late(w, c, n) && !DoneAt(w, n) && Readable(w, n)
      && EqualWindow(Prints(w, n), c.stuckThreshold)
  }

  /** All iterations before the last passed, and the report matches the run. */
  ghost predicate Faithful<S>(w: World<S>, c: Config, r: LoopOutcome<S>)
    requires c.stuckThreshold >= 2
  {
    var n := r.iterations;
    var completed := if r.outcome.Exhausted? || r.outcome.Expired? then n else n - 1;
    && n <= c.maxIterations && StopsFor(w, c, r.outcome, n)
    && (forall i :: 0 < i <= completed ==> Passes(w, c, i))
    && r.finalState == StateAt(w, n)
    && r.fingerprints == Prints(w, if r.outcome.Stuck? then n else completed)
    && r.sleeps == Waits(w, c, n) && r.cooldowns == |r.sleeps| && r.totalCooldown == Sum(r.sleeps)
    && r.stuckFingerprint == if r.outcome.Stuck? then w.fingerprint(StateAt(w, n)) else None
  }

  // ---------------------------------------------------------------------------
  // The loop
  // ---------------------------------------------------------------------------

  function SetOf(s: seq<Fingerprint>): set<Fingerprint> {
    set x | x in s
  }

  lemma SetOfOne(s: seq<Fingerprint>)
    ensures |SetOf(s)| == 1 <==> s != [] && forall i, j :: 0 <= i < j < |s| ==> s[i] == s[j]
  {
    var all := SetOf(s);
    if s != [] {
      assert s[0] in all;
      if forall i, j :: 0 <= i < j < |s| ==> s[i] == s[j] {
        assert all == {s[0]};
      }
      if |all| == 1 {
        forall i | 0 <= i < |s| ensures s[i] == s[0] {
          assert s[i] in all;
          assert |all - {s[0]}| == 0;
          assert s[i] !in all - {s[0]};
        }
      }
    } else {
      assert all == {};
    }
  }

  /** The stuck test as written: the last `n` fingerprints form a one-element set. */
  predicate WindowIsOne(fps: seq<Fingerprint>, n: nat) {
    |fps| >= n && |SetOf(fps[|fps| - n..])| == 1
  }

  lemma WindowIsEqual(fps: seq<Fingerprint>, n: nat)
    requires n >= 1
    ensures WindowIsOne(fps, n) <==> EqualWindow(fps, n)
  {
    if |fps| >= n {
      var tail := fps[|fps| - n..];
      SetOfOne(tail);
      assert forall i :: 0 <= i < n ==> tail[i] == fps[|fps| - n + i];
      if EqualWindow(fps, n) {
        forall i, j | 0 <= i < j < |tail| ensures tail[i] == tail[j] {
          assert fps[|fps| - n + i] == fps[|fps| - n + j];
        }
      }
      if forall i, j :: 0 <= i < j < |tail| ==> tail[i] == tail[j] {
        forall i, j | |fps| - n <= i < j < |fps| ensures fps[i] == fps[j] {
          assert tail[i - (|fps| - n)] == tail[j - (|fps| - n)];
        }
      }
    }
  }

  lemma SumSnoc(s: seq<real>, x: real)
    ensures Sum(s + [x]) == Sum(s) + x
  {
    assert (s + [x])[..|s|] == s;
  }

  lemma NoProgressSnoc(fps: seq<Fingerprint>, fp: Fingerprint)
    ensures NoProgress(fps + [fp]) == if |fps| >= 1 && fps[|fps| - 1] == fp then NoProgress(fps) + 1 else 0
  {
    assert (fps + [fp])[..|fps|] == fps;
  }

  /** The variables the loop carries. */
  datatype Vars<S> = Vars(
    state: S, fps: seq<Fingerprint>, counter: nat, sleeps: seq<real>, cooldowns: nat, total: real)

  /** What holds at the head of iteration `i`: the counter is the trailing run less one. */
  ghost predicate AtHead<S>(w: World<S>, c: Config, i: nat, v: Vars<S>)
    requires i > 0 && c.stuckThreshold >= 2
  {
    && v.state == StateAt(w, i - 1) && v.fps == Prints(w, i - 1) && v.counter == NoProgress(v.fps)
    && v.sleeps == Waits(w, c, i - 1) && v.cooldowns == |v.sleeps| && v.total == Sum(v.sleeps)
    && (forall k :: 0 < k < i ==> Passes(w, c, k))
  }

  function Report<S>(o: Outcome, n: nat, v: Vars<S>, stuck: Option<Fingerprint>): LoopOutcome<S> {
    LoopOutcome(o, n, v.state, v.cooldowns, v.total, stuck, v.fps, v.sleeps)
  }

  /** Sleeps before the step when the agent has been spinning. */
  method CoolDown<S>(w: World<S>, c: Config, i: nat, v: Vars<S>) returns (next: Vars<S>)
    requires i > 0 && c.stuckThreshold >= 2 && AtHead(w, c, i, v)
    ensures next == v.(sleeps := next.sleeps, cooldowns := next.cooldowns, total := next.total)
    ensures next.sleeps == Waits(w, c, i) && next.cooldowns == |next.sleeps| && next.total == Sum(next.sleeps)
  {
    var wait := Wait(c, v.counter);
    next := v;
    if wait.Some? {
      SumSnoc(v.sleeps, wait.value);
      next := v.(sleeps := v.sleeps + [wait.value], cooldowns := v.cooldowns + 1, total := v.total + wait.value);
    }
  }

  /** The second half of an iteration: record the fingerprint, test for stuck, update the counter. */
  method TakePrint<S>(w: World<S>, c: Config, i: nat, v: Vars<S>, stepped: Vars<S>)
    returns (stop: Option<LoopOutcome<S>>, next: Vars<S>)
    requires 0 < i <= c.maxIterations && c.stuckThreshold >= 2 && AtHead(w, c, i, v) && !Late(w, c, i) && !DoneAt(w, i)
    requires stepped.state == StateAt(w, i) && stepped.fps == v.fps && stepped.counter == v.counter
    requires stepped.sleeps == Waits(w, c, i) && stepped.cooldowns == |stepped.sleeps|
              && stepped.total == Sum(stepped.sleeps)
    ensures stop.Some? ==> Faithful(w, c, stop.value)
    ensures stop.None? ==> AtHead(w, c, i + 1, next)
  {
    next := stepped;
    var fp := w.fingerprint(stepped.state);
    if fp.None? {
      return Some(Report(FingerprintRaised, i, next, None)), next;
    }
    var fps := v.fps + [fp.value];
    assert fps == Prints(w, i);
    next := next.(fps := fps);
    WindowIsEqual(fps, c.stuckThreshold);
    if WindowIsOne(fps, c.stuckThreshold) {
      return Some(Report(Stuck, i, next, fp)), next;
    }
    NoProgressSnoc(v.fps, fp.value);
    next := next.(counter := if |fps| >= 2 && fps[|fps| - 1] == fps[|fps| - 2] then v.counter + 1 else 0);
    NextHead(w, c, i, v, next);
    return None, next;
  }

  lemma NextHead<S>(w: World<S>, c: Config, i: nat, v: Vars<S>, next: Vars<S>)
    requires i > 0 && c.stuckThreshold >= 2 && AtHead(w, c, i, v) && Passes(w, c, i)
    requires next.state == StateAt(w, i) && next.fps == Prints(w, i) && next.counter == NoProgress(next.fps)
    requires next.sleeps == Waits(w, c, i) && next.cooldowns == |next.sleeps| && next.total == Sum(next.sleeps)
    ensures AtHead(w, c, i + 1, next)
  {
  }

  /** One iteration: the outcome that ends the loop, or the variables at the next head. */
  method Iterate<S>(w: World<S>, c: Config, i: nat, v: Vars<S>) returns (stop: Option<LoopOutcome<S>>, next: Vars<S>)
    requires 0 < i <= c.maxIterations && c.stuckThreshold >= 2 && AtHead(w, c, i, v)
    ensures stop.Some? ==> Faithful(w, c, stop.value)
    ensures stop.None? ==> AtHead(w, c, i + 1, next)
  {
    next := v;
    if c.deadline.Some? && w.now(i) >= c.deadline.value {
      return Some(Report(Expired, i - 1, v, None)), v;
    }
    next := CoolDown(w, c, i, v);
    var (state, done) := w.step(next.state);
    next := next.(state := state);
    if done {
      return Some(Report(Done, i, next, None)), next;
    }
    stop, next := TakePrint(w, c, i, v, next);
  }

  method RunWithCap<S>(w: World<S>, c: Config) returns (r: Result<LoopOutcome<S>, ConfigError>)
    ensures r.Ok? <==> && c.maxIterations >= 0 && c.stuckThreshold >= 2
                       && c.base >= 0.0 && c.maxCooldown >= 0.0 && c.maxCooldown >= c.base
    ensures r == Err(NegativeIterations) <==> c.maxIterations < 0
    ensures r == Err(ThresholdTooSmall) <==> c.maxIterations >= 0 && c.stuckThreshold < 2
    ensures r == Err(CooldownOrder) ==> c.base >= 0.0 && c.maxCooldown >= 0.0
    ensures r == Err(NegativeCooldown) ==> c.base < 0.0 || c.maxCooldown < 0.0
    ensures r.Ok? ==> Faithful(w, c, r.value)
  {
    var problem := CheckConfig(c);
    if problem.Some? {
      return Err(problem.value);
    }
    var v := Vars(w.initial, [], 0, [], 0, 0.0);
    for i := 1 to c.maxIterations + 1
      invariant AtHead(w, c, i, v)
    {
      var stop, next := Iterate(w, c, i, v);
      if stop.Some? {
        return Ok(stop.value);
      }
      v := next;
    }
    return Ok(Report(Exhausted, c.maxIterations, v, None));
  }

  // ---------------------------------------------------------------------------
  // What every run guarantees
  // ---------------------------------------------------------------------------

  /** While the loop runs, the no-progress counter stays below `stuckThreshold - 1`. */
  lemma CounterBelowThreshold<S>(w: World<S>, c: Config, n: nat)
    requires c.stuckThreshold >= 2 && (n > 0 ==> Passes(w, c, n))
    ensures NoProgress(Prints(w, n)) < c.stuckThreshold - 1
  {
    if n > 0 {
      TrailingRunIsLongest(Prints(w, n), c.stuckThreshold);
    }
  }

  /** Two faithful reports on one world agree: the contract of the loop leaves nothing open. */
  lemma FaithfulIsUnique<S>(w: World<S>, c: Config, a: LoopOutcome<S>, b: LoopOutcome<S>)
    requires c.stuckThreshold >= 2 && Faithful(w, c, a) && Faithful(w, c, b)
    ensures a == b
  {
    SameEnd(w, c, a, b);
    SameEnd(w, c, b, a);
  }

  lemma SameEnd<S>(w: World<S>, c: Config, a: LoopOutcome<S>, b: LoopOutcome<S>)
    requires c.stuckThreshold >= 2 && Faithful(w, c, a) && Faithful(w, c, b)
    ensures a.iterations <= b.iterations
    ensures a.iterations == b.iterations ==> a.outcome == b.outcome
  {
    var n, m := b.iterations, a.iterations;
    assert 0 < n < m ==> Passes(w, c, n);
    assert m > 0 && (a.outcome.Exhausted? || a.outcome.Expired?) ==> Passes(w, c, m);
    assert n + 1 < m ==> Passes(w, c, n + 1);
    assert n > 0 && (a.outcome.Exhausted? || a.outcome.Expired?) && n == m ==> Passes(w, c, n);
    assert n > 0 && (b.outcome.Exhausted? || b.outcome.Expired?) && n == m ==> Passes(w, c, n);
  }

  /** At most one sleep per iteration, none longer than the cap. */
  lemma {:induction false} SleepsBounded<S>(w: World<S>, c: Config, n: nat)
    requires CheckConfig(c).None?
    ensures |Waits(w, c, n)| <= n && forall x :: x in Waits(w, c, n) ==> 0.0 <= x <= c.maxCooldown
  {
    if n > 0 {
      SleepsBounded(w, c, n - 1);
      WaitBounded(c, NoProgress(Prints(w, n - 1)));
    }
  }

  lemma WaitBounded(c: Config, q: nat)
    requires CheckConfig(c).None?
    ensures Wait(c, q).Some? ==> 0.0 <= Wait(c, q).value <= c.maxCooldown
  {
    if Wait(c, q).Some? {
      Pow2Positive(q - c.cooldownAfter);
    }
  }

  lemma {:induction false} Pow2Positive(n: nat)
    ensures Pow2(n) >= 1.0
  {
    if n > 0 {
      Pow2Positive(n - 1);
    }
  }

  // ---------------------------------------------------------------------------
  // How the sleeps follow the fingerprints
  // ---------------------------------------------------------------------------

  /** At least the last `m` fingerprints repeat the one before them. */
  ghost predicate Repeats(fps: seq<Fingerprint>, m: int) {
    m <= 0 || EqualWindow(fps, m + 1)
  }

  ghost predicate RepeatsExactly(fps: seq<Fingerprint>, m: int) {
    Repeats(fps, m) && !Repeats(fps, m + 1)
  }

  lemma NoProgressCountsRepeats(fps: seq<Fingerprint>, m: int)
    ensures Repeats(fps, m) <==> m <= NoProgress(fps)
  {
    if m > 0 {
      TrailingRunIsLongest(fps, m + 1);
    }
  }

  /** The loop sleeps for `x` between the n-th step and the next one. */
  predicate SleepsAfter<S>(w: World<S>, c: Config, n: nat, x: real) {
    Waits(w, c, n + 1) == Waits(w, c, n) + [x]
  }

  /**
   * No sleep while fewer than `cooldown_after` of the latest fingerprints repeat the one before them; the
   * base wait when exactly that many do; and from then on, for as long as they keep repeating, twice the
   * previous wait up to the cap.
   */
  lemma SleepsDouble<S>(w: World<S>, c: Config, n: nat)
    requires CheckConfig(c).None? && c.base > 0.0
    ensures !Repeats(Prints(w, n), c.cooldownAfter) ==> Waits(w, c, n + 1) == Waits(w, c, n)
    ensures c.cooldownAfter >= 0 && RepeatsExactly(Prints(w, n), c.cooldownAfter) ==> SleepsAfter(w, c, n, c.base)
    ensures n > 0 && Readable(w, n) && Repeats(Prints(w, n), 1) && Repeats(Prints(w, n), c.cooldownAfter + 1) ==>
              var earlier := Waits(w, c, n);
              earlier != [] && SleepsAfter(w, c, n, MinReal(2.0 * Last(earlier), c.maxCooldown))
  {
    var fps := Prints(w, n);
    NoProgressCountsRepeats(fps, c.cooldownAfter);
    NoProgressCountsRepeats(fps, c.cooldownAfter + 1);
    NoProgressCountsRepeats(fps, 1);
    if n > 0 && Readable(w, n) && Repeats(fps, 1) && Repeats(fps, c.cooldownAfter + 1) {
      NoProgressSnoc(Prints(w, n - 1), w.fingerprint(StateAt(w, n)).value);
      WaitDoubles(c, NoProgress(Prints(w, n - 1)));
    }
  }

  lemma WaitDoubles(c: Config, q: nat)
    requires CheckConfig(c).None? && c.base > 0.0 && q >= c.cooldownAfter
    ensures Wait(c, q).Some? && Wait(c, q + 1) == Some(MinReal(2.0 * Wait(c, q).value, c.maxCooldown))
  {
    var x := c.base * Pow2(q - c.cooldownAfter);
    Pow2Positive(q - c.cooldownAfter);
    LadderStep(c.base, q - c.cooldownAfter);
    assert c.base * Pow2(q + 1 - c.cooldownAfter) == 2.0 * x;
    assert x > 0.0;
  }

  lemma LadderStep(base: real, k: nat)
    ensures base * Pow2(k + 1) == 2.0 * (base * Pow2(k))
  {
  }

  /** Without a base wait the loop never sleeps. */
  lemma {:induction false} NoBaseNoSleeps<S>(w: World<S>, c: Config, n: nat)
    requires CheckConfig(c).None? && c.base == 0.0
    ensures Waits(w, c, n) == []
  {
    if n > 0 {
      NoBaseNoSleeps(w, c, n - 1);
    }
  }

  // ---------------------------------------------------------------------------
  // What each outcome means
  // ---------------------------------------------------------------------------

  /**
   * The report in terms of the callables. Every step that ran started before the deadline, no step but the
   * last was done, and no window of equal fingerprints was complete before the last one. The outcome is
   * expired only if the clock had then reached the deadline, done exactly if the last step was, stuck only
   * if the last `stuck_threshold` fingerprints are equal, and exhausted only after `max_iterations` steps.
   */
  lemma OutcomeMeans<S>(w: World<S>, c: Config, r: LoopOutcome<S>)
    requires CheckConfig(c).None? && Faithful(w, c, r)
    ensures var n := r.iterations;
            && n <= c.maxIterations
            && (c.deadline.Some? ==> forall i :: 0 < i <= n ==> w.now(i) < c.deadline.value)
            && (forall i :: 0 <= i && i + 1 < n ==> !w.step(StateAt(w, i)).1)
            && (forall i :: 0 < i < n ==> !EqualWindow(Prints(w, i), c.stuckThreshold))
            && (r.outcome.Done? <==> n > 0 && w.step(StateAt(w, n - 1)).1)
            && (r.outcome.Expired? ==> c.deadline.Some? && w.now(n + 1) >= c.deadline.value)
            && (r.outcome.Stuck? ==> EqualWindow(r.fingerprints, c.stuckThreshold)
                                     && r.stuckFingerprint == Some(Last(r.fingerprints)))
            && (r.outcome.FingerprintRaised? <==> n > 0 && !r.outcome.Done? && w.fingerprint(StateAt(w, n)).None?)
            && (r.outcome.Exhausted? ==> n == c.maxIterations)
  {
    var n := r.iterations;
    var completed := if r.outcome.Exhausted? || r.outcome.Expired? then n else n - 1;
    if c.deadline.Some? {
      forall i | 0 < i <= n ensures w.now(i) < c.deadline.value {
        assert i <= completed ==> Passes(w, c, i);
      }
    }
    forall i | 0 <= i && i + 1 < n ensures !w.step(StateAt(w, i)).1 {
      assert Passes(w, c, i + 1);
    }
    forall i | 0 < i < n ensures !EqualWindow(Prints(w, i), c.stuckThreshold) {
      assert Passes(w, c, i);
    }
    assert n > 0 && completed == n ==> Passes(w, c, n);
  }
}
