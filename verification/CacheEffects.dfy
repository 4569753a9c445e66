/**
 * What one operation does to any cache a history can lead to, in terms of positions, timestamps and
 * the configured numbers alone.
 */
module EmbeddingCacheEffects {
  import opened Common
  import opened EmbeddingCache
  import opened EmbeddingCacheInclusion

  lemma {:induction false} WithoutAt(d: seq<Entry>, i: nat)
    requires Distinct(d) && i < |d|
    ensures Without(d, d[i].key) == d[..i] + d[i + 1..]
  {
    var k := d[i].key;
    if i == |d| - 1 {
      assert !Has(Init(d), k);
      WithoutAbsent(Init(d), k);
      assert d[i + 1..] == [];
    } else {
      WithoutAt(Init(d), i);
      assert d[..i] + d[i + 1..] == Init(d)[..i] + Init(d)[i + 1..] + [Last(d)];
    }
  }

  lemma LookupAt(d: seq<Entry>, i: nat)
    requires Distinct(d) && i < |d|
    ensures Has(d, d[i].key) && Lookup(d, d[i].key) == d[i]
  {
    LookupUnique(d, d[i]);
  }

  /** A get of a key that is not held counts a miss and does nothing else. */
  lemma AbsentGetMisses(cfg: Config, c: Cache, k: Key, now: real)
    requires forall i :: 0 <= i < |c.data| ==> c.data[i].key != k
    ensures Answer(cfg, c.data, k, now).None?
    ensures Step(cfg, c, Get(k, now)) == c.(misses := c.misses + 1)
  {
  }

  /** A get of a held entry older than the TTL deletes it and counts one expiration and one miss. */
  lemma ExpiredGetDeletes(cfg: Config, c: Cache, i: nat, now: real)
    requires Distinct(c.data) && i < |c.data|
    requires cfg.ttl.Some? && now - c.data[i].ts > cfg.ttl.value
    ensures Answer(cfg, c.data, c.data[i].key, now).None?
    ensures Step(cfg, c, Get(c.data[i].key, now))
            == c.(data := c.data[..i] + c.data[i + 1..], misses := c.misses + 1, expirations := c.expirations + 1)
  {
    LookupAt(c.data, i);
    WithoutAt(c.data, i);
  }

  /** A get of any other held entry answers with its vector and moves the entry, unchanged, to the end. */
  lemma YoungGetMoves(cfg: Config, c: Cache, i: nat, now: real)
    requires Distinct(c.data) && i < |c.data|
    requires cfg.ttl.Some? ==> now - c.data[i].ts <= cfg.ttl.value
    ensures Answer(cfg, c.data, c.data[i].key, now) == Some(c.data[i].vector)
    ensures Step(cfg, c, Get(c.data[i].key, now))
            == c.(data := c.data[..i] + c.data[i + 1..] + [c.data[i]], hits := c.hits + 1)
  {
    LookupAt(c.data, i);
    WithoutAt(c.data, i);
  }

  /** A put of a held key stores vector and time at the end; it neither sweeps nor counts. */
  lemma OverwriteMoves(cfg: Config, c: Cache, i: nat, v: Vector, now: real)
    requires Distinct(c.data) && i < |c.data|
    ensures Step(cfg, c, Put(c.data[i].key, v, now))
            == c.(data := c.data[..i] + c.data[i + 1..] + [Entry(c.data[i].key, v, now)])
  {
    LookupAt(c.data, i);
    WithoutAt(c.data, i);
  }

  lemma {:induction false} FilterIsSub(d: seq<Entry>, p: Entry -> bool)
    ensures Sub(Filter(d, p), d)
  {
    if d != [] {
      FilterIsSub(Init(d), p);
      assert d == Init(d) + [Last(d)];
      if p(Last(d)) {
        SubSnoc(Filter(Init(d), p), Init(d), Last(d));
      } else {
        SubSkip(Filter(Init(d), p), Init(d), Last(d));
      }
    }
  }

  /** Nothing that satisfies the filter stands before the entry the filtered list starts with. */
  lemma {:induction false} FilterFirst(d: seq<Entry>, p: Entry -> bool, i: nat, j: nat)
    requires Distinct(d) && i < |d| && j < |d| && p(d[j])
    requires Filter(d, p) != [] && Filter(d, p)[0] == d[i]
    ensures i <= j
  {
    if Filter(Init(d), p) == [] {
      if j < |d| - 1 {
        FilterMember(Init(d), p, Init(d)[j]);
      }
    } else {
      FilterMember(Init(d), p, Filter(Init(d), p)[0]);
      assert i < |d| - 1;
      if j < |d| - 1 {
        FilterFirst(Init(d), p, i, j);
      }
    }
  }

  /** The positions whose entries are older than the TTL. */
  function OldPositions(cfg: Config, d: seq<Entry>, now: real): set<nat> {
    set i | 0 <= i < |d| && cfg.ttl.Some? && now - d[i].ts > cfg.ttl.value
  }

  lemma {:induction false} LiveAndOld(cfg: Config, d: seq<Entry>, now: real)
    ensures |Live(cfg.ttl, d, now)| + |OldPositions(cfg, d, now)| == |d|
  {
    if d != [] {
      LiveAndOld(cfg, Init(d), now);
      var aged := OldPositions(cfg, Init(d), now);
      assert OldPositions(cfg, d, now)
          == aged + if cfg.ttl.Some? && now - Last(d).ts > cfg.ttl.value then {|d| - 1} else {};
    }
  }

  lemma LiveIsYoung(cfg: Config, d: seq<Entry>, now: real)
    ensures forall i :: 0 <= i < |d| ==> (d[i] in Live(cfg.ttl, d, now) <==> i !in OldPositions(cfg, d, now))
  {
    forall i | 0 <= i < |d| ensures d[i] in Live(cfg.ttl, d, now) <==> i !in OldPositions(cfg, d, now) {
      FilterMember(d, IsLive(cfg.ttl, now), d[i]);
    }
  }

  /** Of the positions outside `aged`, the first one, and it alone, has no place in `rest`. */
  ghost predicate OnlyFirstLost(d: seq<Entry>, aged: set<nat>, rest: seq<Entry>) {
    exists i :: 0 <= i < |d| && i !in aged && d[i] !in rest && OthersKept(d, aged, rest, i)
  }

  ghost predicate OthersKept(d: seq<Entry>, aged: set<nat>, rest: seq<Entry>, i: nat) {
    forall j :: 0 <= j < |d| && j !in aged && j != i ==> i < j && d[j] in rest
  }

  ghost predicate AllKept(d: seq<Entry>, aged: set<nat>, rest: seq<Entry>) {
    forall j :: 0 <= j < |d| && j !in aged ==> d[j] in rest
  }

  ghost predicate AgedLost(d: seq<Entry>, aged: set<nat>, rest: seq<Entry>) {
    forall j :: 0 <= j < |d| && j in aged ==> d[j] !in rest
  }

  /**
   * A put of a new key stores it last and keeps the others in order. It loses every entry older than
   * the TTL, counted as an expiration. It loses a younger one only if `max` of those are held, and
   * then exactly the one used least recently, counted as an eviction.
   */
  lemma InsertSweepsThenEvicts(cfg: Config, c: Cache, k: Key, v: Vector, now: real)
    requires ValidConfig(cfg) && Distinct(c.data) && |c.data| <= cfg.max
    requires forall i :: 0 <= i < |c.data| ==> c.data[i].key != k
    ensures var c', aged := Step(cfg, c, Put(k, v, now)), OldPositions(cfg, c.data, now);
            var full := |c.data| - |aged| == cfg.max;
            && c'.data != [] && Last(c'.data) == Entry(k, v, now) && Sub(Init(c'.data), c.data)
            && AgedLost(c.data, aged, c'.data)
            && (if full then OnlyFirstLost(c.data, aged, c'.data) else AllKept(c.data, aged, c'.data))
            && c'.evictions == c.evictions + (if full then 1 else 0)
            && c'.expirations == c.expirations + |aged| && c'.hits == c.hits && c'.misses == c.misses
  {
    var e := Entry(k, v, now);
    LiveAndOld(cfg, c.data, now);
    InsertedFacts(cfg, c.data, e);
    InsertedData(cfg, c.data, e);
  }

  lemma InsertedData(cfg: Config, d: seq<Entry>, e: Entry)
    requires ValidConfig(cfg) && Distinct(d) && |d| <= cfg.max && !Has(d, e.key)
    ensures var kept, aged := Inserted(cfg, d, e), OldPositions(cfg, d, e.ts);
            && kept != [] && Last(kept) == e && Sub(Init(kept), d) && AgedLost(d, aged, kept)
            && if |d| - |aged| == cfg.max then OnlyFirstLost(d, aged, kept) else AllKept(d, aged, kept)
  {
    var live, kept := Live(cfg.ttl, d, e.ts), Inserted(cfg, d, e);
    LiveAndOld(cfg, d, e.ts);
    InsertedForm(cfg, d, e);
    if |live| == cfg.max {
      OldestEvicted(cfg, d, e);
    } else {
      LiveKept(cfg, d, e, kept);
    }
  }

  lemma InsertedForm(cfg: Config, d: seq<Entry>, e: Entry)
    requires ValidConfig(cfg) && |d| <= cfg.max
    ensures var kept, live := Inserted(cfg, d, e), Live(cfg.ttl, d, e.ts);
            && |live| <= cfg.max
            && kept == (if |live| == cfg.max then live[1..] else live) + [e]
            && Last(kept) == e && Sub(Init(kept), d)
  {
    var live := Live(cfg.ttl, d, e.ts);
    FilterShorter(d, IsLive(cfg.ttl, e.ts));
    InsertedSub(d, live, e, cfg);
  }

  lemma InsertedSub(d: seq<Entry>, live: seq<Entry>, e: Entry, cfg: Config)
    requires live == Live(cfg.ttl, d, e.ts) && |live| <= cfg.max
    ensures Sub(live, d) && Init(live + [e]) == live
    ensures live != [] ==> Sub(live[1..], d) && Init(live[1..] + [e]) == live[1..]
  {
    FilterIsSub(d, IsLive(cfg.ttl, e.ts));
    if live != [] {
      SubTail(live, d);
    }
  }

  lemma LiveKept(cfg: Config, d: seq<Entry>, e: Entry, kept: seq<Entry>)
    requires !Has(d, e.key) && kept == Live(cfg.ttl, d, e.ts) + [e]
    ensures AgedLost(d, OldPositions(cfg, d, e.ts), kept) && AllKept(d, OldPositions(cfg, d, e.ts), kept)
  {
    LiveIsYoung(cfg, d, e.ts);
  }

  /** When a full cache takes a new key, the first live entry goes and every other live one stays. */
  lemma OldestEvicted(cfg: Config, d: seq<Entry>, e: Entry)
    requires ValidConfig(cfg) && Distinct(d) && !Has(d, e.key) && |Live(cfg.ttl, d, e.ts)| == cfg.max
    ensures var kept := Live(cfg.ttl, d, e.ts)[1..] + [e];
            OnlyFirstLost(d, OldPositions(cfg, d, e.ts), kept) && AgedLost(d, OldPositions(cfg, d, e.ts), kept)
  {
    var live, aged := Live(cfg.ttl, d, e.ts), OldPositions(cfg, d, e.ts);
    var grown, kept := live + [e], live[1..] + [e];
    LiveKept(cfg, d, e, grown);
    FilterMember(d, IsLive(cfg.ttl, e.ts), live[0]);
    var i :| 0 <= i < |d| && d[i] == live[0];
    LiveSnocDistinct(cfg, d, e, e.ts);
    FirstOut(grown, kept);
    FilterMember(d, IsLive(cfg.ttl, e.ts), d[i]);
    forall j | 0 <= j < |d| && j !in aged && j != i ensures i < j && d[j] in kept {
      FilterFirst(d, IsLive(cfg.ttl, e.ts), i, j);
      assert d[j] in grown;
    }
    assert OthersKept(d, aged, kept, i);
  }

  lemma FirstOut(grown: seq<Entry>, kept: seq<Entry>)
    requires grown != [] && Distinct(grown) && kept == grown[1..]
    ensures grown[0] !in kept && forall x :: x in grown ==> x == grown[0] || x in kept
    ensures forall x :: x in kept ==> x in grown
  {
    assert grown == [grown[0]] + kept;
    forall m | 0 <= m < |kept| ensures kept[m] != grown[0] {
      assert kept[m] == grown[m + 1];
    }
  }

  /** The entry at position `i` is too old, or the oldest young one of a full cache that took a new key. */
  ghost predicate LossExplained(cfg: Config, c: Cache, op: Op, c': Cache, i: nat)
    requires i < |c.data|
  {
    if cfg.ttl.Some? && op.now - c.data[i].ts > cfg.ttl.value
    then c'.expirations > c.expirations
    else && op.Put? && c'.evictions == c.evictions + 1 && |c'.data| == cfg.max
         && (i > 0 ==> cfg.ttl.Some?) && forall j :: 0 <= j < i ==> op.now - c.data[j].ts > cfg.ttl.value
  }

  ghost predicate LosesOnlyForCause(cfg: Config, c: Cache, op: Op, c': Cache) {
    forall i :: 0 <= i < |c.data| && !Has(c'.data, c.data[i].key) ==> LossExplained(cfg, c, op, c', i)
  }

  /**
   * Over every history: an operation loses a key only because its entry is older than the TTL, which
   * raises the expirations, or by evicting it from a full cache as the least recently used young one.
   */
  lemma LossesHaveCauses(cfg: Config, ops: seq<Op>, op: Op)
    requires ValidConfig(cfg)
    ensures LosesOnlyForCause(cfg, Run(cfg, ops), op, Run(cfg, ops + [op]))
  {
    var c := Run(cfg, ops);
    assert Init(ops + [op]) == ops;
    RunBounded(cfg, ops);
    StepLosses(cfg, c, op);
  }

  lemma StepLosses(cfg: Config, c: Cache, op: Op)
    requires ValidConfig(cfg) && Distinct(c.data) && |c.data| <= cfg.max
    ensures LosesOnlyForCause(cfg, c, op, Step(cfg, c, op))
  {
    var c', k := Step(cfg, c, op), op.key;
    if Has(c.data, k) {
      var p :| 0 <= p < |c.data| && c.data[p].key == k;
      var aged := cfg.ttl.Some? && op.now - c.data[p].ts > cfg.ttl.value;
      if op.Put? {
        OverwriteMoves(cfg, c, p, op.vector, op.now);
      } else if aged {
        ExpiredGetDeletes(cfg, c, p, op.now);
      } else {
        YoungGetMoves(cfg, c, p, op.now);
      }
      RestHas(c.data, p, c'.data);
    } else if op.Put? {
      InsertLosses(cfg, c, k, op.vector, op.now);
    }
  }

  lemma RestHas(d: seq<Entry>, p: nat, rest: seq<Entry>)
    requires Distinct(d) && p < |d| && d[..p] + d[p + 1..] <= rest
    requires |rest| > |d| - 1 ==> rest[|d| - 1].key == d[p].key
    ensures forall i :: 0 <= i < |d| && (i != p || |rest| > |d| - 1) ==> Has(rest, d[i].key)
  {
    forall i | 0 <= i < |d| && (i != p || |rest| > |d| - 1) ensures Has(rest, d[i].key) {
      var at := if i < p then i else if i > p then i - 1 else |d| - 1;
      assert rest[at].key == d[i].key;
    }
  }

  lemma InsertLosses(cfg: Config, c: Cache, k: Key, v: Vector, now: real)
    requires ValidConfig(cfg) && Distinct(c.data) && |c.data| <= cfg.max && !Has(c.data, k)
    ensures LosesOnlyForCause(cfg, c, Put(k, v, now), Step(cfg, c, Put(k, v, now)))
  {
    var c', aged := Step(cfg, c, Put(k, v, now)), OldPositions(cfg, c.data, now);
    InsertSweepsThenEvicts(cfg, c, k, v, now);
    LiveAndOld(cfg, c.data, now);
    assert |c.data| - |aged| == cfg.max ==> |c'.data| == cfg.max by {
      InsertedFacts(cfg, c.data, Entry(k, v, now));
    }
    ExplainLosses(cfg, c, Put(k, v, now), c', aged);
  }

  lemma ExplainLosses(cfg: Config, c: Cache, op: Op, c': Cache, aged: set<nat>)
    requires op.Put? && aged == OldPositions(cfg, c.data, op.now) && c'.expirations == c.expirations + |aged|
    requires if |c.data| - |aged| == cfg.max
             then OnlyFirstLost(c.data, aged, c'.data) && |c'.data| == cfg.max && c'.evictions == c.evictions + 1
             else AllKept(c.data, aged, c'.data)
    ensures LosesOnlyForCause(cfg, c, op, c')
  {
    forall i | 0 <= i < |c.data| && !Has(c'.data, c.data[i].key) ensures LossExplained(cfg, c, op, c', i) {
      assert c.data[i] !in c'.data;
      if i in aged {
        SubsetCount({i}, aged);
      } else {
        LostIsFirst(c.data, aged, c'.data, i);
        BeforeAreOld(cfg, c.data, op.now, i);
      }
    }
  }

  lemma BeforeAreOld(cfg: Config, d: seq<Entry>, now: real, i: nat)
    requires i < |d| && forall j :: 0 <= j < i ==> j in OldPositions(cfg, d, now)
    ensures (i > 0 ==> cfg.ttl.Some?) && forall j :: 0 <= j < i ==> now - d[j].ts > cfg.ttl.value
  {
    if i > 0 {
      assert 0 in OldPositions(cfg, d, now);
    }
    forall j | 0 <= j < i ensures now - d[j].ts > cfg.ttl.value {
      assert j in OldPositions(cfg, d, now);
    }
  }

  lemma LostIsFirst(d: seq<Entry>, aged: set<nat>, rest: seq<Entry>, i: nat)
    requires i < |d| && i !in aged && d[i] !in rest && OnlyFirstLost(d, aged, rest)
    ensures forall j :: 0 <= j < i ==> j in aged
  {
    var p :| 0 <= p < |d| && p !in aged && d[p] !in rest && OthersKept(d, aged, rest, p);
    assert i == p;
  }
}
