/** The LRU guarantee of the embedding cache, stated against the history of operations alone. */
module EmbeddingCacheHistory {
  import opened Common
  import opened EmbeddingCache

  predicate IsTouch(cfg: Config, c: Cache, op: Op) {
    op.Put? || Hit(cfg, c.data, op.key, op.now)
  }

  /** The keys put or hit, in order; a missed get touches nothing. */
  function Touches(cfg: Config, ops: seq<Op>): seq<Key> {
    if ops == [] then []
    else if IsTouch(cfg, Run(cfg, Init(ops)), Last(ops)) then Touches(cfg, Init(ops)) + [Last(ops).key]
    else Touches(cfg, Init(ops))
  }

  /** The distinct other keys touched after the last touch of `k`. */
  function TouchedSince(t: seq<Key>, k: Key): set<Key> {
    if t == [] || Last(t) == k then {} else TouchedSince(Init(t), k) + {Last(t)}
  }

  /** Vector and time of the latest put of `k`. */
  function LastPut(ops: seq<Op>, k: Key): Option<(Vector, real)> {
    if ops == [] then None
    else if Last(ops).Put? && Last(ops).key == k then Some((Last(ops).vector, Last(ops).now))
    else LastPut(Init(ops), k)
  }

  function Keys(d: seq<Entry>): set<Key> {
    set e | e in d :: e.key
  }

  /** Each key of `d` was touched after every key before it. */
  ghost predicate RecencyOrdered(d: seq<Entry>, t: seq<Key>) {
    d == [] || (RecencyOrdered(Init(d), t) && forall e :: e in Init(d) ==> Last(d).key in TouchedSince(t, e.key))
  }

  lemma {:induction false} KeysCount(d: seq<Entry>)
    requires Distinct(d)
    ensures |Keys(d)| == |d|
  {
    if d != [] {
      KeysCount(Init(d));
      assert d == Init(d) + [Last(d)];
      assert Keys(d) == Keys(Init(d)) + {Last(d).key};
    }
  }

  lemma TouchedSinceSnoc(t: seq<Key>, x: Key, k: Key)
    ensures TouchedSince(t + [x], k) == if x == k then {} else TouchedSince(t, k) + {x}
  {
    assert Init(t + [x]) == t;
  }

  lemma TouchedSinceAntisymmetric(t: seq<Key>, x: Key, y: Key)
    requires x in TouchedSince(t, y)
    ensures y !in TouchedSince(t, x)
  {
  }

  lemma {:induction false} RecencyFilter(d: seq<Entry>, t: seq<Key>, p: Entry -> bool)
    requires RecencyOrdered(d, t)
    ensures RecencyOrdered(Filter(d, p), t)
  {
    if d != [] {
      RecencyFilter(Init(d), t, p);
      if p(Last(d)) {
        var f := Filter(Init(d), p);
        assert Init(f + [Last(d)]) == f;
        forall e | e in f ensures Last(d).key in TouchedSince(t, e.key) {
          FilterMember(Init(d), p, e);
        }
      }
    }
  }

  lemma {:induction false} RecencyTouchOther(d: seq<Entry>, t: seq<Key>, k: Key)
    requires RecencyOrdered(d, t) && k !in Keys(d)
    ensures RecencyOrdered(d, t + [k])
  {
    if d != [] {
      assert d == Init(d) + [Last(d)];
      RecencyTouchOther(Init(d), t, k);
      forall e | e in Init(d) ensures Last(d).key in TouchedSince(t + [k], e.key) {
        TouchedSinceSnoc(t, k, e.key);
      }
    }
  }

  lemma RecencyTouch(d: seq<Entry>, t: seq<Key>, e: Entry)
    requires RecencyOrdered(d, t) && e.key !in Keys(d)
    ensures RecencyOrdered(d + [e], t + [e.key])
  {
    RecencyTouchOther(d, t, e.key);
    assert Init(d + [e]) == d;
    forall x | x in d ensures e.key in TouchedSince(t + [e.key], x.key) {
      TouchedSinceSnoc(t, e.key, x.key);
    }
  }

  lemma {:induction false} RecencyTail(d: seq<Entry>, t: seq<Key>)
    requires d != [] && RecencyOrdered(d, t)
    ensures RecencyOrdered(d[1..], t) && Keys(d[1..]) <= TouchedSince(t, d[0].key)
  {
    if |d| > 1 {
      RecencyTail(Init(d), t);
      assert Init(d[1..]) == Init(d)[1..];
      assert d[1..] == Init(d)[1..] + [Last(d)];
      assert d[0] in Init(d);
    }
  }

  /** What the cached entries owe to the history of operations. */
  ghost predicate FromHistory(cfg: Config, ops: seq<Op>, d: seq<Entry>, t: seq<Key>) {
    && (forall e :: e in d ==> LastPut(ops, e.key) == Some((e.vector, e.ts)))
    && RecencyOrdered(d, t)
    && (cfg.ttl.None? ==> forall e :: e in d ==> TouchedSince(t, e.key) <= Keys(d))
  }

  /** A key put but no longer cached has expired, or `max` others were touched since. */
  ghost predicate LostForCause(cfg: Config, ops: seq<Op>, d: seq<Entry>, t: seq<Key>, k: Key, now: real) {
    LastPut(ops, k).Some? && k !in Keys(d) && !Expired(cfg.ttl, LastPut(ops, k).value.1, now)
    ==> |TouchedSince(t, k)| >= cfg.max
  }

  lemma HasKeys(d: seq<Entry>, k: Key)
    ensures Has(d, k) <==> k in Keys(d)
  {
    if Has(d, k) {
      assert Lookup(d, k) in d;
    }
  }

  lemma WithoutKeys(d: seq<Entry>, k: Key)
    ensures Keys(Without(d, k)) == Keys(d) - {k}
  {
    forall x | x in Keys(d) - {k} ensures x in Keys(Without(d, k)) {
      var e :| e in d && e.key == x;
      FilterMember(d, OtherThan(k), e);
    }
    forall e | e in Without(d, k) ensures e in d && e.key != k {
      FilterMember(d, OtherThan(k), e);
    }
  }

  lemma KeysSnoc(d: seq<Entry>, e: Entry)
    ensures Keys(d + [e]) == Keys(d) + {e.key}
  {
    assert e in d + [e];
    forall x | x in d ensures x in d + [e] {
    }
  }

  lemma MoveToEndKeys(d: seq<Entry>, e: Entry)
    ensures Keys(Without(d, e.key) + [e]) == Keys(d) + {e.key}
  {
    WithoutKeys(d, e.key);
    KeysSnoc(Without(d, e.key), e);
  }

  /** Moving a key to the end, with its entry or a new one, in step with touching it. */
  lemma FromHistoryMove(cfg: Config, ops: seq<Op>, op: Op, d: seq<Entry>, t: seq<Key>, e: Entry)
    requires FromHistory(cfg, ops, d, t) && op.key == e.key
    requires LastPut(ops + [op], e.key) == Some((e.vector, e.ts))
    ensures FromHistory(cfg, ops + [op], Without(d, e.key) + [e], t + [e.key])
  {
    var rest := Without(d, e.key);
    assert Init(ops + [op]) == ops;
    forall x | x in rest ensures x in d && x.key != e.key {
      FilterMember(d, OtherThan(e.key), x);
    }
    RecencyFilter(d, t, OtherThan(e.key));
    WithoutKeys(d, e.key);
    RecencyTouch(rest, t, e);
    MoveToEndKeys(d, e);
    forall x | x in rest + [e] ensures TouchedSince(t + [e.key], x.key) <= TouchedSince(t, x.key) + {e.key} {
      TouchedSinceSnoc(t, e.key, x.key);
    }
    TouchedSinceSnoc(t, e.key, e.key);
  }

  lemma FromHistoryFilter(cfg: Config, ops: seq<Op>, d: seq<Entry>, t: seq<Key>, p: Entry -> bool)
    requires FromHistory(cfg, ops, d, t)
    requires cfg.ttl.None? ==> forall e :: e in d ==> p(e)
    ensures FromHistory(cfg, ops, Filter(d, p), t)
  {
    RecencyFilter(d, t, p);
    forall x | x in Filter(d, p) ensures x in d {
      FilterMember(d, p, x);
    }
    if cfg.ttl.None? {
      FilterAll(d, p);
    }
  }

  lemma FromHistoryTail(cfg: Config, ops: seq<Op>, d: seq<Entry>, t: seq<Key>)
    requires FromHistory(cfg, ops, d, t) && d != [] && Distinct(d)
    ensures FromHistory(cfg, ops, d[1..], t)
  {
    RecencyTail(d, t);
    assert d == [d[0]] + d[1..];
    if cfg.ttl.None? {
      forall e | e in d[1..] ensures TouchedSince(t, e.key) <= Keys(d[1..]) {
        assert e.key in Keys(d[1..]);
        TouchedSinceAntisymmetric(t, e.key, d[0].key);
      }
    }
  }

  lemma FromHistoryInsert(cfg: Config, ops: seq<Op>, d: seq<Entry>, t: seq<Key>, e: Entry)
    requires ValidConfig(cfg) && Distinct(d) && |d| <= cfg.max
    requires FromHistory(cfg, ops, d, t) && e.key !in Keys(d)
    ensures var op := Put(e.key, e.vector, e.ts);
            && FromHistory(cfg, ops + [op], Inserted(cfg, d, e), t + [e.key])
            && forall k :: LostForCause(cfg, ops, d, t, k, e.ts)
                       ==> LostForCause(cfg, ops + [op], Inserted(cfg, d, e), t + [e.key], k, e.ts)
  {
    var op := Put(e.key, e.vector, e.ts);
    var live, t' := Live(cfg.ttl, d, e.ts), t + [e.key];
    HasKeys(d, e.key);
    FromHistoryFilter(cfg, ops, d, t, IsLive(cfg.ttl, e.ts));
    assert !Has(live, e.key) by {
      forall x | x in live ensures x in d { FilterMember(d, IsLive(cfg.ttl, e.ts), x); }
    }
    WithoutAbsent(live, e.key);
    assert Init(ops + [op]) == ops;
    FromHistoryMove(cfg, ops, op, live, t, e);
    InsertedFacts(cfg, d, e);
    LiveSnocDistinct(cfg, d, e, e.ts);
    var grown := live + [e];
    if |grown| > cfg.max {
      assert Inserted(cfg, d, e) == grown[1..];
      FromHistoryTail(cfg, ops + [op], grown, t');
    }
    forall k | LostForCause(cfg, ops, d, t, k, e.ts)
      ensures LostForCause(cfg, ops + [op], Inserted(cfg, d, e), t', k, e.ts)
    {
      LostAfterInsert(cfg, ops, d, t, e, k);
    }
  }

  lemma LostAfterInsert(cfg: Config, ops: seq<Op>, d: seq<Entry>, t: seq<Key>, e: Entry, k: Key)
    requires ValidConfig(cfg) && Distinct(d) && |d| <= cfg.max && !Has(d, e.key)
    requires FromHistory(cfg, ops, d, t) && LostForCause(cfg, ops, d, t, k, e.ts)
    requires RecencyOrdered(Live(cfg.ttl, d, e.ts) + [e], t + [e.key])
    ensures LostForCause(cfg, ops + [Put(e.key, e.vector, e.ts)], Inserted(cfg, d, e), t + [e.key], k, e.ts)
  {
    var kept, t' := Inserted(cfg, d, e), t + [e.key];
    assert Init(ops + [Put(e.key, e.vector, e.ts)]) == ops;
    assert kept[|kept| - 1] == e;
    if k != e.key && LastPut(ops, k).Some? && !Expired(cfg.ttl, LastPut(ops, k).value.1, e.ts) && k !in Keys(kept) {
      if k in Keys(d) {
        var x :| x in d && x.key == k;
        EvictedIsOldest(cfg, d, t', e, x);
      } else {
        TouchedSinceSnoc(t, e.key, k);
        SubsetCount(TouchedSince(t, k), TouchedSince(t', k));
      }
    }
  }

  /** A live entry that an insertion loses was the oldest of `max + 1`. */
  lemma EvictedIsOldest(cfg: Config, d: seq<Entry>, t: seq<Key>, e: Entry, x: Entry)
    requires ValidConfig(cfg) && Distinct(d) && |d| <= cfg.max && !Has(d, e.key)
    requires RecencyOrdered(Live(cfg.ttl, d, e.ts) + [e], t)
    requires x in d && !Expired(cfg.ttl, x.ts, e.ts) && x.key !in Keys(Inserted(cfg, d, e))
    ensures |TouchedSince(t, x.key)| >= cfg.max
  {
    var grown, kept := Live(cfg.ttl, d, e.ts) + [e], Inserted(cfg, d, e);
    InsertedFacts(cfg, d, e);
    FilterMember(d, IsLive(cfg.ttl, e.ts), x);
    assert x in grown && x !in kept;
    assert |grown| > cfg.max && kept == grown[1..] && grown == [grown[0]] + kept;
    assert x == grown[0];
    RecencyTail(grown, t);
    KeysCount(kept);
    SubsetCount(Keys(kept), TouchedSince(t, x.key));
  }

  /** Everything a history fixes about the cache it leads to, at a moment not before its end. */
  ghost predicate Explained(cfg: Config, ops: seq<Op>, d: seq<Entry>, t: seq<Key>, now: real) {
    FromHistory(cfg, ops, d, t) && forall k :: LostForCause(cfg, ops, d, t, k, now)
  }

  lemma ExplainedPut(cfg: Config, ops: seq<Op>, c: Cache, t: seq<Key>, e: Entry)
    requires ValidConfig(cfg) && Distinct(c.data) && |c.data| <= cfg.max
    requires Explained(cfg, ops, c.data, t, e.ts)
    ensures var op := Put(e.key, e.vector, e.ts);
            Explained(cfg, ops + [op], Step(cfg, c, op).data, t + [e.key], e.ts)
  {
    var op := Put(e.key, e.vector, e.ts);
    HasKeys(c.data, e.key);
    if Has(c.data, e.key) {
      FromHistoryMove(cfg, ops, op, c.data, t, e);
      LostAfterMove(cfg, ops, op, c.data, t, e);
    } else {
      FromHistoryInsert(cfg, ops, c.data, t, e);
    }
  }

  lemma ExplainedGet(cfg: Config, ops: seq<Op>, c: Cache, t: seq<Key>, k: Key, now: real)
    requires ValidConfig(cfg) && Distinct(c.data) && Explained(cfg, ops, c.data, t, now)
    ensures var op := Get(k, now);
            var t' := if Hit(cfg, c.data, k, now) then t + [k] else t;
            Explained(cfg, ops + [op], Step(cfg, c, op).data, t', now)
  {
    var op := Get(k, now);
    assert Init(ops + [op]) == ops;
    HasKeys(c.data, k);
    if Hit(cfg, c.data, k, now) {
      FromHistoryMove(cfg, ops, op, c.data, t, Lookup(c.data, k));
      LostAfterMove(cfg, ops, op, c.data, t, Lookup(c.data, k));
    } else if Has(c.data, k) {
      FromHistoryFilter(cfg, ops, c.data, t, OtherThan(k));
      LostAfterExpiry(cfg, ops, op, c.data, t);
    } else {
      forall x ensures LostForCause(cfg, ops + [op], c.data, t, x, now) {
        assert LostForCause(cfg, ops, c.data, t, x, now);
      }
    }
  }

  lemma ExplainedLater(cfg: Config, ops: seq<Op>, d: seq<Entry>, t: seq<Key>, now: real, later: real)
    requires Explained(cfg, ops, d, t, now) && now <= later
    ensures Explained(cfg, ops, d, t, later)
  {
    forall k ensures LostForCause(cfg, ops, d, t, k, later) {
      assert LostForCause(cfg, ops, d, t, k, now);
    }
  }

  lemma ExplainedStep(cfg: Config, ops: seq<Op>, c: Cache, t: seq<Key>, op: Op)
    requires ValidConfig(cfg) && Distinct(c.data) && |c.data| <= cfg.max
    requires Explained(cfg, ops, c.data, t, op.now)
    ensures Explained(cfg, ops + [op], Step(cfg, c, op).data, if IsTouch(cfg, c, op) then t + [op.key] else t, op.now)
  {
    match op {
      case Get(k, now) => ExplainedGet(cfg, ops, c, t, k, now);
      case Put(k, v, now) => ExplainedPut(cfg, ops, c, t, Entry(k, v, now));
    }
  }

  /** The invariant that ties every reachable cache to its history. */
  lemma {:induction false} HistoryInvariant(cfg: Config, ops: seq<Op>, now: real)
    requires ValidConfig(cfg) && Monotone(ops)
    requires ops != [] ==> Last(ops).now <= now
    ensures Explained(cfg, ops, Run(cfg, ops).data, Touches(cfg, ops), now)
  {
    if ops == [] {
    } else {
      HistoryInvariant(cfg, Init(ops), Last(ops).now);
      RunBounded(cfg, Init(ops));
      ExplainedStep(cfg, Init(ops), Run(cfg, Init(ops)), Touches(cfg, Init(ops)), Last(ops));
      assert Init(ops) + [Last(ops)] == ops;
      ExplainedLater(cfg, ops, Run(cfg, ops).data, Touches(cfg, ops), Last(ops).now, now);
    }
  }

  lemma LostAfterMove(cfg: Config, ops: seq<Op>, op: Op, d: seq<Entry>, t: seq<Key>, e: Entry)
    requires e.key == op.key && e.key in Keys(d)
    requires forall k :: LostForCause(cfg, ops, d, t, k, op.now)
    ensures forall k :: LostForCause(cfg, ops + [op], Without(d, e.key) + [e], t + [e.key], k, op.now)
  {
    MoveToEndKeys(d, e);
    assert Init(ops + [op]) == ops;
    forall k ensures LostForCause(cfg, ops + [op], Without(d, e.key) + [e], t + [e.key], k, op.now) {
      assert LostForCause(cfg, ops, d, t, k, op.now);
      TouchedSinceSnoc(t, e.key, k);
      if k != e.key {
        SubsetCount(TouchedSince(t, k), TouchedSince(t + [e.key], k));
      }
    }
  }

  lemma LostAfterExpiry(cfg: Config, ops: seq<Op>, op: Op, d: seq<Entry>, t: seq<Key>)
    requires op.Get? && Has(d, op.key) && Expired(cfg.ttl, Lookup(d, op.key).ts, op.now)
    requires FromHistory(cfg, ops, d, t)
    requires forall k :: LostForCause(cfg, ops, d, t, k, op.now)
    ensures forall k :: LostForCause(cfg, ops + [op], Without(d, op.key), t, k, op.now)
  {
    WithoutKeys(d, op.key);
    assert Init(ops + [op]) == ops;
    assert Lookup(d, op.key) in d;
    forall k ensures LostForCause(cfg, ops + [op], Without(d, op.key), t, k, op.now) {
      assert LostForCause(cfg, ops, d, t, k, op.now);
    }
  }

  /**
   * The guarantee a caller can rely on. A hit returns the vector of the latest put, which is at most
   * the TTL old. A miss on a key whose latest put is at most that old means that at least `max`
   * distinct other keys were put or hit since the key was last touched. Without a TTL the two sides
   * meet: a get hits exactly when the key was put and fewer than `max` others were touched since.
   */
  lemma LruGuarantee(cfg: Config, ops: seq<Op>, k: Key, now: real)
    requires ValidConfig(cfg) && Monotone(ops)
    requires ops != [] ==> Last(ops).now <= now
    ensures var r, put := Answer(cfg, Run(cfg, ops).data, k, now), LastPut(ops, k);
            var others := |TouchedSince(Touches(cfg, ops), k)|;
            && (r.Some? ==> put.Some? && r.value == put.value.0)
            && (r.Some? && cfg.ttl.Some? ==> now - put.value.1 <= cfg.ttl.value)
            && (r.None? && put.Some? && (cfg.ttl.Some? ==> now - put.value.1 <= cfg.ttl.value) ==> others >= cfg.max)
            && (cfg.ttl.None? ==> (r.Some? <==> put.Some? && others < cfg.max))
  {
    var d, t := Run(cfg, ops).data, Touches(cfg, ops);
    HistoryInvariant(cfg, ops, now);
    assert LostForCause(cfg, ops, d, t, k, now);
    HasKeys(d, k);
    if Has(d, k) {
      assert Lookup(d, k) in d;
      if cfg.ttl.None? {
        RunBounded(cfg, ops);
        KeysCount(d);
        NotSinceItself(t, k);
        SubsetCount(TouchedSince(t, k), Keys(d) - {k});
      }
    }
  }

  lemma NotSinceItself(t: seq<Key>, k: Key)
    ensures k !in TouchedSince(t, k)
  {
  }
}
