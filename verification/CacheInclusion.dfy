/**
 * Two caches, one history: a bigger cache never loses a hit.
 *
 * The classical stack property of LRU is not immediate here. A hit moves an entry only in the cache
 * that holds it, a miss fills nothing, and entries expire, so the caches drift apart. What survives
 * is a bound on the number of live entries that only the larger cache holds.
 */
module EmbeddingCacheInclusion {
  import opened Common
  import opened EmbeddingCache

  /** `s` is an order-preserving subsequence of `l`. */
  predicate Sub(s: seq<Entry>, l: seq<Entry>) {
    s == [] || (l != [] && if Last(s) == Last(l) then Sub(Init(s), Init(l)) else Sub(s, Init(l)))
  }

  lemma {:induction false} SubInit(s: seq<Entry>, l: seq<Entry>)
    requires s != [] && Sub(s, l)
    ensures Sub(Init(s), l)
    decreases |l|, 0
  {
    assert l == Init(l) + [Last(l)];
    if Last(s) != Last(l) {
      SubInit(s, Init(l));
    }
    SubSkip(Init(s), Init(l), Last(l));
  }

  lemma SubSkip(s: seq<Entry>, l: seq<Entry>, e: Entry)
    requires Sub(s, l)
    ensures Sub(s, l + [e])
    decreases |l|, 1
  {
    assert Init(l + [e]) == l;
    if s != [] && Last(s) == e {
      SubInit(s, l);
    }
  }

  lemma SubSnoc(s: seq<Entry>, l: seq<Entry>, e: Entry)
    requires Sub(s, l)
    ensures Sub(s + [e], l + [e])
  {
    assert Init(s + [e]) == s && Init(l + [e]) == l;
  }

  lemma {:induction false} SubMember(s: seq<Entry>, l: seq<Entry>, e: Entry)
    requires Sub(s, l) && e in s
    ensures e in l
  {
    assert s == Init(s) + [Last(s)];
    assert l == Init(l) + [Last(l)];
    if e != Last(l) {
      SubMember(if Last(s) == Last(l) then Init(s) else s, Init(l), e);
    }
  }

  lemma SubShorter(s: seq<Entry>, l: seq<Entry>)
    requires Sub(s, l)
    ensures |s| <= |l|
  {
  }

  /** Filtering both sides keeps the relation, and so does filtering the left side alone. */
  lemma {:induction false} SubFilter(s: seq<Entry>, l: seq<Entry>, p: Entry -> bool)
    requires Sub(s, l)
    ensures Sub(Filter(s, p), Filter(l, p)) && Sub(Filter(s, p), l)
  {
    if s != [] {
      assert l == Init(l) + [Last(l)];
      if Last(s) == Last(l) {
        SubFilter(Init(s), Init(l), p);
        if p(Last(s)) {
          SubSnoc(Filter(Init(s), p), Filter(Init(l), p), Last(l));
          SubSnoc(Filter(Init(s), p), Init(l), Last(l));
        } else {
          SubSkip(Filter(Init(s), p), Init(l), Last(l));
        }
      } else {
        SubFilter(s, Init(l), p);
        SubSkip(Filter(s, p), Filter(Init(l), p), Last(l));
        SubSkip(Filter(s, p), Init(l), Last(l));
      }
    }
  }

  lemma {:induction false} SubTail(s: seq<Entry>, l: seq<Entry>)
    requires s != [] && Sub(s, l)
    ensures Sub(s[1..], l) && Sub(s[1..], l[1..])
  {
    if |s| > 1 {
      SubShorter(s, l);
      assert l == Init(l) + [Last(l)] && l[1..] == Init(l)[1..] + [Last(l)];
      if Last(s) == Last(l) {
        SubTail(Init(s), Init(l));
        assert s[1..] == Init(s)[1..] + [Last(s)];
        SubSnoc(Init(s)[1..], Init(l), Last(l));
        SubSnoc(Init(s)[1..], Init(l)[1..], Last(l));
      } else {
        SubTail(s, Init(l));
        SubSkip(s[1..], Init(l), Last(l));
        SubSkip(s[1..], Init(l)[1..], Last(l));
      }
    }
  }

  /** What a stricter filter removes from a subsequence it removes from the whole as well. */
  lemma {:induction false} SubFilterGap(s: seq<Entry>, l: seq<Entry>, p: Entry -> bool, q: Entry -> bool)
    requires Sub(s, l)
    requires forall e :: q(e) ==> p(e)
    ensures |Filter(l, p)| - |Filter(l, q)| >= |Filter(s, p)| - |Filter(s, q)|
  {
    if l != [] {
      if s != [] && Last(s) == Last(l) {
        SubFilterGap(Init(s), Init(l), p, q);
      } else {
        SubFilterGap(s, Init(l), p, q);
      }
    }
  }

  /**
   * The relation between a small and a large cache fed the same operations: the small one is a
   * subsequence of the large one, and the large one holds at most `large.max - small.max` live
   * entries more.
   */
  ghost predicate Included(small: Config, s: seq<Entry>, large: Config, l: seq<Entry>, now: real) {
    && Distinct(s) && |s| <= small.max
    && Distinct(l) && |l| <= large.max
    && Sub(s, l)
    && |Live(large.ttl, l, now)| + small.max <= |Live(small.ttl, s, now)| + large.max
  }

  ghost predicate Comparable(small: Config, large: Config) {
    ValidConfig(small) && ValidConfig(large) && small.ttl == large.ttl && small.max <= large.max
  }

  /** Time alone cannot break inclusion. */
  lemma IncludedLater(small: Config, s: seq<Entry>, large: Config, l: seq<Entry>, now: real, later: real)
    requires Comparable(small, large) && Included(small, s, large, l, now) && now <= later
    ensures Included(small, s, large, l, later)
  {
    SubFilterGap(s, l, IsLive(large.ttl, now), IsLive(large.ttl, later));
  }

  /** A key of the small cache is in the large one, with the same entry. */
  lemma IncludedLookup(s: seq<Entry>, l: seq<Entry>, k: Key)
    requires Sub(s, l) && Distinct(l) && Has(s, k)
    ensures Has(l, k) && Lookup(l, k) == Lookup(s, k)
  {
    SubMember(s, l, Lookup(s, k));
    LookupUnique(l, Lookup(s, k));
  }

  /** Moving a key to the end changes the live count only by the change of its entry. */
  lemma MoveCounts(d: seq<Entry>, e: Entry, p: Entry -> bool)
    requires Distinct(d) && Has(d, e.key)
    ensures var moved := Without(d, e.key) + [e];
            && Distinct(moved) && |moved| == |d|
            && |Filter(moved, p)| == |Filter(d, p)| - (if p(Lookup(d, e.key)) then 1 else 0) + (if p(e) then 1 else 0)
  {
    WithoutCount(d, e.key, p);
    WithoutLength(d, e.key);
    FilterSnoc(Without(d, e.key), e, p);
    WithoutSnocDistinct(d, e);
  }

  lemma IncludedGet(small: Config, c: Cache, large: Config, b: Cache, k: Key, now: real)
    requires Comparable(small, large) && Included(small, c.data, large, b.data, now)
    ensures Included(small, Step(small, c, Get(k, now)).data, large, Step(large, b, Get(k, now)).data, now)
  {
    var s, l, p := c.data, b.data, IsLive(large.ttl, now);
    if Has(s, k) {
      IncludedLookup(s, l, k);
      IncludedRemove(small, s, large, l, k, now);
      var e := Lookup(l, k);
      MoveCounts(s, e, p);
      MoveCounts(l, e, p);
      SubFilter(s, l, OtherThan(k));
      SubSnoc(Without(s, k), Without(l, k), e);
    } else if Has(l, k) {
      IncludedGetLarge(small, s, large, l, k, now);
    }
  }

  /** A dead key leaves both caches. */
  lemma IncludedRemove(small: Config, s: seq<Entry>, large: Config, l: seq<Entry>, k: Key, now: real)
    requires Comparable(small, large) && Included(small, s, large, l, now) && Has(s, k) && Has(l, k)
    requires Lookup(s, k) == Lookup(l, k)
    ensures Expired(large.ttl, Lookup(l, k).ts, now) ==> Included(small, Without(s, k), large, Without(l, k), now)
  {
    var p := IsLive(large.ttl, now);
    WithoutCount(s, k, p);
    WithoutCount(l, k, p);
    WithoutLength(s, k);
    WithoutLength(l, k);
    FilterDistinct(s, OtherThan(k));
    FilterDistinct(l, OtherThan(k));
    SubFilter(s, l, OtherThan(k));
  }

  /** A key only the large cache holds: dropped when dead, moved to the end when live. */
  lemma IncludedGetLarge(small: Config, s: seq<Entry>, large: Config, l: seq<Entry>, k: Key, now: real)
    requires Comparable(small, large) && Included(small, s, large, l, now) && !Has(s, k) && Has(l, k)
    ensures Included(small, s, large, Without(l, k), now)
    ensures Included(small, s, large, Without(l, k) + [Lookup(l, k)], now)
  {
    var p := IsLive(large.ttl, now);
    WithoutCount(l, k, p);
    WithoutLength(l, k);
    FilterDistinct(l, OtherThan(k));
    SubFilter(s, l, OtherThan(k));
    WithoutAbsent(s, k);
    MoveCounts(l, Lookup(l, k), p);
    SubSkip(s, Without(l, k), Lookup(l, k));
  }

  lemma IncludedRefresh(small: Config, s: seq<Entry>, large: Config, l: seq<Entry>, e: Entry)
    requires Comparable(small, large) && Included(small, s, large, l, e.ts) && Has(s, e.key)
    ensures Included(small, Without(s, e.key) + [e], large, Without(l, e.key) + [e], e.ts)
  {
    IncludedLookup(s, l, e.key);
    MoveCounts(s, e, IsLive(large.ttl, e.ts));
    MoveCounts(l, e, IsLive(large.ttl, e.ts));
    SubFilter(s, l, OtherThan(e.key));
    SubSnoc(Without(s, e.key), Without(l, e.key), e);
  }

  /** Evicting at most one entry from the small side, and from the large side only along with it. */
  lemma NewestSub(s: seq<Entry>, n: nat, l: seq<Entry>, m: nat)
    requires Sub(s, l) && |s| <= n + 1 && |l| <= m + 1 && |l| - m <= |s| - n
    ensures Sub(Newest(s, n), Newest(l, m)) && Sub(Newest(s, n), l)
  {
    if |s| > n {
      assert Newest(s, n) == s[1..];
      SubTail(s, l);
      assert |l| > m ==> Newest(l, m) == l[1..];
    }
  }

  lemma IncludedInsertSmall(small: Config, s: seq<Entry>, large: Config, l: seq<Entry>, e: Entry)
    requires Comparable(small, large) && Included(small, s, large, l, e.ts) && !Has(s, e.key) && Has(l, e.key)
    ensures Included(small, Inserted(small, s, e), large, Without(l, e.key) + [e], e.ts)
  {
    var k, p := e.key, IsLive(large.ttl, e.ts);
    var rest := Without(l, k);
    InsertedFacts(small, s, e);
    WithoutLength(l, k);
    WithoutSnocDistinct(l, e);
    assert Sub(Inserted(small, s, e), rest + [e]) by {
      WithoutAbsent(s, k);
      SubFilter(s, l, OtherThan(k));
      SubFilter(s, rest, p);
      SubSnoc(Filter(s, p), rest, e);
      NewestSub(Filter(s, p) + [e], small.max, rest + [e], |rest| + small.max + 1);
    }
    FilterSnoc(rest, e, p);
    FilterShorter(rest + [e], p);
    FilterTwiceShorter(l, OtherThan(k), p);
  }

  lemma IncludedInsertBoth(small: Config, s: seq<Entry>, large: Config, l: seq<Entry>, e: Entry)
    requires Comparable(small, large) && Included(small, s, large, l, e.ts) && !Has(s, e.key) && !Has(l, e.key)
    ensures Included(small, Inserted(small, s, e), large, Inserted(large, l, e), e.ts)
  {
    var p := IsLive(large.ttl, e.ts);
    InsertedFacts(small, s, e);
    InsertedFacts(large, l, e);
    assert Sub(Inserted(small, s, e), Inserted(large, l, e)) by {
      SubFilter(s, l, p);
      SubSnoc(Filter(s, p), Filter(l, p), e);
      NewestSub(Filter(s, p) + [e], small.max, Filter(l, p) + [e], large.max);
    }
  }

  lemma IncludedPut(small: Config, c: Cache, large: Config, b: Cache, k: Key, v: Vector, now: real)
    requires Comparable(small, large) && Included(small, c.data, large, b.data, now)
    ensures Included(small, Step(small, c, Put(k, v, now)).data, large, Step(large, b, Put(k, v, now)).data, now)
  {
    var e := Entry(k, v, now);
    if Has(c.data, k) {
      IncludedLookup(c.data, b.data, k);
      IncludedRefresh(small, c.data, large, b.data, e);
    } else if Has(b.data, k) {
      IncludedInsertSmall(small, c.data, large, b.data, e);
    } else {
      IncludedInsertBoth(small, c.data, large, b.data, e);
    }
  }

  /**
   * Feed one history to two caches that differ only in capacity: the small cache's entries are
   * always an order-preserving subsequence of the large cache's entries.
   */
  lemma {:induction false} Inclusion(small: Config, large: Config, ops: seq<Op>, now: real)
    requires Comparable(small, large) && Monotone(ops)
    requires ops != [] ==> Last(ops).now <= now
    ensures Included(small, Run(small, ops).data, large, Run(large, ops).data, now)
  {
    if ops != [] {
      var op := Last(ops);
      Inclusion(small, large, Init(ops), op.now);
      match op {
        case Get(k, t) => IncludedGet(small, Run(small, Init(ops)), large, Run(large, Init(ops)), k, t);
        case Put(k, v, t) => IncludedPut(small, Run(small, Init(ops)), large, Run(large, Init(ops)), k, v, t);
      }
      IncludedLater(small, Run(small, ops).data, large, Run(large, ops).data, op.now, now);
    }
  }

  /** Every answer the small cache gives, the large one gives too. */
  lemma BiggerCacheKeepsHits(small: Config, large: Config, ops: seq<Op>, k: Key, now: real)
    requires Comparable(small, large) && Monotone(ops + [Get(k, now)])
    ensures var s := Answer(small, Run(small, ops).data, k, now);
            s.Some? ==> Answer(large, Run(large, ops).data, k, now) == s
  {
    var all := ops + [Get(k, now)];
    forall i, j | 0 <= i < j < |ops| ensures ops[i].now <= ops[j].now {
      assert all[i] == ops[i] && all[j] == ops[j];
    }
    if ops != [] {
      assert all[|ops| - 1] == Last(ops) && all[|ops|] == Get(k, now);
    }
    Inclusion(small, large, ops, now);
    if Has(Run(small, ops).data, k) {
      IncludedLookup(Run(small, ops).data, Run(large, ops).data, k);
    }
  }
}
