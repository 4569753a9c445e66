/**
 * Model of the hybrid LRU + TTL embedding cache.
 *
 * The ordered dictionary is a sequence of entries with distinct keys, least recently used first.
 * Every operation carries the reading of the injected clock at the moment it runs.
 */
module EmbeddingCache {
  import opened Common

  type Key = string
  type Vector = seq<real>

  datatype Entry = Entry(key: Key, vector: Vector, ts: real)

  datatype Config = Config(max: nat, ttl: Option<real>)

  datatype Cache = Cache(data: seq<Entry>, hits: nat, misses: nat, expirations: nat, evictions: nat)

  datatype Op =
    | Get(key: Key, now: real)
    | Put(key: Key, vector: Vector, now: real)

  const EMPTY := Cache([], 0, 0, 0, 0)

  predicate ValidConfig(cfg: Config) {
    cfg.max > 0 && (cfg.ttl.Some? ==> cfg.ttl.value > 0.0)
  }

  predicate Expired(ttl: Option<real>, ts: real, now: real) {
    ttl.Some? && now - ts > ttl.value
  }

  // ---------------------------------------------------------------------------
  // Ordered-dictionary operations
  // ---------------------------------------------------------------------------

  function Filter(d: seq<Entry>, p: Entry -> bool): seq<Entry> {
    if d == [] then []
    else if p(Last(d)) then Filter(Init(d), p) + [Last(d)]
    else Filter(Init(d), p)
  }

  function IsLive(ttl: Option<real>, now: real): Entry -> bool {
    (e: Entry) => !Expired(ttl, e.ts, now)
  }

  function OtherThan(k: Key): Entry -> bool {
    (e: Entry) => e.key != k
  }

  /** The entries that a sweep at `now` leaves behind. */
  function Live(ttl: Option<real>, d: seq<Entry>, now: real): seq<Entry> {
    Filter(d, IsLive(ttl, now))
  }

  /** Deletion of a key from the ordered dictionary. */
  function Without(d: seq<Entry>, k: Key): seq<Entry> {
    Filter(d, OtherThan(k))
  }

  predicate Has(d: seq<Entry>, k: Key) {
    exists i :: 0 <= i < |d| && d[i].key == k
  }

  function Lookup(d: seq<Entry>, k: Key): (e: Entry)
    requires Has(d, k)
    ensures e in d && e.key == k
  {
    if Last(d).key == k then Last(d) else Lookup(Init(d), k)
  }

  /** Popping the oldest entries until at most `n` remain. */
  function Newest(d: seq<Entry>, n: nat): seq<Entry> {
    if |d| > n then d[|d| - n..] else d
  }

  /** Sweep, append the new entry, evict down to the cap. */
  function Inserted(cfg: Config, d: seq<Entry>, e: Entry): seq<Entry> {
    Newest(Live(cfg.ttl, d, e.ts) + [e], cfg.max)
  }

  ghost predicate Distinct(d: seq<Entry>) {
    forall i, j :: 0 <= i < j < |d| ==> d[i].key != d[j].key
  }

  // ---------------------------------------------------------------------------
  // One operation
  // ---------------------------------------------------------------------------

  predicate Hit(cfg: Config, d: seq<Entry>, k: Key, now: real) {
    Has(d, k) && !Expired(cfg.ttl, Lookup(d, k).ts, now)
  }

  function Answer(cfg: Config, d: seq<Entry>, k: Key, now: real): Option<Vector> {
    if Hit(cfg, d, k, now) then Some(Lookup(d, k).vector) else None
  }

  function Step(cfg: Config, c: Cache, op: Op): Cache {
    match op
    case Get(k, now) =>
      if !Has(c.data, k) then c.(misses := c.misses + 1)
      else if Expired(cfg.ttl, Lookup(c.data, k).ts, now) then
        c.(data := Without(c.data, k), misses := c.misses + 1, expirations := c.expirations + 1)
      else
        c.(data := Without(c.data, k) + [Lookup(c.data, k)], hits := c.hits + 1)
    case Put(k, v, now) =>
      if Has(c.data, k) then c.(data := Without(c.data, k) + [Entry(k, v, now)])
      else
        var live := Live(cfg.ttl, c.data, now);
        FilterShorter(c.data, IsLive(cfg.ttl, now));
        var kept := Inserted(cfg, c.data, Entry(k, v, now));
        c.(data := kept,
           expirations := c.expirations + (|c.data| - |live|),
           evictions := c.evictions + (|live| + 1 - |kept|))
  }

  /** The cache after a history of operations, starting empty. */
  function Run(cfg: Config, ops: seq<Op>): Cache {
    if ops == [] then EMPTY else Step(cfg, Run(cfg, Init(ops)), Last(ops))
  }

  ghost predicate Monotone(ops: seq<Op>) {
    forall i, j :: 0 <= i < j < |ops| ==> ops[i].now <= ops[j].now
  }

  lemma FilterShorter(d: seq<Entry>, p: Entry -> bool)
    ensures |Filter(d, p)| <= |d|
  {
  }

  // ---------------------------------------------------------------------------
  // Filtering
  // ---------------------------------------------------------------------------

  lemma FilterSnoc(d: seq<Entry>, e: Entry, p: Entry -> bool)
    ensures Filter(d + [e], p) == if p(e) then Filter(d, p) + [e] else Filter(d, p)
  {
    assert Init(d + [e]) == d;
  }

  lemma {:induction false} FilterMember(d: seq<Entry>, p: Entry -> bool, e: Entry)
    ensures e in Filter(d, p) <==> e in d && p(e)
  {
    if d != [] {
      FilterMember(Init(d), p, e);
      assert d == Init(d) + [Last(d)];
    }
  }

  lemma FilterKeepsLast(d: seq<Entry>, p: Entry -> bool)
    requires d != [] && p(Last(d)) && Filter(Init(d), p) == Init(d)
    ensures Filter(d, p) == d
  {
    assert Filter(d, p) == Init(d) + [Last(d)];
  }

  lemma {:induction false} FilterAll(d: seq<Entry>, p: Entry -> bool)
    requires forall e :: e in d ==> p(e)
    ensures Filter(d, p) == d
  {
    if d != [] {
      assert p(Last(d));
      var before := d[..|d| - 1];
      FilterAll(before, p);
      FilterKeepsLast(d, p);
    }
  }

  lemma {:induction false} FilterDistinct(d: seq<Entry>, p: Entry -> bool)
    requires Distinct(d)
    ensures Distinct(Filter(d, p))
  {
    if d != [] {
      FilterDistinct(Init(d), p);
      forall i | 0 <= i < |Filter(Init(d), p)| ensures Filter(Init(d), p)[i].key != Last(d).key {
        FilterMember(Init(d), p, Filter(Init(d), p)[i]);
      }
    }
  }

  lemma {:induction false} FilterTwiceShorter(d: seq<Entry>, p: Entry -> bool, q: Entry -> bool)
    ensures |Filter(Filter(d, p), q)| <= |Filter(d, q)|
  {
    if d != [] {
      FilterTwiceShorter(Init(d), p, q);
      if p(Last(d)) {
        FilterSnoc(Filter(Init(d), p), Last(d), q);
      }
    }
  }

  lemma LookupUnique(d: seq<Entry>, e: Entry)
    requires Distinct(d) && e in d
    ensures Has(d, e.key) && Lookup(d, e.key) == e
  {
    assert Has(d, e.key);
  }

  lemma WithoutAbsent(d: seq<Entry>, k: Key)
    requires !Has(d, k)
    ensures Without(d, k) == d
  {
    FilterAll(d, OtherThan(k));
  }

  /** Removing a present key removes exactly its entry, as any filter can tell. */
  lemma {:induction false} WithoutCount(d: seq<Entry>, k: Key, p: Entry -> bool)
    requires Distinct(d) && Has(d, k)
    ensures |Filter(d, p)| == |Filter(Without(d, k), p)| + if p(Lookup(d, k)) then 1 else 0
  {
    var rest := Init(d);
    assert d == rest + [Last(d)];
    if Last(d).key == k {
      assert !Has(rest, k);
      WithoutAbsent(rest, k);
    } else {
      WithoutCount(rest, k, p);
      FilterSnoc(Without(rest, k), Last(d), p);
    }
  }

  lemma WithoutLength(d: seq<Entry>, k: Key)
    requires Distinct(d) && Has(d, k)
    ensures |Without(d, k)| == |d| - 1
  {
    var all := (e: Entry) => true;
    WithoutCount(d, k, all);
    FilterAll(d, all);
    FilterAll(Without(d, k), all);
  }

  lemma WithoutSnocDistinct(d: seq<Entry>, e: Entry)
    requires Distinct(d)
    ensures Distinct(Without(d, e.key) + [e])
  {
    FilterDistinct(d, OtherThan(e.key));
    var w := Without(d, e.key);
    forall i | 0 <= i < |w| ensures w[i].key != e.key {
      FilterMember(d, OtherThan(e.key), w[i]);
    }
  }

  lemma LiveSnocDistinct(cfg: Config, d: seq<Entry>, e: Entry, now: real)
    requires Distinct(d) && !Has(d, e.key)
    ensures Distinct(Live(cfg.ttl, d, now) + [e])
  {
    FilterDistinct(d, IsLive(cfg.ttl, now));
    var l := Live(cfg.ttl, d, now);
    forall i | 0 <= i < |l| ensures l[i].key != e.key {
      FilterMember(d, IsLive(cfg.ttl, now), l[i]);
    }
  }

  lemma AllLive(cfg: Config, d: seq<Entry>, now: real)
    requires forall e :: e in d ==> !Expired(cfg.ttl, e.ts, now)
    ensures Live(cfg.ttl, d, now) == d
  {
    FilterAll(d, IsLive(cfg.ttl, now));
  }

  lemma GrownLive(cfg: Config, d: seq<Entry>, e: Entry)
    requires ValidConfig(cfg)
    ensures Live(cfg.ttl, Inserted(cfg, d, e), e.ts) == Inserted(cfg, d, e)
  {
    forall x | x in Inserted(cfg, d, e) ensures !Expired(cfg.ttl, x.ts, e.ts) {
      FilterMember(d, IsLive(cfg.ttl, e.ts), x);
    }
    AllLive(cfg, Inserted(cfg, d, e), e.ts);
  }

  /** What inserting a fresh key does to one cache. */
  lemma InsertedFacts(cfg: Config, d: seq<Entry>, e: Entry)
    requires ValidConfig(cfg) && Distinct(d) && |d| <= cfg.max && !Has(d, e.key)
    ensures var kept := Inserted(cfg, d, e);
            && Distinct(kept) && Live(cfg.ttl, kept, e.ts) == kept
            && |Live(cfg.ttl, d, e.ts)| <= cfg.max
            && |kept| == if |Live(cfg.ttl, d, e.ts)| == cfg.max then cfg.max else |Live(cfg.ttl, d, e.ts)| + 1
  {
    LiveSnocDistinct(cfg, d, e, e.ts);
    GrownLive(cfg, d, e);
    FilterShorter(d, IsLive(cfg.ttl, e.ts));
  }

  // ---------------------------------------------------------------------------
  // Size and counters over every history
  // ---------------------------------------------------------------------------

  /** One operation keeps the keys distinct and the size within the cap. */
  lemma StepBounded(cfg: Config, c: Cache, op: Op)
    requires ValidConfig(cfg) && Distinct(c.data) && |c.data| <= cfg.max
    ensures Distinct(Step(cfg, c, op).data) && |Step(cfg, c, op).data| <= cfg.max
  {
    var k := op.key;
    if Has(c.data, k) {
      WithoutLength(c.data, k);
      FilterDistinct(c.data, OtherThan(k));
      WithoutSnocDistinct(c.data, Lookup(c.data, k));
      if op.Put? {
        WithoutSnocDistinct(c.data, Entry(k, op.vector, op.now));
      }
    } else if op.Put? {
      LiveSnocDistinct(cfg, c.data, Entry(k, op.vector, op.now), op.now);
    }
  }

  lemma {:induction false} RunBounded(cfg: Config, ops: seq<Op>)
    requires ValidConfig(cfg)
    ensures Distinct(Run(cfg, ops).data) && |Run(cfg, ops).data| <= cfg.max
  {
    if ops != [] {
      RunBounded(cfg, Init(ops));
      StepBounded(cfg, Run(cfg, Init(ops)), Last(ops));
    }
  }

  predicate Inserts(cfg: Config, c: Cache, op: Op) {
    op.Put? && !Has(c.data, op.key)
  }

  /** How many puts of the history brought in a key that was not cached at that moment. */
  function InsertCount(cfg: Config, ops: seq<Op>): nat {
    if ops == [] then 0
    else InsertCount(cfg, Init(ops)) + if Inserts(cfg, Run(cfg, Init(ops)), Last(ops)) then 1 else 0
  }

  function GetCount(ops: seq<Op>): nat {
    if ops == [] then 0 else GetCount(Init(ops)) + if Last(ops).Get? then 1 else 0
  }

  /** How many gets of the history were answered with a vector. */
  function AnsweredCount(cfg: Config, ops: seq<Op>): nat {
    if ops == [] then 0
    else
      var op := Last(ops);
      AnsweredCount(cfg, Init(ops)) +
      if op.Get? && Answer(cfg, Run(cfg, Init(ops)).data, op.key, op.now).Some? then 1 else 0
  }

  /** How many insertions of the history found the cache full of live entries. */
  function CrowdedCount(cfg: Config, ops: seq<Op>): nat {
    if ops == [] then 0
    else
      var c, op := Run(cfg, Init(ops)), Last(ops);
      CrowdedCount(cfg, Init(ops)) +
      if Inserts(cfg, c, op) && |Live(cfg.ttl, c.data, op.now)| == cfg.max then 1 else 0
  }

  lemma StepCounters(cfg: Config, c: Cache, op: Op)
    requires ValidConfig(cfg) && Distinct(c.data) && |c.data| <= cfg.max
    ensures var c', ins := Step(cfg, c, op), Inserts(cfg, c, op);
            && |c'.data| + c'.evictions + c'.expirations
               == |c.data| + c.evictions + c.expirations + (if ins then 1 else 0)
            && c'.hits + c'.misses == c.hits + c.misses + (if op.Get? then 1 else 0)
            && c'.evictions == c.evictions + (if ins && |Live(cfg.ttl, c.data, op.now)| == cfg.max then 1 else 0)
  {
    if Has(c.data, op.key) {
      WithoutLength(c.data, op.key);
    } else if op.Put? {
      InsertedFacts(cfg, c.data, Entry(op.key, op.vector, op.now));
    }
  }

  /**
   * Every inserted entry is still cached, was evicted, or expired; evictions are the insertions
   * that found the cache full of live entries; every get is a hit or a miss, a hit when answered.
   */
  lemma {:induction false} Conservation(cfg: Config, ops: seq<Op>)
    requires ValidConfig(cfg)
    ensures var c := Run(cfg, ops);
            && InsertCount(cfg, ops) == |c.data| + c.evictions + c.expirations
            && c.evictions == CrowdedCount(cfg, ops)
            && GetCount(ops) == c.hits + c.misses && c.hits == AnsweredCount(cfg, ops)
  {
    if ops != [] {
      Conservation(cfg, Init(ops));
      RunBounded(cfg, Init(ops));
      StepCounters(cfg, Run(cfg, Init(ops)), Last(ops));
    }
  }

  // ---------------------------------------------------------------------------
  // The object
  // ---------------------------------------------------------------------------

  datatype ConfigError = MaxEntriesNotPositive | TtlNotPositive

  /** Constructor arguments as the caller gives them; zero or negative values are rejected. */
  function Configure(maxEntries: int, ttl: Option<real>): (r: Result<Config, ConfigError>)
    ensures r.Ok? <==> maxEntries > 0 && (ttl.Some? ==> ttl.value > 0.0)
    ensures r.Ok? ==> ValidConfig(r.value) && r.value == Config(maxEntries, ttl)
    ensures r == Err(TtlNotPositive) ==> maxEntries > 0
  {
    if maxEntries <= 0 then Err(MaxEntriesNotPositive)
    else if ttl.Some? && ttl.value <= 0.0 then Err(TtlNotPositive)
    else Ok(Config(maxEntries, ttl))
  }

  function IsDead(ttl: Option<real>, now: real): Entry -> bool {
    (e: Entry) => Expired(ttl, e.ts, now)
  }

  lemma {:induction false} WithoutCommutes(d: seq<Entry>, k: Key, p: Entry -> bool)
    ensures Filter(Without(d, k), p) == Without(Filter(d, p), k)
  {
    if d != [] {
      WithoutCommutes(Init(d), k, p);
      FilterSnoc(Without(Init(d), k), Last(d), p);
      FilterSnoc(Filter(Init(d), p), Last(d), OtherThan(k));
    }
  }

  lemma {:induction false} WithoutFirst(d: seq<Entry>)
    requires d != [] && Distinct(d)
    ensures Without(d, d[0].key) == d[1..]
  {
    if |d| > 1 {
      WithoutFirst(Init(d));
      assert d[1..] == Init(d)[1..] + [Last(d)];
    } else {
      assert Init(d) == [] && d[1..] == [];
      assert Without(Init(d), d[0].key) == [];
    }
  }

  /** Deleting the first dead key leaves the live entries and the other dead ones alone. */
  lemma SweepOne(ttl: Option<real>, d: seq<Entry>, now: real)
    requires Distinct(d) && Filter(d, IsDead(ttl, now)) != []
    ensures var dead := Filter(d, IsDead(ttl, now));
            var rest := Without(d, dead[0].key);
            && Distinct(rest) && |rest| == |d| - 1
            && Live(ttl, rest, now) == Live(ttl, d, now)
            && Filter(rest, IsDead(ttl, now)) == dead[1..]
  {
    var dead, live := Filter(d, IsDead(ttl, now)), Live(ttl, d, now);
    var k := dead[0].key;
    FilterMember(d, IsDead(ttl, now), dead[0]);
    assert Has(d, k);
    WithoutLength(d, k);
    FilterDistinct(d, OtherThan(k));
    FilterDistinct(d, IsDead(ttl, now));
    WithoutFirst(dead);
    WithoutCommutes(d, k, IsDead(ttl, now));
    WithoutCommutes(d, k, IsLive(ttl, now));
    forall e | e in live ensures e.key != k {
      FilterMember(d, IsLive(ttl, now), e);
    }
    WithoutAbsent(live, k);
  }

  lemma NoneDead(ttl: Option<real>, d: seq<Entry>, now: real)
    requires Filter(d, IsDead(ttl, now)) == []
    ensures Live(ttl, d, now) == d
  {
    forall e | e in d ensures !Expired(ttl, e.ts, now) {
      FilterMember(d, IsDead(ttl, now), e);
    }
    FilterAll(d, IsLive(ttl, now));
  }

  class Store {
    const cfg: Config
    var data: seq<Entry>
    var hits: nat
    var misses: nat
    var expirations: nat
    var evictions: nat

    ghost predicate Valid()
      reads this
    {
      ValidConfig(cfg) && Distinct(data) && |data| <= cfg.max
    }

    ghost function Model(): Cache
      reads this
    {
      Cache(data, hits, misses, expirations, evictions)
    }

    constructor (cfg: Config)
      requires ValidConfig(cfg)
      ensures Valid() && this.cfg == cfg && Model() == EMPTY
    {
      this.cfg := cfg;
      data, hits, misses, expirations, evictions := [], 0, 0, 0, 0;
    }

    /** Collects the dead entries, then deletes them one by one. */
    method SweepExpired(now: real)
      requires Valid()
      modifies this
      ensures Valid()
      ensures data == Live(cfg.ttl, old(data), now)
      ensures expirations == old(expirations) + |old(data)| - |data|
      ensures hits == old(hits) && misses == old(misses) && evictions == old(evictions)
    {
      if cfg.ttl.None? {
        FilterAll(data, IsLive(cfg.ttl, now));
        return;
      }
      var dead := Filter(data, IsDead(cfg.ttl, now));
      var i := 0;
      while i < |dead|
        invariant 0 <= i <= |dead|
        invariant Distinct(data) && |data| + i == |old(data)|
        invariant Live(cfg.ttl, data, now) == Live(cfg.ttl, old(data), now)
        invariant Filter(data, IsDead(cfg.ttl, now)) == dead[i..]
        invariant expirations == old(expirations) + i
        invariant hits == old(hits) && misses == old(misses) && evictions == old(evictions)
      {
        SweepOne(cfg.ttl, data, now);
        data := Without(data, dead[i].key);
        expirations := expirations + 1;
        i := i + 1;
      }
      NoneDead(cfg.ttl, data, now);
    }

    method Get(key: Key, now: real) returns (r: Option<Vector>)
      requires Valid()
      modifies this
      ensures Valid()
      ensures r == Answer(cfg, old(data), key, now)
      ensures Model() == Step(cfg, old(Model()), Op.Get(key, now))
    {
      StepBounded(cfg, Model(), Op.Get(key, now));
      if !Has(data, key) {
        misses := misses + 1;
        return None;
      }
      var e := Lookup(data, key);
      if Expired(cfg.ttl, e.ts, now) {
        data := Without(data, key);
        expirations := expirations + 1;
        misses := misses + 1;
        return None;
      }
      data := Without(data, key) + [e];
      hits := hits + 1;
      return Some(e.vector);
    }

    method Put(key: Key, vector: Vector, now: real)
      requires Valid()
      modifies this
      ensures Valid()
      ensures Model() == Step(cfg, old(Model()), Op.Put(key, vector, now))
    {
      StepBounded(cfg, Model(), Op.Put(key, vector, now));
      var e := Entry(key, vector, now);
      if Has(data, key) {
        data := Without(data, key) + [e];
        return;
      }
      SweepExpired(now);
      data := data + [e];
      ghost var grown, before := data, evictions;
      while |data| > cfg.max
        invariant |data| <= |grown| && (|grown| > cfg.max ==> |data| >= cfg.max)
        invariant |grown| <= cfg.max ==> |data| == |grown|
        invariant data == grown[|grown| - |data|..]
        invariant evictions == before + |grown| - |data|
        invariant hits == old(hits) && misses == old(misses)
        invariant expirations == old(expirations) + |old(data)| - |Live(cfg.ttl, old(data), now)|
      {
        data := data[1..];
        evictions := evictions + 1;
      }
    }
  }
}
