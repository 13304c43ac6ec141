/**
  Whole runs of the cache: any sequence of operations, each with the time at which
  the locked method reads the clock.
 */
module CacheRuns {
  import opened Common
  import opened CacheSpec

  datatype Op<K, V> =
    | Set(now: int, key: K, value: V)
    | Get(now: int, key: K)
    | Delete(key: K)
    | Clear
    | Cleanup(now: int)

  function Step<K(==), V>(cfg: Config, st: State<K, V>, op: Op<K, V>): State<K, V> {
    match op
    case Set(now, k, v) => AfterSet(cfg, st, now, k, v)
    case Get(now, k) => AfterGet(cfg, st, now, k).0
    case Delete(k) => AfterDelete(st, k)
    case Clear => AfterClear(st)
    case Cleanup(now) => AfterCleanup(cfg, st, now)
  }

  /** The state after running `ops` on a new cache. */
  function Run<K(==), V>(cfg: Config, ops: seq<Op<K, V>>): State<K, V> {
    if ops == [] then Empty() else Step(cfg, Run(cfg, ops[..|ops| - 1]), ops[|ops| - 1])
  }

  /** What `Get` answers for `k` at time `now` after running `ops`. */
  function Answer<K(==), V>(cfg: Config, ops: seq<Op<K, V>>, now: int, k: K): Option<V> {
    AfterGet(cfg, Run(cfg, ops), now, k).1
  }

  // ---------- Every step keeps the invariant ----------

  lemma StepWellFormed<K, V>(cfg: Config, st: State<K, V>, op: Op<K, V>)
    requires WellFormed(cfg, st)
    ensures WellFormed(cfg, Step(cfg, st, op))
  {
    hide Retain, Lookup;
    match op
    case Set(_, k, _) =>
      RetainDistinct(st.recency, OtherThan(k));
      RetainMembers(st.recency, OtherThan(k));
      RetainCount(st.recency, k);
    case Get(_, k) =>
      RetainDistinct(st.recency, OtherThan(k));
      RetainMembers(st.recency, OtherThan(k));
      RetainCount(st.recency, k);
    case Delete(k) =>
      RetainDistinct(st.recency, OtherThan(k));
      RetainMembers(st.recency, OtherThan(k));
    case Clear =>
    case Cleanup(now) =>
      RetainDistinct(st.recency, AliveAt(now));
      RetainMembers(st.recency, AliveAt(now));
  }

  lemma {:induction false} RunWellFormed<K, V>(cfg: Config, ops: seq<Op<K, V>>)
    ensures WellFormed(cfg, Run(cfg, ops))
  {
    if ops != [] {
      RunWellFormed(cfg, ops[..|ops| - 1]);
      StepWellFormed(cfg, Run(cfg, ops[..|ops| - 1]), ops[|ops| - 1]);
    }
  }

  // ---------- A hit is the latest value ----------

  datatype Stamp<V> = Stamp(time: int, value: V)

  /** A plain dictionary fed by the same operations: no capacity, no expiry, no recency. */
  function Latest<K(==), V>(ops: seq<Op<K, V>>): map<K, Stamp<V>> {
    if ops == [] then map[]
    else
      var before := Latest(ops[..|ops| - 1]);
      match ops[|ops| - 1]
      case Set(now, k, v) => before[k := Stamp(now, v)]
      case Get(_, _) => before
      case Delete(k) => before - {k}
      case Clear => map[]
      case Cleanup(_) => before
  }

  ghost predicate Agrees<K, V>(cfg: Config, x: Item<K, V>, latest: map<K, Stamp<V>>) {
    && x.key in latest
    && x.value == latest[x.key].value
    && x.expiration == latest[x.key].time + cfg.ttl
  }

  /** A step keeps old items or adds the one it sets; it drops the key it sets, deletes or clears. */
  lemma StepMembers<K, V>(cfg: Config, st: State<K, V>, op: Op<K, V>, x: Item<K, V>)
    requires x in Step(cfg, st, op).recency
    ensures !op.Clear?
    ensures || (op.Set? && x == Item(op.key, op.value, op.now + cfg.ttl))
            || (x in st.recency && (op.Set? || op.Delete? ==> x.key != op.key))
  {
    var s := st.recency;
    match op
    case Set(now, k, v) =>
      var moved := [Item(k, v, now + cfg.ttl)] + Retain(s, OtherThan(k));
      assert x in moved;
      RetainMembers(s, OtherThan(k));
    case Get(_, k) => RetainMembers(s, OtherThan(k));
    case Delete(k) => RetainMembers(s, OtherThan(k));
    case Clear =>
    case Cleanup(now) => RetainMembers(s, AliveAt(now));
  }

  /** Every entry the cache holds is the last one set under its key, stamped with that set's time. */
  lemma {:induction false} EntriesAreLatest<K, V>(cfg: Config, ops: seq<Op<K, V>>)
    ensures forall x <- Run(cfg, ops).recency :: Agrees(cfg, x, Latest(ops))
  {
    if ops != [] {
      var before, op := ops[..|ops| - 1], ops[|ops| - 1];
      EntriesAreLatest(cfg, before);
      forall x <- Run(cfg, ops).recency ensures Agrees(cfg, x, Latest(ops)) {
        StepMembers(cfg, Run(cfg, before), op, x);
      }
    }
  }

  /** A hit returns the value last set under the key, not deleted or cleared since, and within its TTL. */
  lemma HitIsLatest<K, V>(cfg: Config, ops: seq<Op<K, V>>, now: int, k: K)
    ensures Answer(cfg, ops, now, k).Some? ==>
              && k in Latest(ops)
              && Answer(cfg, ops, now, k).value == Latest(ops)[k].value
              && (cfg.ttl > 0 ==> now <= Latest(ops)[k].time + cfg.ttl)
  {
    EntriesAreLatest(cfg, ops);
  }

  /** How many of the lookups in `ops` are answered (or, with `hit` false, are not). */
  function Lookups<K(==), V>(cfg: Config, ops: seq<Op<K, V>>, hit: bool): nat {
    if ops == [] then 0
    else
      var before, op := ops[..|ops| - 1], ops[|ops| - 1];
      Lookups(cfg, before, hit) + if op.Get? && Answer(cfg, before, op.now, op.key).Some? == hit then 1 else 0
  }

  /** The counters count exactly the lookups answered and not answered. */
  lemma {:induction false} CountersExact<K, V>(cfg: Config, ops: seq<Op<K, V>>)
    ensures Run(cfg, ops).hits == Lookups(cfg, ops, true) && Run(cfg, ops).misses == Lookups(cfg, ops, false)
  {
    hide Retain, Lookup, Has;
    if ops != [] {
      CountersExact(cfg, ops[..|ops| - 1]);
    }
  }

  // ---------- An unlimited cache is a dictionary with expiry ----------

  /** All clock readings in `ops`, in order, followed by `now`, never decrease. */
  ghost predicate Chronological<K, V>(ops: seq<Op<K, V>>, now: int) {
    if ops == [] then true
    else
      var op := ops[|ops| - 1];
      match op
      case Set(t, _, _) => t <= now && Chronological(ops[..|ops| - 1], t)
      case Get(t, _) => t <= now && Chronological(ops[..|ops| - 1], t)
      case Cleanup(t) => t <= now && Chronological(ops[..|ops| - 1], t)
      case Delete(_) => Chronological(ops[..|ops| - 1], now)
      case Clear => Chronological(ops[..|ops| - 1], now)
  }

  /** Without a capacity, a step loses an item only by replacing, deleting or clearing it, or past its time. */
  lemma UnlimitedStepKeeps<K, V>(cfg: Config, st: State<K, V>, op: Op<K, V>, x: Item<K, V>)
    requires cfg.maxSize <= 0 && cfg.ttl >= 0 && x in st.recency
    requires !op.Clear? && !(op.Delete? && op.key == x.key)
    requires cfg.ttl > 0 && (op.Get? || op.Cleanup?) ==> op.now <= x.expiration
    requires op.Get? && op.key == x.key ==> Lookup(st.recency, x.key) == x
    ensures Has(Step(cfg, st, op).recency, x.key)
  {
    var s, t := st.recency, Step(cfg, st, op).recency;
    var i :| 0 <= i < |s| && s[i] == x;
    if (op.Set? || op.Get?) && op.key == x.key {
      assert t[0].key == x.key;
    } else {
      var r := if op.Cleanup? then AliveAt(op.now) else OtherThan(op.key);
      RetainMembers(s, r);
      assert x in t;
      var j :| 0 <= j < |t| && t[j] == x;
    }
  }

  /** Without a capacity, an entry is gone only when it is past its time to live. */
  lemma {:induction false} UnlimitedKeeps<K, V>(cfg: Config, ops: seq<Op<K, V>>, now: int, k: K)
    requires cfg.maxSize <= 0 && cfg.ttl >= 0 && Chronological(ops, now)
    requires k in Latest(ops)
    ensures Has(Run(cfg, ops).recency, k) || (cfg.ttl > 0 && now > Latest(ops)[k].time + cfg.ttl)
  {
    var before, op := ops[..|ops| - 1], ops[|ops| - 1];
    if op.Set? && op.key == k {
      assert Run(cfg, ops).recency[0].key == k;
    } else {
      UnlimitedKeeps(cfg, before, if op.Set? || op.Get? || op.Cleanup? then op.now else now, k);
      if Has(Run(cfg, before).recency, k) {
        EntriesAreLatest(cfg, before);
        var x := Lookup(Run(cfg, before).recency, k);
        if !(cfg.ttl > 0 && now > x.expiration) {
          UnlimitedStepKeeps(cfg, Run(cfg, before), op, x);
        }
      }
    }
  }

  /**
    On an unlimited cache with a running clock, `Get` answers exactly what the plain
    dictionary holds, until the time to live has passed.
   */
  lemma UnlimitedIsDictionary<K, V>(cfg: Config, ops: seq<Op<K, V>>, now: int, k: K)
    requires cfg.maxSize <= 0 && cfg.ttl >= 0 && Chronological(ops, now)
    ensures Answer(cfg, ops, now, k) ==
            if k in Latest(ops) && (cfg.ttl == 0 || now <= Latest(ops)[k].time + cfg.ttl)
            then Some(Latest(ops)[k].value) else None
  {
    EntriesAreLatest(cfg, ops);
    if k in Latest(ops) {
      UnlimitedKeeps(cfg, ops, now, k);
    }
  }

  // ---------- LRU inclusion ----------

  /** `a` is `b` with some items left out. */
  ghost predicate Subsequence<T>(a: seq<T>, b: seq<T>) {
    if a == [] then true
    else if b == [] then false
    else if a[0] == b[0] then Subsequence(a[1..], b[1..])
    else Subsequence(a, b[1..])
  }

  lemma {:induction false} SubsequenceTail<T>(a: seq<T>, b: seq<T>)
    requires a != [] && Subsequence(a, b)
    ensures Subsequence(a[1..], b)
  {
    if a[0] == b[0] {
      SubsequenceWeaken(a[1..], b);
    } else {
      SubsequenceTail(a, b[1..]);
      SubsequenceWeaken(a[1..], b);
    }
  }

  lemma {:induction false} SubsequenceWeaken<T>(a: seq<T>, b: seq<T>)
    requires b != [] && Subsequence(a, b[1..])
    ensures Subsequence(a, b)
  {
    if a != [] && a[0] == b[0] {
      SubsequenceTail(a, b[1..]);
    }
  }

  /** Dropping the last item of both sides, or of the left side only, keeps the relation. */
  lemma {:induction false} SubsequenceInit<T>(a: seq<T>, b: seq<T>)
    requires a != [] && Subsequence(a, b)
    ensures b != [] && Subsequence(a[..|a| - 1], b[..|b| - 1]) && Subsequence(a[..|a| - 1], b)
  {
    var a', b' := a[..|a| - 1], b[..|b| - 1];
    if a[0] == b[0] {
      if |a| > 1 {
        SubsequenceInit(a[1..], b[1..]);
        assert a'[1..] == a[1..][..|a| - 2] && b'[1..] == b[1..][..|b| - 2];
      }
    } else {
      SubsequenceInit(a, b[1..]);
      if |a| > 1 {
        assert b'[1..] == b[1..][..|b| - 2];
      }
    }
  }

  /** Filtering both sides by one rule keeps the relation and does not widen the gap in length. */
  lemma {:induction false} SubsequenceRetain<K, V>(a: seq<Item<K, V>>, b: seq<Item<K, V>>, r: Rule<K>)
    requires Subsequence(a, b)
    ensures Subsequence(Retain(a, r), Retain(b, r))
    ensures |a| <= |b| && |Retain(b, r)| - |Retain(a, r)| <= |b| - |a|
  {
    if a == [] {
      RetainMembers(b, r);
    } else if a[0] == b[0] {
      SubsequenceRetain(a[1..], b[1..], r);
      if Keeps(r, a[0]) {
        assert Retain(a, r)[1..] == Retain(a[1..], r) && Retain(b, r)[1..] == Retain(b[1..], r);
      } else {
        assert Retain(a, r) == Retain(a[1..], r) && Retain(b, r) == Retain(b[1..], r);
      }
    } else {
      SubsequenceRetain(a, b[1..], r);
      if Keeps(r, b[0]) {
        assert Retain(b, r)[1..] == Retain(b[1..], r);
        SubsequenceWeaken(Retain(a, r), Retain(b, r));
      } else {
        assert Retain(b, r) == Retain(b[1..], r);
      }
    }
  }

  lemma {:induction false} SubsequenceMember<T>(a: seq<T>, b: seq<T>, x: T)
    requires Subsequence(a, b) && x in a
    ensures x in b
  {
    if a[0] == b[0] {
      if x != a[0] {
        SubsequenceMember(a[1..], b[1..], x);
      }
    } else {
      SubsequenceMember(a, b[1..], x);
    }
  }

  lemma {:induction false} RetainSubsequence<K, V>(s: seq<Item<K, V>>, r: Rule<K>)
    ensures Subsequence(Retain(s, r), s)
  {
    if s != [] {
      RetainSubsequence(s[1..], r);
      var t := Retain(s[1..], r);
      if Keeps(r, s[0]) {
        assert ([s[0]] + t)[1..] == t;
      } else {
        assert Retain(s, r) == t;
        SubsequenceWeaken(t, s);
      }
    }
  }

  /** A sweep keeps the order of the entries and drops exactly those past their time. */
  lemma CleanupExact<K, V>(cfg: Config, st: State<K, V>, now: int)
    requires cfg.ttl != 0
    ensures Subsequence(AfterCleanup(cfg, st, now).recency, st.recency)
    ensures forall x <- st.recency :: x in AfterCleanup(cfg, st, now).recency <==> now <= x.expiration
  {
    RetainSubsequence(st.recency, AliveAt(now));
    RetainMembers(st.recency, AliveAt(now));
  }

  /** A smaller cache beside a larger (or unlimited) one with the same time to live. */
  ghost predicate Comparable(small: Config, large: Config) {
    && small.ttl == large.ttl
    && 0 < small.maxSize
    && (large.maxSize <= 0 || small.maxSize <= large.maxSize)
  }

  ghost predicate Included<K, V>(small: Config, large: Config, s: State<K, V>, l: State<K, V>) {
    && Subsequence(s.recency, l.recency)
    && (large.maxSize > 0 ==> |l.recency| - |s.recency| <= large.maxSize - small.maxSize)
  }

  /** An entry of the smaller cache is found, the same, in the larger one. */
  lemma SharedLookup<K, V>(s: State<K, V>, l: State<K, V>, k: K)
    requires Subsequence(s.recency, l.recency) && DistinctKeys(l.recency) && Has(s.recency, k)
    ensures Has(l.recency, k) && Lookup(l.recency, k) == Lookup(s.recency, k)
  {
    var x := Lookup(s.recency, k);
    SubsequenceMember(s.recency, l.recency, x);
    var i :| 0 <= i < |l.recency| && l.recency[i] == x;
    RetainIndex(l.recency, i);
  }

  lemma SetIncluded<K, V>(small: Config, large: Config, s: State<K, V>, l: State<K, V>, now: int, k: K, v: V)
    requires Comparable(small, large) && Included(small, large, s, l)
    requires WellFormed(small, s) && WellFormed(large, l)
    ensures Included(small, large, AfterSet(small, s, now, k, v), AfterSet(large, l, now, k, v))
  {
    hide Retain, Lookup;
    SubsequenceRetain(s.recency, l.recency, OtherThan(k));
    RetainCount(s.recency, k);
    RetainCount(l.recency, k);
    if Has(s.recency, k) {
      SharedLookup(s, l, k);
    }
    var a := [Item(k, v, now + small.ttl)] + Retain(s.recency, OtherThan(k));
    var b := [Item(k, v, now + small.ttl)] + Retain(l.recency, OtherThan(k));
    assert a[1..] == Retain(s.recency, OtherThan(k)) && b[1..] == Retain(l.recency, OtherThan(k));
    SubsequenceInit(a, b);
  }

  lemma GetIncluded<K, V>(small: Config, large: Config, s: State<K, V>, l: State<K, V>, now: int, k: K)
    requires Comparable(small, large) && Included(small, large, s, l)
    requires WellFormed(small, s) && WellFormed(large, l)
    ensures Included(small, large, AfterGet(small, s, now, k).0, AfterGet(large, l, now, k).0)
    ensures AfterGet(small, s, now, k).1.Some? ==> AfterGet(large, l, now, k).1 == AfterGet(small, s, now, k).1
  {
    var a, b := Retain(s.recency, OtherThan(k)), Retain(l.recency, OtherThan(k));
    SubsequenceRetain(s.recency, l.recency, OtherThan(k));
    RetainCount(s.recency, k);
    RetainCount(l.recency, k);
    if Has(s.recency, k) {
      SharedLookup(s, l, k);
      var x := Lookup(s.recency, k);
      assert ([x] + a)[1..] == a && ([x] + b)[1..] == b;
    } else if Has(l.recency, k) {
      RetainAbsent(s.recency, k);
      var x := Lookup(l.recency, k);
      assert ([x] + b)[1..] == b;
      SubsequenceWeaken(a, [x] + b);
    }
  }

  /**
    LRU inclusion: run on the same operations, the smaller cache's recency sequence is the
    larger one's with some items left out, entry for entry, and the gap between their sizes
    never exceeds the gap between their capacities.
   */
  lemma {:induction false} Inclusion<K, V>(small: Config, large: Config, ops: seq<Op<K, V>>)
    requires Comparable(small, large)
    ensures Included(small, large, Run(small, ops), Run(large, ops))
  {
    if ops != [] {
      var before, op := ops[..|ops| - 1], ops[|ops| - 1];
      var s, l := Run(small, before), Run(large, before);
      Inclusion(small, large, before);
      RunWellFormed(small, before);
      RunWellFormed(large, before);
      match op
      case Set(now, k, v) => SetIncluded(small, large, s, l, now, k, v);
      case Get(now, k) => GetIncluded(small, large, s, l, now, k);
      case Delete(k) => SubsequenceRetain(s.recency, l.recency, OtherThan(k));
      case Clear =>
      case Cleanup(now) => SubsequenceRetain(s.recency, l.recency, AliveAt(now));
    }
  }

  /** Hence every hit of the smaller cache is the same hit of the larger one. */
  lemma HitInclusion<K, V>(small: Config, large: Config, ops: seq<Op<K, V>>, now: int, k: K)
    requires Comparable(small, large)
    requires Answer(small, ops, now, k).Some?
    ensures Answer(large, ops, now, k) == Answer(small, ops, now, k)
  {
    Inclusion(small, large, ops);
    RunWellFormed(small, ops);
    RunWellFormed(large, ops);
    GetIncluded(small, large, Run(small, ops), Run(large, ops), now, k);
  }

  // ---------- Eviction guarantee ----------

  /** The keys an operation makes most recently used: the key set, or the key hit. */
  function Touches<K(==), V>(cfg: Config, st: State<K, V>, op: Op<K, V>): set<K> {
    match op
    case Set(_, k, _) => {k}
    case Get(now, k) => if AfterGet(cfg, st, now, k).1.Some? then {k} else {}
    case Delete(_) => {}
    case Clear => {}
    case Cleanup(_) => {}
  }

  /** The distinct keys set or hit by `ops[from..]`. */
  function TouchedFrom<K(==), V>(cfg: Config, ops: seq<Op<K, V>>, from: nat): set<K> {
    if |ops| <= from then {}
    else
      var before := ops[..|ops| - 1];
      TouchedFrom(cfg, before, from) + Touches(cfg, Run(cfg, before), ops[|ops| - 1])
  }

  /** `op` neither touches, deletes nor clears `k`, and does not find it expired at `expiration`. */
  ghost predicate Spares<K, V>(cfg: Config, st: State<K, V>, op: Op<K, V>, k: K, expiration: int) {
    && k !in Touches(cfg, st, op)
    && match op
       case Set(_, _, _) => true
       case Get(now, k') => k' == k && cfg.ttl > 0 ==> now <= expiration
       case Delete(k') => k' != k
       case Clear => false
       case Cleanup(now) => cfg.ttl != 0 ==> now <= expiration
  }

  /** The keys that come before `k`, or all keys when `k` is not there. */
  function Before<K(==), V>(s: seq<Item<K, V>>, k: K): set<K> {
    if s == [] || s[0].key == k then {} else {s[0].key} + Before(s[1..], k)
  }

  lemma {:induction false} BeforeRetain<K, V>(s: seq<Item<K, V>>, k: K, r: Rule<K>)
    requires DistinctKeys(s) && Has(s, k) && Keeps(r, Lookup(s, k))
    ensures Has(Retain(s, r), k) && Lookup(Retain(s, r), k) == Lookup(s, k)
    ensures Before(Retain(s, r), k) <= Before(s, k)
  {
    var t := Retain(s, r);
    if s[0].key == k {
      assert t[0] == s[0];
    } else {
      assert Has(s[1..], k) by {
        var i :| 0 <= i < |s| && s[i].key == k;
        assert s[1..][i - 1] == s[i];
      }
      BeforeRetain(s[1..], k, r);
      var u := Retain(s[1..], r);
      if Keeps(r, s[0]) {
        assert t[1..] == u && t[0] == s[0];
        var j :| 0 <= j < |u| && u[j].key == k;
        assert t[j + 1] == u[j];
      } else {
        assert t == u;
      }
    }
  }

  lemma {:induction false} BeforeMembers<K, V>(s: seq<Item<K, V>>, k: K, x: K)
    requires x in Before(s, k)
    ensures Has(s, x)
  {
    if x == s[0].key {
      assert s[0].key == x;
    } else {
      BeforeMembers(s[1..], k, x);
      var j :| 0 <= j < |s[1..]| && s[1..][j].key == x;
      assert s[j + 1].key == x;
    }
  }

  /** If `k` is last, every other item comes before it. */
  lemma {:induction false} BeforeLast<K, V>(s: seq<Item<K, V>>, k: K)
    requires DistinctKeys(s) && s != [] && s[|s| - 1].key == k
    ensures |Before(s, k)| == |s| - 1
  {
    if |s| > 1 {
      BeforeLast(s[1..], k);
      if s[0].key in Before(s[1..], k) {
        BeforeMembers(s[1..], k, s[0].key);
        assert false;
      }
    }
  }

  /** Otherwise dropping the last item leaves `k` in place. */
  lemma {:induction false} BeforeInit<K, V>(s: seq<Item<K, V>>, k: K)
    requires Has(s, k) && s[|s| - 1].key != k
    ensures Has(s[..|s| - 1], k) && Lookup(s[..|s| - 1], k) == Lookup(s, k)
    ensures Before(s[..|s| - 1], k) == Before(s, k)
  {
    var i :| 0 <= i < |s| && s[i].key == k;
    var t := s[..|s| - 1];
    assert t[i].key == k;
    if s[0].key != k {
      assert s[1..][i - 1].key == k;
      BeforeInit(s[1..], k);
      assert t[1..] == s[1..][..|s| - 2];
    }
  }

  /** The key is still there with only recently touched keys before it, or enough other keys were touched. */
  ghost predicate Protected<K, V>(cfg: Config, s: seq<Item<K, V>>, k: K, expiration: int, touched: set<K>) {
    || (Has(s, k) && Lookup(s, k).expiration == expiration && Before(s, k) <= touched)
    || (cfg.maxSize > 0 && |touched| >= cfg.maxSize)
  }

  /** Evicting the last item removes `k` only when maxSize other keys come before it. */
  lemma EvictProtects<K, V>(cfg: Config, s: seq<Item<K, V>>, k: K, e: int, touched: set<K>)
    requires DistinctKeys(s) && Has(s, k) && Lookup(s, k).expiration == e && Before(s, k) <= touched
    ensures Protected(cfg, Evict(cfg, s), k, e, touched)
  {
    if s[|s| - 1].key == k {
      BeforeLast(s, k);
      SubsetSize(Before(s, k), touched);
    } else {
      BeforeInit(s, k);
    }
  }

  lemma MovedDistinct<K, V>(x: Item<K, V>, s: seq<Item<K, V>>)
    requires DistinctKeys(s)
    ensures DistinctKeys([x] + Retain(s, OtherThan(x.key)))
  {
    RetainDistinct(s, OtherThan(x.key));
    RetainCount(s, x.key);
  }

  lemma SetProtects<K, V>(cfg: Config, st: State<K, V>, now: int, k': K, v: V, k: K, e: int, touched: set<K>)
    requires WellFormed(cfg, st) && k' != k
    requires Has(st.recency, k) && Lookup(st.recency, k).expiration == e && Before(st.recency, k) <= touched
    ensures Protected(cfg, AfterSet(cfg, st, now, k', v).recency, k, e, touched + {k'})
  {
    var x, rest := Item(k', v, now + cfg.ttl), Retain(st.recency, OtherThan(k'));
    BeforeRetain(st.recency, k, OtherThan(k'));
    MovedKeeps(x, rest, k);
    MovedDistinct(x, st.recency);
    EvictProtects(cfg, [x] + rest, k, e, touched + {k'});
  }

  lemma StepProtects<K, V>(cfg: Config, st: State<K, V>, op: Op<K, V>, k: K, e: int, touched: set<K>)
    requires WellFormed(cfg, st) && Spares(cfg, st, op, k, e) && Protected(cfg, st.recency, k, e, touched)
    ensures Protected(cfg, Step(cfg, st, op).recency, k, e, touched + Touches(cfg, st, op))
  {
    if cfg.maxSize > 0 && |touched| >= cfg.maxSize {
      SubsetSize(touched, touched + Touches(cfg, st, op));
    } else {
      var s := st.recency;
      match op
      case Set(now, k', v) => SetProtects(cfg, st, now, k', v, k, e, touched);
      case Get(now, k') =>
        if k' != k {
          BeforeRetain(s, k, OtherThan(k'));
          if AfterGet(cfg, st, now, k').1.Some? {
            MovedKeeps(Lookup(s, k'), Retain(s, OtherThan(k')), k);
          }
        }
      case Delete(k') => BeforeRetain(s, k, OtherThan(k'));
      case Cleanup(now) =>
        if cfg.ttl != 0 {
          BeforeRetain(s, k, AliveAt(now));
        }
    }
  }

  /** Putting another item in front of `k` adds that item's key to those before it. */
  lemma MovedKeeps<K, V>(x: Item<K, V>, s: seq<Item<K, V>>, k: K)
    requires x.key != k && Has(s, k)
    ensures Has([x] + s, k) && Lookup([x] + s, k) == Lookup(s, k)
    ensures Before([x] + s, k) == {x.key} + Before(s, k)
  {
    var i :| 0 <= i < |s| && s[i].key == k;
    assert ([x] + s)[i + 1].key == k && ([x] + s)[1..] == s;
  }

  lemma {:induction false} SubsetSize<T>(a: set<T>, b: set<T>)
    requires a <= b
    ensures |a| <= |b|
  {
    if x :| x in a {
      SubsetSize(a - {x}, b - {x});
    }
  }

  /** A step that touches `k` leaves it in front. */
  lemma TouchFronts<K, V>(cfg: Config, st: State<K, V>, op: Op<K, V>, k: K)
    requires WellFormed(cfg, st) && k in Touches(cfg, st, op)
    ensures |Step(cfg, st, op).recency| > 0 && Step(cfg, st, op).recency[0].key == k
  {
  }

  /** Operation `i` sets or hits `k`. */
  ghost predicate TouchedAt<K, V>(cfg: Config, ops: seq<Op<K, V>>, i: nat, k: K) {
    i < |ops| && k in Touches(cfg, Run(cfg, ops[..i]), ops[i])
  }

  /** The expiration `k` has right after operation `i` sets or hits it. */
  ghost function ExpirationAt<K, V>(cfg: Config, ops: seq<Op<K, V>>, i: nat, k: K): int
    requires TouchedAt(cfg, ops, i, k)
  {
    assert ops[..i + 1][..i] == ops[..i];
    RunWellFormed(cfg, ops[..i]);
    TouchFronts(cfg, Run(cfg, ops[..i]), ops[i], k);
    Run(cfg, ops[..i + 1]).recency[0].expiration
  }

  lemma {:induction false} RunProtects<K, V>(cfg: Config, ops: seq<Op<K, V>>, i: nat, k: K)
    requires TouchedAt(cfg, ops, i, k)
    requires forall j :: i < j < |ops| ==> Spares(cfg, Run(cfg, ops[..j]), ops[j], k, ExpirationAt(cfg, ops, i, k))
    ensures Protected(cfg, Run(cfg, ops).recency, k, ExpirationAt(cfg, ops, i, k), TouchedFrom(cfg, ops, i + 1))
  {
    var e := ExpirationAt(cfg, ops, i, k);
    if i == |ops| - 1 {
      assert ops[..i + 1] == ops;
      RunWellFormed(cfg, ops[..i]);
      TouchFronts(cfg, Run(cfg, ops[..i]), ops[i], k);
    } else {
      var before := ops[..|ops| - 1];
      assert before[..i] == ops[..i] && before[..i + 1] == ops[..i + 1];
      forall j | i < j < |before| ensures Spares(cfg, Run(cfg, before[..j]), before[j], k, e) {
        assert before[..j] == ops[..j];
      }
      RunProtects(cfg, before, i, k);
      RunWellFormed(cfg, before);
      StepProtects(cfg, Run(cfg, before), ops[|ops| - 1], k, e, TouchedFrom(cfg, before, i + 1));
    }
  }

  /**
    Eviction guarantee. After operation `i` set or hit `k`, and with no later operation that
    sets, hits, deletes or clears it or finds it expired, `k` can be missing only from a bounded
    cache, and only if at least maxSize distinct other keys were set or hit since.
   */
  lemma EvictionGuarantee<K, V>(cfg: Config, ops: seq<Op<K, V>>, i: nat, k: K)
    requires TouchedAt(cfg, ops, i, k)
    requires forall j :: i < j < |ops| ==> Spares(cfg, Run(cfg, ops[..j]), ops[j], k, ExpirationAt(cfg, ops, i, k))
    requires !Has(Run(cfg, ops).recency, k)
    ensures cfg.maxSize > 0 && |TouchedFrom(cfg, ops, i + 1) - {k}| >= cfg.maxSize
  {
    RunProtects(cfg, ops, i, k);
    SparedUntouched(cfg, ops, i, k);
    assert TouchedFrom(cfg, ops, i + 1) - {k} == TouchedFrom(cfg, ops, i + 1);
  }

  lemma {:induction false} SparedUntouched<K, V>(cfg: Config, ops: seq<Op<K, V>>, i: nat, k: K)
    requires forall j :: i < j < |ops| ==> k !in Touches(cfg, Run(cfg, ops[..j]), ops[j])
    ensures k !in TouchedFrom(cfg, ops, i + 1)
  {
    if |ops| > i + 1 {
      var before := ops[..|ops| - 1];
      forall j | i < j < |before| ensures k !in Touches(cfg, Run(cfg, before[..j]), before[j]) {
        assert before[..j] == ops[..j];
      }
      SparedUntouched(cfg, before, i, k);
    }
  }

  // ---------- Exactly when a key is evicted ----------

  /** `op` removes nothing except by eviction: no deletion, no lookup of an expired key, nothing for a sweep to drop. */
  ghost predicate Quiet<K, V>(cfg: Config, st: State<K, V>, op: Op<K, V>) {
    match op
    case Set(_, _, _) => true
    case Get(now, k) => Has(st.recency, k) && cfg.ttl > 0 ==> now <= Lookup(st.recency, k).expiration
    case Delete(_) => false
    case Clear => false
    case Cleanup(now) => cfg.ttl != 0 ==> forall x <- st.recency :: now <= x.expiration
  }

  /** Filtering out one key removes just that key from those before `k`. */
  lemma {:induction false} BeforeOthers<K, V>(s: seq<Item<K, V>>, k: K, k': K)
    requires k != k'
    ensures Before(Retain(s, OtherThan(k')), k) == Before(s, k) - {k'}
    ensures Has(Retain(s, OtherThan(k')), k) <==> Has(s, k)
  {
    if s != [] {
      var t, u := Retain(s, OtherThan(k')), Retain(s[1..], OtherThan(k'));
      BeforeOthers(s[1..], k, k');
      HasCons(s, k);
      if s[0].key == k' {
        assert t == u;
      } else {
        assert t[1..] == u && t[0] == s[0];
        HasCons(t, k);
      }
    }
  }

  lemma HasCons<K, V>(s: seq<Item<K, V>>, k: K)
    requires s != []
    ensures Has(s, k) <==> s[0].key == k || Has(s[1..], k)
  {
    if i :| 0 <= i < |s| && s[i].key == k {
      if i > 0 {
        assert s[1..][i - 1].key == k;
      }
    }
    if j :| 0 <= j < |s[1..]| && s[1..][j].key == k {
      assert s[j + 1].key == k;
    }
  }

  lemma {:induction false} BeforeSize<K, V>(s: seq<Item<K, V>>, k: K)
    requires Has(s, k)
    ensures |Before(s, k)| < |s|
  {
    HasCons(s, k);
    if s[0].key != k {
      BeforeSize(s[1..], k);
    }
  }

  /** While `k` is there, the keys before it are exactly those touched since; once gone, there were enough. */
  ghost predicate Exact<K, V>(cfg: Config, s: seq<Item<K, V>>, k: K, touched: set<K>) {
    if Has(s, k) then Before(s, k) == touched else |touched| >= cfg.maxSize
  }

  lemma EvictExact<K, V>(cfg: Config, s: seq<Item<K, V>>, k: K)
    requires cfg.maxSize > 0 && DistinctKeys(s) && Has(s, k)
    ensures Exact(cfg, Evict(cfg, s), k, Before(s, k))
  {
    if s[|s| - 1].key == k {
      BeforeLast(s, k);
    } else {
      BeforeInit(s, k);
    }
  }

  /** Moving key `k'` to the front puts it, and no other new key, before `k`. */
  lemma MoveExact<K, V>(s: seq<Item<K, V>>, x: Item<K, V>, k: K)
    requires x.key != k
    ensures Has([x] + Retain(s, OtherThan(x.key)), k) <==> Has(s, k)
    ensures Before([x] + Retain(s, OtherThan(x.key)), k) == Before(s, k) + {x.key}
  {
    var moved := [x] + Retain(s, OtherThan(x.key));
    BeforeOthers(s, k, x.key);
    HasCons(moved, k);
    assert moved[1..] == Retain(s, OtherThan(x.key));
  }

  lemma EvictHas<K, V>(cfg: Config, s: seq<Item<K, V>>, k: K)
    requires Has(Evict(cfg, s), k)
    ensures Has(s, k)
  {
    var i :| 0 <= i < |Evict(cfg, s)| && Evict(cfg, s)[i].key == k;
    assert s[i].key == k;
  }

  /** The moved sequence, evicted or not, is exact if the sequence it came from is. */
  lemma MovedExact<K, V>(cfg: Config, s: seq<Item<K, V>>, x: Item<K, V>, k: K, touched: set<K>)
    requires cfg.maxSize > 0 && DistinctKeys(s) && Exact(cfg, s, k, touched) && x.key != k
    ensures Exact(cfg, [x] + Retain(s, OtherThan(x.key)), k, touched + {x.key})
    ensures Exact(cfg, Evict(cfg, [x] + Retain(s, OtherThan(x.key))), k, touched + {x.key})
  {
    var moved := [x] + Retain(s, OtherThan(x.key));
    MoveExact(s, x, k);
    SubsetSize(touched, touched + {x.key});
    MovedDistinct(x, s);
    if Has(moved, k) {
      EvictExact(cfg, moved, k);
    } else if Has(Evict(cfg, moved), k) {
      EvictHas(cfg, moved, k);
    }
  }

  lemma StepExact<K, V>(cfg: Config, st: State<K, V>, op: Op<K, V>, k: K, touched: set<K>)
    requires cfg.maxSize > 0 && WellFormed(cfg, st) && Exact(cfg, st.recency, k, touched)
    requires Quiet(cfg, st, op) && k !in Touches(cfg, st, op)
    ensures Exact(cfg, Step(cfg, st, op).recency, k, touched + Touches(cfg, st, op))
  {
    match op
    case Set(now, k', v) => MovedExact(cfg, st.recency, Item(k', v, now + cfg.ttl), k, touched);
    case Get(now, k') =>
      if Has(st.recency, k') {
        MovedExact(cfg, st.recency, Lookup(st.recency, k'), k, touched);
      }
    case Cleanup(now) => RetainMembers(st.recency, AliveAt(now));
  }

  lemma {:induction false} RunExact<K, V>(cfg: Config, ops: seq<Op<K, V>>, i: nat, k: K)
    requires cfg.maxSize > 0 && TouchedAt(cfg, ops, i, k)
    requires forall j :: i < j < |ops| ==>
               Quiet(cfg, Run(cfg, ops[..j]), ops[j]) && k !in Touches(cfg, Run(cfg, ops[..j]), ops[j])
    ensures Exact(cfg, Run(cfg, ops).recency, k, TouchedFrom(cfg, ops, i + 1))
  {
    if i == |ops| - 1 {
      RunWellFormed(cfg, ops[..i]);
      TouchFronts(cfg, Run(cfg, ops[..i]), ops[i], k);
    } else {
      var before := ops[..|ops| - 1];
      assert before[..i] == ops[..i];
      forall j | i < j < |before|
        ensures Quiet(cfg, Run(cfg, before[..j]), before[j]) && k !in Touches(cfg, Run(cfg, before[..j]), before[j])
      {
        assert before[..j] == ops[..j];
      }
      RunExact(cfg, before, i, k);
      RunWellFormed(cfg, before);
      StepExact(cfg, Run(cfg, before), ops[|ops| - 1], k, TouchedFrom(cfg, before, i + 1));
    }
  }

  /**
    When nothing is deleted or expires after operation `i` set or hit `k`, and `k` is not set or
    hit again, `k` is evicted if and only if at least maxSize distinct keys were set or hit since.
   */
  lemma EvictedExactly<K, V>(cfg: Config, ops: seq<Op<K, V>>, i: nat, k: K)
    requires cfg.maxSize > 0 && TouchedAt(cfg, ops, i, k)
    requires forall j :: i < j < |ops| ==>
               Quiet(cfg, Run(cfg, ops[..j]), ops[j]) && k !in Touches(cfg, Run(cfg, ops[..j]), ops[j])
    ensures !Has(Run(cfg, ops).recency, k) <==> |TouchedFrom(cfg, ops, i + 1)| >= cfg.maxSize
  {
    RunExact(cfg, ops, i, k);
    RunWellFormed(cfg, ops);
    if Has(Run(cfg, ops).recency, k) {
      BeforeSize(Run(cfg, ops).recency, k);
    }
  }
}
