/**
  The cache as a value: one recency sequence, most recently used first, plus the
  hit and miss counters. Each operation of the cache is a function on this value.
  Times and durations are integers (nanoseconds).
 */
module CacheSpec {
  import opened Common

  /** `maxSize <= 0` means unlimited; `ttl` may be any duration. */
  datatype Config = Config(maxSize: int, ttl: int)

  datatype Item<K, V> = Item(key: K, value: V, expiration: int)

  datatype State<K, V> = State(recency: seq<Item<K, V>>, hits: nat, misses: nat)

  /** What a filtering pass over the recency sequence keeps. */
  datatype Rule<K> = OtherThan(key: K) | AliveAt(now: int)

  predicate Keeps<K(==), V>(r: Rule<K>, x: Item<K, V>) {
    match r
    case OtherThan(k) => x.key != k
    case AliveAt(now) => now <= x.expiration
  }

  /** The order-preserving filter of `s` by `r`. */
  function Retain<K(==), V>(s: seq<Item<K, V>>, r: Rule<K>): seq<Item<K, V>> {
    if s == [] then []
    else (if Keeps(r, s[0]) then [s[0]] else []) + Retain(s[1..], r)
  }

  predicate Has<K(==), V>(s: seq<Item<K, V>>, k: K) {
    exists i :: 0 <= i < |s| && s[i].key == k
  }

  /** The first item of `s` with key `k`. */
  function Lookup<K(==), V>(s: seq<Item<K, V>>, k: K): (x: Item<K, V>)
    requires Has(s, k)
    ensures x in s && x.key == k
  {
    if s[0].key == k then s[0] else Lookup(s[1..], k)
  }

  ghost predicate DistinctKeys<K, V>(s: seq<Item<K, V>>) {
    forall i, j :: 0 <= i < j < |s| ==> s[i].key != s[j].key
  }

  /** What every operation keeps: no key twice, and never more than a positive maxSize. */
  ghost predicate WellFormed<K, V>(cfg: Config, st: State<K, V>) {
    && DistinctKeys(st.recency)
    && (cfg.maxSize > 0 ==> |st.recency| <= cfg.maxSize)
  }

  function Empty<K, V>(): State<K, V> {
    State([], 0, 0)
  }

  predicate Expired<K, V>(cfg: Config, x: Item<K, V>, now: int) {
    cfg.ttl > 0 && now > x.expiration
  }

  function Evict<K, V>(cfg: Config, s: seq<Item<K, V>>): seq<Item<K, V>> {
    if cfg.maxSize > 0 && |s| > cfg.maxSize then s[..|s| - 1] else s
  }

  function AfterSet<K(==), V>(cfg: Config, st: State<K, V>, now: int, k: K, v: V): State<K, V> {
    var moved := [Item(k, v, now + cfg.ttl)] + Retain(st.recency, OtherThan(k));
    st.(recency := if Has(st.recency, k) then moved else Evict(cfg, moved))
  }

  function AfterGet<K(==), V>(cfg: Config, st: State<K, V>, now: int, k: K): (State<K, V>, Option<V>) {
    if !Has(st.recency, k) then
      (st.(misses := st.misses + 1), None)
    else
      var x := Lookup(st.recency, k);
      var rest := Retain(st.recency, OtherThan(k));
      if Expired(cfg, x, now) then
        (st.(recency := rest, misses := st.misses + 1), None)
      else
        (st.(recency := [x] + rest, hits := st.hits + 1), Some(x.value))
  }

  function AfterDelete<K(==), V>(st: State<K, V>, k: K): State<K, V> {
    st.(recency := Retain(st.recency, OtherThan(k)))
  }

  function AfterClear<K, V>(st: State<K, V>): State<K, V> {
    st.(recency := [])
  }

  function AfterCleanup<K(==), V>(cfg: Config, st: State<K, V>, now: int): State<K, V> {
    if cfg.ttl == 0 then st else st.(recency := Retain(st.recency, AliveAt(now)))
  }

  // ---------- Facts about the filter ----------

  lemma {:induction false} RetainConcat<K, V>(a: seq<Item<K, V>>, b: seq<Item<K, V>>, r: Rule<K>)
    ensures Retain(a + b, r) == Retain(a, r) + Retain(b, r)
  {
    if a == [] {
      assert a + b == b;
    } else {
      assert (a + b)[0] == a[0] && (a + b)[1..] == a[1..] + b;
      RetainConcat(a[1..], b, r);
    }
  }

  /** The filter keeps exactly the items its rule keeps, and leaves a sequence it keeps whole unchanged. */
  lemma {:induction false} RetainMembers<K, V>(s: seq<Item<K, V>>, r: Rule<K>)
    ensures forall x <- Retain(s, r) :: x in s && Keeps(r, x)
    ensures forall x <- s :: Keeps(r, x) ==> x in Retain(s, r)
    ensures |Retain(s, r)| <= |s|
    ensures (forall x <- s :: Keeps(r, x)) ==> Retain(s, r) == s
  {
    if s != [] {
      RetainMembers(s[1..], r);
      assert s == [s[0]] + s[1..];
    }
  }

  lemma {:induction false} RetainDistinct<K, V>(s: seq<Item<K, V>>, r: Rule<K>)
    requires DistinctKeys(s)
    ensures DistinctKeys(Retain(s, r))
  {
    if s != [] {
      RetainDistinct(s[1..], r);
      RetainMembers(s[1..], r);
      var t := Retain(s[1..], r);
      forall j | 0 <= j < |t| ensures t[j].key != s[0].key {
        assert t[j] in t;
        assert t[j] in s[1..];
      }
    }
  }

  /** With distinct keys, filtering out the key at index `i` removes exactly that one item. */
  lemma {:induction false} RetainIndex<K, V>(s: seq<Item<K, V>>, i: nat)
    requires DistinctKeys(s) && i < |s|
    ensures Retain(s, OtherThan(s[i].key)) == s[..i] + s[i + 1..]
    ensures Has(s, s[i].key) && Lookup(s, s[i].key) == s[i]
  {
    if i == 0 {
      RetainMembers(s[1..], OtherThan(s[0].key));
      assert s[..0] + s[1..] == s[1..];
    } else {
      RetainIndex(s[1..], i - 1);
      assert [s[0]] + (s[1..][..i - 1] + s[1..][i..]) == s[..i] + s[i + 1..];
    }
  }

  lemma RetainAbsent<K, V>(s: seq<Item<K, V>>, k: K)
    requires !Has(s, k)
    ensures Retain(s, OtherThan(k)) == s
  {
    RetainMembers(s, OtherThan(k));
  }

  /** Removing an item the rule drops anyway does not change what the rule keeps. */
  lemma RetainSkip<K, V>(s: seq<Item<K, V>>, i: nat, r: Rule<K>)
    requires i < |s| && !Keeps(r, s[i])
    ensures Retain(s[..i] + s[i + 1..], r) == Retain(s, r)
  {
    assert s == s[..i] + ([s[i]] + s[i + 1..]);
    RetainConcat(s[..i], [s[i]] + s[i + 1..], r);
    RetainConcat([s[i]], s[i + 1..], r);
    RetainConcat(s[..i], s[i + 1..], r);
  }

  /** Removing key `k` from a sequence holding it makes it exactly one shorter. */
  lemma RetainCount<K, V>(s: seq<Item<K, V>>, k: K)
    requires DistinctKeys(s)
    ensures |Retain(s, OtherThan(k))| == if Has(s, k) then |s| - 1 else |s|
    ensures !Has(Retain(s, OtherThan(k)), k)
  {
    RetainMembers(s, OtherThan(k));
    if Has(s, k) {
      var i :| 0 <= i < |s| && s[i].key == k;
      RetainIndex(s, i);
    }
  }

  // ---------- The operations by index ----------

  /** `Set` on the key at index `i` moves that item, renewed, to the front. */
  lemma PresentSet<K, V>(cfg: Config, st: State<K, V>, now: int, i: nat, v: V)
    requires DistinctKeys(st.recency) && i < |st.recency|
    ensures var s, k := st.recency, st.recency[i].key;
            AfterSet(cfg, st, now, k, v) == State([Item(k, v, now + cfg.ttl)] + (s[..i] + s[i + 1..]), st.hits, st.misses)
  {
    hide Retain, Lookup, Evict, Has;
    RetainIndex(st.recency, i);
  }

  /** `Delete` on it removes that item. */
  lemma PresentDelete<K, V>(st: State<K, V>, i: nat)
    requires DistinctKeys(st.recency) && i < |st.recency|
    ensures var s := st.recency; AfterDelete(st, s[i].key) == State(s[..i] + s[i + 1..], st.hits, st.misses)
  {
    hide Retain, Lookup, Has;
    RetainIndex(st.recency, i);
  }

  /** `Get` on it removes that item if it is expired, and otherwise moves it to the front. */
  lemma PresentGet<K, V>(cfg: Config, st: State<K, V>, now: int, i: nat)
    requires DistinctKeys(st.recency) && i < |st.recency|
    ensures var s := st.recency;
            var rest := s[..i] + s[i + 1..];
            AfterGet(cfg, st, now, s[i].key) ==
            if Expired(cfg, s[i], now) then (State(rest, st.hits, st.misses + 1), None)
            else (State([s[i]] + rest, st.hits + 1, st.misses), Some(s[i].value))
  {
    hide Retain, Lookup, Has;
    RetainIndex(st.recency, i);
  }

  /** On an absent key, `Set` adds and may evict. */
  lemma AbsentSet<K, V>(cfg: Config, st: State<K, V>, now: int, k: K, v: V)
    requires !Has(st.recency, k)
    ensures AfterSet(cfg, st, now, k, v) ==
            State(Evict(cfg, [Item(k, v, now + cfg.ttl)] + st.recency), st.hits, st.misses)
  {
    RetainAbsent(st.recency, k);
  }

  /** On an absent key, `Get` misses and `Delete` does nothing. */
  lemma AbsentGet<K, V>(cfg: Config, st: State<K, V>, now: int, k: K)
    requires !Has(st.recency, k)
    ensures AfterDelete(st, k) == st
    ensures AfterGet(cfg, st, now, k) == (State(st.recency, st.hits, st.misses + 1), None)
  {
    RetainAbsent(st.recency, k);
  }
}
