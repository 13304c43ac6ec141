/**
  The cache as it is built: a map from key to list element beside a linked list in recency
  order. Every method is proved to do, on the heap, what CacheSpec's function does on the value
  `Abs()`. The clock reading of a method is its parameter `now`.
 */
module CacheHeap {
  import opened Common
  import opened CacheSpec
  import opened LinkedList

  /** The map sends each key of `vs` to the element at the same place in `es`, and holds no other key. */
  ghost predicate Indexed<K(!new), V>(items: map<K, Element<Item<K, V>>>, es: seq<Element<Item<K, V>>>, vs: seq<Item<K, V>>) {
    && |es| == |vs|
    && (forall i :: 0 <= i < |vs| ==> vs[i].key in items && items[vs[i].key] == es[i])
    && (forall k <- items :: Has(vs, k))
    && (forall i, j :: 0 <= i < j < |es| ==> es[i] != es[j])
  }

  lemma IndexedDistinct<K(!new), V>(items: map<K, Element<Item<K, V>>>, es: seq<Element<Item<K, V>>>, vs: seq<Item<K, V>>)
    requires Indexed(items, es, vs)
    ensures DistinctKeys(vs)
  {
    forall i, j | 0 <= i < j < |vs| ensures vs[i].key != vs[j].key {
      assert items[vs[i].key] == es[i] && items[vs[j].key] == es[j];
    }
  }

  lemma IndexedRemove<K(!new), V>(items: map<K, Element<Item<K, V>>>, es: seq<Element<Item<K, V>>>, vs: seq<Item<K, V>>, i: nat)
    requires Indexed(items, es, vs) && i < |es|
    ensures Indexed(items - {vs[i].key}, es[..i] + es[i + 1..], vs[..i] + vs[i + 1..])
  {
    IndexedDistinct(items, es, vs);
    var es', vs' := es[..i] + es[i + 1..], vs[..i] + vs[i + 1..];
    forall k <- items - {vs[i].key} ensures Has(vs', k) {
      var j :| 0 <= j < |vs| && vs[j].key == k;
      assert vs'[if j < i then j else j - 1].key == k;
    }
  }

  lemma IndexedCons<K(!new), V>(items: map<K, Element<Item<K, V>>>, es: seq<Element<Item<K, V>>>, vs: seq<Item<K, V>>,
                                e: Element<Item<K, V>>, v: Item<K, V>)
    requires Indexed(items, es, vs) && e !in es && v.key !in items
    ensures Indexed(items[v.key := e], [e] + es, [v] + vs)
  {
    forall k <- items[v.key := e] ensures Has([v] + vs, k) {
      if k == v.key {
        assert ([v] + vs)[0].key == k;
      } else {
        var j :| 0 <= j < |vs| && vs[j].key == k;
        assert ([v] + vs)[j + 1].key == k;
      }
    }
  }

  /** Moving the item at index `i` to the front, perhaps with a new value under the same key. */
  lemma IndexedMove<K(!new), V>(items: map<K, Element<Item<K, V>>>, es: seq<Element<Item<K, V>>>, vs: seq<Item<K, V>>,
                                i: nat, v: Item<K, V>)
    requires Indexed(items, es, vs) && i < |es| && v.key == vs[i].key
    ensures Indexed(items, [es[i]] + (es[..i] + es[i + 1..]), [v] + (vs[..i] + vs[i + 1..]))
  {
    IndexedRemove(items, es, vs, i);
    IndexedCons(items - {v.key}, es[..i] + es[i + 1..], vs[..i] + vs[i + 1..], es[i], v);
    assert (items - {v.key})[v.key := es[i]] == items;
  }

  /** A key of the map is found at one index of the list. */
  lemma Located<K(!new), V>(items: map<K, Element<Item<K, V>>>, es: seq<Element<Item<K, V>>>, vs: seq<Item<K, V>>, k: K)
    returns (i: nat)
    requires Indexed(items, es, vs) && k in items
    ensures i < |vs| && vs[i].key == k && items[k] == es[i]
    ensures DistinctKeys(vs)
  {
    i :| 0 <= i < |vs| && vs[i].key == k;
    IndexedDistinct(items, es, vs);
  }

  lemma Absent<K(!new), V>(items: map<K, Element<Item<K, V>>>, es: seq<Element<Item<K, V>>>, vs: seq<Item<K, V>>, k: K)
    requires Indexed(items, es, vs) && k !in items
    ensures !Has(vs, k)
  {
  }

  lemma {:induction false} KeysSize<K, V>(s: seq<Item<K, V>>, keys: set<K>)
    requires DistinctKeys(s)
    requires forall i :: 0 <= i < |s| ==> s[i].key in keys
    requires forall k <- keys :: Has(s, k)
    ensures |keys| == |s|
  {
    if s == [] {
      assert keys == {};
    } else {
      forall k <- keys - {s[0].key} ensures Has(s[1..], k) {
        var i :| 0 <= i < |s| && s[i].key == k;
        assert s[1..][i - 1].key == k;
      }
      KeysSize(s[1..], keys - {s[0].key});
    }
  }

  class Cache<K(==, !new), V> {
    var items: map<K, Element<Item<K, V>>>
    const lru: List<Item<K, V>>
    const maxSize: int
    const ttl: int
    var hits: nat
    var misses: nat

    ghost const cfg: Config := Config(maxSize, ttl)

    ghost predicate Valid()
      reads this, lru, lru.nodes
    {
      lru.Valid() && Indexed(items, lru.elems, lru.contents)
    }

    ghost function Abs(): State<K, V>
      reads this, lru
    {
      State(lru.contents, hits, misses)
    }

    constructor (maxSize: int, ttl: int)
      ensures Valid() && fresh(lru) && fresh(lru.nodes) && cfg == Config(maxSize, ttl)
      ensures Abs() == Empty()
    {
      items := map[];
      var l := new List<Item<K, V>>();
      lru := l;
      this.maxSize, this.ttl := maxSize, ttl;
      hits, misses := 0, 0;
    }

    /** Removes the element at index `i` from the map and the list. */
    method DeleteElement(elem: Element<Item<K, V>>, ghost i: nat)
      requires Valid() && i < |lru.elems| && lru.elems[i] == elem
      modifies `items, lru, lru.nodes
      ensures Valid() && lru.nodes == old(lru.nodes)
      ensures lru.elems == old(lru.elems)[..i] + old(lru.elems)[i + 1..]
      ensures lru.contents == old(lru.contents)[..i] + old(lru.contents)[i + 1..]
    {
      hide List.Ring;
      IndexedRemove(items, lru.elems, lru.contents, i);
      items := items - {elem.value.value.key};
      lru.Remove(elem, i);
    }

    method EvictLRU()
      requires Valid()
      modifies `items, lru, lru.nodes
      ensures Valid() && lru.nodes == old(lru.nodes)
      ensures lru.contents == if old(lru.contents) == [] then [] else old(lru.contents)[..|old(lru.contents)| - 1]
    {
      hide List.Ring;
      var elem := lru.Back();
      if elem != null {
        DeleteElement(elem, |lru.elems| - 1);
      }
    }

    /** Gives the element at index `i` a new item under its key and moves it to the front. */
    method Refresh(elem: Element<Item<K, V>>, x: Item<K, V>, ghost i: nat)
      requires Valid() && i < |lru.elems| && lru.elems[i] == elem && x.key == lru.contents[i].key
      modifies lru, lru.nodes
      ensures Valid() && lru.nodes == old(lru.nodes)
      ensures lru.contents == [x] + (old(lru.contents)[..i] + old(lru.contents)[i + 1..])
    {
      hide List.Ring;
      IndexedMove(items, lru.elems, lru.contents, i, x);
      lru.Update(elem, x, i);
      lru.MoveToFront(elem, i);
    }

    /** Adds an item under a new key, evicting the last one if the cache is over capacity. */
    method Insert(x: Item<K, V>)
      requires Valid() && x.key !in items
      modifies `items, lru, lru.nodes
      ensures Valid() && fresh(lru.nodes - old(lru.nodes))
      ensures lru.contents == Evict(cfg, [x] + old(lru.contents))
    {
      hide List.Ring, List.Carries, Indexed;
      ghost var es, vs := lru.elems, lru.contents;
      var elem := lru.PushFront(x);
      IndexedCons(items, es, vs, elem, x);
      items := items[x.key := elem];
      if maxSize > 0 && lru.len > maxSize {
        EvictLRU();
      }
    }

    method Set(now: int, key: K, value: V)
      requires Valid()
      modifies this, lru, lru.nodes
      ensures Valid() && fresh(lru.nodes - old(lru.nodes))
      ensures Abs() == AfterSet(cfg, old(Abs()), now, key, value)
    {
      hide List.Ring, List.Carries, AfterSet, AfterGet, AfterDelete, Has, Evict;
      var x := Item(key, value, now + ttl);
      if key in items {
        ghost var i := Located(items, lru.elems, lru.contents, key);
        PresentSet(cfg, Abs(), now, i, value);
        Refresh(items[key], x, i);
      } else {
        Absent(items, lru.elems, lru.contents, key);
        AbsentSet(cfg, Abs(), now, key, value);
        Insert(x);
      }
    }

    method Get(now: int, key: K) returns (value: Option<V>)
      requires Valid()
      modifies this, lru, lru.nodes
      ensures Valid() && lru.nodes == old(lru.nodes)
      ensures (Abs(), value) == AfterGet(cfg, old(Abs()), now, key)
    {
      hide List.Ring, AfterSet, AfterGet, AfterDelete, Has;
      if key !in items {
        Absent(items, lru.elems, lru.contents, key);
        AbsentGet(cfg, Abs(), now, key);
        misses := misses + 1;
        return None;
      }
      var elem := items[key];
      ghost var i := Located(items, lru.elems, lru.contents, key);
      var x := elem.value.value;
      PresentGet(cfg, Abs(), now, i);
      if ttl > 0 && now > x.expiration {
        misses := misses + 1;
        DeleteElement(elem, i);
        return None;
      }
      Refresh(elem, x, i);
      hits := hits + 1;
      value := Some(x.value);
    }

    method Delete(key: K)
      requires Valid()
      modifies `items, lru, lru.nodes
      ensures Valid() && lru.nodes == old(lru.nodes)
      ensures Abs() == AfterDelete(old(Abs()), key)
    {
      hide List.Ring, List.Carries, AfterSet, AfterGet, AfterDelete, Has;
      if key in items {
        ghost var i := Located(items, lru.elems, lru.contents, key);
        PresentDelete(Abs(), i);
        DeleteElement(items[key], i);
      } else {
        Absent(items, lru.elems, lru.contents, key);
        AbsentGet(cfg, Abs(), 0, key);
      }
    }

    method Clear()
      requires Valid()
      modifies `items, lru, lru.nodes
      ensures Valid() && lru.nodes == old(lru.nodes)
      ensures Abs() == AfterClear(old(Abs()))
    {
      items := map[];
      lru.Init();
    }

    /** The number of keys in the map is the length of the list. */
    method Len() returns (n: nat)
      requires Valid()
      ensures n == |Abs().recency|
    {
      IndexedDistinct(items, lru.elems, lru.contents);
      KeysSize(lru.contents, items.Keys);
      n := |items|;
    }

    /** The first loop of the sweep: the expired elements, in list order. */
    method CollectExpired(now: int) returns (expired: seq<Element<Item<K, V>>>)
      requires Valid()
      ensures Pending(lru.elems, lru.contents, now, expired)
    {
      hide List.Ring, Indexed, Pending;
      expired := [];
      var elem := lru.Front();
      ghost var i := 0;
      PendingNone<K, V>(now);
      assert lru.elems[..0] == [] && lru.contents[..0] == [];
      while elem != null
        invariant 0 <= i <= |lru.elems|
        invariant elem == if i < |lru.elems| then lru.elems[i] else null
        invariant Pending(lru.elems[..i], lru.contents[..i], now, expired)
        decreases |lru.elems| - i
      {
        PendingMore(items, lru.elems, lru.contents, now, i, expired);
        if now > elem.value.value.expiration {
          expired := expired + [elem];
        }
        elem := lru.Next(elem, i);
        i := i + 1;
      }
      assert lru.elems[..i] == lru.elems && lru.contents[..i] == lru.contents;
    }

    /** The sweep: one loop collects the expired elements, a second deletes them. */
    method Cleanup(now: int)
      requires Valid()
      modifies `items, lru, lru.nodes
      ensures Valid() && lru.nodes == old(lru.nodes)
      ensures Abs() == AfterCleanup(cfg, old(Abs()), now)
    {
      hide List.Ring, List.Carries, Indexed, Pending;
      if ttl == 0 {
        return;
      }
      ghost var before := lru.contents;
      var toDelete := CollectExpired(now);
      var n := 0;
      while n < |toDelete|
        invariant 0 <= n <= |toDelete|
        invariant Valid() && lru.nodes == old(lru.nodes)
        invariant Pending(lru.elems, lru.contents, now, toDelete[n..])
        invariant Retain(lru.contents, AliveAt(now)) == Retain(before, AliveAt(now))
      {
        ghost var j := PendingLess(lru.elems, lru.contents, now, toDelete[n..]);
        RetainSkip(lru.contents, j, AliveAt(now));
        assert toDelete[n..][1..] == toDelete[n + 1..];
        DeleteElement(toDelete[n], j);
        n := n + 1;
      }
      assert toDelete[n..] == [];
      PendingDone(lru.elems, lru.contents, now);
    }
  }

  /** `pend` lists, once each, exactly the elements of `es` whose item in `vs` is past its time. */
  ghost predicate Pending<K, V>(es: seq<Element<Item<K, V>>>, vs: seq<Item<K, V>>, now: int, pend: seq<Element<Item<K, V>>>) {
    && |es| == |vs|
    && (forall i, j :: 0 <= i < j < |es| ==> es[i] != es[j])
    && (forall i, j :: 0 <= i < j < |pend| ==> pend[i] != pend[j])
    && (forall m :: 0 <= m < |pend| ==> pend[m] in es)
    && (forall j :: 0 <= j < |es| ==> (es[j] in pend <==> now > vs[j].expiration))
  }

  lemma PendingNone<K, V>(now: int)
    ensures Pending<K, V>([], [], now, [])
  {
  }

  lemma PendingMore<K(!new), V>(items: map<K, Element<Item<K, V>>>, es: seq<Element<Item<K, V>>>, vs: seq<Item<K, V>>,
                                now: int, i: nat, pend: seq<Element<Item<K, V>>>)
    requires Indexed(items, es, vs) && i < |es|
    requires Pending(es[..i], vs[..i], now, pend)
    ensures Pending(es[..i + 1], vs[..i + 1], now, if now > vs[i].expiration then pend + [es[i]] else pend)
  {
    hide Has;
    assert es[..i + 1] == es[..i] + [es[i]] && es[i] !in es[..i];
    assert es[i] !in pend;
  }

  /** Deleting the first pending element leaves exactly the rest pending. */
  lemma PendingLess<K, V>(es: seq<Element<Item<K, V>>>, vs: seq<Item<K, V>>, now: int, pend: seq<Element<Item<K, V>>>)
    returns (j: nat)
    requires Pending(es, vs, now, pend) && pend != []
    ensures j < |es| == |vs| && es[j] == pend[0] && now > vs[j].expiration
    ensures Pending(es[..j] + es[j + 1..], vs[..j] + vs[j + 1..], now, pend[1..])
  {
    j :| 0 <= j < |es| && es[j] == pend[0];
    var es', vs' := es[..j] + es[j + 1..], vs[..j] + vs[j + 1..];
    List<Item<K, V>>.RestOf(es, j, es');
    assert forall k :: 0 <= k < |vs'| ==> vs'[k] == vs[if k < j then k else k + 1];
    forall m | 0 <= m < |pend[1..]| ensures pend[1..][m] in es' {
      var k :| 0 <= k < |es| && es[k] == pend[m + 1];
      assert es'[if k < j then k else k - 1] == es[k];
    }
    forall k | 0 <= k < |es'| ensures es'[k] in pend[1..] <==> es'[k] in pend {
      assert pend == [pend[0]] + pend[1..];
    }
  }

  lemma PendingDone<K, V>(es: seq<Element<Item<K, V>>>, vs: seq<Item<K, V>>, now: int)
    requires Pending(es, vs, now, [])
    ensures Retain(vs, AliveAt(now)) == vs
  {
    RetainMembers(vs, AliveAt(now));
  }
}
