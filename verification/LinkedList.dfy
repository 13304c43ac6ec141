/**
  The doubly linked list under the cache (Go's container/list): a ring of elements closed by a
  sentinel, updated in place by relinking neighbours.
 */
module LinkedList {
  import opened Common

  class Element<T> {
    var next: Element?<T>
    var prev: Element?<T>
    var value: Option<T>  // None only in the sentinel

    constructor (value: Option<T>)
      ensures this.value == value
    {
      this.value := value;
      next, prev := null, null;
    }
  }

  class List<T> {
    const root: Element<T>
    var len: nat

    ghost var elems: seq<Element<T>>  // the elements, front to back
    ghost var contents: seq<T>        // their values
    ghost var nodes: set<Element<T>>  // the footprint: the sentinel and every element ever linked

    /** The sentinel and `es`, in order, form a ring: neighbours point at each other. */
    ghost predicate Ring(es: seq<Element<T>>)
      reads `nodes, nodes`next, nodes`prev
    {
      && root in nodes && root !in es
      && (forall i :: 0 <= i < |es| ==> es[i] in nodes)
      && (forall i, j :: 0 <= i < j < |es| ==> es[i] != es[j])
      && root.next == (if es == [] then root else es[0])
      && root.prev == (if es == [] then root else es[|es| - 1])
      && (es != [] ==> es[0].prev == root && es[|es| - 1].next == root)
      && (forall i, j :: 0 <= i < j < |es| && j == i + 1 ==> es[i].next == es[j] && es[j].prev == es[i])
    }

    /** The elements of `es` carry the values `vs`. */
    ghost predicate Carries(es: seq<Element<T>>, vs: seq<T>)
      reads `nodes, nodes`value
    {
      |es| == |vs| && forall i :: 0 <= i < |es| ==> es[i] in nodes && es[i].value == Some(vs[i])
    }

    lemma CarriesCons(e: Element<T>, v: T, es: seq<Element<T>>, vs: seq<T>)
      requires Carries(es, vs) && e in nodes && e.value == Some(v)
      ensures Carries([e] + es, [v] + vs)
    {
    }

    lemma CarriesRemove(es: seq<Element<T>>, vs: seq<T>, i: nat)
      requires Carries(es, vs) && i < |es|
      ensures Carries(es[..i] + es[i + 1..], vs[..i] + vs[i + 1..])
    {
    }

    /** What remains without index `i`: the same elements in the same order, all distinct, without the removed one. */
    static lemma RestOf(es: seq<Element<T>>, i: nat, rest: seq<Element<T>>)
      requires i < |es| && rest == es[..i] + es[i + 1..]
      requires forall j, k :: 0 <= j < k < |es| ==> es[j] != es[k]
      ensures |rest| == |es| - 1 && es[i] !in rest
      ensures forall k :: 0 <= k < |rest| ==> rest[k] == es[if k < i then k else k + 1]
      ensures forall j, k :: 0 <= j < k < |rest| ==> rest[j] != rest[k]
    {
    }

    ghost predicate Valid()
      reads this, nodes
    {
      && len == |elems| == |contents|
      && Ring(elems)
      && Carries(elems, contents)
    }

    constructor ()
      ensures Valid() && fresh(nodes) && elems == [] && contents == []
    {
      var r := new Element<T>(None);
      root := r;
      len := 0;
      elems, contents, nodes := [], [], {r};
      new;
      root.next, root.prev := root, root;
    }

    /** Forgets all elements: the sentinel is relinked to itself. */
    method Init()
      requires Valid()
      modifies this, nodes
      ensures Valid() && nodes == old(nodes) && elems == [] && contents == []
    {
      root.next, root.prev := root, root;
      len := 0;
      elems, contents := [], [];
    }

    method Front() returns (e: Element?<T>)
      requires Valid()
      ensures e == if elems == [] then null else elems[0]
    {
      e := if len == 0 then null else root.next;
    }

    method Back() returns (e: Element?<T>)
      requires Valid()
      ensures e == if elems == [] then null else elems[|elems| - 1]
    {
      e := if len == 0 then null else root.prev;
    }

    /** The element after the one at index `i`, or null at the end of the list. */
    method Next(e: Element<T>, ghost i: nat) returns (n: Element?<T>)
      requires Valid() && i < |elems| && elems[i] == e
      ensures n == if i + 1 < |elems| then elems[i + 1] else null
    {
      assert i + 1 < |elems| ==> e.next == elems[i + 1];
      n := e.next;
      if n == root {
        n := null;
      }
    }

    /** Links `e` between the sentinel and the first element. */
    method Link(e: Element<T>, ghost es: seq<Element<T>>)
      requires Ring(es) && e in nodes && e !in es && e != root
      modifies nodes`next, nodes`prev
      ensures Ring([e] + es)
    {
      e.prev := root;
      e.next := root.next;
      e.prev.next := e;
      e.next.prev := e;
    }

    /** Takes the element at index `i` out of the ring: its neighbours close the gap. */
    method Unlink(e: Element<T>, ghost es: seq<Element<T>>, ghost i: nat)
      requires Ring(es) && i < |es| && es[i] == e
      modifies nodes`next, nodes`prev
      ensures Ring(es[..i] + es[i + 1..])
    {
      assert i > 0 ==> e.prev == es[i - 1];
      assert i + 1 < |es| ==> e.next == es[i + 1];
      e.prev.next := e.next;
      e.next.prev := e.prev;
      e.next, e.prev := null, null;
      ghost var rest := es[..i] + es[i + 1..];
      RestOf(es, i, rest);
      forall k, l | 0 <= k < l < |rest| && l == k + 1 ensures rest[k].next == rest[l] && rest[l].prev == rest[k] {
        var k', l' := if k < i then k else k + 1, if l < i then l else l + 1;
        assert es[k'] == rest[k] && es[l'] == rest[l];
      }
    }

    /** Takes the element at index `i` out and links it in front. */
    method Relink(e: Element<T>, ghost es: seq<Element<T>>, ghost i: nat)
      requires Ring(es) && i < |es| && es[i] == e
      modifies nodes`next, nodes`prev
      ensures Ring([e] + (es[..i] + es[i + 1..]))
    {
      RestOf(es, i, es[..i] + es[i + 1..]);
      Unlink(e, es, i);
      Link(e, es[..i] + es[i + 1..]);
    }

    /** Puts a new element in front of the others. */
    method PushFront(v: T) returns (e: Element<T>)
      requires Valid()
      modifies this, nodes
      ensures Valid() && fresh(e) && e !in old(elems) && nodes == old(nodes) + {e}
      ensures elems == [e] + old(elems) && contents == [v] + old(contents)
    {
      e := new Element<T>(Some(v));
      nodes := nodes + {e};
      Link(e, elems);
      CarriesCons(e, v, elems, contents);
      len := len + 1;
      elems, contents := [e] + elems, [v] + contents;
    }

    /** Removes the element at index `i`. */
    method Remove(e: Element<T>, ghost i: nat)
      requires Valid() && i < |elems| && elems[i] == e
      modifies this, nodes
      ensures Valid() && nodes == old(nodes)
      ensures elems == old(elems)[..i] + old(elems)[i + 1..]
      ensures contents == old(contents)[..i] + old(contents)[i + 1..]
    {
      Unlink(e, elems, i);
      CarriesRemove(elems, contents, i);
      len := len - 1;
      elems, contents := elems[..i] + elems[i + 1..], contents[..i] + contents[i + 1..];
    }

    /** Moves the element at index `i` in front of the others. */
    method MoveToFront(e: Element<T>, ghost i: nat)
      requires Valid() && i < |elems| && elems[i] == e
      modifies this, nodes
      ensures Valid() && nodes == old(nodes)
      ensures elems == [e] + (old(elems)[..i] + old(elems)[i + 1..])
      ensures contents == [old(contents)[i]] + (old(contents)[..i] + old(contents)[i + 1..])
    {
      if root.next == e {
        assert i == 0;
        return;
      }
      ghost var rest, vs := elems[..i] + elems[i + 1..], contents[..i] + contents[i + 1..];
      Relink(e, elems, i);
      CarriesRemove(elems, contents, i);
      CarriesCons(e, contents[i], rest, vs);
      elems, contents := [e] + rest, [contents[i]] + vs;
    }

    /** Replaces the value of the element at index `i`. */
    method Update(e: Element<T>, v: T, ghost i: nat)
      requires Valid() && i < |elems| && elems[i] == e
      modifies e`value, `contents
      ensures Valid() && contents == old(contents)[i := v]
    {
      e.value := Some(v);
      contents := contents[i := v];
    }
  }
}
