/** src/linked_list.c: a circular doubly linked list whose ring passes through a sentinel.
    The ghost sequence `ring` is the walk from the sentinel along `next` back to the sentinel,
    `model` the objects met on the way, and `live` the elements allocated and not yet freed, which
    are those on the ring. `NewElem` puts an element into `live`; fields of an element on the ring are
    read through accessors that require it to be there; `Free` takes it out and leaves nothing known
    about its fields. An operation that is handed an element is also told, as a ghost, which position
    it holds. */
module LinkedLists {
  import opened Basics

  class Elem<T> {
    var obj: Option<T>
    var next: Elem?<T>
    var prev: Elem?<T>
  }

  /** The elements on a ring, but for the sentinel at both ends, are the live ones: each is live, and
      there are no more. */
  ghost predicate AllLive<T>(ring: seq<Elem<T>>, live: set<Elem<T>>) {
    && |live| + 2 == |ring| && ring[0] !in live
    && (forall i :: 0 < i < |ring| - 1 ==> ring[i] in live)
  }

  lemma LiveInserted<T>(ring: seq<Elem<T>>, live: set<Elem<T>>, p: nat, e: Elem<T>)
    requires AllLive(ring, live - {e}) && 0 < p < |ring| && e in live && e != ring[0]
    ensures AllLive(Inserted(ring, p, e), live)
  {
    assert live == (live - {e}) + {e};
  }

  lemma LiveWithout<T>(ring: seq<Elem<T>>, live: set<Elem<T>>, p: nat)
    requires AllLive(ring, live) && 0 < p < |ring| - 1
    requires forall i :: 0 < i < |ring| - 1 && i != p ==> ring[i] != ring[p]
    ensures AllLive(Without(ring, p), live - {ring[p]})
  {
  }

  class LinkedList<T(==)> {
    var numMembers: int
    const anchor: Elem<T>

    ghost const bias: int
    ghost var ring: seq<Elem<T>>
    ghost var model: seq<T>
    ghost var live: set<Elem<T>>

    ghost predicate Valid()
      reads this, anchor, ring
    {
      Sound() && numMembers == bias + |model| && AllLive(ring, live)
    }

    ghost predicate Sound()
      reads this`ring, this`model, anchor, ring
    {
      && |ring| == |model| + 2
      && ring[0] == ring[|ring| - 1] == anchor
      && Distinct()
      && Linked()
    }

    /** No element is met twice on the way round. */
    ghost predicate Distinct()
      reads this`ring
    {
      forall i, j :: 0 <= i < j < |ring| - 1 ==> ring[i] != ring[j]
    }

    /** `next` leads from each ring position to the one after it, `prev` back again, and the
        elements carry the objects of `model` in order. */
    ghost predicate Linked()
      requires |ring| == |model| + 2
      reads this`ring, this`model, ring
    {
      && (forall i {:trigger ring[i].obj} :: 0 < i <= |model| ==> ring[i].obj == Some(model[i - 1]))
      && (forall i {:trigger ring[i].next} :: 0 <= i < |ring| - 1 ==> ring[i].next == ring[i + 1])
      && (forall i {:trigger ring[i].prev} :: 0 < i < |ring| ==> ring[i].prev == ring[i - 1])
    }

    /** `e` is the element that carries `model[k]`. */
    ghost predicate Holds(e: Elem<T>, k: nat)
      reads this`ring, this`model
    {
      k < |model| && |ring| == |model| + 2 && ring[k + 1] == e
    }

    function ObjOf(e: Elem<T>): Option<T>
      requires e in live
      reads this`live, e
    {
      e.obj
    }

    function NextOf(e: Elem<T>): Elem?<T>
      requires e in live
      reads this`live, e
    {
      e.next
    }

    function PrevOf(e: Elem<T>): Elem?<T>
      requires e in live
      reads this`live, e
    {
      e.prev
    }

    /** malloc */
    method NewElem(obj: T) returns (elem: Elem<T>)
      modifies this`live
      ensures fresh(elem) && elem.obj == Some(obj) && live == old(live) + {elem}
    {
      elem := new Elem<T>;
      elem.obj := Some(obj);
      live := live + {elem};
    }

    /** free(elem): only a live element can be freed, and what its fields hold afterwards is unknown. */
    method Free(elem: Elem<T>)
      requires elem in live
      modifies this`live, elem
      ensures live == old(live) - {elem}
    {
      elem.obj, elem.next, elem.prev := *, *, *;
      live := live - {elem};
    }

    /** Putting a new element at ring position `p`, with the two links on either side, and touching
        no other link or object leaves a well-linked ring. */
    twostate lemma SplicedIn(p: nat)
      requires old(Sound())
      requires 0 < p < |old(ring)| && |ring| == |old(ring)| + 1
      requires ring == Inserted(old(ring), p, ring[p]) && ring[p] !in old(ring)
      requires |model| == |old(model)| + 1 && model == Inserted(old(model), p - 1, model[p - 1])
      requires ring[p].obj == Some(model[p - 1]) && ring[p].prev == ring[p - 1] && ring[p].next == ring[p + 1]
      requires ring[p - 1].next == ring[p] && ring[p + 1].prev == ring[p]
      requires forall n :: n in old(ring) ==>
                 && n.obj == old(n.obj)
                 && (n == ring[p - 1] || n.next == old(n.next))
                 && (n == ring[p + 1] || n.prev == old(n.prev))
      ensures Distinct() && Linked()
    {
    }

    /** Bridging over ring position `p` and touching nothing else leaves a well-linked ring. */
    twostate lemma SplicedOut(p: nat)
      requires old(Sound())
      requires 0 < p < |old(ring)| - 1
      requires ring == Without(old(ring), p) && |model| == |old(model)| - 1 && model == Without(old(model), p - 1)
      requires ring[p - 1].next == ring[p] && ring[p].prev == ring[p - 1]
      requires forall n :: n in old(ring) ==>
                 && n.obj == old(n.obj)
                 && (n == ring[p - 1] || n.next == old(n.next))
                 && (n == ring[p] || n.prev == old(n.prev))
      ensures Distinct() && Linked()
    {
    }

    /** The memory of a list header whose `num_members` held `stale`, after LinkedListInit,
        which resets the ring and leaves the counter alone. */
    constructor Init(stale: int)
      ensures Valid() && fresh(this) && fresh(anchor)
      ensures model == [] && live == {}
      ensures numMembers == stale == bias
    {
      numMembers := stale;
      bias := stale;
      model, live := [], {};
      anchor := new Elem<T>;
      new;
      anchor.obj := None;
      anchor.next := anchor;
      anchor.prev := anchor;
      ring := [anchor, anchor];
    }

    function Length(): (n: int)
      requires Valid()
      reads this, anchor, ring
      ensures n == bias + |model|
      ensures bias == 0 ==> n == |model|
    {
      numMembers
    }

    predicate Empty()
      requires Sound()
      reads this, anchor, ring
      ensures Empty() <==> model == []
    {
      anchor.next == anchor && anchor.prev == anchor
    }

    function First(): (e: Elem?<T>)
      requires Valid()
      reads this, anchor, ring
      ensures e == null <==> model == []
      ensures e != null ==> Holds(e, 0)
    {
      if Empty() then null else anchor.next
    }

    function Last(): (e: Elem?<T>)
      requires Valid()
      reads this, anchor, ring
      ensures e == null <==> model == []
      ensures e != null ==> Holds(e, |model| - 1)
    {
      if Empty() then null else anchor.prev
    }

    /** The successor of the node at position `k`, which must still be on the ring. */
    function Next(elem: Elem<T>, ghost k: nat): (e: Elem?<T>)
      requires Valid()
      requires Holds(elem, k)
      reads this, anchor, ring
      ensures e == null <==> k == |model| - 1
      ensures e != null ==> Holds(e, k + 1)
    {
      if NextOf(elem) == anchor then null else NextOf(elem)
    }

    function Prev(elem: Elem<T>, ghost k: nat): (e: Elem?<T>)
      requires Valid()
      requires Holds(elem, k)
      reads this, anchor, ring
      ensures e == null <==> k == 0
      ensures e != null ==> k > 0 && Holds(e, k - 1)
    {
      if PrevOf(elem) == anchor then null else PrevOf(elem)
    }

    method Append(obj: T)
      requires Valid()
      modifies this, anchor, ring
      ensures Valid()
      ensures model == old(model) + [obj]
      ensures ring == Inserted(old(ring), |old(model)| + 1, ring[|old(model)| + 1]) && fresh(ring[|old(model)| + 1])
      ensures live == old(live) + {ring[|old(model)| + 1]}
    {
      var elem := NewElem(obj);
      LinkAtEnd(elem);
      numMembers := numMembers + 1;
    }

    /** Lines 45-57 */
    method LinkAtEnd(elem: Elem<T>)
      requires Sound() && elem in live && elem !in ring && elem.obj.Some? && AllLive(ring, live - {elem})
      modifies this`ring, this`model, ring, elem`next, elem`prev
      ensures model == old(model) + [elem.obj.value] && ring == Inserted(old(ring), |old(model)| + 1, elem)
      ensures AllLive(ring, live) && Distinct() && Linked()
    {
      if Empty() {
        LinkOnly(elem);
      } else {
        LinkLast(elem);
      }
    }

    method Prepend(obj: T)
      requires Valid()
      modifies this, anchor, ring
      ensures Valid()
      ensures model == [obj] + old(model)
      ensures ring == Inserted(old(ring), 1, ring[1]) && fresh(ring[1])
      ensures live == old(live) + {ring[1]}
    {
      var elem := NewElem(obj);
      if Empty() {
        LinkOnly(elem);
      } else {
        LinkFirst(elem);
      }
      numMembers := numMembers + 1;
    }

    /** Lines 46-49 and 78-81 */
    method LinkOnly(elem: Elem<T>)
      requires Sound() && model == [] && elem in live && elem !in ring && elem.obj.Some?
      requires AllLive(ring, live - {elem})
      modifies this`ring, this`model, anchor, elem`next, elem`prev
      ensures model == [elem.obj.value] && ring == Inserted(old(ring), 1, elem)
      ensures AllLive(ring, live) && Distinct() && Linked()
    {
      anchor.next := elem;
      anchor.prev := elem;
      elem.next := anchor;
      elem.prev := anchor;
      ring, model := Inserted(ring, 1, elem), [elem.obj.value];
    }

    /** Lines 52-56 */
    method LinkLast(elem: Elem<T>)
      requires Sound() && model != [] && elem in live && elem !in ring && elem.obj.Some?
      requires AllLive(ring, live - {elem})
      modifies this`ring, this`model, ring, elem`next, elem`prev
      ensures model == old(model) + [elem.obj.value] && ring == Inserted(old(ring), |old(model)| + 1, elem)
      ensures AllLive(ring, live) && Distinct() && Linked()
    {
      ghost var p := |model| + 1;
      elem.next := anchor;
      elem.prev := anchor.prev;
      anchor.prev.next := elem;
      anchor.prev := elem;
      LiveInserted(ring, live, p, elem);
      ring, model := Inserted(ring, p, elem), Inserted(model, p - 1, elem.obj.value);
      SplicedIn(p);
    }

    /** Lines 84-88 */
    method LinkFirst(elem: Elem<T>)
      requires Sound() && model != [] && elem in live && elem !in ring && elem.obj.Some?
      requires AllLive(ring, live - {elem})
      modifies this`ring, this`model, ring, elem`next, elem`prev
      ensures model == [elem.obj.value] + old(model) && ring == Inserted(old(ring), 1, elem)
      ensures AllLive(ring, live) && Distinct() && Linked()
    {
      elem.next := anchor.next;
      elem.prev := anchor;
      anchor.next.prev := elem;
      anchor.next := elem;
      LiveInserted(ring, live, 1, elem);
      ring, model := Inserted(ring, 1, elem), Inserted(model, 0, elem.obj.value);
      SplicedIn(1);
    }

    /** Takes `elem` off the ring and frees it; a call on an empty list does nothing. */
    method Unlink(elem: Elem<T>, ghost k: nat)
      requires Valid()
      requires model == [] || Holds(elem, k)
      modifies this, anchor, ring
      ensures Valid()
      ensures old(model) == [] ==> ring == old(ring) && model == [] && live == old(live)
      ensures old(model) != [] ==>
                && ring == Without(old(ring), k + 1)
                && model == Without(old(model), k)
                && live == old(live) - {elem}
    {
      if Empty() {
        return;
      }
      LiveWithout(ring, live, k + 1);
      Bridge(elem, k);
      numMembers := numMembers - 1;
      Free(elem);
    }

    /** Lines 105-106 */
    method Bridge(elem: Elem<T>, ghost k: nat)
      requires Valid() && Holds(elem, k)
      modifies this`ring, this`model, ring
      ensures ring == Without(old(ring), k + 1) && model == Without(old(model), k)
      ensures elem !in ring && Distinct() && Linked()
    {
      var prev, next := PrevOf(elem), NextOf(elem);
      prev.next := next;
      next.prev := prev;
      ring, model := Without(ring, k + 1), Without(model, k);
      SplicedOut(k + 1);
    }

    /** Frees every element; it ends because each round takes the head off the ring. */
    method UnlinkAll()
      requires Valid()
      modifies this, anchor, ring
      ensures Valid() && model == [] && live == {}
    {
      var elem := First();
      while elem != null
        invariant Valid()
        invariant forall i :: 0 <= i < |ring| ==> ring[i] in old(ring)
        invariant elem == null <==> model == []
        invariant elem != null ==> Holds(elem, 0)
        decreases |model|
      {
        var nextElem := Next(elem, 0);
        Unlink(elem, 0);
        elem := nextElem;
      }
    }

    method InsertAfter(obj: T, elem: Elem?<T>, ghost k: nat)
      requires Valid()
      requires elem != null ==> Holds(elem, k)
      modifies this, anchor, ring
      ensures Valid()
      ensures elem == null ==> model == old(model) + [obj]
      ensures elem != null ==> model == Inserted(old(model), k + 1, obj)
      ensures elem != null ==> ring == Inserted(old(ring), k + 2, ring[k + 2]) && fresh(ring[k + 2])
      ensures elem != null ==> live == old(live) + {ring[k + 2]}
    {
      if elem == null {
        Append(obj);
        return;
      }
      var newElem := NewElem(obj);
      LinkAfter(newElem, elem, k);
      numMembers := numMembers + 1;
    }

    /** Lines 151-155 */
    method LinkAfter(newElem: Elem<T>, elem: Elem<T>, ghost k: nat)
      requires Sound() && Holds(elem, k) && newElem in live && newElem !in ring && newElem.obj.Some?
      requires AllLive(ring, live - {newElem})
      modifies this`ring, this`model, ring, newElem`next, newElem`prev
      ensures ring == Inserted(old(ring), k + 2, newElem)
      ensures model == Inserted(old(model), k + 1, newElem.obj.value)
      ensures AllLive(ring, live) && Distinct() && Linked()
    {
      newElem.next := NextOf(elem);
      newElem.prev := elem;
      NextOf(elem).prev := newElem;
      elem.next := newElem;
      LiveInserted(ring, live, k + 2, newElem);
      ring, model := Inserted(ring, k + 2, newElem), Inserted(model, k + 1, newElem.obj.value);
      SplicedIn(k + 2);
    }

    method InsertBefore(obj: T, elem: Elem?<T>, ghost k: nat)
      requires Valid()
      requires elem != null ==> Holds(elem, k)
      modifies this, anchor, ring
      ensures Valid()
      ensures elem == null ==> model == [obj] + old(model)
      ensures elem != null ==> model == Inserted(old(model), k, obj)
      ensures elem != null ==> ring == Inserted(old(ring), k + 1, ring[k + 1]) && fresh(ring[k + 1])
      ensures elem != null ==> live == old(live) + {ring[k + 1]}
    {
      if elem == null {
        Prepend(obj);
        return;
      }
      var newElem := NewElem(obj);
      LinkBefore(newElem, elem, k);
      numMembers := numMembers + 1;
    }

    /** Lines 180-184 */
    method LinkBefore(newElem: Elem<T>, elem: Elem<T>, ghost k: nat)
      requires Sound() && Holds(elem, k) && newElem in live && newElem !in ring && newElem.obj.Some?
      requires AllLive(ring, live - {newElem})
      modifies this`ring, this`model, ring, newElem`next, newElem`prev
      ensures ring == Inserted(old(ring), k + 1, newElem)
      ensures model == Inserted(old(model), k, newElem.obj.value)
      ensures AllLive(ring, live) && Distinct() && Linked()
    {
      newElem.next := elem;
      newElem.prev := PrevOf(elem);
      PrevOf(elem).next := newElem;
      elem.prev := newElem;
      LiveInserted(ring, live, k + 1, newElem);
      ring, model := Inserted(ring, k + 1, newElem), Inserted(model, k, newElem.obj.value);
      SplicedIn(k + 1);
    }

    /** Finds the first element carrying `obj`. */
    method Find(obj: T) returns (e: Elem?<T>)
      requires Valid()
      ensures e == null <==> obj !in model
      ensures e != null ==>
                exists k :: 0 <= k < |model| && Holds(e, k) && model[k] == obj && obj !in model[..k]
    {
      if Empty() {
        return null;
      }
      e := First();
      ghost var k := 0;
      while e != null
        invariant 0 <= k <= |model|
        invariant e == null <==> k == |model|
        invariant e != null ==> Holds(e, k)
        invariant obj !in model[..k]
        decreases |model| - k
      {
        if ObjOf(e) == Some(obj) {
          return;
        }
        e := Next(e, k);
        k := k + 1;
      }
    }
  }
}
