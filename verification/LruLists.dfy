/** The list of cache entries in order of use: a doubly linked list by index, with `NIL` for the null
    pointer, against the sequence it stands for. */
module LruLists {
  const NIL := -1

  /** A cache entry; `prev` and `next` are its links. */
  datatype Entry = Entry(lba: int, data: seq<int>, valid: bool, dirty: bool, prev: int, next: int)

  ghost predicate NoRepeats(order: seq<int>) {
    forall i, j :: 0 <= i < j < |order| ==> order[i] != order[j]
  }

  ghost function PrevIn(order: seq<int>, k: int): int
    requires 0 <= k < |order|
  {
    if k == 0 then NIL else order[k - 1]
  }

  ghost function NextIn(order: seq<int>, k: int): int
    requires 0 <= k < |order|
  {
    if k == |order| - 1 then NIL else order[k + 1]
  }

  ghost predicate LinkedAt(es: seq<Entry>, order: seq<int>, k: int)
    requires 0 <= k < |order|
  {
    && 0 <= order[k] < |es|
    && es[order[k]].prev == PrevIn(order, k) && es[order[k]].next == NextIn(order, k)
  }

  /** `head` and `tail` point to the list `order`; entries outside it are not linked. */
  ghost predicate ListOk(es: seq<Entry>, head: int, tail: int, order: seq<int>) {
    && NoRepeats(order)
    && head == (if order == [] then NIL else order[0])
    && tail == (if order == [] then NIL else order[|order| - 1])
    && (forall k {:trigger LinkedAt(es, order, k)} :: 0 <= k < |order| ==> LinkedAt(es, order, k))
    && (forall i {:trigger es[i]} :: 0 <= i < |es| && i !in order ==> es[i].prev == NIL && es[i].next == NIL)
  }

  ghost function Drop(order: seq<int>, e: int): seq<int> {
    if order == [] then [] else if order[0] == e then order[1..] else [order[0]] + Drop(order[1..], e)
  }

  /** `e` is used: it goes to the front. */
  ghost function ToFront(order: seq<int>, e: int): seq<int> { [e] + Drop(order, e) }

  lemma {:induction false} DropAt(order: seq<int>, k: int)
    requires NoRepeats(order) && 0 <= k < |order|
    ensures Drop(order, order[k]) == order[..k] + order[k + 1..]
  {
    if k > 0 {
      DropAt(order[1..], k - 1);
      assert order[..k] == [order[0]] + order[1..][..k - 1];
    }
  }

  lemma {:induction false} DropNone(order: seq<int>, e: int)
    requires e !in order
    ensures Drop(order, e) == order
  {
    if order != [] {
      DropNone(order[1..], e);
    }
  }

  /** The writes that take entry `e` out of the list. */
  ghost function Unlinked(es: seq<Entry>, e: int): seq<Entry>
    requires 0 <= e < |es| && es[e].prev < |es| && es[e].next < |es|
  {
    var es1 := if es[e].prev < 0 then es else es[es[e].prev := es[es[e].prev].(next := es[e].next)];
    if es[e].next < 0 then es1 else es1[es[e].next := es1[es[e].next].(prev := es[e].prev)]
  }

  lemma UnlinkedList(es: seq<Entry>, head: int, tail: int, order: seq<int>, k: int)
    requires ListOk(es, head, tail, order) && 0 < k < |order|
    ensures var e := order[k];
      && 0 <= e < |es| && es[e].prev < |es| && es[e].next < |es|
      && var es' := Unlinked(es, e);
         && |es'| == |es|
         && (forall i :: 0 <= i < |es| ==> es'[i] == es[i].(prev := es'[i].prev, next := es'[i].next))
         && var rest := order[..k] + order[k + 1..];
            && NoRepeats(rest) && rest != [] && rest[0] == head && e !in rest
            && (if tail == e then es[e].prev else tail) == rest[|rest| - 1]
            && (forall j {:trigger LinkedAt(es', rest, j)} :: 0 <= j < |rest| ==> LinkedAt(es', rest, j))
            && (forall i :: 0 <= i < |es| && i !in order ==> es'[i] == es[i])
  {
    var e := order[k];
    assert LinkedAt(es, order, k) && LinkedAt(es, order, k - 1);
    if k < |order| - 1 {
      assert LinkedAt(es, order, k + 1);
    }
    var es' := Unlinked(es, e);
    var rest := order[..k] + order[k + 1..];
    forall j | 0 <= j < |rest|
      ensures LinkedAt(es', rest, j)
    {
      var i := if j < k then j else j + 1;
      assert LinkedAt(es, order, i) && rest[j] == order[i];
    }
  }

  /** The writes that put entry `e` in front of the list that starts at `head`. */
  ghost function Pushed(es: seq<Entry>, e: int, head: int): seq<Entry>
    requires 0 <= e < |es| && head < |es|
  {
    var es1 := es[e := es[e].(prev := NIL, next := head)];
    if head < 0 then es1 else es1[head := es1[head].(prev := e)]
  }

  lemma PushedList(es: seq<Entry>, e: int, head: int, tail: int, rest: seq<int>)
    requires 0 <= e < |es| && NoRepeats(rest) && e !in rest
    requires head == (if rest == [] then NIL else rest[0]) && tail == (if rest == [] then NIL else rest[|rest| - 1])
    requires forall k {:trigger LinkedAt(es, rest, k)} :: 0 <= k < |rest| ==> LinkedAt(es, rest, k)
    requires forall i {:trigger es[i]} :: 0 <= i < |es| && i !in rest && i != e ==> es[i].prev == NIL && es[i].next == NIL
    ensures head < |es| && ListOk(Pushed(es, e, head), e, if tail == NIL then e else tail, [e] + rest)
    ensures forall i :: 0 <= i < |es| ==>
      var x := Pushed(es, e, head)[i]; x == es[i].(prev := x.prev, next := x.next)
  {
    if rest != [] {
      assert LinkedAt(es, rest, 0);
    }
    var es', order := Pushed(es, e, head), [e] + rest;
    assert rest != [] ==> tail != NIL by {
      if rest != [] {
        assert LinkedAt(es, rest, |rest| - 1);
      }
    }
    forall j | 0 <= j < |order|
      ensures LinkedAt(es', order, j)
    {
      if j > 0 {
        assert LinkedAt(es, rest, j - 1);
      }
    }
  }

  /** `lru_move_to_front` on the links: the entry that was used is the first of the list, the others keep their
      order. */
  lemma MovedToFront(es: seq<Entry>, head: int, tail: int, order: seq<int>, e: int)
    requires ListOk(es, head, tail, order) && 0 <= e < |es| && head != e
    ensures es[e].prev < |es| && es[e].next < |es| && head < |es|
    ensures var es' := Pushed(Unlinked(es, e), e, head);
      var tail1 := if tail == e then es[e].prev else tail;
      && ListOk(es', e, if tail1 == NIL then e else tail1, ToFront(order, e))
      && |es'| == |es| && forall i :: 0 <= i < |es| ==> es'[i] == es[i].(prev := es'[i].prev, next := es'[i].next)
  {
    if e in order {
      var k :| 0 <= k < |order| && order[k] == e;
      DropAt(order, k);
      UnlinkedList(es, head, tail, order, k);
      var tail1 := if tail == e then es[e].prev else tail;
      PushedList(Unlinked(es, e), e, head, tail1, order[..k] + order[k + 1..]);
    } else {
      DropNone(order, e);
      assert es[e].prev == NIL && es[e].next == NIL;
      assert tail != e by {
        assert order != [] ==> LinkedAt(es, order, |order| - 1) && order[|order| - 1] in order;
      }
      PushedList(es, e, head, tail, order);
    }
  }

  lemma ToFrontMembers(order: seq<int>, e: int)
    ensures forall i :: i in ToFront(order, e) <==> i == e || i in Drop(order, e)
    ensures forall i :: i in ToFront(order, e) <==> i == e || i in order
  {
    DropMembers(order, e);
  }

  lemma {:induction false} DropMembers(order: seq<int>, e: int)
    ensures forall i :: i in Drop(order, e) ==> i in order
    ensures forall i :: i in order && i != e ==> i in Drop(order, e)
  {
    if order != [] && order[0] != e {
      DropMembers(order[1..], e);
    }
  }

  /** All pointers are indices of entries, or null. */
  lemma ListLinks(es: seq<Entry>, head: int, tail: int, order: seq<int>, e: int)
    requires ListOk(es, head, tail, order) && 0 <= e < |es|
    ensures NIL <= es[e].prev < |es| && NIL <= es[e].next < |es| && NIL <= head < |es| && NIL <= tail < |es|
  {
    if order != [] {
      assert LinkedAt(es, order, 0) && LinkedAt(es, order, |order| - 1);
    }
    if e in order {
      var k :| 0 <= k < |order| && order[k] == e;
      assert LinkedAt(es, order, k);
      if k > 0 {
        assert LinkedAt(es, order, k - 1);
      }
      if k < |order| - 1 {
        assert LinkedAt(es, order, k + 1);
      }
    }
  }

  lemma FrontAlready(es: seq<Entry>, head: int, tail: int, order: seq<int>, e: int)
    requires ListOk(es, head, tail, order) && 0 <= e
    ensures head == e ==> order == ToFront(order, e)
  {}

  /** The list does not depend on what the entries hold. */
  lemma ListSame(es: seq<Entry>, es': seq<Entry>, head: int, tail: int, order: seq<int>)
    requires ListOk(es, head, tail, order) && |es'| == |es|
    requires forall i :: 0 <= i < |es| ==> es'[i].prev == es[i].prev && es'[i].next == es[i].next
    ensures ListOk(es', head, tail, order)
  {
    forall k | 0 <= k < |order|
      ensures LinkedAt(es', order, k)
    {
      assert LinkedAt(es, order, k);
    }
  }

  /** A list that is not empty has a last entry. */
  lemma LastListed(es: seq<Entry>, head: int, tail: int, order: seq<int>)
    requires ListOk(es, head, tail, order) && order != []
    ensures 0 <= tail < |es| && tail in order
  {
    assert LinkedAt(es, order, |order| - 1);
  }

  lemma ListDistinct(es: seq<Entry>, head: int, tail: int, order: seq<int>)
    requires ListOk(es, head, tail, order)
    ensures NoRepeats(order)
  {}
}
