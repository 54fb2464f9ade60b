/** The doubly linked list of active queries. */
module QueryList {
  import opened Basics
  import opened Queries

  class Query {
    var next: Query?
    var prev: Query?
    var deadline: nat
    var s: QState
    var id: nat
    const typcls: nat
    /** All that was sent and definitely answered so far. */
    ghost var trace: Trace

    constructor (s: QState, id: nat, typcls: nat)
      ensures this.s == s && this.id == id && this.typcls == typcls && deadline == 0 && trace == []
    {
      next, prev, deadline, this.s, this.id, this.typcls, trace := null, null, 0, s, id, typcls, [];
    }
  }

  ghost predicate SortedByDeadline(qs: seq<Query>)
    reads qs`deadline
  {
    forall i, j :: 0 <= i < j < |qs| ==> qs[i].deadline <= qs[j].deadline
  }

  /** Element k points at its neighbours. */
  ghost predicate Link(qs: seq<Query>, k: int)
    requires 0 <= k < |qs|
    reads qs`next, qs`prev
  {
    qs[k].next == At(qs, k + 1) && qs[k].prev == At(qs, k - 1)
  }

  function At(qs: seq<Query>, i: int): Query? { if 0 <= i < |qs| then qs[i] else null }

  lemma Shortened(a: seq<Query>, i: nat)
    requires Unique(a) && i < |a|
    ensures var b := a[..i] + a[i + 1..];
      Unique(b) && |b| == |a| - 1 && (forall k | 0 <= k < |b| :: b[k] == a[if k < i then k else k + 1]) && a[i] !in b
  {
  }

  lemma Lengthened(a: seq<Query>, i: nat, q: Query)
    requires Unique(a) && i <= |a| && q !in a
    ensures var b := a[..i] + [q] + a[i..];
      && Unique(b) && |b| == |a| + 1 && b[i] == q
      && forall k | 0 <= k < |b| && k != i :: b[k] == a[if k < i then k else k - 1]
  {
  }

  lemma InsertedSorted(a: seq<Query>, i: nat, q: Query)
    requires i <= |a| && SortedByDeadline(a) && (i > 0 ==> a[i - 1].deadline <= q.deadline)
    requires forall k | i <= k < |a| :: q.deadline < a[k].deadline
    ensures SortedByDeadline(a[..i] + [q] + a[i..])
  {
    var b := a[..i] + [q] + a[i..];
    forall k | 0 <= k < i ensures a[k].deadline <= q.deadline {
      assert k < i - 1 ==> a[k].deadline <= a[i - 1].deadline;
    }
  }

  class QList {
    var head: Query?
    var tail: Query?
    ghost var elems: seq<Query>

    constructor ()
      ensures Linked() && elems == []
    {
      head, tail, elems := null, null, [];
    }

    /** Head, tail and all links are those of the elements in their order. */
    ghost predicate Linked()
      reads this, elems`next, elems`prev
    {
      && Unique(elems)
      && head == At(elems, 0) && tail == At(elems, |elems| - 1)
      && forall i :: 0 <= i < |elems| ==> Link(elems, i)
    }

    /** `qlist_remove`. */
    method Remove(q: Query, ghost i: nat)
      requires Linked() && i < |elems| && elems[i] == q
      modifies this, elems`next, elems`prev
      ensures Linked() && elems == old(elems)[..i] + old(elems)[i + 1..]
    {
      ghost var a, b := elems, elems[..i] + elems[i + 1..];
      assert Link(a, i) && (i > 0 ==> Link(a, i - 1)) && (i + 1 < |a| ==> Link(a, i + 1));
      if q.prev != null {
        q.prev.next := q.next;
      } else {
        head := q.next;
      }
      if q.next != null {
        q.next.prev := q.prev;
      } else {
        tail := q.prev;
      }
      elems := b;
      Shortened(a, i);
      forall k | 0 <= k < |b| ensures Link(b, k) {
        var m := if k < i then k else k + 1;
        assert old(Link(a, m)) && b[k] == a[m];
      }
    }

    /** `qlist_add_head`. */
    method AddHead(q: Query)
      requires Linked() && q !in elems
      modifies this, q`next, q`prev, elems`prev
      ensures Linked() && elems == [q] + old(elems)
    {
      ghost var a, b := elems, [q] + elems;
      assert a != [] ==> Link(a, 0);
      q.next := head;
      if head != null {
        head.prev := q;
      } else {
        tail := q;
      }
      head := q;
      q.prev := null;
      elems := b;
      forall k | 0 <= k < |b| ensures Link(b, k) {
        if k > 0 {
          assert old(Link(a, k - 1)) && b[k] == a[k - 1];
        }
      }
    }

    /** `qlist_insert_after`; null stands for the front. */
    method InsertAfter(q: Query, prev: Query?, ghost i: nat)
      requires Linked() && q !in elems && i <= |elems| && prev == At(elems, i - 1)
      modifies this, q`next, q`prev, elems`next, elems`prev
      ensures Linked() && elems == old(elems)[..i] + [q] + old(elems)[i..]
    {
      ghost var a, b := elems, elems[..i] + [q] + elems[i..];
      assert (i > 0 ==> Link(a, i - 1)) && (i < |a| ==> Link(a, i));
      q.prev := prev;
      if prev != null {
        q.next := prev.next;
        if q.next != null {
          q.next.prev := q;
        } else {
          tail := q;
        }
        prev.next := q;
        elems := b;
        Lengthened(a, i, q);
        forall k | 0 <= k < |b| ensures Link(b, k) {
          if k != i {
            var m := if k < i then k else k - 1;
            assert old(Link(a, m)) && b[k] == a[m];
          }
        }
      } else {
        assert b == [q] + a;
        AddHead(q);
      }
    }

    /** The loop of `dns_send_this` that looks for the place from the tail. */
    method FindPlace(deadline: nat) returns (p: Query?, ghost i: nat)
      requires Linked()
      ensures i <= |elems| && p == At(elems, i - 1) && (i > 0 ==> elems[i - 1].deadline <= deadline)
      ensures forall k | i <= k < |elems| :: deadline < elems[k].deadline
    {
      p, i := tail, |elems|;
      while p != null
        invariant i <= |elems| && p == At(elems, i - 1)
        invariant forall k | i <= k < |elems| :: deadline < elems[k].deadline
        decreases i
      {
        if p.deadline <= deadline {
          break;
        }
        assert Link(elems, i - 1);
        p := p.prev;
        i := i - 1;
      }
    }

    method InsertByDeadline(q: Query) returns (ghost i: nat)
      requires Linked() && q !in elems && SortedByDeadline(elems)
      modifies this, q`next, q`prev, elems`next, elems`prev
      ensures i <= |old(elems)| && Linked() && elems == old(elems)[..i] + [q] + old(elems)[i..] && SortedByDeadline(elems)
    {
      hide QList.Linked, Unique, SortedByDeadline;
      var p;
      p, i := FindPlace(q.deadline);
      InsertedSorted(elems, i, q);
      InsertAfter(q, p, i);
    }
  }
}
