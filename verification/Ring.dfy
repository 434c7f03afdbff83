/** The intrusive circular list that carries all four queues: nodes linked both ways through a
    sentinel. Each macro is a method on pointers, proved to be an operation on the sequence of nodes
    that the ring stands for; the scans of the protocol over rings are proved to be the functions that
    the rest of the model uses on sequences. */
module Rings {
  import opened Words
  import opened Wire
  import opened Senders
  import opened Receivers
  import Seqs

  /** A node embedded in a segment; the value of a sentinel is never read. */
  class Node<T> {
    var next: Node?<T>
    var prev: Node?<T>
    const value: T

    constructor (value: T)
      ensures this.value == value && next == null && prev == null
    {
      this.value := value;
      next, prev := null, null;
    }
  }

  /** The node at position `i` of the cycle: the sentinel stands before the first and after the last. */
  function At<T>(head: Node<T>, s: seq<Node<T>>, i: int): Node<T> {
    if 0 < i <= |s| then s[i - 1] else head
  }

  /** The sentinel `head` and the nodes `s` form one closed cycle of distinct nodes in which `next` and
      `prev` are inverse. */
  ghost predicate Ring<T>(head: Node<T>, s: seq<Node<T>>)
    reads head, s
  {
    && head !in s && (forall i, j :: 0 <= i < j < |s| ==> s[i] != s[j])
    && head.next == At(head, s, 1) && head.prev == At(head, s, |s|)
    && (forall i :: 0 <= i < |s| ==> s[i].next == At(head, s, i + 2))
    && (forall i :: 0 <= i < |s| ==> s[i].prev == At(head, s, i))
  }

  function Values<T>(s: seq<Node<T>>): (r: seq<T>)
    ensures |r| == |s| && forall i :: 0 <= i < |s| ==> r[i] == s[i].value
  {
    seq(|s|, i requires 0 <= i < |s| => s[i].value)
  }

  /** One step in either direction between neighbours. */
  lemma Walk<T>(head: Node<T>, s: seq<Node<T>>, i: nat)
    requires Ring(head, s) && i <= |s|
    ensures At(head, s, i).next == At(head, s, i + 1) && At(head, s, i + 1).prev == At(head, s, i)
    ensures i > 0 <==> At(head, s, i) != head
    ensures forall k :: At(head, s, k) == head || At(head, s, k) in s
  {
  }

  // ---- the macros ----

  /** `IQUEUE_INIT` */
  method Init<T>(ptr: Node<T>)
    modifies ptr
    ensures Ring(ptr, [])
  {
    ptr.next := ptr;
    ptr.prev := ptr;
  }

  /** `IQUEUE_IS_EMPTY` */
  method IsEmpty<T>(head: Node<T>, ghost s: seq<Node<T>>) returns (empty: bool)
    requires Ring(head, s)
    ensures empty <==> s == []
  {
    empty := head == head.next;
  }

  /** `IQUEUE_ADD`: the node goes behind the sentinel. */
  method Add<T>(node: Node<T>, head: Node<T>, ghost s: seq<Node<T>>)
    requires Ring(head, s) && node != head && node !in s
    modifies node, head, head.next
    ensures Ring(head, [node] + s)
  {
    node.prev := head;
    node.next := head.next;
    head.next.prev := node;
    head.next := node;
  }

  /** `IQUEUE_ADD_TAIL` */
  method AddTail<T>(node: Node<T>, head: Node<T>, ghost s: seq<Node<T>>)
    requires Ring(head, s) && node != head && node !in s
    modifies node, head, head.prev
    ensures Ring(head, s + [node])
  {
    node.prev := head.prev;
    node.next := head;
    head.prev.next := node;
    head.prev := node;
  }

  /** `IQUEUE_DEL` */
  method Del<T>(entry: Node<T>, ghost head: Node<T>, ghost s: seq<Node<T>>)
    requires Ring(head, s) && s != [] && entry == s[0]
    modifies entry, entry.next, entry.prev
    ensures Ring(head, s[1..])
    ensures entry.next == null && entry.prev == null
  {
    entry.next.prev := entry.prev;
    entry.prev.next := entry.next;
    entry.next := null;
    entry.prev := null;
  }

  // ---- any node can play the sentinel ----

  /** The rest of the cycle as seen from position `i`. */
  function View<T>(head: Node<T>, s: seq<Node<T>>, i: nat): seq<Node<T>>
    requires i <= |s|
  {
    if i == 0 then s else s[i..] + [head] + s[..i - 1]
  }

  lemma RotateOne<T>(head: Node<T>, s: seq<Node<T>>)
    requires Ring(head, s) && s != []
    ensures Ring(s[0], s[1..] + [head])
  {
    var t := s[1..] + [head];
    assert forall k :: 0 <= k < |t| ==> t[k] == At(head, s, k + 2);
  }

  lemma ViewNext<T>(head: Node<T>, s: seq<Node<T>>, i: nat)
    requires i < |s|
    ensures var v := View(head, s, i); v != [] && v[0] == s[i] && View(head, s, i + 1) == v[1..] + [At(head, s, i)]
  {
  }

  lemma ViewNone<T>(head: Node<T>, s: seq<Node<T>>)
    ensures View(head, s, 0) == s && At(head, s, 0) == head
  {
  }

  /** A ring is a ring around each of its nodes. */
  lemma {:induction false} Rotate<T>(head: Node<T>, s: seq<Node<T>>, i: nat)
    requires Ring(head, s) && i <= |s|
    ensures Ring(At(head, s, i), View(head, s, i))
  {
    hide Ring, View;
    if i == 0 {
      ViewNone(head, s);
    } else {
      Rotate(head, s, i - 1);
      ViewNext(head, s, i - 1);
      RotateOne(At(head, s, i - 1), View(head, s, i - 1));
    }
  }

  lemma ViewMembers<T>(head: Node<T>, s: seq<Node<T>>, i: nat, node: Node<T>)
    requires i <= |s|
    ensures node in View(head, s, i) || node == At(head, s, i) <==> node in s || node == head
  {
    if i > 0 {
      assert s == s[..i - 1] + [s[i - 1]] + s[i..];
    }
  }

  lemma ViewBack<T>(head: Node<T>, s: seq<Node<T>>, i: nat)
    requires i <= |s|
    ensures View(At(head, s, i), View(head, s, i), if i == 0 then 0 else |s| - i + 1) == s
  {
  }

  lemma ViewAdd<T>(head: Node<T>, s: seq<Node<T>>, i: nat, node: Node<T>)
    requires i <= |s|
    ensures View(head, s[..i] + [node] + s[i..], i) == [node] + View(head, s, i)
  {
    var t := s[..i] + [node] + s[i..];
    assert t[i..] == [node] + s[i..];
    if i > 0 {
      assert t[..i - 1] == s[..i - 1];
      assert [node] + s[i..] + [head] + s[..i - 1] == [node] + (s[i..] + [head] + s[..i - 1]);
    }
  }

  lemma ViewDel<T>(head: Node<T>, s: seq<Node<T>>, i: nat)
    requires i < |s|
    ensures View(head, s, i) == [s[i]] + View(head, s[..i] + s[i + 1..], i)
  {
    var t := s[..i] + s[i + 1..];
    assert t[i..] == s[i + 1..] && s[i..] == [s[i]] + s[i + 1..];
    if i > 0 {
      assert t[..i - 1] == s[..i - 1];
      assert [s[i]] + s[i + 1..] + [head] + s[..i - 1] == [s[i]] + (s[i + 1..] + [head] + s[..i - 1]);
    }
  }

  lemma RotateBack<T>(head: Node<T>, s: seq<Node<T>>, i: nat)
    requires i <= |s| && Ring(At(head, s, i), View(head, s, i))
    ensures Ring(head, s)
  {
    ViewBack(head, s, i);
    Rotate(At(head, s, i), View(head, s, i), if i == 0 then 0 else |s| - i + 1);
  }

  /** The general use of `IQUEUE_ADD`: behind the node at position `i`. */
  method AddAt<T>(node: Node<T>, at: Node<T>, ghost head: Node<T>, ghost s: seq<Node<T>>, ghost i: nat)
    requires Ring(head, s) && i <= |s| && at == At(head, s, i)
    requires node != head && node !in s
    modifies node, at, at.next
    ensures Ring(head, s[..i] + [node] + s[i..])
  {
    hide Ring, View;
    ghost var t := s[..i] + [node] + s[i..];
    Rotate(head, s, i);
    ViewAdd(head, s, i, node);
    ViewMembers(head, s, i, node);
    Add(node, at, View(head, s, i));
    assert At(head, t, i) == at;
    RotateBack(head, t, i);
  }

  /** The general use of `IQUEUE_DEL`: the node at position `i`. */
  method DelAt<T>(entry: Node<T>, ghost head: Node<T>, ghost s: seq<Node<T>>, ghost i: nat)
    requires Ring(head, s) && i < |s| && entry == s[i]
    modifies entry, entry.next, entry.prev
    ensures Ring(head, s[..i] + s[i + 1..])
    ensures entry.next == null && entry.prev == null
  {
    hide Ring, View;
    ghost var t := s[..i] + s[i + 1..];
    ghost var at := At(head, s, i);
    Rotate(head, s, i);
    ViewDel(head, s, i);
    Del(entry, at, View(head, s, i));
    assert At(head, t, i) == at;
    RotateBack(head, t, i);
  }

  lemma OthersStay<T>(head: Node<T>, s: seq<Node<T>>, i: nat)
    requires Ring(head, s) && i < |s|
    ensures s[i] != head && s[i] !in s[..i] + s[i + 1..]
  {
  }

  /** `IQUEUE_DEL_INIT`: the removed node becomes an empty ring of its own. */
  method DelInit<T>(entry: Node<T>, ghost head: Node<T>, ghost s: seq<Node<T>>, ghost i: nat)
    requires Ring(head, s) && i < |s| && entry == s[i]
    modifies entry, entry.next, entry.prev
    ensures Ring(head, s[..i] + s[i + 1..]) && Ring(entry, [])
  {
    ghost var t := s[..i] + s[i + 1..];
    OthersStay(head, s, i);
    hide Ring;
    DelAt(entry, head, s, i);
    Init(entry);
  }

  /** Two rings with no node in common. */
  ghost predicate Apart<T>(head: Node<T>, s: seq<Node<T>>, head': Node<T>, t: seq<Node<T>>) {
    head != head' && head !in t && head' !in s && forall x :: x in s ==> x !in t
  }

  lemma FirstAlone<T>(head: Node<T>, s: seq<Node<T>>)
    requires Ring(head, s) && s != []
    ensures s[0] != head && s[0] !in s[1..] && head !in s[1..]
  {
  }

  /** The first node of one ring moves to the tail of another, as queued segments move to the send
      buffer and buffered frames to the receive queue. Both rings stay rings. */
  method MoveFirst<T>(from: Node<T>, to: Node<T>, ghost s: seq<Node<T>>, ghost t: seq<Node<T>>)
    requires Ring(from, s) && Ring(to, t) && Apart(from, s, to, t) && s != []
    modifies from, s, to, t
    ensures Ring(from, s[1..]) && Ring(to, t + [s[0]]) && Apart(from, s[1..], to, t + [s[0]])
  {
    hide Ring;
    Walk(from, s, 0);
    Walk(from, s, 1);
    Walk(to, t, |t|);
    FirstAlone(from, s);
    var node := from.next;
    Del(node, from, s);
    AddTail(node, to, t);
  }

  // ---- traversals ----

  /** The abstract sequence of a ring is unique. */
  lemma {:induction false} SameFirst<T>(head: Node<T>, s: seq<Node<T>>, t: seq<Node<T>>, i: nat)
    requires Ring(head, s) && Ring(head, t) && i <= |s|
    ensures i <= |t| && forall k :: 0 <= k < i ==> s[k] == t[k]
  {
    if i == 0 {
    } else {
      SameFirst(head, s, t, i - 1);
      assert At(head, s, i - 1) == At(head, t, i - 1);
      assert At(head, s, i - 1).next == At(head, s, i) == At(head, t, i);
    }
  }

  lemma OneSequence<T>(head: Node<T>, s: seq<Node<T>>, t: seq<Node<T>>)
    requires Ring(head, s) && Ring(head, t)
    ensures s == t
  {
    SameFirst(head, s, t, |s|);
    SameFirst(head, t, s, |t|);
  }

  method Forward<T>(head: Node<T>, ghost s: seq<Node<T>>) returns (r: seq<T>)
    requires Ring(head, s)
    ensures r == Values(s)
  {
    hide Ring;
    r := [];
    Walk(head, s, 0);
    var p := head.next;
    ghost var i := 0;
    while p != head
      invariant i <= |s| && p == At(head, s, i + 1) && r == Values(s)[..i]
      decreases |s| - i
    {
      Walk(head, s, i + 1);
      Seqs.TakeNext(Values(s), i);
      r := r + [p.value];
      p := p.next;
      i := i + 1;
    }
    if i < |s| {
      Walk(head, s, i + 1);
    }
    Seqs.TakeAll(Values(s));
  }

  /** Following `prev` visits the same values in the reverse order. */
  method Backward<T>(head: Node<T>, ghost s: seq<Node<T>>) returns (r: seq<T>)
    requires Ring(head, s)
    ensures |r| == |s| && forall i :: 0 <= i < |s| ==> r[i] == Values(s)[|s| - 1 - i]
  {
    hide Ring;
    r := [];
    Walk(head, s, |s|);
    var p := head.prev;
    ghost var i := |s|;
    while p != head
      invariant 0 <= i <= |s| && p == At(head, s, i) && |r| == |s| - i
      invariant forall k :: 0 <= k < |r| ==> r[k] == s[|s| - 1 - k].value
      decreases i
    {
      Walk(head, s, i);
      Walk(head, s, i - 1);
      r := r + [p.value];
      p := p.prev;
      i := i - 1;
    }
    Walk(head, s, i);
  }

  // ---- the scans of the protocol ----

  /** `ikcp_parse_una` on the ring: nodes leave from the front while they are before `una`. */
  method DropBefore(head: Node<Segment>, una: u32, ghost s: seq<Node<Segment>>) returns (ghost t: seq<Node<Segment>>)
    requires Ring(head, s)
    modifies head, s
    ensures Ring(head, t) && Values(t) == ParseUna(Values(s), una)
  {
    hide Ring;
    t := s;
    Walk(head, s, 0);
    var p := head.next;
    while p != head
      invariant Ring(head, t) && p == At(head, t, 1) && (forall x :: x in t ==> x in s)
      invariant ParseUna(Values(t), una) == ParseUna(Values(s), una)
      decreases |t|
    {
      Walk(head, t, 0);
      Walk(head, t, 1);
      var next := p.next;
      if TimeDiff(una, p.value.frame.sn) > 0 {
        Del(p, head, t);
        assert Values(t[1..]) == Values(t)[1..];
        t := t[1..];
      } else {
        break;
      }
      p := next;
    }
    if t != [] {
      Walk(head, t, 1);
    }
  }

  lemma ValuesRemove<T>(s: seq<Node<T>>, i: nat)
    requires i < |s|
    ensures Values(s[..i] + s[i + 1..]) == Values(s)[..i] + Values(s)[i + 1..]
  {
  }

  /** `ikcp_parse_ack` on the ring, with its early exit. */
  method RemoveNumber(head: Node<Segment>, sn: u32, ghost w: Sender, ghost s: seq<Node<Segment>>)
    returns (ghost t: seq<Node<Segment>>)
    requires Ring(head, s) && w.buf == Values(s) && Ordered(w) && InFlight(w, sn)
    modifies head, s
    ensures Ring(head, t) && Values(t) == Without(Values(s), sn)
  {
    hide Ring, Ordered, InFlight, Without;
    Walk(head, s, 0);
    var p := head.next;
    ghost var i := 0;
    while p != head
      invariant i <= |s| && p == At(head, s, i + 1) && Ring(head, s)
      invariant forall j :: 0 <= j < i ==> s[j].value.frame.sn != sn
      decreases |s| - i
    {
      Walk(head, s, i);
      Walk(head, s, i + 1);
      var next := p.next;
      if sn == p.value.frame.sn {
        WithoutAt(Values(s), sn, i);
        t := s[..i] + s[i + 1..];
        ValuesRemove(s, i);
        DelAt(p, head, s, i);
        return;
      }
      if TimeDiff(sn, p.value.frame.sn) < 0 {
        RestIsAfter(w, sn, i);
        break;
      }
      p := next;
      i := i + 1;
    }
    if i < |s| {
      Walk(head, s, i + 1);
    }
    WithoutAt(Values(s), sn, |s|);
    t := s;
  }

  lemma ValuesInsert<T>(s: seq<Node<T>>, i: nat, node: Node<T>)
    requires i <= |s|
    ensures Values(s[..i] + [node] + s[i..]) == Values(s)[..i] + [node.value] + Values(s)[i..]
    ensures |s[..i] + [node] + s[i..]| == |s| + 1
  {
  }

  /** The search of `ikcp_parse_data` on the ring, from the tail, and the insertion behind the node
      where it stops. */
  method InsertNumber(head: Node<Frame>, node: Node<Frame>, ghost s: seq<Node<Frame>>)
    returns (repeated: bool, ghost t: seq<Node<Frame>>)
    requires Ring(head, s) && node != head && node !in s
    modifies head, node, s
    ensures Ring(head, t) && Values(t) == Insert(Values(s), node.value)
    ensures repeated <==> t == s
  {
    hide Ring, ToI32, TimeDiff, Place;
    var sn := node.value.sn;
    repeated := false;
    Walk(head, s, |s|);
    var p := head.prev;
    ghost var fs, i := Values(s), |s|;
    Seqs.TakeAll(fs);
    while p != head
      invariant 0 <= i <= |s| && p == At(head, s, i) && Place(fs, sn) == Place(fs[..i], sn) && !repeated
      invariant Ring(head, s)
      decreases i
    {
      Walk(head, s, i);
      Walk(head, s, i - 1);
      PlaceStep(fs, i, sn);
      var prev := p.prev;
      if p.value.sn == sn {
        repeated := true;
        break;
      }
      if TimeDiff(sn, p.value.sn) > 0 {
        break;
      }
      p := prev;
      i := i - 1;
    }
    Walk(head, s, i);
    if repeated {
      t := s;
    } else {
      Init(node);
      AddAt(node, p, head, s, i);
      t := s[..i] + [node] + s[i..];
      ValuesInsert(s, i, node);
    }
  }
}
