/** Cutting a message into fragments and putting fragments back together. */
module Fragments {
  import opened Words
  import Seqs

  /** What `ikcp_send` queues: the payload, and how many fragments of the message follow it. */
  datatype Fragment = Fragment(frg: u8, data: seq<byte>)

  /** `ikcp_send` refuses messages of this many fragments. */
  const FRAGMENT_LIMIT := 128

  function Count(mss: u32, len: nat): nat
    requires mss > 0
  {
    if len <= mss then 1 else (len + mss - 1) / mss
  }

  /** The first `count` fragments of `data`; `stream` leaves out the numbering. */
  function Split(mss: u32, stream: bool, count: nat, data: seq<byte>): seq<Fragment>
    requires count <= FRAGMENT_LIMIT
  {
    if count == 0 then []
    else
      var size := Min(|data|, mss);
      [Fragment(if stream then 0 else count - 1, data[..size])] + Split(mss, stream, count - 1, data[size..])
  }

  /** The queue after a call of `ikcp_send`, and the value that it returns. */
  datatype SendResult = SendResult(queue: seq<Fragment>, code: int)

  /** The part of a stream-mode call that tops up the last queued fragment. */
  function Extend(mss: u32, queue: seq<Fragment>, data: seq<byte>): (seq<Fragment>, nat) {
    if queue != [] && |queue[|queue| - 1].data| < mss then
      var last := queue[|queue| - 1];
      var n := Min(|data|, mss - |last.data|);
      (queue[..|queue| - 1] + [Fragment(0, last.data + data[..n])], n)
    else (queue, 0)
  }

  function Send(mss: u32, stream: bool, queue: seq<Fragment>, data: seq<byte>): (r: SendResult)
    requires mss > 0
    ensures r.code <= |data|
  {
    var (queue', sent) := if stream then Extend(mss, queue, data) else (queue, 0);
    var rest := data[sent..];
    if stream && rest == [] then SendResult(queue', sent)
    else
      var count := Count(mss, |rest|);
      if count >= FRAGMENT_LIMIT then
        SendResult(queue', if stream && sent > 0 then sent else -2)
      else
        SendResult(queue' + Split(mss, stream, count, rest), |data|)
  }

  /** All the payload bytes, in order. */
  function Stream(fs: seq<Fragment>): seq<byte> {
    if fs == [] then [] else fs[0].data + Stream(fs[1..])
  }

  lemma {:induction false} StreamConcat(a: seq<Fragment>, b: seq<Fragment>)
    ensures Stream(a + b) == Stream(a) + Stream(b)
  {
    if a == [] {
      assert a + b == b;
    } else {
      StreamConcat(a[1..], b);
      Seqs.TailAppend(a, b);
      Seqs.Assoc(a[0].data, Stream(a[1..]), Stream(b));
    }
  }

  ghost predicate Sized(mss: u32, fs: seq<Fragment>) {
    forall i :: 0 <= i < |fs| ==> |fs[i].data| <= mss && fs[i].frg < FRAGMENT_LIMIT - 1
  }

  /** The fragments of exactly one message: the numbers count down and the last is 0. */
  ghost predicate IsMessage(fs: seq<Fragment>) {
    fs != [] && forall i :: 0 <= i < |fs| ==> fs[i].frg == |fs| - 1 - i
  }

  /** `count` fragments of `mss` bytes each. */
  function Capacity(mss: u32, count: nat): nat {
    if count == 0 then 0 else mss + Capacity(mss, count - 1)
  }

  lemma {:induction false} CapacityIsProduct(mss: u32, count: nat)
    ensures Capacity(mss, count) == count * mss
  {
    if count == 0 {
    } else {
      CapacityIsProduct(mss, count - 1);
    }
  }

  lemma CeilingBounds(mss: u32, len: nat, c: int)
    requires mss > 0 && len > mss && c == (len + mss - 1) / mss
    ensures 1 <= c && (c - 1) * mss < len <= c * mss
  {
    assert len + mss - 1 == mss * c + (len + mss - 1) % mss;
    if c <= 0 {
      assert false;
    }
  }

  /** The count is the least number of fragments that hold `len` bytes, at least one. */
  lemma CountCovers(mss: u32, len: nat)
    requires mss > 0
    ensures var c := Count(mss, len);
      1 <= c && len <= Capacity(mss, c) && (c > 1 ==> Capacity(mss, c - 1) < len)
  {
    var c := Count(mss, len);
    if len > mss {
      CeilingBounds(mss, len, c);
      CapacityIsProduct(mss, c);
      CapacityIsProduct(mss, c - 1);
    }
  }

  lemma {:induction false} SplitStream(mss: u32, stream: bool, count: nat, data: seq<byte>)
    requires count < FRAGMENT_LIMIT && |data| <= Capacity(mss, count)
    ensures Stream(Split(mss, stream, count, data)) == data
  {
    if count == 0 {
    } else {
      var size := Min(|data|, mss);
      SplitStream(mss, stream, count - 1, data[size..]);
      assert Split(mss, stream, count, data)[1..] == Split(mss, stream, count - 1, data[size..]);
      assert data == data[..size] + data[size..];
    }
  }

  lemma {:induction false} SplitShape(mss: u32, stream: bool, count: nat, data: seq<byte>)
    requires count < FRAGMENT_LIMIT
    ensures var fs := Split(mss, stream, count, data);
      && |fs| == count && Sized(mss, fs)
      && (forall i :: 0 <= i < |fs| ==> fs[i].frg == if stream then 0 else count - 1 - i)
  {
    if count == 0 {
    } else {
      var size := Min(|data|, mss);
      SplitShape(mss, stream, count - 1, data[size..]);
    }
  }

  lemma StreamSnoc(fs: seq<Fragment>, f: Fragment)
    ensures Stream(fs + [f]) == Stream(fs) + f.data
  {
    StreamConcat(fs, [f]);
    assert [f][1..] == [];
  }

  lemma StreamGrowLast(front: seq<Fragment>, last: Fragment, more: seq<byte>)
    ensures Stream(front + [Fragment(0, last.data + more)]) == Stream(front + [last]) + more
  {
    StreamSnoc(front, last);
    StreamSnoc(front, Fragment(0, last.data + more));
    assert Stream(front) + (last.data + more) == Stream(front) + last.data + more;
  }

  lemma ExtendSized(mss: u32, queue: seq<Fragment>, data: seq<byte>)
    requires Sized(mss, queue)
    ensures var (q, n) := Extend(mss, queue, data);
      n <= |data| && |q| == |queue| && Sized(mss, q)
  {
  }

  lemma ExtendConserves(mss: u32, queue: seq<Fragment>, data: seq<byte>)
    requires queue != [] && |queue[|queue| - 1].data| < mss
    ensures var (q, n) := Extend(mss, queue, data); n <= |data| && Stream(q) == Stream(queue) + data[..n]
  {
    var front, last := queue[..|queue| - 1], queue[|queue| - 1];
    Seqs.SplitLast(queue);
    StreamGrowLast(front, last, data[..Extend(mss, queue, data).1]);
  }

  lemma SplitConserves(mss: u32, stream: bool, queue: seq<Fragment>, data: seq<byte>)
    requires mss > 0 && Sized(mss, queue) && Count(mss, |data|) < FRAGMENT_LIMIT
    ensures var q := queue + Split(mss, stream, Count(mss, |data|), data);
      Sized(mss, q) && Stream(q) == Stream(queue) + data
  {
    var count := Count(mss, |data|);
    CountCovers(mss, |data|);
    SplitStream(mss, stream, count, data);
    SplitShape(mss, stream, count, data);
    StreamConcat(queue, Split(mss, stream, count, data));
  }

  /** Byte conservation, for either mode and any queue: the queued stream grows by exactly the
      first `code` bytes of the buffer, and not at all when the call is refused. */
  lemma SendConserves(mss: u32, stream: bool, queue: seq<Fragment>, data: seq<byte>)
    requires mss > 0 && Sized(mss, queue)
    ensures var r := Send(mss, stream, queue, data);
      && (r.code == -2 || 0 <= r.code <= |data|)
      && Stream(r.queue) == Stream(queue) + data[..Max(r.code, 0)]
      && Sized(mss, r.queue)
  {
    ExtendSized(mss, queue, data);
    if queue != [] && |queue[|queue| - 1].data| < mss {
      ExtendConserves(mss, queue, data);
    }
    var (queue', sent) := if stream then Extend(mss, queue, data) else (queue, 0);
    var rest := data[sent..];
    Seqs.SplitAt(data, sent);
    Seqs.TakeAll(data);
    if !(stream && rest == []) && Count(mss, |rest|) < FRAGMENT_LIMIT {
      SplitConserves(mss, stream, queue', rest);
      Seqs.Assoc(Stream(queue), data[..sent], rest);
    }
  }

  /** Outside stream mode an accepted message, the empty one included, is queued as one complete
      run of fragments; it is refused exactly when it needs 128 or more of them. */
  lemma SendMessage(mss: u32, queue: seq<Fragment>, data: seq<byte>)
    requires mss > 0
    ensures var r := Send(mss, false, queue, data);
      && (r.code == -2 <==> |data| > 127 * mss)
      && (r.code == -2 ==> r.queue == queue)
      && (r.code != -2 ==>
           && r.code == |data| && queue <= r.queue
           && IsMessage(r.queue[|queue|..]) && Stream(r.queue[|queue|..]) == data
           && Sized(mss, r.queue[|queue|..]))
  {
    assert data[0..] == data;
    var count := Count(mss, |data|);
    CountCovers(mss, |data|);
    CapacityMonotone(mss, 127, count - 1);
    CapacityMonotone(mss, count, 127);
    CapacityIsProduct(mss, 127);
    if count < FRAGMENT_LIMIT {
      SplitStream(mss, false, count, data);
      SplitShape(mss, false, count, data);
      assert (queue + Split(mss, false, count, data))[|queue|..] == Split(mss, false, count, data);
    }
  }

  lemma {:induction false} CapacityMonotone(mss: u32, a: nat, b: nat)
    ensures a <= b ==> Capacity(mss, a) <= Capacity(mss, b)
  {
    if a >= b {
    } else {
      CapacityMonotone(mss, a, b - 1);
    }
  }

  /** All fragments but the last are full. */
  ghost predicate Filled(mss: u32, fs: seq<Fragment>) {
    forall i :: 0 <= i < |fs| - 1 ==> |fs[i].data| == mss
  }

  lemma {:induction false} SplitFills(mss: u32, stream: bool, count: nat, data: seq<byte>)
    requires 0 < count < FRAGMENT_LIMIT && (count > 1 ==> Capacity(mss, count - 1) < |data|)
    ensures |Split(mss, stream, count, data)| == count && Filled(mss, Split(mss, stream, count, data))
  {
    SplitShape(mss, stream, count, data);
    if count > 1 {
      assert Capacity(mss, count - 1) == mss + Capacity(mss, count - 2);
      SplitFills(mss, stream, count - 1, data[mss..]);
      var fs := Split(mss, stream, count, data);
      assert fs[1..] == Split(mss, stream, count - 1, data[mss..]);
      forall i | 0 <= i < |fs| - 1
        ensures |fs[i].data| == mss
      {
        if i > 0 {
          assert fs[i] == fs[1..][i - 1];
        }
      }
    }
  }

  lemma FilledAppend(mss: u32, a: seq<Fragment>, b: seq<Fragment>)
    requires Filled(mss, a) && Filled(mss, b) && (a != [] && b != [] ==> |a[|a| - 1].data| == mss)
    ensures Filled(mss, a + b)
  {
  }

  /** Stream mode wastes no room: while all queued fragments but the last are full they stay so, the last one is
      topped up first, and none of them announces another. */
  lemma SendFills(mss: u32, queue: seq<Fragment>, data: seq<byte>)
    requires mss > 0 && Sized(mss, queue) && Filled(mss, queue)
    ensures Filled(mss, Send(mss, true, queue, data).queue)
    ensures forall i :: |queue| <= i < |Send(mss, true, queue, data).queue| ==>
      Send(mss, true, queue, data).queue[i].frg == 0
  {
    var (queue', sent) := Extend(mss, queue, data);
    var rest := data[sent..];
    assert Filled(mss, queue') && |queue'| == |queue|;
    assert rest != [] && queue' != [] ==> |queue'[|queue'| - 1].data| == mss;
    var count := Count(mss, |rest|);
    CountCovers(mss, |rest|);
    if rest != [] && count < FRAGMENT_LIMIT {
      SplitFills(mss, true, count, rest);
      SplitShape(mss, true, count, rest);
      FilledAppend(mss, queue', Split(mss, true, count, rest));
    }
  }

  /** What a call of stream mode returns: nothing to do, everything, what could be added to the last fragment, or a
      refusal. */
  lemma SendStreamCode(mss: u32, queue: seq<Fragment>, data: seq<byte>)
    requires mss > 0
    ensures var code := Send(mss, true, queue, data).code;
      var room := if queue == [] || |queue[|queue| - 1].data| >= mss then 0 else mss - |queue[|queue| - 1].data|;
      code == if |data| <= room + 127 * mss then |data| else if room > 0 then room else -2
  {
    var room := if queue == [] || |queue[|queue| - 1].data| >= mss then 0 else mss - |queue[|queue| - 1].data|;
    var rest := data[Min(|data|, room)..];
    if rest != [] {
      var count := Count(mss, |rest|);
      CountCovers(mss, |rest|);
      CapacityMonotone(mss, 127, count - 1);
      CapacityMonotone(mss, count, 127);
      CapacityIsProduct(mss, 127);
    }
  }

  // ---- reading messages back ----

  /** Index one past the first fragment numbered 0, or the length when there is none. */
  function MessageEnd(fs: seq<Fragment>): (n: nat)
    ensures n <= |fs| && (fs != [] ==> n > 0)
    ensures forall i :: 0 <= i < n - 1 ==> fs[i].frg != 0
    ensures 0 < n < |fs| ==> fs[n - 1].frg == 0
  {
    if fs == [] then 0 else if fs[0].frg == 0 then 1 else 1 + MessageEnd(fs[1..])
  }

  lemma MessageEndOfMessage(m: seq<Fragment>, rest: seq<Fragment>)
    requires IsMessage(m)
    ensures MessageEnd(m + rest) == |m|
  {
    var fs := m + rest;
    var n := MessageEnd(fs);
    assert fs[|m| - 1] == m[|m| - 1];
    assert forall i :: 0 <= i < |m| ==> fs[i] == m[i];
  }

  lemma {:induction false} MessageEndAt(fs: seq<Fragment>, i: nat)
    requires i < |fs| && (forall j :: 0 <= j < i ==> fs[j].frg != 0) && (i == |fs| - 1 || fs[i].frg == 0)
    ensures MessageEnd(fs) == i + 1
  {
    if i == 0 {
    } else {
      MessageEndAt(fs[1..], i - 1);
    }
  }

  lemma StreamNext(fs: seq<Fragment>, i: nat)
    requires i < |fs|
    ensures Stream(fs[..i + 1]) == Stream(fs[..i]) + fs[i].data
  {
    assert fs[..i + 1] == fs[..i] + [fs[i]];
    StreamSnoc(fs[..i], fs[i]);
  }
}
