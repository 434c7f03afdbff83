/** The receiving half of a control block: the out-of-order buffer, the queue of frames ready to be
    read, and the acknowledgements that wait for the next flush. */
module Receivers {
  import opened Words
  import opened Wire
  import opened Fragments
  import Seqs

  datatype Ack = Ack(sn: u32, ts: u32)

  datatype Receiver = Receiver(nxt: u32, wnd: u32, queue: seq<Frame>, buf: seq<Frame>, acks: seq<Ack>)

  function Pieces(fs: seq<Frame>): (r: seq<Fragment>)
    ensures |r| == |fs| && forall i :: 0 <= i < |fs| ==> r[i] == Fragment(fs[i].frg, fs[i].data)
  {
    seq(|fs|, i requires 0 <= i < |fs| => Fragment(fs[i].frg, fs[i].data))
  }

  /** Nothing more can move from the buffer to the queue. */
  predicate Drained(r: Receiver) {
    r.buf == [] || r.buf[0].sn != r.nxt || |r.queue| >= r.wnd
  }

  /** The queue holds the consecutive numbers that end just before `nxt`, at most a window of them. */
  ghost predicate Contiguous(r: Receiver) {
    && |r.queue| <= r.wnd
    && forall i :: 0 <= i < |r.queue| ==> Sub32(r.nxt, r.queue[i].sn) == |r.queue| - i
  }

  /** What holds whatever bytes arrive, across the wrap of sequence numbers. */
  ghost predicate Windowed(r: Receiver) {
    && FRAGMENT_LIMIT <= r.wnd <= 0xffff
    && Ascending(r.nxt, r.wnd, FrameSns(r.buf))
    && Contiguous(r)
    && Drained(r)
  }

  // ---- receiving ----

  predicate Below(r: Receiver, sn: u32) {
    TimeDiff(sn, Add32(r.nxt, r.wnd)) < 0
  }

  predicate InWindow(r: Receiver, sn: u32) {
    Below(r, sn) && TimeDiff(sn, r.nxt) >= 0
  }

  /** Where the search from the tail stops: behind the last frame that is not after `sn`. */
  function Place(buf: seq<Frame>, sn: u32): (p: nat)
    ensures p <= |buf|
  {
    if buf == [] || buf[|buf| - 1].sn == sn || TimeDiff(sn, buf[|buf| - 1].sn) > 0 then |buf|
    else Place(buf[..|buf| - 1], sn)
  }

  /** One step of the search. */
  lemma PlaceStep(buf: seq<Frame>, p: nat, sn: u32)
    requires 0 < p <= |buf|
    ensures Place(buf[..p], sn)
         == if buf[p - 1].sn == sn || TimeDiff(sn, buf[p - 1].sn) > 0 then p else Place(buf[..p - 1], sn)
  {
    assert buf[..p][..p - 1] == buf[..p - 1];
  }

  function Insert(buf: seq<Frame>, f: Frame): seq<Frame> {
    var p := Place(buf, f.sn);
    if p > 0 && buf[p - 1].sn == f.sn then buf else buf[..p] + [f] + buf[p..]
  }

  /** The first buffered frame moves to the queue. */
  function DrainOne(r: Receiver): Receiver
    requires r.buf != []
  {
    r.(nxt := Add32(r.nxt, 1), queue := r.queue + [r.buf[0]], buf := r.buf[1..])
  }

  function Drain(r: Receiver): Receiver
    decreases |r.buf|
  {
    if Drained(r) then r else Drain(DrainOne(r))
  }

  /** `ikcp_parse_data` */
  function ParseData(r: Receiver, f: Frame): Receiver {
    if InWindow(r, f.sn) then Drain(r.(buf := Insert(r.buf, f))) else r
  }

  /** A PUSH frame below the end of the window is acknowledged, even when it is a duplicate. */
  function TakePush(r: Receiver, f: Frame): Receiver {
    if Below(r, f.sn) then ParseData(r.(acks := r.acks + [Ack(f.sn, f.ts)]), f) else r
  }

  /** The free part of the queue, as announced to the peer. */
  function Unused(r: Receiver): u32 {
    if |r.queue| < r.wnd then r.wnd - |r.queue| else 0
  }

  /** What a header announces: under the invariant it is the free room of the queue, and fits the
      16-bit field. */
  lemma UnusedRoom(r: Receiver)
    requires Windowed(r)
    ensures ToU16(Unused(r)) == Unused(r) == r.wnd - |r.queue|
    ensures Unused(r) == 0 <==> |r.queue| == r.wnd
  {
  }

  lemma {:induction false} PlaceSplits(base: u32, span: int, buf: seq<Frame>, sn: u32)
    requires span <= 0x8000_0000 && Ascending(base, span, FrameSns(buf)) && Sub32(sn, base) < span
    ensures var p := Place(buf, sn);
      && (forall i :: 0 <= i < p ==> Sub32(buf[i].sn, base) <= Sub32(sn, base))
      && (forall i :: p <= i < |buf| ==> Sub32(buf[i].sn, base) > Sub32(sn, base))
  {
    if buf == [] {
    } else {
      var front, last := buf[..|buf| - 1], buf[|buf| - 1].sn;
      var sns := FrameSns(buf);
      assert sns[|buf| - 1] == last;
      TimeDiffInWindow(base, sn, last);
      if Place(buf, sn) == |buf| {
        assert forall i :: 0 <= i < |buf| ==> Sub32(sns[i], base) <= Sub32(last, base);
      } else {
        assert FrameSns(front) == sns[..|buf| - 1];
        PlaceSplits(base, span, front, sn);
        assert forall i :: 0 <= i < |front| ==> front[i] == buf[i];
      }
    }
  }

  /** The search from the tail with its early exits inserts a number of the window at its sorted place
      exactly when it is absent. */
  lemma InsertExact(base: u32, span: int, buf: seq<Frame>, f: Frame)
    requires span <= 0x8000_0000 && Ascending(base, span, FrameSns(buf)) && Sub32(f.sn, base) < span
    ensures var buf' := Insert(buf, f);
      && Ascending(base, span, FrameSns(buf'))
      && (if f.sn in FrameSns(buf) then buf' == buf
          else |buf'| == |buf| + 1 && forall g :: g in buf' <==> g in buf || g == f)
  {
    var sns, p := FrameSns(buf), Place(buf, f.sn);
    PlaceSplits(base, span, buf, f.sn);
    if p > 0 && buf[p - 1].sn == f.sn {
      assert sns[p - 1] == f.sn;
    } else {
      StrictlyBefore(base, span, sns, p, f.sn);
      FrameSnsInsert(buf, p, f);
      AscendingInsert(base, span, sns, p, f.sn);
      Seqs.InsertMembers(buf, p, f);
    }
  }

  lemma FrameSnsInsert(buf: seq<Frame>, p: nat, f: Frame)
    requires p <= |buf|
    ensures FrameSns(buf[..p] + [f] + buf[p..]) == FrameSns(buf)[..p] + [f.sn] + FrameSns(buf)[p..]
  {
  }

  lemma StrictlyBefore(base: u32, span: int, sns: seq<u32>, p: nat, sn: u32)
    requires Ascending(base, span, sns) && p <= |sns| && (p > 0 ==> sns[p - 1] != sn)
    requires forall i :: 0 <= i < p ==> Sub32(sns[i], base) <= Sub32(sn, base)
    requires forall i :: p <= i < |sns| ==> Sub32(sns[i], base) > Sub32(sn, base)
    ensures forall i :: 0 <= i < p ==> Sub32(sns[i], base) < Sub32(sn, base)
    ensures sn !in sns
  {
    forall i | 0 <= i < p
      ensures Sub32(sns[i], base) < Sub32(sn, base)
    {
      if i < p - 1 {
        assert Sub32(sns[i], base) < Sub32(sns[p - 1], base);
      }
    }
  }

  lemma AscendingInsert(base: u32, span: int, sns: seq<u32>, p: nat, sn: u32)
    requires Ascending(base, span, sns) && p <= |sns| && Sub32(sn, base) < span
    requires forall i :: 0 <= i < p ==> Sub32(sns[i], base) < Sub32(sn, base)
    requires forall i :: p <= i < |sns| ==> Sub32(sns[i], base) > Sub32(sn, base)
    ensures Ascending(base, span, sns[..p] + [sn] + sns[p..])
  {
  }

  lemma DrainOneKeeps(r: Receiver)
    requires r.wnd <= 0xffff && Ascending(r.nxt, r.wnd, FrameSns(r.buf)) && Contiguous(r) && !Drained(r)
    ensures var r' := DrainOne(r); Ascending(r'.nxt, r'.wnd, FrameSns(r'.buf)) && Contiguous(r')
  {
    var r' := DrainOne(r);
    var sns := FrameSns(r.buf);
    assert FrameSns(r'.buf) == sns[1..];
    assert Ascending(r.nxt, r.wnd, sns[1..]);
    AscendingRebase(r.nxt, r.wnd, sns[1..], r'.nxt);
    forall i | 0 <= i < |r'.queue|
      ensures Sub32(r'.nxt, r'.queue[i].sn) == |r'.queue| - i
    {
      if i < |r.queue| {
        assert Sub32(r.nxt, r.queue[i].sn) == |r.queue| - i;
      }
    }
  }

  lemma AddOnce(x: u32, k: u32)
    requires k <= 0xffff
    ensures Add32(Add32(x, 1), k) == Add32(x, k + 1) && Sub32(Add32(x, k + 1), x) == k + 1
  {
  }

  lemma TakenFront(queue: seq<Frame>, buf: seq<Frame>, k: nat)
    requires 0 < k <= |buf|
    ensures (queue + [buf[0]]) + buf[1..][..k - 1] == queue + buf[..k] && buf[1..][k - 1..] == buf[k..]
  {
  }

  /** Draining keeps the window order and stops only when nothing more can move; frames only change
      place, and the queue only grows at its tail. */
  lemma {:induction false} DrainMaximal(r: Receiver) returns (k: nat)
    requires r.wnd <= 0xffff && Ascending(r.nxt, r.wnd, FrameSns(r.buf)) && Contiguous(r)
    ensures k <= |r.buf| && Sub32(Drain(r).nxt, r.nxt) == k
    ensures var r' := Drain(r);
      && Ascending(r'.nxt, r'.wnd, FrameSns(r'.buf)) && Contiguous(r') && Drained(r')
      && r' == r.(nxt := Add32(r.nxt, k), queue := r.queue + r.buf[..k], buf := r.buf[k..])
    decreases |r.buf|
  {
    AscendingLength(r.nxt, r.wnd, FrameSns(r.buf));
    if Drained(r) {
      k := 0;
      Seqs.TakeAll(r.buf);
      AddThenSub(r.nxt, 0);
    } else {
      assert Drain(r) == Drain(DrainOne(r));
      hide Drain, Ascending, Contiguous, Drained, Add32, Sub32;
      DrainOneKeeps(r);
      var k' := DrainMaximal(DrainOne(r));
      k := k' + 1;
      AddOnce(r.nxt, k');
      TakenFront(r.queue, r.buf, k);
    }
  }

  /** For a window below half the ring, the two signed comparisons select exactly the window. */
  lemma InWindowExact(r: Receiver, sn: u32)
    requires r.wnd <= 0xffff
    ensures InWindow(r, sn) <==> Sub32(sn, r.nxt) < r.wnd
  {
  }

  lemma ParseDataWindowed(r: Receiver, f: Frame)
    requires Windowed(r)
    ensures Windowed(ParseData(r, f))
  {
    if InWindow(r, f.sn) {
      InWindowExact(r, f.sn);
      InsertExact(r.nxt, r.wnd, r.buf, f);
      var k := DrainMaximal(r.(buf := Insert(r.buf, f)));
    }
  }

  lemma TakePushWindowed(r: Receiver, f: Frame)
    requires Windowed(r)
    ensures Windowed(TakePush(r, f))
  {
    ParseDataWindowed(r.(acks := r.acks + [Ack(f.sn, f.ts)]), f);
  }

  /** Both lists stay within the announced window. */
  lemma WindowBounds(r: Receiver)
    requires Windowed(r)
    ensures |r.buf| <= r.wnd && |r.queue| <= r.wnd
  {
    AscendingLength(r.nxt, r.wnd, FrameSns(r.buf));
  }

  // ---- reading ----

  /** `ikcp_peeksize`: -1 when no complete message can be at the front. */
  function PeekSize(queue: seq<Frame>): int {
    if queue == [] then -1
    else if queue[0].frg == 0 then |queue[0].data|
    else if |queue| < queue[0].frg + 1 then -1
    else |Stream(Pieces(queue)[..MessageEnd(Pieces(queue))])|
  }

  /** The value returned by `ikcp_recv`, and the bytes it copies out. */
  datatype Read = Read(code: int, data: seq<byte>)

  /** `ikcp_recv` without its effects: errors in the order in which they are tested, then the
      payloads up to and including the first fragment numbered 0. */
  function ReadFront(queue: seq<Frame>, len: nat): Read {
    var size := PeekSize(queue);
    if queue == [] then Read(-1, [])
    else if size < 0 then Read(-2, [])
    else if size > len then Read(-3, [])
    else
      var data := Stream(Pieces(queue)[..MessageEnd(Pieces(queue))]);
      Read(|data|, data)
  }

  /** The state after a read: a peek leaves the message in place. */
  function AfterRead(r: Receiver, len: nat, peek: bool): Receiver {
    if ReadFront(r.queue, len).code < 0 then r
    else Drain(r.(queue := r.queue[if peek then 0 else MessageEnd(Pieces(r.queue))..]))
  }

  /** The queue was full and a read has made room: the peer is told. */
  predicate Reopens(r: Receiver, len: nat, peek: bool) {
    && ReadFront(r.queue, len).code >= 0
    && |r.queue| >= r.wnd && |AfterRead(r, len, peek).queue| < r.wnd
  }

  /** For every queue content, well formed or not, a successful read copies as many bytes as the
      peek announced, and it succeeds exactly when they fit. */
  lemma ReadMatchesPeek(queue: seq<Frame>, len: nat)
    ensures var r := ReadFront(queue, len);
      && (r.code >= 0 <==> 0 <= PeekSize(queue) <= len)
      && (r.code >= 0 ==> r.code == PeekSize(queue) == |r.data|)
  {
    if queue != [] && queue[0].frg == 0 {
      var ps := Pieces(queue);
      assert ps[..1] == [ps[0]] && [ps[0]][1..] == [];
      assert Stream([ps[0]]) == ps[0].data + Stream([]);
    }
  }

  /** The codes of a read: -1 for an empty queue, -2 while fragments that the front announces are missing, -3 when
      the buffer is too short for the front message; else the payloads up to the first fragment that announces no
      other. */
  lemma ReadCases(queue: seq<Frame>, len: nat) returns (n: nat)
    ensures var r := ReadFront(queue, len);
      && (queue == [] ==> r == Read(-1, []))
      && (queue != [] && queue[0].frg >= |queue| ==> r == Read(-2, []))
      && (queue != [] && queue[0].frg < |queue| ==>
            && 0 < n <= |queue| && (forall i :: 0 <= i < n - 1 ==> queue[i].frg != 0)
            && (n < |queue| ==> queue[n - 1].frg == 0)
            && var data := Stream(Pieces(queue)[..n]);
               r == if |data| > len then Read(-3, []) else Read(|data|, data))
  {
    n := MessageEnd(Pieces(queue));
    ReadMatchesPeek(queue, len);
    if queue != [] && queue[0].frg == 0 {
      var ps := Pieces(queue);
      assert ps[..1] == [ps[0]] && [ps[0]][1..] == [];
      assert Stream([ps[0]]) == ps[0].data + Stream([]);
    }
  }

  lemma DropFrontContiguous(r: Receiver, n: nat)
    requires Contiguous(r) && n <= |r.queue|
    ensures Contiguous(r.(queue := r.queue[n..]))
  {
  }

  /** Reading leaves `n` frames fewer in the queue, followed by whatever can now move up. */
  lemma AfterReadShape(r: Receiver, n: nat) returns (k: nat)
    requires Windowed(r) && n <= |r.queue|
    ensures k <= |r.buf| && Sub32(Drain(r.(queue := r.queue[n..])).nxt, r.nxt) == k
    ensures var r' := Drain(r.(queue := r.queue[n..]));
      && Windowed(r')
      && r' == r.(nxt := Add32(r.nxt, k), queue := r.queue[n..] + r.buf[..k], buf := r.buf[k..])
  {
    DropFrontContiguous(r, n);
    k := DrainMaximal(r.(queue := r.queue[n..]));
  }

  lemma AfterReadWindowed(r: Receiver, len: nat, peek: bool)
    requires Windowed(r)
    ensures Windowed(AfterRead(r, len, peek))
  {
    if ReadFront(r.queue, len).code >= 0 {
      var k := AfterReadShape(r, if peek then 0 else MessageEnd(Pieces(r.queue)));
    }
  }

  /** A full queue of fragments that `ikcp_send` can have produced is always readable: its front
      announces fewer fragments than the smallest window holds. */
  lemma FullQueueReadable(r: Receiver)
    requires Windowed(r) && |r.queue| >= r.wnd
    requires r.queue[0].frg < FRAGMENT_LIMIT
    ensures PeekSize(r.queue) >= 0
  {
  }

  lemma NextIsAbsent(r: Receiver)
    requires Windowed(r) && |r.queue| < r.wnd
    ensures forall i :: 0 <= i < |r.buf| ==> Sub32(r.buf[i].sn, r.nxt) > 0
  {
    var sns := FrameSns(r.buf);
    forall i | 0 <= i < |r.buf|
      ensures Sub32(r.buf[i].sn, r.nxt) > 0
    {
      assert i > 0 ==> Sub32(sns[0], r.nxt) < Sub32(sns[i], r.nxt);
    }
  }

  lemma InsertNext(r: Receiver, f: Frame)
    requires Windowed(r) && |r.queue| < r.wnd && f.sn == r.nxt
    ensures Insert(r.buf, f) == [f] + r.buf
  {
    NextIsAbsent(r);
    hide Place;
    PlaceSplits(r.nxt, r.wnd, r.buf, f.sn);
    assert Place(r.buf, f.sn) == 0;
    assert r.buf[..0] + [f] + r.buf[0..] == [f] + r.buf;
  }

  /** With room in the queue the frame with the next number goes straight to its end. */
  lemma NextIsQueued(r: Receiver, f: Frame)
    requires Windowed(r) && |r.queue| < r.wnd && f.sn == r.nxt
    ensures var r' := TakePush(r, f); |r'.queue| > |r.queue| && r'.queue[|r.queue|] == f
  {
    var r1 := r.(acks := r.acks + [Ack(f.sn, f.ts)]);
    InWindowExact(r1, f.sn);
    InsertExact(r.nxt, r.wnd, r.buf, f);
    InsertNext(r, f);
    hide Insert, Drain;
    var k := DrainMaximal(r1.(buf := [f] + r.buf));
  }

  /** The number of a frame that is `age` behind the edge has not come round to the window again: the age,
      less whole rounds of the ring, is at least 1 and at most 2^32 less the window. */
  predicate Passed(age: int, wnd: u32) {
    0 < age % 0x1_0000_0000 <= 0x1_0000_0000 - wnd
  }

  /** The window test on the number of index `i` is right, for an edge at index `n`, for every frame that is
      not old, and for an old one if and only if its number has not come round to the window. */
  lemma WindowByAge(r: Receiver, n: nat, i: nat)
    requires 0 < r.wnd <= 0xffff && r.nxt == ToU32(n) && i < n + 0x8000_0000
    ensures (InWindow(r, ToU32(i)) <==> n <= i < n + r.wnd) <==> i >= n || Passed(n - i, r.wnd)
  {
    InWindowExact(r, ToU32(i));
    DistanceByAge(n, i);
    hide ToU32, InWindow;
  }

  lemma DistanceByAge(n: nat, i: nat)
    requires i < n + 0x8000_0000
    ensures Sub32(ToU32(i), ToU32(n))
         == if n <= i then i - n
            else if (n - i) % 0x1_0000_0000 == 0 then 0 else 0x1_0000_0000 - (n - i) % 0x1_0000_0000
  {
    RingDistance(n, i);
    if i < n {
      hide ToU32;
    }
  }

  /** Numbers recur after 2^32 of them. An old frame, of any age, whose number is not in the buffer leaves
      the data alone if and only if its number has not come round to the window; otherwise it is taken for
      new data. */
  lemma OldNumberTaken(r: Receiver, f: Frame, n: nat, i: nat)
    requires Windowed(r) && r.nxt == ToU32(n) && f.sn == ToU32(i) && f.sn !in FrameSns(r.buf) && i < n
    ensures TakePush(r, f).(acks := r.acks) == r <==> Passed(n - i, r.wnd)
    ensures !Passed(n - i, r.wnd) ==> f in TakePush(r, f).queue + TakePush(r, f).buf
  {
    WindowByAge(r, n, i);
    hide ToU32;
    var r1 := r.(acks := r.acks + [Ack(f.sn, f.ts)]);
    assert InWindow(r1, f.sn) == InWindow(r, f.sn);
    if InWindow(r, f.sn) {
      TakenOnce(r1, f);
      assert TakePush(r, f) == ParseData(r1, f);
    }
  }

  lemma TakenOnce(r: Receiver, f: Frame)
    requires Windowed(r) && InWindow(r, f.sn) && f.sn !in FrameSns(r.buf)
    ensures var r' := ParseData(r, f);
      f in r'.queue + r'.buf && |r'.queue + r'.buf| == |r.queue + r.buf| + 1
  {
    InWindowExact(r, f.sn);
    InsertExact(r.nxt, r.wnd, r.buf, f);
    var buf := Insert(r.buf, f);
    var k := DrainMaximal(r.(buf := buf));
    hide Insert, Drain, Windowed, InWindow;
    Seqs.SplitAt(buf, k);
    Seqs.Assoc(r.queue, buf[..k], buf[k..]);
  }
}
