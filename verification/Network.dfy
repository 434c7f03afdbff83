/** Two endpoints and a network that may lose, duplicate and reorder the datagrams that they emit. */
module Network {
  import opened Words
  import opened Wire
  import opened Fragments
  import opened Senders
  import opened Transmission
  import opened Receivers
  import opened Control
  import opened Link
  import Seqs

  /** A datagram with two counts of its sender at the time: the fragments numbered, and the index of
      `rcv_nxt`. */
  datatype Packet = Packet(data: seq<byte>, log: nat, rcvd: nat)

  /** An endpoint with its history: the fragments it has numbered, the unbounded index of its `rcv_nxt`,
      what it last told its peer to have, every datagram it has emitted, the data accepted from its
      user and the data delivered to its user. */
  datatype Peer = Peer(
    k: Block, log: seq<Fragment>, rcvd: nat, told: View, net: set<Packet>, sent: seq<seq<byte>>, got: seq<seq<byte>>)

  /** What the endpoint has received so far. */
  function Now(p: Peer): View {
    View(p.rcvd, p.k.rcv)
  }

  function Emits(k: Block, op: Op): seq<seq<byte>> {
    match op
    case DoFlush => Flush(k).1
    case DoUpdate(current) => Update(k, current).1
    case _ => []
  }

  /** The fragments that leave the queue and get numbers. */
  function Assigns(k: Block, op: Op): seq<Fragment>
    requires k.conf.mss > 0
  {
    var n := |k.snd.queue| - |Step(k, op).snd.queue|;
    if n >= 0 then k.snd.queue[..n] else []
  }

  /** What an accepting `ikcp_send` adds to the data sent. */
  function Accepts(k: Block, op: Op): seq<seq<byte>>
    requires k.conf.mss > 0
  {
    if op.DoSend? && SendBlock(k, op.data).1 >= 0 then [op.data[..SendBlock(k, op.data).1]] else []
  }

  /** What a successful `ikcp_recv` that is not a peek adds to the data delivered. */
  function Delivers(k: Block, op: Op): seq<seq<byte>> {
    if op.DoRecv? && !op.peek && RecvBlock(k, op.len, false).1.code >= 0
    then [RecvBlock(k, op.len, false).1.data] else []
  }

  predicate Flushes(k: Block, op: Op) {
    match op
    case DoFlush => k.timer.updated
    case DoUpdate(current) => Tick(k.timer, k.conf.interval, current).1
    case _ => false
  }

  function Act(p: Peer, op: Op): Peer
    requires p.k.conf.mss > 0
  {
    var log, now := p.log + Assigns(p.k, op), Onto(Now(p), Step(p.k, op).rcv);
    Peer(
      Step(p.k, op), log, now.n, if Flushes(p.k, op) then now else p.told,
      p.net + (set d | d in Emits(p.k, op) :: Packet(d, |log|, now.n)),
      p.sent + Accepts(p.k, op), p.got + Delivers(p.k, op))
  }

  /** The datagram, emitted by `p` for `q`, has not been overtaken by too many numbers: of `p` for the data
      that it carries, of `q` for the cumulative acknowledgement that every frame carries. */
  predicate Young(d: Packet, p: Peer, q: Peer) {
    && (CarriesData(Parse(p.k.conf.conv, d.data).frames) ==> |p.log| - d.log <= DATA_LIFETIME)
    && |q.log| - d.rcvd <= LIFETIME
  }

  predicate CarriesData(fs: seq<Frame>) {
    exists f :: f in fs && f.cmd == PUSH
  }

  /** The network only delivers what the other side has emitted, but any of it, in any order, any number
      of times, as long as it is young. */
  predicate Legal(op: Op, p: Peer, other: Peer) {
    op.DoInput? ==> exists d :: d in other.net && d.data == op.data && Young(d, other, p)
  }

  // ---- the invariant of one direction ----

  /** What a frame from the sender says about the data. */
  ghost predicate DataTrue(log: seq<Fragment>, d: Packet, f: Frame) {
    && d.log <= |log|
    && (f.cmd == PUSH ==> d.log - 0xffff <= Index(d.log, f.sn) && Matches(log, Index(d.log, f.sn), f))
  }

  /** What a frame from the receiver says about what it has. */
  ghost predicate AckTrue(v: View, d: Packet, f: Frame) {
    && f.una == ToU32(d.rcvd) && d.rcvd <= v.n
    && (f.cmd == ACK ==> Stands(v, d.rcvd, f.sn))
  }

  /** The number, not too far from the edge that the receiver had, is that of something it has; there is
      only one such index. */
  ghost predicate Stands(v: View, edge: nat, sn: u32) {
    exists i :: Held(v, i) && ToU32(i) == sn && edge - ACK_AGE <= i < edge + 0xffff
  }

  ghost predicate AllData(conv: u32, log: seq<Fragment>, net: set<Packet>) {
    forall d, f :: d in net && f in Parse(conv, d.data).frames ==> DataTrue(log, d, f)
  }

  ghost predicate AllAcks(conv: u32, v: View, net: set<Packet>) {
    forall d, f :: d in net && f in Parse(conv, d.data).frames ==> AckTrue(v, d, f)
  }

  ghost predicate Linked(p: Peer, q: Peer) {
    && p.k.conf.conv == q.k.conf.conv
    && SendSide(p.log, p.k.snd) && RecvSide(p.log, Now(q))
    && Viewed(q.told) && Retains(q.told, Now(q))
    && Accounted(p.log, p.k.snd, q.told) && AcksHeld(q.told.n, Now(q))
    && AllData(p.k.conf.conv, p.log, p.net) && AllAcks(p.k.conf.conv, q.told, q.net)
    && (forall i :: 0 <= i < |p.log| ==> p.log[i].frg < FRAGMENT_LIMIT - 1)
  }

  /** Neither end is more than two windows away from what was last told. */
  lemma LinkedSpread(p: Peer, q: Peer)
    requires Linked(p, q)
    ensures q.told.n <= q.rcvd <= |p.log| <= q.told.n + 0x1_fffe
  {
    hide Accounted, Index, ToU32;
    Spread(p.log, p.k.snd, q.told);
  }

  lemma TakeFrameSender(log: seq<Fragment>, s: Sender, v: View, d: Packet, f: Frame)
    requires SendSide(log, s) && Accounted(log, s, v) && Viewed(v) && v.n <= |log| <= d.rcvd + LIFETIME
    requires AckTrue(v, d, f)
    ensures var s1 := TakeUna(s, f.una); var s' := if f.cmd == ACK then TakeAck(s1, f.sn) else s1;
      SendSide(log, s') && Accounted(log, s', v) && Una(log, s) <= Una(log, s')
  {
    assert f.una == ToU32(d.rcvd) && d.rcvd <= v.n;
    if f.cmd == ACK {
      var i :| Held(v, i) && ToU32(i) == f.sn && d.rcvd - ACK_AGE <= i < d.rcvd + 0xffff;
      hide *;
      TakeUnaLink(log, s, v, d.rcvd);
      TakeAckLink(log, TakeUna(s, f.una), v, i);
    } else {
      hide *;
      TakeUnaLink(log, s, v, d.rcvd);
    }
  }

  /** The frames of a datagram from the receiver, taken by the sender. */
  lemma {:induction false} TakeFramesSender(k: Block, fs: seq<Frame>, log: seq<Fragment>, v: View, d: Packet)
    requires SendSide(log, k.snd) && Accounted(log, k.snd, v) && Viewed(v) && v.n <= |log| <= d.rcvd + LIFETIME
    requires forall f :: f in fs ==> AckTrue(v, d, f)
    ensures var s' := TakeFrames(k, fs).snd;
      SendSide(log, s') && Accounted(log, s', v) && Una(log, k.snd) <= Una(log, s')
  {
    hide SendSide, Accounted, Viewed, AckTrue, TakeUna, TakeAck;
    if fs == [] {
    } else {
      var front, f := fs[..|fs| - 1], fs[|fs| - 1];
      TakeFramesSender(k, front, log, v, d);
      assert f in fs;
      TakeFrameSender(log, TakeFrames(k, front).snd, v, d, f);
    }
  }

  lemma OntoOnto(v: View, v1: View, r: Receiver)
    requires v1 == Onto(v, v1.r) && Onto(v1, r).n < v.n + 0x1_0000_0000
    ensures Onto(v1, r) == Onto(v, r)
  {
  }

  /** What the receiver keeps while it takes data from the log. */
  ghost predicate Receives(log: seq<Fragment>, base: nat, v: View, v': View) {
    && RecvSide(log, v') && AcksHeld(base, v') && Retains(v, v')
    && v'.n - |v'.r.queue| == v.n - |v.r.queue|
  }

  lemma ReceivesTransitive(log: seq<Fragment>, base: nat, v: View, v1: View, v2: View)
    requires Receives(log, base, v, v1) && Receives(log, base, v1, v2)
    ensures Receives(log, base, v, v2)
  {
    hide RecvSide, AcksHeld, Held;
  }

  lemma TakeFrameReceiver(log: seq<Fragment>, base: nat, v: View, d: Packet, f: Frame)
    requires RecvSide(log, v) && AcksHeld(base, v) && base <= v.n && |log| <= base + 0x1_fffe
    requires DataTrue(log, d, f) && (f.cmd == PUSH ==> |log| <= d.log + DATA_LIFETIME)
    ensures var r' := if f.cmd == PUSH then TakePush(v.r, f) else v.r;
      Receives(log, base, v, Onto(v, r'))
  {
    assert v.n <= |log|;
    if f.cmd == PUSH {
      hide RecvSide, AcksHeld, Matches, Index, TakePush, Onto;
      TakePushLink(log, base, v, f, Index(d.log, f.sn));
    } else {
      assert Onto(v, v.r) == v;
    }
  }

  /** The frames of a datagram from the sender, taken by the receiver. */
  lemma {:induction false} TakeFramesReceiver(
      k: Block, fs: seq<Frame>, log: seq<Fragment>, base: nat, n: nat, d: Packet)
    requires RecvSide(log, View(n, k.rcv)) && AcksHeld(base, View(n, k.rcv))
    requires base <= n && |log| <= base + 0x1_fffe && (CarriesData(fs) ==> |log| <= d.log + DATA_LIFETIME)
    requires forall f :: f in fs ==> DataTrue(log, d, f)
    ensures var v := View(n, k.rcv); Receives(log, base, v, Onto(v, TakeFrames(k, fs).rcv))
  {
    var v := View(n, k.rcv);
    if fs == [] {
      assert Onto(v, v.r) == v;
    } else {
      var front, f := fs[..|fs| - 1], fs[|fs| - 1];
      assert f in fs && (CarriesData(front) ==> CarriesData(fs));
      TakeFramesReceiver(k, front, log, base, n, d);
      var v1 := Onto(v, TakeFrames(k, front).rcv);
      assert v.n <= v1.n <= |log| && RecvSide(log, v1) && AcksHeld(base, v1);
      hide RecvSide, AcksHeld, DataTrue, TakePush, Retains, TakeUna, TakeAck, TakeRtt;
      TakeFrameReceiver(log, base, v1, d, f);
      var r' := TakeFrames(k, fs).rcv;
      assert Onto(v1, r').n <= |log| by {
        ReceivesBelow(log, base, v1, Onto(v1, r'));
      }
      OntoOnto(v, v1, r');
      ReceivesTransitive(log, base, v, v1, Onto(v1, r'));
    }
  }

  lemma ReceivesBelow(log: seq<Fragment>, base: nat, v: View, v': View)
    requires Receives(log, base, v, v')
    ensures v.n <= v'.n <= |log|
  {
  }

  lemma InputSender(k: Block, d: Packet, log: seq<Fragment>, v: View)
    requires Ok(k) && SendSide(log, k.snd) && Accounted(log, k.snd, v)
    requires Viewed(v) && v.n <= |log| <= d.rcvd + LIFETIME
    requires forall f :: f in Parse(k.conf.conv, d.data).frames ==> AckTrue(v, d, f)
    ensures SendSide(log, Input(k, d.data).0.snd) && Accounted(log, Input(k, d.data).0.snd, v)
  {
    hide Parse, TakeFrames, NewestOf, SendSide, Accounted, ParseFastack, Viewed, AckTrue;
    var fs := Parse(k.conf.conv, d.data).frames;
    TakeFramesSender(k, fs, log, v, d);
    var n := NewestOf(fs);
    if n.Newest? {
      ParseFastackLink(log, TakeFrames(k, fs).snd, v, n.sn, n.ts);
    }
  }

  /** Flushing touches only the acknowledgement list of the receiving half. */
  lemma FlushReceiver(k: Block)
    ensures FlushState(k).rcv == k.rcv.(acks := [])
  {
  }

  lemma FlushFramesTrue(k: Block, f: Frame)
    requires Ok(k) && f in FlushFrames(k)
    ensures f.una == k.rcv.nxt
    ensures f.cmd == ACK ==> exists a :: a in k.rcv.acks && a.sn == f.sn
    ensures f.cmd == PUSH ==> f in Emitted(Admitted(k).buf, FlushContext(k))
  {
    hide Ok, FlushFrames, Admitted, Emitted;
    ContextStamps(k);
    FlushFrameKinds(k, f);
    if f in Emitted(Admitted(k).buf, FlushContext(k)) {
      EmittedPushes(k, f);
      EmittedStamps(Admitted(k).buf, FlushContext(k), f);
    }
  }

  /** A flush takes fragments only from the front of the queue. */
  lemma FlushQueue(k: Block) returns (n: nat)
    requires Ordered(k.snd)
    ensures n <= |k.snd.queue| && FlushState(k).snd.queue == k.snd.queue[n..]
  {
    n := AdmitFills(k.snd, FlushWindow(k), FlushContext(k));
  }

  /** A flush of the sender: the log grows by what was numbered, and every data frame is true of it. */
  lemma FlushSender(k: Block, log: seq<Fragment>, v: View) returns (n: nat)
    requires Ok(k) && SendSide(log, k.snd) && Accounted(log, k.snd, v)
    ensures n <= |k.snd.queue| && FlushState(k).snd.queue == k.snd.queue[n..]
    ensures var log' := log + k.snd.queue[..n];
      && SendSide(log', FlushState(k).snd) && Accounted(log', FlushState(k).snd, v)
      && forall f :: f in FlushFrames(k) && f.cmd == PUSH ==>
           |log'| - 0xffff <= Index(|log'|, f.sn) && Matches(log', Index(|log'|, f.sn), f)
  {
    var c := FlushContext(k);
    n := AdmitLink(log, k.snd, v, FlushWindow(k), c);
    var log' := log + k.snd.queue[..n];
    SendAllLink(log', Admitted(k), v, c);
    forall f | f in FlushFrames(k) && f.cmd == PUSH
      ensures |log'| - 0xffff <= Index(|log'|, f.sn) && Matches(log', Index(|log'|, f.sn), f)
    {
      FlushFramesTrue(k, f);
    }
  }

  /** The block whose flush an operation runs: its clock has been set. */
  function Flushed(k: Block, op: Op): Block {
    if op.DoUpdate? then k.(timer := Tick(k.timer, k.conf.interval, op.current).0) else k
  }

  lemma FlushStep(k: Block, op: Op)
    requires k.conf.mss > 0 && Flushes(k, op)
    ensures Flushed(k, op).timer.updated
    ensures Step(k, op) == FlushState(Flushed(k, op)) && Emits(k, op) == Flush(Flushed(k, op)).1
  {
  }

  lemma OtherStep(k: Block, op: Op)
    requires k.conf.mss > 0 && !Flushes(k, op)
    ensures Emits(k, op) == [] && Assigns(k, op) == []
    ensures !op.DoInput? ==> Step(k, op).snd.(queue := k.snd.queue) == k.snd
    ensures !op.DoInput? && !op.DoRecv? ==> Step(k, op).rcv == k.rcv
    ensures op.DoRecv? ==> Step(k, op).rcv == AfterRead(k.rcv, op.len, op.peek)
    ensures op.DoInput? ==> Step(k, op).rcv == (if ToI32(|op.data|) < OVERHEAD then k.rcv
                                               else TakeFrames(k, Parse(k.conf.conv, op.data).frames).rcv)
  {
    OtherAssigns(k, op);
  }

  lemma OtherAssigns(k: Block, op: Op)
    requires k.conf.mss > 0 && !Flushes(k, op)
    ensures Assigns(k, op) == []
  {
    hide Send, Drain, ReadFront, NewestOf;
    Seqs.TakeAll(k.snd.queue);
    if op.DoInput? {
      TakeFramesKeepsQueue(k, Parse(k.conf.conv, op.data).frames);
    }
    if op.DoSend? {
      SendGrowsQueue(k, op.data);
    }
  }

  lemma {:induction false} TakeFramesKeepsQueue(k: Block, fs: seq<Frame>)
    ensures TakeFrames(k, fs).snd.queue == k.snd.queue
  {
    if fs == [] {
    } else {
      TakeFramesKeepsQueue(k, fs[..|fs| - 1]);
    }
  }

  lemma SendGrowsQueue(k: Block, data: seq<byte>)
    requires k.conf.mss > 0
    ensures |SendBlock(k, data).0.snd.queue| >= |k.snd.queue|
  {
  }

  lemma AllDataExtends(conv: u32, log: seq<Fragment>, more: seq<Fragment>, net: set<Packet>)
    requires AllData(conv, log, net)
    ensures AllData(conv, log + more, net)
  {
    forall d, f | d in net && f in Parse(conv, d.data).frames
      ensures DataTrue(log + more, d, f)
    {
      assert DataTrue(log, d, f);
    }
  }

  lemma AllAcksRetained(conv: u32, v: View, v': View, net: set<Packet>)
    requires AllAcks(conv, v, net) && Retains(v, v')
    ensures AllAcks(conv, v', net)
  {
    hide Held, Index, ToU32;
    forall d, f | d in net && f in Parse(conv, d.data).frames
      ensures AckTrue(v', d, f)
    {
      assert AckTrue(v, d, f);
    }
  }

  lemma EmitsFrames(k: Block, op: Op, d: seq<byte>, f: Frame)
    requires Ok(k) && Flushes(k, op) && d in Emits(k, op) && f in Parse(k.conf.conv, d).frames
    ensures f in FlushFrames(Flushed(k, op))
  {
    assert Ok(Flushed(k, op));
    FlushRoundTrip(Flushed(k, op));
  }

  /** The sending end flushes: it sends only what is in its log. */
  lemma FlushSends(p: Peer, op: Op, log: seq<Fragment>)
    requires Ok(p.k) && Flushes(p.k, op) && log == Act(p, op).log && AllData(p.k.conf.conv, log, p.net)
    requires forall f :: f in FlushFrames(Flushed(p.k, op)) && f.cmd == PUSH ==>
      |log| - 0xffff <= Index(|log|, f.sn) && Matches(log, Index(|log|, f.sn), f)
    ensures AllData(p.k.conf.conv, log, Act(p, op).net)
  {
    hide Index, Matches;
    forall d, f | d in Act(p, op).net && f in Parse(p.k.conf.conv, d.data).frames
      ensures DataTrue(log, d, f)
    {
      if d !in p.net {
        assert d.data in Emits(p.k, op) && d.log == |log|;
        EmitsFrames(p.k, op, d.data, f);
      }
    }
  }

  lemma FlushAct(p: Peer, op: Op)
    requires Ok(p.k) && Flushes(p.k, op)
    ensures var p', k := Act(p, op), Flushed(p.k, op);
      && Ok(k) && k.conf == p.k.conf && k.snd == p.k.snd && k.rcv == p.k.rcv
      && p'.k == FlushState(k) && p'.log == p.log + Assigns(p.k, op)
      && Now(p') == View(p.rcvd, p.k.rcv.(acks := [])) && p'.told == Now(p')
  {
    FlushStep(p.k, op);
    FlushReceiver(Flushed(p.k, op));
  }

  lemma LogSized(log: seq<Fragment>, queue: seq<Fragment>, n: nat, mss: u32)
    requires Sized(mss, queue) && n <= |queue| && forall i :: 0 <= i < |log| ==> log[i].frg < FRAGMENT_LIMIT - 1
    ensures forall i :: 0 <= i < |log + queue[..n]| ==> (log + queue[..n])[i].frg < FRAGMENT_LIMIT - 1
  {
  }

  lemma FlushLinkedSender(p: Peer, q: Peer, op: Op)
    requires Ok(p.k) && Linked(p, q) && Flushes(p.k, op)
    ensures var p' := Act(p, op);
      && SendSide(p'.log, p'.k.snd) && Accounted(p'.log, p'.k.snd, q.told)
      && AllData(p.k.conf.conv, p'.log, p'.net)
      && (forall i :: 0 <= i < |p'.log| ==> p'.log[i].frg < FRAGMENT_LIMIT - 1)
  {
    var k := Flushed(p.k, op);
    FlushAct(p, op);
    assert Sized(k.conf.mss, k.snd.queue);
    assert Step(p.k, op) == FlushState(k);
    var n := FlushSender(k, p.log, q.told);
    assert Assigns(p.k, op) == k.snd.queue[..n];
    hide *;
    LogSized(p.log, k.snd.queue, n, k.conf.mss);
    LinkedData(p, q);
    AllDataExtends(p.k.conf.conv, p.log, Assigns(p.k, op), p.net);
    FlushSends(p, op, p.log + Assigns(p.k, op));
  }

  lemma LinkedData(p: Peer, q: Peer)
    requires Linked(p, q)
    ensures AllData(p.k.conf.conv, p.log, p.net)
    ensures forall i :: 0 <= i < |p.log| ==> p.log[i].frg < FRAGMENT_LIMIT - 1
  {
  }

  lemma RecvSideExtends(log: seq<Fragment>, more: seq<Fragment>, v: View)
    requires RecvSide(log, v)
    ensures RecvSide(log + more, v)
  {
    hide Index, ToU32, Windowed, Pieces;
    Seqs.RangeAppend(log, more, v.n - |v.r.queue|, v.n);
  }

  /** Acknowledgements leave with the flush: from the edge they are only little older than from where it
      stood at the flush before. */
  lemma FlushedAck(p: Peer, q: Peer, a: Ack)
    requires Linked(p, q) && a in q.k.rcv.acks
    ensures Stands(Now(q), q.rcvd, a.sn)
  {
    LinkedSpread(p, q);
    LinkedAck(p, q, a);
    NumberOfIndex(q.told.n, a.sn);
    assert q.told.n - 0x8000_0000 <= Index(q.told.n, a.sn);
    hide Held, Linked, Index;
    assert Held(Now(q), Index(q.told.n, a.sn));
  }

  lemma LinkedAck(p: Peer, q: Peer, a: Ack)
    requires Linked(p, q) && a in q.k.rcv.acks
    ensures Held(Now(q), Index(q.told.n, a.sn)) && Index(q.told.n, a.sn) < q.rcvd + 0xffff
  {
    hide Held, Index;
    HeldBelow(Now(q), Index(q.told.n, a.sn));
  }

  /** The receiving end flushes: it says only what it holds. */
  lemma FlushLinkedReceiver(p: Peer, q: Peer, op: Op)
    requires Ok(q.k) && Linked(p, q) && Flushes(q.k, op)
    ensures AllAcks(p.k.conf.conv, Now(q), Act(q, op).net)
  {
    var conv := p.k.conf.conv;
    var k := Flushed(q.k, op);
    FlushStep(q.k, op);
    assert k.rcv == q.k.rcv && Ok(k);
    assert Act(q, op).rcvd == q.rcvd && q.k.rcv.nxt == ToU32(q.rcvd);
    AllAcksRetained(conv, q.told, Now(q), q.net);
    hide Ok, Linked, Held, Index, FlushState, FlushFrames, ToU32, Parse;
    forall d, f | d in Act(q, op).net && f in Parse(conv, d.data).frames
      ensures AckTrue(Now(q), d, f)
    {
      if d !in q.net {
        assert d.data in Emits(q.k, op) && d.rcvd == q.rcvd;
        EmitsFrames(q.k, op, d.data, f);
        FlushFramesTrue(k, f);
        if f.cmd == ACK {
          var a :| a in k.rcv.acks && a.sn == f.sn;
          FlushedAck(p, q, a);
        }
      }
    }
  }

  lemma LinkedFrames(p: Peer, q: Peer, d: Packet)
    requires Linked(p, q)
    ensures d in p.net ==> forall f :: f in Parse(p.k.conf.conv, d.data).frames ==> DataTrue(p.log, d, f)
    ensures d in q.net ==> forall f :: f in Parse(p.k.conf.conv, d.data).frames ==> AckTrue(q.told, d, f)
  {
  }

  /** An operation that does not flush. */
  lemma OtherLinkedSender(p: Peer, q: Peer, op: Op)
    requires Ok(p.k) && Linked(p, q) && Legal(op, p, q) && !Flushes(p.k, op)
    ensures var s' := Step(p.k, op).snd; SendSide(p.log, s') && Accounted(p.log, s', q.told)
  {
    OtherStep(p.k, op);
    if op.DoInput? {
      var d :| d in q.net && d.data == op.data && Young(d, q, p);
      LinkedSpread(p, q);
      LinkedFrames(p, q, d);
      hide Index, Held, Accounted, AckTrue, SendSide, Input, Parse;
      InputSender(p.k, d, p.log, q.told);
    } else {
      hide Index, Held, ToU32, Ordered;
      SameBufferLink(p.log, p.k.snd, Step(p.k, op).snd, q.told);
    }
  }

  lemma SameBufferLink(log: seq<Fragment>, s: Sender, s': Sender, v: View)
    requires SendSide(log, s) && Accounted(log, s, v) && s' == s.(queue := s'.queue)
    ensures SendSide(log, s') && Accounted(log, s', v)
  {
    hide Index, Held, ToU32;
    assert Ordered(s');
    assert forall i :: Outstanding(log, s, i) ==> Outstanding(log, s', i);
  }

  lemma LinkedSender(p: Peer, q: Peer, op: Op)
    requires Ok(p.k) && Linked(p, q) && Legal(op, p, q)
    ensures Linked(Act(p, op), q)
  {
    StepKeepsConv(p.k, op);
    RecvSideExtends(p.log, Assigns(p.k, op), Now(q));
    hide SendSide, RecvSide, Viewed, Retains, Accounted, AcksHeld, AllData, AllAcks;
    if Flushes(p.k, op) {
      FlushLinkedSender(p, q, op);
    } else {
      OtherStep(p.k, op);
      Seqs.AppendNone(p.log);
      assert Act(p, op).net == p.net;
      OtherLinkedSender(p, q, op);
    }
  }

  lemma StepKeepsConv(k: Block, op: Op)
    requires k.conf.mss > 0
    ensures var c := Step(k, op).conf; c.conv == k.conf.conv && c.mss == k.conf.mss && c.stream == k.conf.stream
  {
    if op.DoInput? {
      TakeFramesConf(k, Parse(k.conf.conv, op.data).frames);
    }
  }

  /** How many queued frames an operation hands to the user. */
  function Consumes(k: Block, op: Op): nat {
    if op.DoRecv? && !op.peek && ReadFront(k.rcv.queue, op.len).code >= 0 then MessageEnd(Pieces(k.rcv.queue)) else 0
  }

  lemma FlushReceiverStep(p: Peer, q: Peer, op: Op)
    requires Ok(q.k) && Linked(p, q) && Flushes(q.k, op)
    ensures var v, v' := Now(q), Now(Act(q, op));
      && v' == v.(r := v.r.(acks := [])) && Act(q, op).told == v' && RecvSide(p.log, v') && Retains(v, v')
  {
    assert RecvSide(p.log, Now(q));
    hide Linked, RecvSide, Retains;
    FlushAct(q, op);
    OtherAcks(p.log, Now(q), []);
  }

  lemma InputReceiverStep(p: Peer, q: Peer, op: Op)
    requires Ok(q.k) && Linked(p, q) && Legal(op, q, p) && op.DoInput?
    ensures Receives(p.log, q.told.n, Now(q), Now(Act(q, op)))
  {
    var d :| d in p.net && d.data == op.data && Young(d, p, q);
    LinkedSpread(p, q);
    LinkedFrames(p, q, d);
    OtherStep(q.k, op);
    assert Onto(Now(q), q.k.rcv) == Now(q);
    hide TakeFrames, Parse, SendSide, Accounted, AllData, AllAcks, Step, RecvSide, AcksHeld, DataTrue;
    SelfRetains(Now(q));
    TakeFramesReceiver(q.k, Parse(q.k.conf.conv, d.data).frames, p.log, q.told.n, q.rcvd, d);
  }

  lemma SelfRetains(v: View)
    ensures Retains(v, v)
  {
  }

  lemma ReadReceiverStep(p: Peer, q: Peer, op: Op)
    requires Ok(q.k) && Linked(p, q) && !Flushes(q.k, op) && !op.DoInput?
    ensures var v, v' := Now(q), Now(Act(q, op));
      && RecvSide(p.log, v') && v'.r.acks == v.r.acks && Retains(v, v')
      && v'.n - |v'.r.queue| == v.n - |v.r.queue| + Consumes(q.k, op)
  {
    OtherStep(q.k, op);
    assert Onto(Now(q), q.k.rcv) == Now(q);
    hide SendSide, Accounted, AllData, AllAcks, Step, RecvSide, AcksHeld, Drain;
    SelfRetains(Now(q));
    Seqs.TakeAll(q.k.rcv.queue);
    AfterReadLink(p.log, Now(q), Consumes(q.k, op));
  }

  lemma AcksKept(base: nat, v: View, v': View)
    requires AcksHeld(base, v) && Retains(v, v') && v'.r.acks == v.r.acks
    ensures AcksHeld(base, v')
  {
    hide Held, Index;
  }

  /** No operation loses received data; what is delivered or queued only moves on by what is read. */
  lemma ReceiverStep(p: Peer, q: Peer, op: Op)
    requires Ok(q.k) && Linked(p, q) && Legal(op, q, p)
    ensures var v, v' := Now(q), Now(Act(q, op));
      && RecvSide(p.log, v') && AcksHeld(Act(q, op).told.n, v') && Retains(v, v')
      && v'.n - |v'.r.queue| == v.n - |v.r.queue| + Consumes(q.k, op)
  {
    assert AcksHeld(q.told.n, Now(q));
    if Flushes(q.k, op) {
      FlushReceiverStep(p, q, op);
    } else if op.DoInput? {
      InputReceiverStep(p, q, op);
    } else {
      ReadReceiverStep(p, q, op);
      AcksKept(q.told.n, Now(q), Now(Act(q, op)));
    }
  }

  lemma AccountedRetained(log: seq<Fragment>, s: Sender, v: View, v': View)
    requires Accounted(log, s, v) && Retains(v, v')
    ensures Accounted(log, s, v')
  {
    hide Outstanding, Held;
  }

  lemma LinkedReceiver(p: Peer, q: Peer, op: Op)
    requires Ok(q.k) && Linked(p, q) && Legal(op, q, p)
    ensures Linked(p, Act(q, op))
  {
    ReceiverStep(p, q, op);
    StepKeepsConv(q.k, op);
    var q', conv := Act(q, op), p.k.conf.conv;
    RetainsTransitive(q.told, Now(q), Now(q'));
    if Flushes(q.k, op) {
      FlushReceiverStep(p, q, op);
      FlushLinkedReceiver(p, q, op);
      hide SendSide, Accounted, AcksHeld, AllData, AllAcks, Retains, Act;
      SelfRetains(q'.told);
      AccountedRetained(p.log, p.k.snd, q.told, q'.told);
      AllAcksRetained(conv, Now(q), q'.told, q'.net);
      assert Viewed(Now(q'));
    } else {
      OtherStep(q.k, op);
      assert q'.net == q.net;
    }
  }
}
