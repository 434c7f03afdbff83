/** Whole runs of a connection. */
module Connection {
  import opened Words
  import opened Wire
  import opened Fragments
  import opened Senders
  import opened Receivers
  import opened Control
  import opened Link
  import opened Network
  import opened Delivery
  import Seqs

  datatype Side = Left | Right

  datatype Event = Event(side: Side, op: Op)

  datatype Pair = Pair(left: Peer, right: Peer)

  predicate Usable(n: Pair) {
    n.left.k.conf.mss > 0 && n.right.k.conf.mss > 0
  }

  function Do(n: Pair, e: Event): (n': Pair)
    requires Usable(n)
    ensures Usable(n')
  {
    match e.side
    case Left => StepKeepsConv(n.left.k, e.op); n.(left := Act(n.left, e.op))
    case Right => StepKeepsConv(n.right.k, e.op); n.(right := Act(n.right, e.op))
  }

  function Run(n: Pair, es: seq<Event>): (n': Pair)
    requires Usable(n)
    ensures Usable(n')
  {
    if es == [] then n else Do(Run(n, es[..|es| - 1]), es[|es| - 1])
  }

  predicate LegalEvent(n: Pair, e: Event) {
    match e.side
    case Left => Legal(e.op, n.left, n.right)
    case Right => Legal(e.op, n.right, n.left)
  }

  predicate LegalRun(n: Pair, es: seq<Event>)
    requires Usable(n)
  {
    es == [] || (LegalRun(n, es[..|es| - 1]) && LegalEvent(Run(n, es[..|es| - 1]), es[|es| - 1]))
  }

  /** Two ends of one conversation, configured in any way, before any traffic. */
  ghost predicate Fresh(n: Pair) {
    && FreshPeer(n.left) && FreshPeer(n.right)
    && n.left.k.conf.conv == n.right.k.conf.conv
  }

  ghost predicate FreshPeer(p: Peer) {
    && Ok(p.k) && p.k.snd == Sender(0, 0, [], []) && p.k.rcv == Receiver(0, p.k.rcv.wnd, [], [], [])
    && p == Start(p.k)
  }

  /** A legal run of two fresh ends. */
  ghost predicate Reached(n: Pair, es: seq<Event>) {
    Usable(n) && Fresh(n) && LegalRun(n, es)
  }

  /** An end before any traffic. */
  function Start(k: Block): Peer {
    Peer(k, [], 0, View(0, k.rcv), {}, [], [])
  }

  /** A created block with the settings that are made before traffic. */
  function Open(
      conv: u32, stream: bool, fastLimit: i32, deadLink: u32, mtu: i32, sndwnd: i32, rcvwnd: i32): Block {
    var k := WndSize(Create(conv), sndwnd, rcvwnd);
    k.(conf := SetMtu(k.conf, mtu).0.(stream := stream, fastLimit := fastLimit, deadLink := deadLink))
  }

  /** Whatever the settings, such a block is a fresh end, in the mode that was asked for. */
  lemma OpenIsFresh(conv: u32, stream: bool, fastLimit: i32, deadLink: u32, mtu: i32, sndwnd: i32, rcvwnd: i32)
    requires rcvwnd <= 0xffff
    ensures var k := Open(conv, stream, fastLimit, deadLink, mtu, sndwnd, rcvwnd);
      && FreshPeer(Start(k)) && k.conf.conv == conv && k.conf.stream == stream
      && k.conf.mss == (if mtu < MTU_MIN then MTU_DEF else mtu) - OVERHEAD
  {
    CreateOk(conv);
    WndSizeOk(Create(conv), sndwnd, rcvwnd);
    var k := WndSize(Create(conv), sndwnd, rcvwnd);
    SetMtuOk(k, mtu);
    hide Ordered, Windowed, Sendable, Ascending, FrameSns, Sns;
  }

  ghost predicate Short(net: set<Packet>) {
    forall d :: d in net ==> |d.data| < 0x8000_0000
  }

  /** Everything that is kept about the direction from `p` to `q`. */
  ghost predicate Direction(p: Peer, q: Peer)
    requires p.k.conf.mss > 0
  {
    && Linked(p, q) && Short(p.net) && BytesInOrder(p, q)
    && (!p.k.conf.stream ==> MessagesInOrder(p, q))
  }

  ghost predicate Inv(n: Pair)
    requires Usable(n)
  {
    && Ok(n.left.k) && Ok(n.right.k)
    && Direction(n.left, n.right) && Direction(n.right, n.left)
  }

  lemma NothingNumbered(v: View)
    ensures SendSide([], Sender(0, 0, [], [])) && Accounted([], Sender(0, 0, [], []), v)
  {
    assert Ordered(Sender(0, 0, [], []));
  }

  lemma NothingQueued(log: seq<Fragment>)
    requires log == []
    ensures Pieces([]) == log[0..0]
  {
  }

  lemma NothingPending(v: View)
    requires v.r.acks == []
    ensures AcksHeld(0, v)
  {
    hide Index, Held;
  }

  lemma NothingReceived(r: Receiver)
    requires Windowed(r) && r == Receiver(0, r.wnd, [], [], [])
    ensures RecvSide([], View(0, r)) && Viewed(View(0, r))
  {
    assert ToU32(0) == 0;
    hide Windowed, Index, ToU32, Pieces, Matches;
    NothingQueued([]);
  }

  lemma FreshLinked(p: Peer, q: Peer)
    requires FreshPeer(p) && FreshPeer(q) && p.k.conf.conv == q.k.conf.conv
    ensures Linked(p, q)
  {
    assert Windowed(q.k.rcv);
    hide SendSide, RecvSide, Accounted, AcksHeld, Retains, Viewed, Ok, Windowed;
    NothingNumbered(q.told);
    NothingReceived(q.k.rcv);
    NothingPending(q.told);
    SelfRetains(q.told);
  }

  lemma FreshDirection(p: Peer, q: Peer)
    requires FreshPeer(p) && FreshPeer(q) && p.k.conf.conv == q.k.conf.conv
    ensures Direction(p, q)
  {
    FreshLinked(p, q);
    NothingInOrder(p.k.conf.mss);
    hide Ok, Linked, Stream, Joined, InOrder;
    Seqs.TakeAll(p.log);
    Seqs.AppendNone(p.log);
  }

  lemma NothingInOrder(mss: u32)
    requires mss > 0
    ensures InOrder(mss, [], [], [], 0, []) && Stream([]) == Joined([])
  {
  }

  /** The sending end acts. */
  lemma SenderOrder(p: Peer, q: Peer, op: Op, p': Peer, more: seq<Fragment>)
    requires Ok(p.k) && Direction(p, q) && p' == Act(p, op) && p'.log == p.log + more
    ensures BytesInOrder(p', q)
    ensures !p.k.conf.stream && p'.k.conf.mss == p.k.conf.mss ==> MessagesInOrder(p', q)
  {
    assert 0 <= Consumed(q) <= |p.log| && BytesInOrder(p, q);
    hide Ok, Linked, Short, Step, Assigns, Accepts, Delivers, Consumed, CutAll, Stream, Joined, Count;
    Seqs.RangeAppend(p.log, more, 0, Consumed(q));
    SenderBytes(p, op);
    if !p.k.conf.stream {
      SenderMessages(p, op);
    }
  }

  lemma ShortEmits(k: Block, op: Op)
    requires Ok(k)
    ensures forall d :: d in Emits(k, op) ==> |d| < 0x8000_0000
  {
    if Flushes(k, op) {
      FlushStep(k, op);
      assert Ok(Flushed(k, op));
      FlushRoundTrip(Flushed(k, op));
    } else {
      OtherStep(k, op);
    }
  }

  lemma DirectionSender(p: Peer, q: Peer, op: Op)
    requires Ok(p.k) && Direction(p, q) && Legal(op, p, q)
    ensures Act(p, op).k.conf.mss > 0 && Direction(Act(p, op), q)
  {
    LinkedSender(p, q, op);
    StepKeepsConv(p.k, op);
    SenderOrder(p, q, op, Act(p, op), Assigns(p.k, op));
    ShortEmits(p.k, op);
  }

  lemma DirectionReceiver(p: Peer, q: Peer, op: Op)
    requires Ok(p.k) && Ok(q.k) && Direction(p, q) && Legal(op, q, p)
    ensures Direction(p, Act(q, op))
  {
    LinkedReceiver(p, q, op);
    ActReads(p, q, op);
    ReceiverBytes(p, q, op, Act(q, op));
    if !p.k.conf.stream {
      ReceiverMessages(p, q, op, Act(q, op));
    }
  }

  lemma DoInv(n: Pair, e: Event)
    requires Usable(n) && Inv(n) && LegalEvent(n, e)
    ensures Inv(Do(n, e))
  {
    match e.side
    case Left =>
      StepOk(n.left.k, e.op);
      DirectionSender(n.left, n.right, e.op);
      DirectionReceiver(n.right, n.left, e.op);
    case Right =>
      StepOk(n.right.k, e.op);
      DirectionSender(n.right, n.left, e.op);
      DirectionReceiver(n.left, n.right, e.op);
  }

  /** The invariant holds in every reached state. */
  lemma {:induction false} RunInv(n: Pair, es: seq<Event>)
    requires Reached(n, es)
    ensures Inv(Run(n, es))
  {
    if es == [] {
      FreshDirection(n.left, n.right);
      FreshDirection(n.right, n.left);
    } else {
      RunInv(n, es[..|es| - 1]);
      DoInv(Run(n, es[..|es| - 1]), es[|es| - 1]);
    }
  }

  lemma {:induction false} RunKeepsMode(n: Pair, es: seq<Event>)
    requires Usable(n)
    ensures Run(n, es).left.k.conf.stream == n.left.k.conf.stream
    ensures Run(n, es).right.k.conf.stream == n.right.k.conf.stream
  {
    if es == [] {
    } else {
      var m, e := Run(n, es[..|es| - 1]), es[|es| - 1];
      RunKeepsMode(n, es[..|es| - 1]);
      StepKeepsConv(m.left.k, e.op);
      StepKeepsConv(m.right.k, e.op);
    }
  }

  lemma PrefixBytes(p: Peer, q: Peer)
    requires BytesInOrder(p, q)
    ensures Joined(q.got) <= Joined(p.sent)
  {
    var c := Consumed(q);
    var all := p.log + p.k.snd.queue;
    assert all == p.log[..c] + all[c..];
    StreamConcat(p.log[..c], all[c..]);
  }

  /** Ordered exactly-once delivery. Whatever the network loses, repeats or reorders, in every run the
      messages delivered at each end are a prefix of the messages accepted at the other, and in stream
      mode the bytes are. */
  lemma OrderedDelivery(n: Pair, es: seq<Event>)
    requires Reached(n, es)
    ensures var m := Run(n, es);
      && (!n.left.k.conf.stream ==> m.right.got <= m.left.sent)
      && (!n.right.k.conf.stream ==> m.left.got <= m.right.sent)
      && Joined(m.right.got) <= Joined(m.left.sent)
      && Joined(m.left.got) <= Joined(m.right.sent)
  {
    var m := Run(n, es);
    RunInv(n, es);
    RunKeepsMode(n, es);
    PrefixBytes(m.left, m.right);
    PrefixBytes(m.right, m.left);
  }

  /** What acknowledgements of `q` say about the numbers of `p`. */
  ghost predicate AcksTrue(conv: u32, p: Peer, q: Peer) {
    && (forall a :: a in q.k.rcv.acks ==> Stands(Now(q), q.rcvd, a.sn))
    && (forall d, f :: d in q.net && f in Parse(conv, d.data).frames ==>
          f.una == ToU32(d.rcvd) && d.rcvd <= q.rcvd && (f.cmd == ACK ==> Stands(Now(q), d.rcvd, f.sn)))
    && (forall i: int :: 0 <= i < |p.log| && !Outstanding(p.log, p.k.snd, i) ==> Held(Now(q), i))
  }

  lemma LinkedAcksTrue(p: Peer, q: Peer)
    requires Linked(p, q)
    ensures AcksTrue(p.k.conf.conv, p, q)
  {
    AccountedRetained(p.log, p.k.snd, q.told, Now(q));
    hide Held, Index, ToU32, Outstanding;
    forall a | a in q.k.rcv.acks
      ensures Stands(Now(q), q.rcvd, a.sn)
    {
      FlushedAck(p, q, a);
    }
    forall d, f | d in q.net && f in Parse(p.k.conf.conv, d.data).frames
      ensures f.una == ToU32(d.rcvd) && d.rcvd <= q.rcvd && (f.cmd == ACK ==> Stands(Now(q), d.rcvd, f.sn))
    {
      assert AckTrue(q.told, d, f);
    }
  }

  /** Acknowledged implies held: in every reachable state, each acknowledgement that is pending or on
      the network names a fragment that the receiver has, each cumulative one is the edge it had then,
      and a fragment that has left the send buffer is held by the receiver or delivered. */
  lemma AcknowledgedImpliesHeld(n: Pair, es: seq<Event>)
    requires Reached(n, es)
    ensures var m, conv := Run(n, es), n.left.k.conf.conv;
      AcksTrue(conv, m.left, m.right) && AcksTrue(conv, m.right, m.left)
  {
    RunInv(n, es);
    RunKeepsConv(n, es);
    LinkedAcksTrue(Run(n, es).left, Run(n, es).right);
    LinkedAcksTrue(Run(n, es).right, Run(n, es).left);
  }

  lemma {:induction false} RunKeepsConv(n: Pair, es: seq<Event>)
    requires Usable(n)
    ensures Run(n, es).left.k.conf.conv == n.left.k.conf.conv
  {
    if es == [] {
    } else {
      RunKeepsConv(n, es[..|es| - 1]);
      StepKeepsConv(Run(n, es[..|es| - 1]).left.k, es[|es| - 1].op);
    }
  }

  // ---- no stall ----

  /** With room in the queue, the receiver waits for nothing that the sender has dropped. */
  lemma UnaNotAhead(p: Peer, q: Peer)
    requires Linked(p, q) && |q.k.rcv.queue| < q.k.rcv.wnd
    ensures Una(p.log, p.k.snd) <= q.rcvd
  {
    var i := q.rcvd;
    NextNotHeld(Now(q));
    if i < |p.log| {
      assert !Held(q.told, i);
      assert Outstanding(p.log, p.k.snd, i);
      var g :| g in p.k.snd.buf && Index(|p.log|, g.frame.sn) == i;
      SegmentIndex(p.log, p.k.snd, g);
    }
  }

  lemma NextNotHeld(v: View)
    requires Viewed(v) && |v.r.queue| < v.r.wnd
    ensures !Held(v, v.n)
  {
    NextIsAbsent(v.r);
    hide Index, ToU32, Windowed;
    forall f | f in v.r.buf
      ensures Index(v.n, f.sn) != v.n
    {
      FrameIndex(v, f);
      var i :| 0 <= i < |v.r.buf| && v.r.buf[i] == f;
    }
  }

  lemma {:induction false} DrainKeepsAcks(r: Receiver)
    ensures Drain(r).acks == r.acks && Drain(r).wnd == r.wnd
    decreases |r.buf|
  {
    if Drained(r) {
    } else {
      DrainKeepsAcks(DrainOne(r));
    }
  }

  lemma TakePushAcks(r: Receiver, f: Frame)
    ensures TakePush(r, f).wnd == r.wnd && forall a :: a in r.acks ==> a in TakePush(r, f).acks
  {
    var r1 := r.(acks := r.acks + [Ack(f.sn, f.ts)]);
    DrainKeepsAcks(r1.(buf := Insert(r1.buf, f)));
  }

  lemma {:induction false} TakeFramesWnd(k: Block, fs: seq<Frame>)
    ensures TakeFrames(k, fs).rcv.wnd == k.rcv.wnd
  {
    if fs == [] {
    } else {
      TakeFramesWnd(k, fs[..|fs| - 1]);
      TakePushAcks(TakeFrames(k, fs[..|fs| - 1]).rcv, fs[|fs| - 1]);
    }
  }

  /** Every true PUSH below the end of the window is acknowledged, duplicate or not. */
  lemma {:induction false} PushIsAcked(
      k: Block, fs: seq<Frame>, log: seq<Fragment>, base: nat, n: nat, d: Packet, f: Frame)
    requires RecvSide(log, View(n, k.rcv)) && AcksHeld(base, View(n, k.rcv))
    requires base <= n && |log| <= base + 0x1_fffe && |log| <= d.log + LIFETIME
    requires forall g :: g in fs ==> DataTrue(log, d, g)
    requires f in fs && f.cmd == PUSH && Index(d.log, f.sn) < n + k.rcv.wnd
    ensures Ack(f.sn, f.ts) in TakeFrames(k, fs).rcv.acks
  {
    var front, last := fs[..|fs| - 1], fs[|fs| - 1];
    var r := TakeFrames(k, front).rcv;
    assert last in fs && TakeFrames(k, fs).rcv == if last.cmd == PUSH then TakePush(r, last) else r;
    hide TakeFrames, RecvSide, AcksHeld, DataTrue, TakePush, Index;
    if last == f {
      TakeFramesReceiver(k, front, log, base, n, d);
      TakeFramesWnd(k, front);
      LastIsAcked(log, base, View(n, k.rcv), r, d, f);
    } else {
      Seqs.SplitLast(fs);
      PushIsAcked(k, front, log, base, n, d, f);
      TakePushAcks(r, last);
    }
  }

  lemma LastIsAcked(log: seq<Fragment>, base: nat, v: View, r: Receiver, d: Packet, f: Frame)
    requires base <= v.n && |log| <= base + 0x1_fffe && |log| <= d.log + LIFETIME
    requires Receives(log, base, v, Onto(v, r)) && r.wnd == v.r.wnd
    requires DataTrue(log, d, f) && f.cmd == PUSH && Index(d.log, f.sn) < v.n + v.r.wnd
    ensures Ack(f.sn, f.ts) in TakePush(r, f).acks
  {
    var v1 := Onto(v, r);
    ReceivesBelow(log, base, v, v1);
    hide RecvSide, AcksHeld, Matches, Index, TakePush, Held;
    TakePushLink(log, base, v1, f, Index(d.log, f.sn));
  }

  lemma AckedTransitive(s: Sender, s1: Sender, s2: Sender)
    requires Acked(s, s1) && Acked(s1, s2)
    ensures Acked(s, s2)
  {
  }

  /** A segment with this number is in the buffer. */
  ghost predicate Buffered(s: Sender, sn: u32) {
    exists g :: g in s.buf && g.frame.sn == sn
  }

  lemma TakeFrameAcked(k: Block, f: Frame)
    requires Ok(k)
    ensures Acked(k.snd, TakeFrame(k, f).snd)
    ensures f.cmd == ACK ==> !Buffered(TakeFrame(k, f).snd, f.sn)
  {
    var s1 := TakeUna(k.snd, f.una);
    TakeUnaOrdered(k.snd, f.una);
    if f.cmd == ACK {
      TakeAckOrdered(s1, f.sn);
      AckedTransitive(k.snd, s1, TakeAck(s1, f.sn));
      forall g | g in TakeAck(s1, f.sn).buf
        ensures g.frame.sn != f.sn
      {
        TakeAckExact(s1, f.sn, g);
      }
    }
  }

  /** After the frames of a datagram, every number that one of them acknowledged has left the buffer,
      and `snd_una` has not moved back. */
  lemma {:induction false} TakeFramesAcked(k: Block, fs: seq<Frame>)
    requires Ok(k)
    ensures Ok(TakeFrames(k, fs)) && Acked(k.snd, TakeFrames(k, fs).snd)
    ensures forall f :: f in fs && f.cmd == ACK ==> !Buffered(TakeFrames(k, fs).snd, f.sn)
  {
    TakeFramesOk(k, fs);
    if fs == [] {
    } else {
      var front, last := fs[..|fs| - 1], fs[|fs| - 1];
      TakeFramesAcked(k, front);
      TakeFrameAcked(TakeFrames(k, front), last);
      AckedTransitive(k.snd, TakeFrames(k, front).snd, TakeFrames(k, fs).snd);
      Seqs.SplitLast(fs);
    }
  }

  /** `snd_una` has moved forward, within what was outstanding. */
  ghost predicate Advanced(s: Sender, s': Sender) {
    0 < Sub32(s'.una, s.una) <= Span(s)
  }

  lemma TakeFramesAdvance(k: Block, fs: seq<Frame>, f: Frame)
    requires Ok(k) && k.snd.buf != [] && f in fs && f.cmd == ACK && f.sn == k.snd.una
    ensures Advanced(k.snd, TakeFrames(k, fs).snd)
  {
    var s, s' := k.snd, TakeFrames(k, fs).snd;
    TakeFramesAcked(k, fs);
    assert Sns(s.buf)[0] == s.una;
    if s'.buf != [] {
      assert s'.buf[0] in s'.buf;
    }
  }

  lemma InputUna(k: Block, d: seq<byte>)
    requires k.conf.mss > 0 && OVERHEAD <= |d| < 0x8000_0000
    ensures Input(k, d).0.snd.una == TakeFrames(k, Parse(k.conf.conv, d).frames).snd.una
    ensures Input(k, d).0.snd.nxt == TakeFrames(k, Parse(k.conf.conv, d).frames).snd.nxt
    ensures Input(k, d).0.rcv == TakeFrames(k, Parse(k.conf.conv, d).frames).rcv
  {
    hide TakeFrames, Parse, NewestOf;
  }

  /** An acknowledgement of the oldest outstanding number strictly advances `snd_una`, whatever else
      the datagram holds. */
  lemma AckAdvances(k: Block, d: seq<byte>, f: Frame)
    requires Ok(k) && k.snd.buf != [] && OVERHEAD <= |d| < 0x8000_0000
    requires f in Parse(k.conf.conv, d).frames && f.cmd == ACK && f.sn == k.snd.una
    ensures Advanced(k.snd, Input(k, d).0.snd)
  {
    InputUna(k, d);
    TakeFramesAdvance(k, Parse(k.conf.conv, d).frames, f);
  }

  lemma {:induction false} ParseAllMember(conv: u32, ds: seq<seq<byte>>, f: Frame) returns (d: seq<byte>)
    requires f in ParseAll(conv, ds)
    ensures d in ds && f in Parse(conv, d).frames
  {
    var front, last := ds[..|ds| - 1], ds[|ds| - 1];
    if f in Parse(conv, last).frames {
      d := last;
    } else {
      d := ParseAllMember(conv, front, f);
    }
  }

  /** A frame of a flush is in one of its datagrams. */
  lemma FlushSendsFrame(k: Block, f: Frame) returns (d: seq<byte>)
    requires Ok(k) && k.timer.updated && f in FlushFrames(k)
    ensures d in Flush(k).1 && OVERHEAD <= |d| < 0x8000_0000 && Parse(k.conf.conv, d).code == 0
    ensures f in Parse(k.conf.conv, d).frames
    ensures forall g :: g in Parse(k.conf.conv, d).frames ==> g in FlushFrames(k)
  {
    FlushRoundTrip(k);
    d := ParseAllMember(k.conf.conv, Flush(k).1, f);
  }

  /** Flushing sends every pending acknowledgement, with the time of its segment. */
  lemma FlushSendsAck(k: Block, a: Ack) returns (d: seq<byte>, f: Frame)
    requires Ok(k) && k.timer.updated && a in k.rcv.acks
    ensures d in Flush(k).1 && OVERHEAD <= |d| < 0x8000_0000 && Parse(k.conf.conv, d).code == 0
    ensures f in Parse(k.conf.conv, d).frames && f.cmd == ACK && f.sn == a.sn && f.ts == a.ts
  {
    var c := FlushContext(k);
    f := AckFrame(c, ACK, a);
    var i :| 0 <= i < |k.rcv.acks| && k.rcv.acks[i] == a;
    assert AckFrames(c, k.rcv.acks)[i] == f;
    assert f in FlushFrames(k);
    d := FlushSendsFrame(k, f);
  }

  /** In a young datagram the number `snd_una` stands for the oldest outstanding index. */
  lemma OldestIndex(p: Peer, q: Peer, d: Packet, f: Frame)
    requires Linked(p, q) && p.k.snd.buf != [] && |p.log| - d.log <= LIFETIME
    requires d in p.net && f in Parse(p.k.conf.conv, d.data).frames && f.cmd == PUSH && f.sn == p.k.snd.una
    ensures Index(d.log, f.sn) == Una(p.log, p.k.snd)
  {
    assert DataTrue(p.log, d, f);
    var i, u := Index(d.log, f.sn), Una(p.log, p.k.snd);
    assert f.sn == ToU32(i);
    UnaNumber(p.log, p.k.snd);
    hide Linked, Index;
    if i != u {
      NumbersDiffer(i, u);
    }
  }

  lemma UnaNumber(log: seq<Fragment>, s: Sender)
    requires SendSide(log, s)
    ensures s.una == ToU32(Una(log, s)) && |log| - 0xffff <= Una(log, s) <= |log|
  {
  }

  lemma OldestIsAcked(p: Peer, q: Peer, d: Packet, f: Frame)
    requires Ok(q.k) && Linked(p, q) && |q.k.rcv.queue| < q.k.rcv.wnd && |d.data| < 0x8000_0000
    requires p.k.snd.buf != [] && |p.log| - d.log <= LIFETIME
    requires d in p.net && f in Parse(p.k.conf.conv, d.data).frames && f.cmd == PUSH && f.sn == p.k.snd.una
    ensures Ack(f.sn, f.ts) in Input(q.k, d.data).0.rcv.acks
  {
    UnaNotAhead(p, q);
    LinkedFrames(p, q, d);
    LinkedSpread(p, q);
    OldestIndex(p, q, d, f);
    assert RecvSide(p.log, Now(q)) && AcksHeld(q.told.n, Now(q)) && q.k.conf.conv == p.k.conf.conv;
    assert |d.data| >= OVERHEAD && q.k.conf.mss > 0;
    hide *;
    PushIsAcked(q.k, Parse(q.k.conf.conv, d.data).frames, p.log, q.told.n, q.rcvd, d, f);
    InputUna(q.k, d.data);
  }

  /** No stall: when the receiver's queue has room and something is outstanding, delivering any young
      datagram with the oldest outstanding segment, flushing the receiver and delivering one of the
      datagrams of that flush strictly advances the sender's `snd_una`. */
  lemma NoStall(p: Peer, q: Peer, d: Packet, f: Frame) returns (d': seq<byte>)
    requires Ok(p.k) && Ok(q.k) && Direction(p, q)
    requires p.k.snd.buf != [] && |q.k.rcv.queue| < q.k.rcv.wnd && q.k.timer.updated
    requires d in p.net && |p.log| - d.log <= LIFETIME
    requires f in Parse(p.k.conf.conv, d.data).frames && f.cmd == PUSH && f.sn == p.k.snd.una
    ensures d' in Flush(Input(q.k, d.data).0).1
    ensures Advanced(p.k.snd, Input(p.k, d').0.snd)
  {
    OldestIsAcked(p, q, d, f);
    var q1 := Input(q.k, d.data).0;
    InputOk(q.k, d.data);
    InputKeepsTimer(q.k, d.data);
    assert q.k.conf.conv == p.k.conf.conv;
    hide *;
    var f';
    d', f' := FlushSendsAck(q1, Ack(f.sn, f.ts));
    AckAdvances(p.k, d', f');
  }

  lemma InputKeepsTimer(k: Block, d: seq<byte>)
    requires k.conf.mss > 0
    ensures Input(k, d).0.timer == k.timer && Input(k, d).0.conf == k.conf
  {
    TakeFramesKeepsTimer(k, Parse(k.conf.conv, d).frames);
    TakeFramesConf(k, Parse(k.conf.conv, d).frames);
  }

  lemma {:induction false} TakeFramesKeepsTimer(k: Block, fs: seq<Frame>)
    ensures TakeFrames(k, fs).timer == k.timer
  {
    if fs == [] {
    } else {
      TakeFramesKeepsTimer(k, fs[..|fs| - 1]);
    }
  }

  /** A full receive queue can always be read. */
  lemma FullQueueIsReadable(p: Peer, q: Peer)
    requires Linked(p, q) && |q.k.rcv.queue| >= q.k.rcv.wnd
    ensures PeekSize(q.k.rcv.queue) >= 0
    ensures ReadFront(q.k.rcv.queue, PeekSize(q.k.rcv.queue)).code >= 0
  {
    var r := q.k.rcv;
    assert Pieces(r.queue)[0] == p.log[q.rcvd - |r.queue|];
    FullQueueReadable(r);
    ReadMatchesPeek(r.queue, PeekSize(r.queue));
  }
}
