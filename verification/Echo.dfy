/** Acknowledgements return the time of the segment that they acknowledge, so that what the estimator is given
    is a round trip. */
module Echo {
  import opened Words
  import opened Wire
  import opened Receivers
  import opened Estimator
  import opened Control
  import opened Link
  import opened Network
  import opened Connection
  import opened Progress
  import opened Recovery
  import opened Flushing
  import Inputs
  import Seqs

  // ---- what an input notes for acknowledgement ----

  /** One frame: a data frame below the end of the window is noted once, with its own number and time. */
  lemma FrameNoted(k: Block, f: Frame)
    requires k.rcv.wnd <= 0xffff
    ensures TakeFrame(k, f).rcv.acks
         == k.rcv.acks + if f.cmd == PUSH && !Flushing.Reached(f.sn, ToU32(k.rcv.nxt + k.rcv.wnd))
                         then [Ack(f.sn, f.ts)] else []
    ensures TakeFrame(k, f).rcv.wnd == k.rcv.wnd
  {
    var r1 := k.rcv.(acks := k.rcv.acks + [Ack(f.sn, f.ts)]);
    ReachedIsDifference(f.sn, ToU32(k.rcv.nxt + k.rcv.wnd));
    AddExact(k.rcv.nxt, k.rcv.wnd);
    DrainKeepsAcks(r1.(buf := Insert(r1.buf, f)));
    Seqs.AppendNone(k.rcv.acks);
    hide Drain, Insert, TimeDiff, Sub32, Add32, ToU32, TakeRtt;
  }

  lemma {:induction false} FramesNoted(k: Block, fs: seq<Frame>, a: Ack)
    requires k.rcv.wnd <= 0xffff && a in TakeFrames(k, fs).rcv.acks
    ensures a in k.rcv.acks || exists f :: f in fs && f.cmd == PUSH && a == Ack(f.sn, f.ts)
    ensures TakeFrames(k, fs).rcv.wnd == k.rcv.wnd
  {
    if fs == [] {
    } else {
      var front, f := fs[..|fs| - 1], fs[|fs| - 1];
      TakeFramesWnd(k, front);
      hide TakeFrame;
      FrameNoted(TakeFrames(k, front), f);
      Seqs.SplitLast(fs);
      if a in TakeFrames(k, front).rcv.acks {
        FramesNoted(k, front, a);
      }
    }
  }

  // ---- the echo in every run ----

  /** A data frame with this number and time has been emitted. */
  ghost predicate Emitted(conv: u32, net: set<Packet>, sn: u32, ts: u32) {
    exists d, f :: d in net && f in Parse(conv, d.data).frames && f.cmd == PUSH && f.sn == sn && f.ts == ts
  }

  lemma EmittedGrows(conv: u32, net: set<Packet>, net': set<Packet>, sn: u32, ts: u32)
    requires Emitted(conv, net, sn, ts) && net <= net'
    ensures Emitted(conv, net', sn, ts)
  {
  }

  /** Every acknowledgement of `q`, pending or on the network, has the number and time of one data frame that
      `p` has emitted. */
  ghost predicate Echoes(conv: u32, p: Peer, q: Peer) {
    && (forall a :: a in q.k.rcv.acks ==> Emitted(conv, p.net, a.sn, a.ts))
    && (forall d, f :: d in q.net && f in Parse(conv, d.data).frames && f.cmd == ACK ==>
          Emitted(conv, p.net, f.sn, f.ts))
  }

  lemma SenderEchoes(conv: u32, p: Peer, q: Peer, op: Op)
    requires p.k.conf.mss > 0 && Echoes(conv, p, q)
    ensures Echoes(conv, Act(p, op), q)
  {
    assert p.net <= Act(p, op).net;
    hide Act, Emitted;
    forall a | a in q.k.rcv.acks
      ensures Emitted(conv, Act(p, op).net, a.sn, a.ts)
    {
      EmittedGrows(conv, p.net, Act(p, op).net, a.sn, a.ts);
    }
    forall d, f | d in q.net && f in Parse(conv, d.data).frames && f.cmd == ACK
      ensures Emitted(conv, Act(p, op).net, f.sn, f.ts)
    {
      EmittedGrows(conv, p.net, Act(p, op).net, f.sn, f.ts);
    }
  }

  lemma FlushEchoes(p: Peer, q: Peer, op: Op)
    requires Ok(q.k) && Flushes(q.k, op) && Echoes(q.k.conf.conv, p, q)
    ensures Echoes(q.k.conf.conv, p, Act(q, op))
  {
    var conv, k, q' := q.k.conf.conv, Flushed(q.k, op), Act(q, op);
    FlushAct(q, op);
    FlushStep(q.k, op);
    assert q'.k.rcv.acks == [] && k.rcv.acks == q.k.rcv.acks;
    hide Ok, Emitted, FlushState, FlushFrames, Parse, Flushed, Flushes;
    forall d, f | d in q'.net && f in Parse(conv, d.data).frames && f.cmd == ACK
      ensures Emitted(conv, p.net, f.sn, f.ts)
    {
      if d !in q.net {
        assert d.data in Emits(q.k, op);
        EmitsFrames(q.k, op, d.data, f);
        AckOfPending(k, f);
      }
    }
  }

  lemma CountsControl(k: Block)
    ensures ControlCount(k) == |k.rcv.acks| + (if Asks(k) then 1 else 0) + (if k.probe.askTell then 1 else 0)
  {
  }

  /** An acknowledgement of a flush is a pending one. */
  lemma AckOfPending(k: Block, f: Frame)
    requires Ok(k) && f in FlushFrames(k) && f.cmd == ACK
    ensures Ack(f.sn, f.ts) in k.rcv.acks
  {
    hide Ok, FlushFrames, Asks, ControlCount;
    FlushOrder(k);
    CountsControl(k);
    var i :| 0 <= i < |FlushFrames(k)| && FlushFrames(k)[i] == f;
    if i < |k.rcv.acks| {
      assert k.rcv.acks[i] in k.rcv.acks;
    }
  }

  lemma InputEchoes(p: Peer, q: Peer, op: Op)
    requires Ok(q.k) && op.DoInput? && Legal(op, q, p) && p.k.conf.conv == q.k.conf.conv
    requires Echoes(q.k.conf.conv, p, q)
    ensures Echoes(q.k.conf.conv, p, Act(q, op))
  {
    var conv := q.k.conf.conv;
    var d :| d in p.net && d.data == op.data && Young(d, p, q);
    var fs := Parse(conv, d.data).frames;
    OtherStep(q.k, op);
    assert q.k.rcv.wnd <= 0xffff && Act(q, op).net == q.net;
    hide Ok, Emitted, Parse, TakeFrames, Young, Legal, Emits;
    forall a | a in Act(q, op).k.rcv.acks
      ensures Emitted(conv, p.net, a.sn, a.ts)
    {
      if a !in q.k.rcv.acks {
        FramesNoted(q.k, fs, a);
        assert Emitted(conv, p.net, a.sn, a.ts) by {
          NotedEmitted(conv, p.net, d, a);
        }
      }
    }
  }

  lemma NotedEmitted(conv: u32, net: set<Packet>, d: Packet, a: Ack)
    requires d in net && exists f :: f in Parse(conv, d.data).frames && f.cmd == PUSH && a == Ack(f.sn, f.ts)
    ensures Emitted(conv, net, a.sn, a.ts)
  {
  }

  lemma OtherEchoes(p: Peer, q: Peer, op: Op)
    requires Ok(q.k) && !op.DoInput? && !Flushes(q.k, op) && Echoes(q.k.conf.conv, p, q)
    ensures Echoes(q.k.conf.conv, p, Act(q, op))
  {
    OtherStep(q.k, op);
    if op.DoRecv? {
      var r := q.k.rcv;
      DrainKeepsAcks(r.(queue := r.queue[if op.peek then 0 else Fragments.MessageEnd(Pieces(r.queue))..]));
    }
    assert Act(q, op).k.rcv.acks == q.k.rcv.acks;
    assert Act(q, op).net == q.net;
    hide Act, Emitted, Parse;
  }

  lemma ReceiverEchoes(p: Peer, q: Peer, op: Op)
    requires Ok(q.k) && Legal(op, q, p) && p.k.conf.conv == q.k.conf.conv && Echoes(q.k.conf.conv, p, q)
    ensures Echoes(q.k.conf.conv, p, Act(q, op))
  {
    hide *;
    if Flushes(q.k, op) {
      FlushEchoes(p, q, op);
    } else if op.DoInput? {
      InputEchoes(p, q, op);
    } else {
      OtherEchoes(p, q, op);
    }
  }

  lemma FreshEchoes(conv: u32, p: Peer, q: Peer)
    requires FreshPeer(q)
    ensures Echoes(conv, p, q)
  {
  }

  ghost predicate BothEcho(conv: u32, n: Pair) {
    Echoes(conv, n.left, n.right) && Echoes(conv, n.right, n.left)
  }

  lemma DoEchoes(conv: u32, m: Pair, e: Event)
    requires Usable(m) && Inv(m) && LegalEvent(m, e) && m.left.k.conf.conv == conv && BothEcho(conv, m)
    ensures BothEcho(conv, Do(m, e))
  {
    var (p, q) := Ends(m, e.side);
    assert Connected(p, q) && Legal(e.op, p, q) && p.k.conf.conv == q.k.conf.conv == conv;
    assert Ends(Do(m, e), e.side) == (Act(p, e.op), q);
    assert Echoes(conv, p, q) && Echoes(conv, q, p);
    ConnectedOk(p, q);
    assert p.k.conf.mss > 0;
    hide Connected, Ok, Legal, Act, Echoes;
    SenderEchoes(conv, p, q, e.op);
    ReceiverEchoes(q, p, e.op);
  }

  /** In every reachable state, across loss, repetition and any retransmissions, every acknowledgement has the
      number and the time of one data frame that the other end has emitted. */
  lemma {:induction false} EchoOverRuns(n: Pair, es: seq<Event>)
    requires Connection.Reached(n, es)
    ensures BothEcho(n.left.k.conf.conv, Run(n, es))
  {
    if es == [] {
      FreshEchoes(n.left.k.conf.conv, n.left, n.right);
      FreshEchoes(n.left.k.conf.conv, n.right, n.left);
    } else {
      var front := es[..|es| - 1];
      EchoOverRuns(n, front);
      RunInv(n, front);
      RunKeepsConv(n, front);
      hide BothEcho, Inv;
      DoEchoes(n.left.k.conf.conv, Run(n, front), es[|es| - 1]);
    }
  }

  // ---- the round trip ----

  /** A young data frame below the end of the receiver's window is pending acknowledgement after its input. */
  lemma FrameIsAcked(p: Peer, q: Peer, d: Packet, f: Frame)
    requires Ok(q.k) && Linked(p, q) && OVERHEAD <= |d.data| < 0x8000_0000 && |p.log| - d.log <= LIFETIME
    requires d in p.net && f in Parse(p.k.conf.conv, d.data).frames && f.cmd == PUSH
    requires Index(d.log, f.sn) < q.rcvd + q.k.rcv.wnd
    ensures Ack(f.sn, f.ts) in Input(q.k, d.data).0.rcv.acks
  {
    LinkedFrames(p, q, d);
    LinkedSpread(p, q);
    assert RecvSide(p.log, Now(q)) && AcksHeld(q.told.n, Now(q)) && q.k.conf.conv == p.k.conf.conv;
    assert q.k.conf.mss > 0;
    hide *;
    PushIsAcked(q.k, Parse(q.k.conf.conv, d.data).frames, p.log, q.told.n, q.rcvd, d, f);
    InputUna(q.k, d.data);
  }

  /** A flush of a receiver with a pending acknowledgement: some datagram of it returns the pair. */
  lemma PairReturns(q: Peer, a: Ack) returns (d: Packet, f: Frame)
    requires Ok(q.k) && q.k.timer.updated && a in q.k.rcv.acks
    ensures Flushes(q.k, DoFlush) && Flushed(q.k, DoFlush) == q.k
    ensures d in Act(q, DoFlush).net && d.log == |Act(q, DoFlush).log| && d.rcvd == Act(q, DoFlush).rcvd
    ensures OVERHEAD <= |d.data| < 0x8000_0000
    ensures f in Parse(q.k.conf.conv, d.data).frames && f.cmd == ACK && f.sn == a.sn && f.ts == a.ts
  {
    FlushOrder(q.k);
    hide Ok, FlushFrames, Asks, Act, Parse;
    var i :| 0 <= i < |q.k.rcv.acks| && q.k.rcv.acks[i] == a;
    f := FlushFrames(q.k)[i];
    d := FlushedOnNet(q, DoFlush, f);
  }

  /** Whoever reads the datagram at time `t'` gives its estimator the sample `t' - t`. */
  ghost predicate Measures(conv: u32, d: seq<byte>, t: nat) {
    forall k: Block, t': nat ::
      k.conf.mss > 0 && k.conf.conv == conv && k.timer.current == ToU32(t') && t <= t' < t + 0x8000_0000 ==>
        exists xs: seq<i32> :: t' - t in xs && Input(k, d).0.rtt == Samples(k.rtt, xs, k.conf.interval, k.conf.minRto)
  }

  lemma AckMeasures(conv: u32, d: seq<byte>, f: Frame, t: nat)
    requires OVERHEAD <= |d| < 0x8000_0000 && f in Parse(conv, d).frames && f.cmd == ACK && f.ts == ToU32(t)
    ensures Measures(conv, d, t)
  {
    hide Input, Samples, Parse;
    forall k: Block, t': nat |
      k.conf.mss > 0 && k.conf.conv == conv && k.timer.current == ToU32(t') && t <= t' < t + 0x8000_0000
      ensures exists xs: seq<i32> ::
        t' - t in xs && Input(k, d).0.rtt == Samples(k.rtt, xs, k.conf.interval, k.conf.minRto)
    {
      Elapsed(t', t);
      Inputs.InputSamples(k, d);
      Inputs.RoundTripMember(k.timer.current, Parse(conv, d).frames, f);
      assert t' - t in Inputs.RoundTrips(k.timer.current, Parse(conv, d).frames);
    }
  }

  lemma Elapsed(t': nat, t: nat)
    requires t <= t' < t + 0x8000_0000
    ensures Sub32(ToU32(t'), ToU32(t)) == t' - t && Flushing.Reached(ToU32(t'), ToU32(t))
  {
  }

  /** The round trip of a segment. In every reachable state: a flush at time `t` emits a data frame below the end
      of the peer's window; the peer reads a datagram with it and flushes; then some datagram of that flush is
      on the network which, read at any later time `t'`, gives the estimator the sample `t' - t`. */
  lemma RoundTripMeasured(n: Pair, es: seq<Event>, side: Side, op: Op, f: Frame, t: nat)
    returns (d: Packet, d2: Packet)
    requires Connection.Reached(n, es)
    requires var (p, q) := Ends(Run(n, es), side);
      && Flushes(p.k, op) && Flushed(p.k, op).timer.current == ToU32(t) && q.k.timer.updated
      && f in FlushFrames(Flushed(p.k, op)) && f.cmd == PUSH && p.k.conf.mss > 0
      && Index(|Act(p, op).log|, f.sn) < q.rcvd + q.k.rcv.wnd
    ensures var (p, q) := Ends(Run(n, es), side);
      && Legal(op, p, q) && q.k.conf.mss > 0 && d in Act(p, op).net && Legal(DoInput(d.data), q, Act(p, op))
      && Act(q, DoInput(d.data)).k.conf.mss > 0
      && d2 in Act(Act(q, DoInput(d.data)), DoFlush).net && Measures(p.k.conf.conv, d2.data, t)
  {
    var (p, q) := Ends(Run(n, es), side);
    AtConnected(n, es, side, p, q);
    hide *;
    FlushNext(p, q, op);
    ConnectedOk(p, q);
    StampedAt(p, op, f, t);
    var p1 := Act(p, op);
    d := FlushedOnNet(p, op, f);
    InputNext(p1, q, d);
    ConnectedLinked(p1, q);
    SameMoment(p1, d);
    FrameIsAcked(p1, q, d, f);
    var q1 := Act(q, DoInput(d.data));
    InputAct(q, d.data);
    ConnectedOk(q1, p1);
    var f2;
    d2, f2 := PairReturns(q1, Ack(f.sn, f.ts));
    AckMeasures(p.k.conf.conv, d2.data, f2, t);
  }

  lemma SameMoment(p: Peer, d: Packet)
    requires d.log == |p.log|
    ensures |p.log| - d.log <= LIFETIME
  {
  }

  lemma StampedAt(p: Peer, op: Op, f: Frame, t: nat)
    requires Ok(p.k) && Flushes(p.k, op) && f in FlushFrames(Flushed(p.k, op)) && f.cmd == PUSH
    requires Flushed(p.k, op).timer.current == ToU32(t)
    ensures f.ts == ToU32(t)
  {
    assert Ok(Flushed(p.k, op));
    FlushAnnounces(Flushed(p.k, op), f);
  }
}
