/** Recovery in further events of a run: from every reachable state a retransmission and its
    acknowledgement move the window on, and one probe opens a closed window again. */
module Recovery {
  import opened Words
  import opened Wire
  import opened Senders
  import opened Transmission
  import opened Receivers
  import opened Control
  import opened Link
  import opened Network
  import opened Connection
  import opened Progress
  import Runs
  import Seqs

  function Other(side: Side): Side {
    if side == Left then Right else Left
  }

  lemma ConnectedSpread(p: Peer, q: Peer)
    requires Connected(p, q)
    ensures q.told.n <= q.rcvd <= |p.log| <= q.told.n + 0x1_fffe
  {
    LinkedSpread(p, q);
  }

  lemma ConnectedNext(p: Peer, q: Peer, op: Op)
    requires Connected(p, q) && Legal(op, p, q)
    ensures Act(p, op).k.conf.mss > 0 && Connected(Act(p, op), q)
  {
    StepOk(p.k, op);
    DirectionSender(p, q, op);
    DirectionReceiver(q, p, op);
  }

  /** The run has come to these two ends, seen from one side. */
  ghost predicate At(n: Pair, es: seq<Event>, side: Side, p: Peer, q: Peer) {
    Reached(n, es) && Ends(Run(n, es), side) == (p, q)
  }

  lemma AtConnected(n: Pair, es: seq<Event>, side: Side, p: Peer, q: Peer)
    requires Reached(n, es) && Ends(Run(n, es), side) == (p, q)
    ensures At(n, es, side, p, q) && Connected(p, q)
  {
    ReachedConnected(n, es, side);
  }

  lemma AtNext(n: Pair, es: seq<Event>, side: Side, p: Peer, q: Peer, op: Op)
    requires At(n, es, side, p, q) && Legal(op, p, q)
    ensures p.k.conf.mss > 0 && At(n, es + [Event(side, op)], side, Act(p, op), q)
  {
    Seqs.TakeAppend(es, [Event(side, op)]);
  }

  lemma AtOther(n: Pair, es: seq<Event>, side: Side, p: Peer, q: Peer)
    requires At(n, es, side, p, q)
    ensures At(n, es, Other(side), q, p)
  {
  }

  /** What one end has just flushed is young: the other end may receive it at once. */
  lemma JustFlushedYoung(p: Peer, q: Peer, d: Packet)
    requires Connected(p, q) && d in p.net && d.log == |p.log| && d.rcvd == p.rcvd
    ensures Legal(DoInput(d.data), q, p)
  {
    ConnectedSpread(q, p);
    assert Young(d, p, q);
  }

  /** A flush in which the oldest segment is due sends it once more. */
  lemma OldestSent(p: Peer, op: Op) returns (f: Frame)
    requires Ok(p.k) && Flushes(p.k, op) && p.k.snd.buf != []
    requires !Why(p.k.snd.buf[0], FlushContext(Flushed(p.k, op))).Idle?
    ensures f in FlushFrames(Flushed(p.k, op)) && f.cmd == PUSH && f.sn == p.k.snd.una
  {
    var k := Flushed(p.k, op);
    var c := FlushContext(k);
    assert Ok(k) && k.snd == p.k.snd;
    var n := AdmitFills(k.snd, FlushWindow(k), c);
    var g := k.snd.buf[0];
    assert Admitted(k).buf[0] == g && g in Admitted(k).buf;
    f := Sent(g, c).frame;
    SentKeepsIdentity(g, c);
    assert Pushes(k.conf.conv, k.conf.mss, g.frame);
    EmittedFrom(Admitted(k).buf, c, f);
  }

  lemma FlushKeepsUna(p: Peer, op: Op)
    requires Ok(p.k) && Flushes(p.k, op) && SendSide(p.log, p.k.snd)
    ensures var p' := Act(p, op);
      && p'.k.snd.una == p.k.snd.una && Una(p'.log, p'.k.snd) == Una(p.log, p.k.snd)
      && |p'.k.snd.buf| >= |p.k.snd.buf|
  {
    var k := Flushed(p.k, op);
    FlushAct(p, op);
    var n := AdmitFills(k.snd, FlushWindow(k), FlushContext(k));
    assert Assigns(p.k, op) == k.snd.queue[..n];
  }

  lemma AdvancedUna(p: Peer, p': Peer)
    requires Advanced(p.k.snd, p'.k.snd) && p'.k.snd.nxt == p.k.snd.nxt && |p'.log| == |p.log|
    ensures Una(p.log, p.k.snd) < Una(p'.log, p'.k.snd)
  {
  }

  lemma InputAct(p: Peer, d: seq<byte>)
    requires Ok(p.k)
    ensures var p' := Act(p, DoInput(d));
      && p'.k == Input(p.k, d).0 && p'.log == p.log && p'.net == p.net
      && p'.k.snd.nxt == p.k.snd.nxt && p'.k.timer == p.k.timer && p'.k.conf == p.k.conf
  {
    OtherStep(p.k, DoInput(d));
    Runs.InputForward(p.k, d);
    InputKeepsTimer(p.k, d);
    Seqs.AppendNone(p.log);
  }

  /** A flush of one end, told to the other. */
  lemma InputNext(p: Peer, q: Peer, d: Packet)
    requires Connected(p, q) && d in p.net && d.log == |p.log| && d.rcvd == p.rcvd && q.k.timer.updated
    ensures Legal(DoInput(d.data), q, p) && Act(q, DoInput(d.data)).k.conf.mss > 0
    ensures var q1 := Act(q, DoInput(d.data));
      && Connected(q1, p) && Flushes(q1.k, DoFlush) && Flushed(q1.k, DoFlush) == q1.k
      && q1.k.conf.conv == p.k.conf.conv
  {
    JustFlushedYoung(p, q, d);
    ConnectedNext(q, p, DoInput(d.data));
    InputAct(q, d.data);
    assert q.k.conf.conv == p.k.conf.conv;
  }

  /** The data half of the round: the receiver takes the retransmitted segment and acknowledges it. */
  lemma AckedByPeer(p: Peer, q: Peer, d: Packet, f: Frame) returns (q2: Peer, d2: Packet, f2: Frame)
    requires Connected(p, q) && d in p.net && d.log == |p.log| && d.rcvd == p.rcvd
    requires p.k.snd.buf != [] && |q.k.rcv.queue| < q.k.rcv.wnd && q.k.timer.updated
    requires f in Parse(p.k.conf.conv, d.data).frames && f.cmd == PUSH && f.sn == p.k.snd.una
    ensures Legal(DoInput(d.data), q, p) && Act(q, DoInput(d.data)).k.conf.mss > 0
    ensures q2 == Act(Act(q, DoInput(d.data)), DoFlush) && Connected(p, q2)
    ensures d2 in q2.net && d2.log == |q2.log| && d2.rcvd == q2.rcvd
    ensures OVERHEAD <= |d2.data| < 0x8000_0000
    ensures f2 in Parse(p.k.conf.conv, d2.data).frames && f2.cmd == ACK && f2.sn == p.k.snd.una
  {
    InputNext(p, q, d);
    var q1 := Act(q, DoInput(d.data));
    ConnectedLinked(p, q);
    hide *;
    InputAct(q, d.data);
    OldestIsAcked(p, q, d, f);
    FlushNext(q1, p, DoFlush);
    q2 := Act(q1, DoFlush);
    f2 := PendingAck(q1.k, Ack(f.sn, f.ts));
    d2 := FlushedOnNet(q1, DoFlush, f2);
    ConnectedSwap(q2, p);
  }

  lemma ConnectedLinked(p: Peer, q: Peer)
    requires Connected(p, q)
    ensures Ok(p.k) && Ok(q.k) && Linked(p, q) && Short(p.net)
  {
  }

  lemma ConnectedSwap(p: Peer, q: Peer)
    requires Connected(p, q)
    ensures Connected(q, p)
  {
  }

  lemma PendingAck(k: Block, a: Ack) returns (f: Frame)
    requires a in k.rcv.acks
    ensures f in FlushFrames(k) && f.cmd == ACK && f.sn == a.sn
  {
    f := AckFrame(FlushContext(k), ACK, a);
    var i :| 0 <= i < |k.rcv.acks| && k.rcv.acks[i] == a;
    assert AckFrames(FlushContext(k), k.rcv.acks)[i] == f;
  }

  lemma FlushNext(p: Peer, q: Peer, op: Op)
    requires Connected(p, q) && Flushes(p.k, op)
    ensures Ok(p.k) && SendSide(p.log, p.k.snd) && Legal(op, p, q)
    ensures Act(p, op).k.conf.mss > 0 && Act(p, op).k.conf.conv == p.k.conf.conv && Connected(Act(p, op), q)
  {
    assert Legal(op, p, q);
    StepKeepsConv(p.k, op);
    ConnectedNext(p, q, op);
  }

  /** The round of `Recovers` between two connected ends. */
  lemma RecoveryRound(p: Peer, q: Peer, op: Op) returns (d: Packet, q2: Peer, d2: Packet)
    requires Connected(p, q) && p.k.snd.buf != [] && |q.k.rcv.queue| < q.k.rcv.wnd && q.k.timer.updated
    requires Flushes(p.k, op) && !Why(p.k.snd.buf[0], FlushContext(Flushed(p.k, op))).Idle?
    ensures p.k.conf.mss > 0 && q.k.conf.mss > 0
    ensures var p1 := Act(p, op);
      && Legal(op, p, q) && p1.k.conf.mss > 0
      && Legal(DoInput(d.data), q, p1) && Act(q, DoInput(d.data)).k.conf.mss > 0
      && q2 == Act(Act(q, DoInput(d.data)), DoFlush)
      && Legal(DoInput(d2.data), p1, q2)
      && Una(p.log, p.k.snd) < Una(Act(p1, DoInput(d2.data)).log, Act(p1, DoInput(d2.data)).k.snd)
  {
    FlushNext(p, q, op);
    ConnectedOk(p, q);
    hide *;
    var p1 := Act(p, op);
    FlushKeepsUna(p, op);
    var f := OldestSent(p, op);
    d := FlushedOnNet(p, op, f);
    var f2;
    q2, d2, f2 := AckedByPeer(p1, q, d, f);
    ConnectedOk(p1, q2);
    ConnectedSwap(p1, q2);
    JustFlushedYoung(q2, p1, d2);
    AckAdvances(p1.k, d2.data, f2);
    InputAct(p1, d2.data);
    AdvancedUna(p1, Act(p1, DoInput(d2.data)));
  }

  /** Recovery from any loss. In every reachable state with something outstanding and room at the peer,
      any flush for which the oldest segment is due starts four events, all of them possible, after
      which `snd_una` stands strictly further on: the flush, the delivery of a datagram that it has
      just emitted, a flush of the peer, and the delivery of a datagram of that one. */
  lemma RecoversWhenDue(n: Pair, es: seq<Event>, side: Side, op: Op) returns (more: seq<Event>)
    requires Reached(n, es)
    requires var (p, q) := Ends(Run(n, es), side);
      && p.k.snd.buf != [] && |q.k.rcv.queue| < q.k.rcv.wnd && q.k.timer.updated
      && Flushes(p.k, op) && !Why(p.k.snd.buf[0], FlushContext(Flushed(p.k, op))).Idle?
    ensures |more| == 4 && more[0] == Event(side, op) && Reached(n, es + more) && Quiet(more)
    ensures var p, p' := Ends(Run(n, es), side).0, Ends(Run(n, es + more), side).0;
      Una(p.log, p.k.snd) < Una(p'.log, p'.k.snd)
  {
    var (p, q) := Ends(Run(n, es), side);
    AtConnected(n, es, side, p, q);
    hide *;
    var d, q2, d2 := RecoveryRound(p, q, op);
    more := Round(side, op, d, d2);
    RoundStarts(p.k, side, op, d, d2);
    FourEvents(n, es, side, p, q, op, d, d2);
    AtReached(n, es + more, side, Act(Act(p, op), DoInput(d2.data)), q2);
  }

  /** For every time that something waits for there is a clock value at which an update flushes and that
      time has come: the time itself, or the time of the next flush. */
  lemma FlushTime(t: Timer, interval: u32, due: u32) returns (current: u32)
    requires t.updated
    ensures Tick(t, interval, current).1 && Tick(t, interval, current).0.current == current
    ensures TimeDiff(current, due) >= 0
  {
    current := if Tick(t, interval, due).1 then due else t.flushAt;
  }

  /** The same without a condition on the time: in every reachable state with something outstanding and room
      at the peer some update starts four such events. */
  lemma Recovers(n: Pair, es: seq<Event>, side: Side) returns (more: seq<Event>)
    requires Reached(n, es)
    requires var (p, q) := Ends(Run(n, es), side);
      p.k.snd.buf != [] && |q.k.rcv.queue| < q.k.rcv.wnd && p.k.timer.updated && q.k.timer.updated
    ensures |more| == 4 && more[0].side == side && more[0].op.DoUpdate? && Reached(n, es + more) && Quiet(more)
    ensures var p, p' := Ends(Run(n, es), side).0, Ends(Run(n, es + more), side).0;
      Una(p.log, p.k.snd) < Una(p'.log, p'.k.snd)
  {
    var k := Ends(Run(n, es), side).0.k;
    var current := FlushTime(k.timer, k.conf.interval, k.snd.buf[0].resendts);
    more := RecoversWhenDue(n, es, side, DoUpdate(current));
  }

  lemma AtReached(n: Pair, es: seq<Event>, side: Side, p: Peer, q: Peer)
    requires At(n, es, side, p, q)
    ensures Reached(n, es) && Ends(Run(n, es), side) == (p, q)
  {
  }

  lemma ConnectedOk(p: Peer, q: Peer)
    requires Connected(p, q)
    ensures Ok(p.k) && Ok(q.k)
  {
  }

  /** A flush, the delivery of a datagram to the peer, a flush there, and a delivery back. */
  function Round(side: Side, op: Op, d: Packet, d2: Packet): seq<Event> {
    [Event(side, op), Event(Other(side), DoInput(d.data)), Event(Other(side), DoFlush), Event(side, DoInput(d2.data))]
  }

  /** No new data is accepted. */
  predicate Quiet(es: seq<Event>) {
    forall e :: e in es ==> !e.op.DoSend?
  }

  lemma RoundStarts(k: Block, side: Side, op: Op, d: Packet, d2: Packet)
    requires Flushes(k, op)
    ensures |Round(side, op, d, d2)| == 4 && Round(side, op, d, d2)[0] == Event(side, op)
    ensures Quiet(Round(side, op, d, d2))
  {
  }

  lemma QuietNext(es: seq<Event>, e: Event)
    requires Quiet(es) && !e.op.DoSend?
    ensures Quiet(es + [e])
  {
  }

  lemma RoundThenFlush(k: Block, es: seq<Event>, side: Side, op: Op, d: Packet, d2: Packet)
    returns (more: seq<Event>)
    requires Flushes(k, op)
    ensures |more| == 5 && more[0] == Event(side, op) && Quiet(more)
    ensures es + more == (es + Round(side, op, d, d2)) + [Event(side, DoFlush)]
  {
    more := Round(side, op, d, d2) + [Event(side, DoFlush)];
    hide *;
    RoundStarts(k, side, op, d, d2);
    QuietNext(Round(side, op, d, d2), Event(side, DoFlush));
  }

  lemma FlushIsLegal(p: Peer, q: Peer)
    ensures Legal(DoFlush, p, q)
  {
  }

  lemma RoundSteps(es: seq<Event>, side: Side, op: Op, d: Packet, d2: Packet)
    ensures es + Round(side, op, d, d2)
         == es + [Event(side, op)] + [Event(Other(side), DoInput(d.data))] + [Event(Other(side), DoFlush)]
            + [Event(side, DoInput(d2.data))]
  {
  }

  lemma FourEvents(n: Pair, es: seq<Event>, side: Side, p: Peer, q: Peer, op: Op, d: Packet, d2: Packet)
    requires At(n, es, side, p, q)
    requires Legal(op, p, q) && p.k.conf.mss > 0 && Act(p, op).k.conf.mss > 0
    requires Legal(DoInput(d.data), q, Act(p, op)) && q.k.conf.mss > 0 && Act(q, DoInput(d.data)).k.conf.mss > 0
    requires Legal(DoInput(d2.data), Act(p, op), Act(Act(q, DoInput(d.data)), DoFlush))
    ensures At(n, es + Round(side, op, d, d2), side,
               Act(Act(p, op), DoInput(d2.data)), Act(Act(q, DoInput(d.data)), DoFlush))
  {
    var e1, e2 := Event(side, op), Event(Other(side), DoInput(d.data));
    var e3, e4 := Event(Other(side), DoFlush), Event(side, DoInput(d2.data));
    var p1, q1 := Act(p, op), Act(q, DoInput(d.data));
    RoundSteps(es, side, op, d, d2);
    assert Legal(DoFlush, q1, p1) && Other(Other(side)) == side;
    hide *;
    AtNext(n, es, side, p, q, op);
    AtOther(n, es + [e1], side, p1, q);
    AtNext(n, es + [e1], Other(side), q, p1, DoInput(d.data));
    AtNext(n, es + [e1] + [e2], Other(side), q1, p1, DoFlush);
    AtOther(n, es + [e1] + [e2] + [e3], Other(side), Act(q1, DoFlush), p1);
    AtNext(n, es + [e1] + [e2] + [e3], side, p1, Act(q1, DoFlush), DoInput(d2.data));
  }

  // ---- a closed window ----

  /** The peer has closed its window, nothing is outstanding, and something waits to be numbered. */
  predicate Closed(k: Block) {
    k.snd.buf == [] && k.snd.queue != [] && k.win.rmt == 0
  }

  /** The time to ask has come. */
  predicate ProbeDue(k: Block) {
    k.probe.wait > 0 && TimeDiff(k.timer.current, k.probe.at) >= 0
  }

  lemma ClosedAdmitsNone(k: Block)
    requires Ok(k) && Closed(k)
    ensures Admitted(k) == k.snd && FlushWindow(k) == 0
  {
  }

  /** A flush behind a closed window asks once the time has come, and sends no data. */
  lemma ClosedAsks(k: Block) returns (f: Frame)
    requires Ok(k) && Closed(k) && ProbeDue(k)
    ensures f in FlushFrames(k) && f.cmd == WASK
    ensures forall g :: g in FlushFrames(k) ==> g.cmd != PUSH
    ensures Closed(FlushState(k)) && FlushState(k).win.cwnd >= 1
  {
    var c := FlushContext(k);
    ClosedAdmitsNone(k);
    var last := if k.rcv.acks == [] then Ack(0, 0) else k.rcv.acks[|k.rcv.acks| - 1];
    f := AckFrame(c, WASK, last);
    var asked := Probing(k.probe, k.win.rmt, k.timer.current);
    assert asked.askSend;
    assert f in ProbeFrames(c, asked, k.rcv.acks);
    assert Emitted(Admitted(k).buf, c) == [];
    forall g | g in FlushFrames(k)
      ensures g.cmd != PUSH
    {
      if g in AckFrames(c, k.rcv.acks) {
        var i :| 0 <= i < |k.rcv.acks| && g == AckFrames(c, k.rcv.acks)[i];
      } else {
        assert g in ProbeFrames(c, asked, k.rcv.acks);
      }
    }
  }

  lemma {:induction false} TakeFramesAsked(k: Block, fs: seq<Frame>)
    requires k.probe.askTell || exists f :: f in fs && f.cmd == WASK
    ensures TakeFrames(k, fs).probe.askTell
  {
    if fs == [] {
    } else {
      Seqs.SplitLast(fs);
      if fs[|fs| - 1].cmd != WASK {
        TakeFramesAsked(k, fs[..|fs| - 1]);
      }
    }
  }

  lemma {:induction false} TakeFramesNoData(k: Block, fs: seq<Frame>)
    requires forall f :: f in fs ==> f.cmd != PUSH
    ensures TakeFrames(k, fs).rcv == k.rcv
  {
    if fs == [] {
    } else {
      TakeFramesNoData(k, fs[..|fs| - 1]);
      assert fs[|fs| - 1] in fs;
    }
  }

  /** A datagram that asks for the window is answered, and without data nothing else is received. */
  lemma AskedInput(k: Block, d: seq<byte>, f: Frame)
    requires Ok(k) && OVERHEAD <= |d| < 0x8000_0000 && f in Parse(k.conf.conv, d).frames && f.cmd == WASK
    requires forall g :: g in Parse(k.conf.conv, d).frames ==> g.cmd != PUSH
    ensures Input(k, d).0.probe.askTell && Input(k, d).0.rcv == k.rcv
  {
    hide TakeFrames, Parse, NewestOf, Ok;
    TakeFramesAsked(k, Parse(k.conf.conv, d).frames);
    TakeFramesNoData(k, Parse(k.conf.conv, d).frames);
  }

  /** The answer, and whatever goes with it, announces the room in the queue. */
  lemma AnswerTellsRoom(k: Block) returns (f: Frame)
    requires Ok(k) && k.probe.askTell && |k.rcv.queue| < k.rcv.wnd
    ensures f in FlushFrames(k) && f.cmd == WINS
    ensures forall g :: g in FlushFrames(k) ==> g.wnd == k.rcv.wnd - |k.rcv.queue| > 0
  {
    var c := FlushContext(k);
    var last := if k.rcv.acks == [] then Ack(0, 0) else k.rcv.acks[|k.rcv.acks| - 1];
    f := AckFrame(c, WINS, last);
    var probe := Probing(k.probe, k.win.rmt, k.timer.current);
    assert f in ProbeFrames(c, probe, k.rcv.acks);
    UnusedRoom(k.rcv);
    forall g | g in FlushFrames(k)
      ensures g.wnd == c.wnd
    {
      FlushFrameKinds(k, g);
      if g in Emitted(Admitted(k).buf, c) {
        EmittedStamps(Admitted(k).buf, c, g);
      }
    }
  }

  lemma {:induction false} TakeFramesRoom(k: Block, fs: seq<Frame>)
    requires fs != []
    ensures TakeFrames(k, fs).win == k.win.(rmt := fs[|fs| - 1].wnd)
  {
    if |fs| == 1 {
      assert fs[..0] == [];
    } else {
      TakeFramesRoom(k, fs[..|fs| - 1]);
    }
  }

  lemma IdleFrames(k: Block, fs: seq<Frame>)
    requires Ok(k) && k.snd.buf == []
    ensures TakeFrames(k, fs).snd == k.snd && TakeFrames(k, fs).conf == k.conf
  {
    TakeFramesAcked(k, fs);
    TakeFramesConf(k, fs);
    Seqs.HasMember(TakeFrames(k, fs).snd.buf);
    hide TakeFrames, Sendable;
  }

  /** With nothing outstanding an input changes the peer's window and no other part of sending. */
  lemma IdleInput(k: Block, d: seq<byte>)
    requires Ok(k) && k.snd.buf == [] && OVERHEAD <= |d| < 0x8000_0000 && Parse(k.conf.conv, d).frames != []
    ensures var k', fs := Input(k, d).0, Parse(k.conf.conv, d).frames;
      k'.snd == k.snd && k'.win == k.win.(rmt := fs[|fs| - 1].wnd)
  {
    assert k.conf.mss > 0;
    hide TakeFrames, Parse, NewestOf, Ok, Conclude;
    var fs := Parse(k.conf.conv, d).frames;
    TakeFramesRoom(k, fs);
    IdleFrames(k, fs);
    IdleConclude(TakeFrames(k, fs), NewestOf(fs), k.snd.una);
  }

  lemma IdleConclude(k: Block, newest: Newest, una: u32)
    requires k.conf.mss > 0 && k.snd.buf == [] && k.snd.una == una
    ensures Conclude(k, newest, una).snd == k.snd && Conclude(k, newest, una).win == k.win
  {
  }

  lemma OpenWindow(k: Block)
    requires Ok(k) && k.snd.buf == [] && k.win.rmt > 0 && k.win.cwnd >= 1
    ensures 1 <= FlushWindow(k) && Span(k.snd) == 0 && Ordered(k.snd)
  {
  }

  lemma OpenTakes(k: Block)
    requires Ok(k) && k.snd.buf == [] && k.snd.queue != [] && k.win.rmt > 0 && k.win.cwnd >= 1
    ensures |FlushState(k).snd.queue| < |k.snd.queue|
  {
    OpenWindow(k);
    assert FlushState(k).snd.queue == Admitted(k).queue;
    hide Ok, Ordered, FlushWindow, Span, Admit, Sendable, FlushContext, Ascending, FlushState;
    var n := AdmitFills(k.snd, FlushWindow(k), FlushContext(k));
  }

  /** Behind an open window with nothing outstanding, a flush numbers a waiting fragment. */
  lemma OpenAdmits(p: Peer)
    requires Ok(p.k) && p.k.timer.updated && p.k.snd.buf == [] && p.k.snd.queue != []
    requires p.k.win.rmt > 0 && p.k.win.cwnd >= 1
    ensures |Act(p, DoFlush).log| > |p.log|
  {
    assert p.k.conf.mss > 0 && Flushed(p.k, DoFlush) == p.k;
    OpenTakes(p.k);
    FlushStep(p.k, DoFlush);
    hide Ok, FlushState, Step, Emits, Flushes;
  }

  /** The first half of reopening: a probe leaves and the peer takes note. */
  lemma ProbeRound(p: Peer, q: Peer, op: Op) returns (d: Packet)
    requires Connected(p, q) && |q.k.rcv.queue| < q.k.rcv.wnd && q.k.timer.updated
    requires Flushes(p.k, op) && Closed(p.k) && ProbeDue(Flushed(p.k, op))
    ensures p.k.conf.mss > 0 && q.k.conf.mss > 0
    ensures var p1 := Act(p, op);
      && Legal(op, p, q) && p1.k.conf.mss > 0 && Connected(p1, q) && |p1.log| >= |p.log|
      && Closed(p1.k) && p1.k.win.cwnd >= 1 && p1.k.timer.updated
      && Legal(DoInput(d.data), q, p1) && Act(q, DoInput(d.data)).k.conf.mss > 0
      && d in p1.net && d.log == |p1.log| && d.rcvd == p1.rcvd
    ensures var q1 := Act(q, DoInput(d.data)); q1.k.probe.askTell && q1.k.rcv == q.k.rcv
  {
    FlushNext(p, q, op);
    FlushAct(p, op);
    ConnectedOk(p, q);
    assert p.k.conf.conv == q.k.conf.conv;
    var k, p1 := Flushed(p.k, op), Act(p, op);
    assert Closed(k) && FlushState(k).timer.updated;
    hide *;
    var f := ClosedAsks(k);
    d := FlushedOnNet(p, op, f);
    InputNext(p1, q, d);
    AskedInput(q.k, d.data, f);
    InputAct(q, d.data);
  }

  /** Every frame of the datagram announces room. */
  ghost predicate Announces(conv: u32, d: Packet) {
    && OVERHEAD <= |d.data| < 0x8000_0000 && Parse(conv, d.data).frames != []
    && forall g :: g in Parse(conv, d.data).frames ==> g.wnd > 0
  }

  lemma AnswerSent(q: Peer) returns (d: Packet)
    requires Ok(q.k) && q.k.probe.askTell && |q.k.rcv.queue| < q.k.rcv.wnd
    requires Flushes(q.k, DoFlush) && Flushed(q.k, DoFlush) == q.k
    ensures var q2 := Act(q, DoFlush); d in q2.net && d.log == |q2.log| && d.rcvd == q2.rcvd
    ensures Announces(q.k.conf.conv, d)
  {
    var f := AnswerTellsRoom(q.k);
    hide Ok, Flushes, Flushed, Act, Parse, FlushFrames;
    d := FlushedOnNet(q, DoFlush, f);
  }

  lemma AnswerTaken(p: Peer, d: Packet)
    requires Ok(p.k) && p.k.snd.buf == [] && Announces(p.k.conf.conv, d)
    ensures var p' := Act(p, DoInput(d.data));
      && p'.k.timer == p.k.timer && p'.k.snd == p.k.snd && p'.log == p.log
      && p'.k.win.rmt > 0 && p'.k.win.cwnd == p.k.win.cwnd
  {
    LastMember(Parse(p.k.conf.conv, d.data).frames);
    hide Ok, Act, Parse, Input;
    InputAct(p, d.data);
    IdleInput(p.k, d.data);
  }

  /** The second half: the peer answers, and the window is open. */
  lemma AnswerRound(p1: Peer, q: Peer, d: Packet) returns (q2: Peer, d2: Packet)
    requires Connected(p1, q) && |q.k.rcv.queue| < q.k.rcv.wnd && q.k.timer.updated
    requires Closed(p1.k) && p1.k.win.cwnd >= 1 && p1.k.timer.updated
    requires d in p1.net && d.log == |p1.log| && d.rcvd == p1.rcvd && q.k.conf.mss > 0
    requires var q1 := Act(q, DoInput(d.data)); q1.k.probe.askTell && q1.k.rcv == q.k.rcv
    ensures Act(q, DoInput(d.data)).k.conf.mss > 0 && q2 == Act(Act(q, DoInput(d.data)), DoFlush)
    ensures p1.k.conf.mss > 0 && Legal(DoInput(d2.data), p1, q2)
    ensures var p2 := Act(p1, DoInput(d2.data));
      && Ok(p2.k) && p2.k.timer.updated && p2.k.snd == p1.k.snd && |p2.log| == |p1.log|
      && p2.k.win.rmt > 0 && p2.k.win.cwnd >= 1
  {
    ClosedWaits(p1.k);
    hide *;
    InputNext(p1, q, d);
    var q1 := Act(q, DoInput(d.data));
    FlushNext(q1, p1, DoFlush);
    ConnectedOk(p1, q);
    q2 := Act(q1, DoFlush);
    d2 := AnswerSent(q1);
    JustFlushedYoung(q2, p1, d2);
    ConnectedSwap(q2, p1);
    ConnectedNext(p1, q2, DoInput(d2.data));
    ConnectedOk(Act(p1, DoInput(d2.data)), q2);
    AnswerTaken(p1, d2);
  }

  lemma LastMember(fs: seq<Frame>)
    ensures fs != [] ==> fs[|fs| - 1] in fs
  {
  }

  /** A closed window opens again. In every reachable state in which the peer's window is closed, nothing
      is outstanding and something waits, while the peer has room in the meantime: any flush for which
      the probe is due starts five events, all of them possible, after which a waiting fragment has
      been numbered: the flush with the probe, its delivery, a flush of the peer, the delivery of its
      answer, and the next flush. */
  lemma WindowReopens(n: Pair, es: seq<Event>, side: Side, op: Op) returns (more: seq<Event>)
    requires Reached(n, es)
    requires var (p, q) := Ends(Run(n, es), side);
      && Closed(p.k) && |q.k.rcv.queue| < q.k.rcv.wnd && q.k.timer.updated
      && Flushes(p.k, op) && ProbeDue(Flushed(p.k, op))
    ensures |more| == 5 && more[0] == Event(side, op) && Reached(n, es + more) && Quiet(more)
    ensures |Ends(Run(n, es), side).0.log| < |Ends(Run(n, es + more), side).0.log|
  {
    var (p, q) := Ends(Run(n, es), side);
    AtConnected(n, es, side, p, q);
    hide *;
    var d := ProbeRound(p, q, op);
    var p1 := Act(p, op);
    var q2, d2 := AnswerRound(p1, q, d);
    var p2 := Act(p1, DoInput(d2.data));
    ClosedWaits(p1.k);
    OpenAdmits(p2);
    FourEvents(n, es, side, p, q, op, d, d2);
    FlushIsLegal(p2, q2);
    AtNext(n, es + Round(side, op, d, d2), side, p2, q2, DoFlush);
    more := RoundThenFlush(p.k, es, side, op, d, d2);
    AtReached(n, es + more, side, Act(p2, DoFlush), q2);
  }

  lemma ClosedWaits(k: Block)
    requires Closed(k)
    ensures k.snd.buf == [] && k.snd.queue != []
  {
  }
}
