/** One message from end to end: a run in which everything that was accepted has been delivered, so that
    the theorems about runs are about something. */
module Exchange {
  import opened Words
  import opened Wire
  import opened Fragments
  import opened Senders
  import opened Transmission
  import opened Receivers
  import opened Congestion
  import opened Control
  import opened Network
  import opened Connection
  import opened Recovery

  /** A created block once its first update has started the clock. */
  function Ticking(conv: u32): Block {
    var k := Create(conv);
    k.(timer := Timer(0, true, INTERVAL), win := Window(WND_RCV, 1, k.conf.mss, THRESH_MIN))
  }

  lemma NothingToSend(mtu: u32)
    ensures Bytes(Datagrams(mtu, [])) == []
  {
  }

  /** The first update flushes, and there is nothing to send. */
  lemma FirstUpdate(conv: u32)
    ensures Update(Create(conv), 0) == (Ticking(conv), []) && Flushes(Create(conv), DoUpdate(0))
  {
    var k := Create(conv).(timer := Timer(0, true, INTERVAL));
    assert Tick(Create(conv).timer, INTERVAL, 0) == (k.timer, true);
    assert Admitted(k) == k.snd;
    assert FlushFrames(k) == [];
    NothingToSend(k.conf.mtu);
    assert FlushState(k) == Ticking(conv);
  }

  /** The block with one message of one fragment in its queue. */
  function Loaded(conv: u32, m: seq<byte>): Block {
    var k := Ticking(conv);
    k.(snd := k.snd.(queue := [Fragment(0, m)]))
  }

  lemma Loads(conv: u32, m: seq<byte>)
    requires |m| <= MTU_DEF - OVERHEAD
    ensures SendBlock(Ticking(conv), m) == (Loaded(conv, m), |m|)
  {
    assert m[0..] == m && m[..|m|] == m;
    assert Split(MTU_DEF - OVERHEAD, false, 1, m) == [Fragment(0, m)];
    assert [] + [Fragment(0, m)] == [Fragment(0, m)];
  }

  /** The one data frame that this exchange needs. */
  function OnlyFrame(conv: u32, m: seq<byte>): Frame {
    Frame(conv, PUSH, 0, WND_RCV, INTERVAL, 0, 0, m)
  }

  lemma OneDatagram(mtu: u32, f: Frame)
    requires Size(f) <= mtu
    ensures Bytes(Datagrams(mtu, [f])) == [EncodeAll([f])]
  {
    var none := Packing([], []);
    assert PackTo(mtu, none, [f], 0) == none;
    assert PackTo(mtu, none, [f], 1) == Pack(mtu, none, f);
    assert [] + [f] == [f];
  }

  lemma OneAdmitted(k: Block, g: Fragment)
    requires k.snd == Sender(0, 0, [g], []) && FlushWindow(k) == 1
    ensures Admitted(k) == Sender(0, 1, [], [Numbered(g, 0, FlushContext(k))])
  {
    var c := FlushContext(k);
    var s := AdmitOne(k.snd, c);
    assert s == Sender(0, 1, [], [Numbered(g, 0, c)]);
    assert Admit(s, 1, c) == s;
  }

  lemma OneEmitted(g: Segment, c: Context)
    requires g.xmit == 0
    ensures Emitted([g], c) == [Sent(g, c).frame]
  {
    assert EmittedTo([g], c, 0) == [];
  }

  lemma LoadedFrames(k: Block, g: Fragment)
    requires k.snd == Sender(0, 0, [g], []) && FlushWindow(k) == 1
    requires k.rcv.acks == [] && k.win.rmt != 0 && !k.probe.askSend && !k.probe.askTell
    ensures FlushFrames(k) == [Sent(Numbered(g, 0, FlushContext(k)), FlushContext(k)).frame]
    ensures FlushState(k).snd.queue == []
  {
    var c := FlushContext(k);
    OneAdmitted(k, g);
    OneEmitted(Numbered(g, 0, c), c);
    hide Admitted, Emitted, FlushContext, FlushWindow, Sent;
    assert AckFrames(c, []) == [];
    assert ProbeFrames(c, Probing(k.probe, k.win.rmt, k.timer.current), []) == [];
  }

  /** The second update flushes the message in one datagram. */
  lemma SecondUpdate(conv: u32, m: seq<byte>)
    requires |m| <= MTU_DEF - OVERHEAD
    ensures Flushes(Loaded(conv, m), DoUpdate(INTERVAL))
    ensures Update(Loaded(conv, m), INTERVAL).1 == [EncodeAll([OnlyFrame(conv, m)])]
  {
    var k := Loaded(conv, m).(timer := Timer(INTERVAL, true, 2 * INTERVAL));
    assert Tick(Loaded(conv, m).timer, INTERVAL, INTERVAL) == (k.timer, true);
    var c := FlushContext(k);
    assert FlushWindow(k) == 1;
    assert Sent(Numbered(Fragment(0, m), 0, c), c).frame == OnlyFrame(conv, m);
    hide FlushWindow, FlushFrames, FlushState, FlushContext, Sent, Numbered, Datagrams, Bytes;
    LoadedFrames(k, Fragment(0, m));
    OneDatagram(k.conf.mtu, OnlyFrame(conv, m));
  }

  lemma OneTaken(k: Block, f: Frame)
    requires f.cmd == PUSH
    ensures TakeFrames(k, [f]).rcv == TakePush(k.rcv, f)
  {
    hide TakePush, TakeUna;
    assert [f][..0] == [];
    assert TakeFrames(k, []) == k;
  }

  /** The receiver has the message at the front of its queue. */
  lemma MessageTaken(conv: u32, m: seq<byte>)
    requires |m| <= MTU_DEF - OVERHEAD
    ensures var r := Input(Create(conv), EncodeAll([OnlyFrame(conv, m)])).0.rcv;
      r.queue != [] && r.queue[0] == OnlyFrame(conv, m)
  {
    var k, f := Create(conv), OnlyFrame(conv, m);
    CreateOk(conv);
    assert Windowed(k.rcv) && |k.rcv.queue| == 0 && f.sn == k.rcv.nxt && k.conf.mss > 0 && k.conf.conv == conv;
    assert f.cmd == PUSH && Carried(conv, f);
    EncodeAllAppend([], f);
    assert [] + [f] == [f] && |EncodeAll([f])| == Size(f);
    hide *;
    RoundTrip(conv, [f]);
    NextIsQueued(k.rcv, f);
    OneTaken(k, f);
    InputUna(k, EncodeAll([f]));
  }

  lemma MessageRead(queue: seq<Frame>, m: seq<byte>)
    requires queue != [] && queue[0].frg == 0 && queue[0].data == m
    ensures ReadFront(queue, |m|) == Read(|m|, m)
  {
    var ps := Pieces(queue);
    assert ps[..1] == [Fragment(0, m)] && [Fragment(0, m)][1..] == [];
    assert Stream([Fragment(0, m)]) == m + Stream([]);
  }

  /** The run: two updates around a send at one end, the delivery of what was sent, and a read. */
  function Exchanged(conv: u32, m: seq<byte>): seq<Event> {
    [Event(Left, DoUpdate(0))] + [Event(Left, DoSend(m))] + [Event(Left, DoUpdate(INTERVAL))]
    + [Event(Right, DoInput(EncodeAll([OnlyFrame(conv, m)])))] + [Event(Right, DoRecv(|m|, false))]
  }

  /** The sender's part of the run. */
  lemma SentByLeft(conv: u32, m: seq<byte>) returns (p: Peer, d: Packet)
    requires |m| <= MTU_DEF - OVERHEAD
    ensures var p1 := Act(Start(Create(conv)), DoUpdate(0));
      && p1.k.conf.mss > 0 && Act(p1, DoSend(m)).k.conf.mss > 0
      && p == Act(Act(p1, DoSend(m)), DoUpdate(INTERVAL)) && p.k.conf.mss > 0
    ensures p.sent == [m] && d in p.net && d.data == EncodeAll([OnlyFrame(conv, m)])
    ensures |p.log| - d.log <= 0 && d.rcvd == 0
  {
    var p0 := Start(Create(conv));
    FirstUpdate(conv);
    var p1 := Act(p0, DoUpdate(0));
    assert p1.k == Ticking(conv) && p1.rcvd == 0 && p1.sent == [];
    Loads(conv, m);
    var p2 := Act(p1, DoSend(m));
    assert m[..|m|] == m;
    assert p2.k == Loaded(conv, m) && p2.rcvd == 0 && p2.sent == [m];
    SecondUpdate(conv, m);
    StepKeepsConv(p2.k, DoUpdate(INTERVAL));
    p := Act(p2, DoUpdate(INTERVAL));
    d := Packet(EncodeAll([OnlyFrame(conv, m)]), |p.log|, p.rcvd);
    assert d.data in Emits(p2.k, DoUpdate(INTERVAL));
    assert p.sent == [m] + [];
    SentKeepsRcvd(p2, DoUpdate(INTERVAL));
  }

  lemma SentKeepsRcvd(p: Peer, op: Op)
    requires p.k.conf.mss > 0 && Flushes(p.k, op)
    ensures Act(p, op).rcvd == p.rcvd
  {
    FlushStep(p.k, op);
  }

  /** The receiver's part. */
  lemma ReadByRight(conv: u32, m: seq<byte>)
    requires |m| <= MTU_DEF - OVERHEAD
    ensures var q1 := Act(Start(Create(conv)), DoInput(EncodeAll([OnlyFrame(conv, m)])));
      q1.k.conf.mss > 0 && Act(q1, DoRecv(|m|, false)).got == [m]
  {
    var q0, d := Start(Create(conv)), EncodeAll([OnlyFrame(conv, m)]);
    MessageTaken(conv, m);
    StepKeepsConv(q0.k, DoInput(d));
    var q1 := Act(q0, DoInput(d));
    MessageRead(q1.k.rcv.queue, m);
    assert q1.got == [] && Delivers(q1.k, DoRecv(|m|, false)) == [m];
  }

  lemma AtStart(conv: u32)
    ensures At(Pair(Start(Create(conv)), Start(Create(conv))), [], Left, Start(Create(conv)), Start(Create(conv)))
    ensures Start(Create(conv)).k.conf.mss > 0
  {
    CreateOk(conv);
  }

  lemma SendingIsLegal(op: Op, p: Peer, q: Peer)
    requires !op.DoInput?
    ensures Legal(op, p, q)
  {
  }

  lemma FirstIsYoung(conv: u32, p: Peer, d: Packet)
    requires d in p.net && |p.log| - d.log <= 0 && d.rcvd == 0
    ensures Legal(DoInput(d.data), Start(Create(conv)), p)
  {
    assert Young(d, p, Start(Create(conv)));
  }

  lemma ExchangedEvents(conv: u32, m: seq<byte>)
    ensures Exchanged(conv, m)
         == [] + [Event(Left, DoUpdate(0))] + [Event(Left, DoSend(m))] + [Event(Left, DoUpdate(INTERVAL))]
            + [Event(Right, DoInput(EncodeAll([OnlyFrame(conv, m)])))] + [Event(Right, DoRecv(|m|, false))]
  {
  }

  lemma AtEnds(n: Pair, es: seq<Event>, p: Peer, q: Peer)
    requires At(n, es, Right, q, p)
    ensures Reached(n, es) && Run(n, es) == Pair(p, q)
  {
  }

  /** Any message of one fragment goes through: from two created ends, these five events are possible, and
      then what has been delivered is what was accepted. */
  lemma OneMessageArrives(conv: u32, m: seq<byte>)
    requires |m| <= MTU_DEF - OVERHEAD
    ensures var n := Pair(Start(Create(conv)), Start(Create(conv)));
      && Reached(n, Exchanged(conv, m))
      && Run(n, Exchanged(conv, m)).left.sent == [m] == Run(n, Exchanged(conv, m)).right.got
  {
    hide *;
    var s := Start(Create(conv));
    var n, d := Pair(s, s), EncodeAll([OnlyFrame(conv, m)]);
    AtStart(conv);
    var p, packet := SentByLeft(conv, m);
    ReadByRight(conv, m);
    FirstIsYoung(conv, p, packet);
    var p1, q1 := Act(s, DoUpdate(0)), Act(s, DoInput(d));
    var p2, q2 := Act(p1, DoSend(m)), Act(q1, DoRecv(|m|, false));
    SendingIsLegal(DoUpdate(0), s, s);
    SendingIsLegal(DoSend(m), p1, s);
    SendingIsLegal(DoUpdate(INTERVAL), p2, s);
    SendingIsLegal(DoRecv(|m|, false), q1, p);
    var es1 := [] + [Event(Left, DoUpdate(0))];
    var es2 := es1 + [Event(Left, DoSend(m))];
    var es3 := es2 + [Event(Left, DoUpdate(INTERVAL))];
    var es4 := es3 + [Event(Right, DoInput(d))];
    AtNext(n, [], Left, s, s, DoUpdate(0));
    AtNext(n, es1, Left, p1, s, DoSend(m));
    AtNext(n, es2, Left, p2, s, DoUpdate(INTERVAL));
    LeftOther(n, es3, p, s);
    AtNext(n, es3, Right, s, p, DoInput(d));
    AtNext(n, es4, Right, q1, p, DoRecv(|m|, false));
    ExchangedEvents(conv, m);
    AtEnds(n, Exchanged(conv, m), p, q2);
  }

  lemma LeftOther(n: Pair, es: seq<Event>, p: Peer, q: Peer)
    requires At(n, es, Left, p, q)
    ensures At(n, es, Right, q, p)
  {
  }
}
