/** Progress in every reachable state of a connection: the oldest outstanding segment is always on the
    network, so one round of deliveries always moves the window. */
module Progress {
  import opened Words
  import opened Wire
  import opened Receivers
  import opened Control
  import opened Link
  import opened Network
  import opened Connection
  import Accounting
  import Seqs

  // ---- the oldest segment is on the network ----

  /** Some datagram that has been emitted since index `i` was numbered carries the number. */
  ghost predicate Sighted(conv: u32, net: set<Packet>, sn: u32, i: int) {
    exists d, f :: d in net && f in Parse(conv, d.data).frames && f.cmd == PUSH && f.sn == sn && d.log > i
  }

  /** Everything outstanding has been emitted since it was numbered. */
  ghost predicate OnNetwork(p: Peer) {
    forall j :: 0 <= j < |p.k.snd.buf| ==>
      var sn := p.k.snd.buf[j].frame.sn; Sighted(p.k.conf.conv, p.net, sn, Index(|p.log|, sn))
  }

  lemma {:induction false} OfNumberMember(fs: seq<Frame>, sn: u32, f: Frame)
    requires f in Accounting.OfNumber(fs, sn)
    ensures f in fs && f.sn == sn
  {
    if f in Accounting.OfNumber(fs[..|fs| - 1], sn) {
      OfNumberMember(fs[..|fs| - 1], sn, f);
    }
  }

  /** Every frame of a flush is on the network afterwards, in a datagram of that flush. */
  lemma FlushedOnNet(p: Peer, op: Op, f: Frame) returns (d: Packet)
    requires Ok(p.k) && Flushes(p.k, op) && f in FlushFrames(Flushed(p.k, op))
    ensures d in Act(p, op).net && d.log == |Act(p, op).log| && d.rcvd == Act(p, op).rcvd
    ensures d.data in Emits(p.k, op) && f in Parse(p.k.conf.conv, d.data).frames
    ensures OVERHEAD <= |d.data| < 0x8000_0000 && Parse(p.k.conf.conv, d.data).code == 0
    ensures forall g :: g in Parse(p.k.conf.conv, d.data).frames ==> g in FlushFrames(Flushed(p.k, op))
  {
    var k := Flushed(p.k, op);
    FlushAct(p, op);
    FlushStep(p.k, op);
    hide Ok, FlushState, FlushFrames, Parse;
    var s := FlushSendsFrame(k, f);
    d := Packet(s, |Act(p, op).log|, Act(p, op).rcvd);
  }

  lemma EmittedSighted(p: Peer, op: Op, f: Frame, i: int)
    requires Ok(p.k) && Flushes(p.k, op) && f in Accounting.DataOf(p.k, op) && i < |Act(p, op).log|
    ensures Sighted(p.k.conf.conv, Act(p, op).net, f.sn, i)
  {
    var k1 := Flushed(p.k, op);
    assert Ok(k1);
    EmittedPushes(k1, f);
    assert f in FlushFrames(k1);
    hide Ok, FlushFrames, Act, Parse;
    var d := FlushedOnNet(p, op, f);
  }

  lemma SightedGrows(conv: u32, net: set<Packet>, net': set<Packet>, sn: u32, i: int)
    requires Sighted(conv, net, sn, i) && net <= net'
    ensures Sighted(conv, net', sn, i)
  {
  }

  /** A segment that stays in the buffer while the log grows keeps its index. */
  lemma KeptSighted(p: Peer, op: Op, sn: u32)
    requires Ok(p.k) && Flushes(p.k, op) && SendSide(p.log, p.k.snd)
    requires exists g :: g in p.k.snd.buf && g.frame.sn == sn
    ensures Index(|Act(p, op).log|, sn) == Index(|p.log|, sn)
  {
    var k := Flushed(p.k, op);
    FlushAct(p, op);
    assert FlushWindow(k) <= 0xffff;
    var n := AdmitShape(p.log, k.snd, FlushWindow(k), FlushContext(k));
    var g :| g in p.k.snd.buf && g.frame.sn == sn;
    assert Assigns(p.k, op) == k.snd.queue[..n];
    LogGrows(p.log, k.snd.queue[..n], p.k.snd, g);
  }

  lemma ActOnNetwork(p: Peer, op: Op)
    requires Ok(p.k) && OnNetwork(p) && SendSide(p.log, p.k.snd)
    requires SendSide(Act(p, op).log, Act(p, op).k.snd)
    ensures OnNetwork(Act(p, op))
  {
    var p', conv := Act(p, op), p.k.conf.conv;
    StepKeepsConv(p.k, op);
    forall i | 0 <= i < |p'.k.snd.buf|
      ensures Sighted(conv, p'.net, p'.k.snd.buf[i].frame.sn, Index(|p'.log|, p'.k.snd.buf[i].frame.sn))
    {
      SegmentOnNetwork(p, op, i);
    }
  }

  lemma SegmentOnNetwork(p: Peer, op: Op, i: nat)
    requires Ok(p.k) && OnNetwork(p) && SendSide(p.log, p.k.snd)
    requires SendSide(Act(p, op).log, Act(p, op).k.snd) && i < |Act(p, op).k.snd.buf|
    ensures var p' := Act(p, op); var sn := p'.k.snd.buf[i].frame.sn;
      Sighted(p.k.conf.conv, p'.net, sn, Index(|p'.log|, sn))
  {
    if !Flushes(p.k, op) {
      OtherOnNetwork(p, op, i);
    } else {
      Accounting.FlushSegment(p.k, op, i);
      hide Ok, OnNetwork, SendSide, Index, Sighted, Step, Emits, ToU32, Flushes;
      if i >= |p.k.snd.buf| {
        NewOnNetwork(p, op, i);
      } else {
        KeptOnNetwork(p, op, i);
      }
    }
  }

  lemma OtherOnNetwork(p: Peer, op: Op, i: nat)
    requires Ok(p.k) && OnNetwork(p) && !Flushes(p.k, op) && i < |Act(p, op).k.snd.buf|
    ensures var p' := Act(p, op); var sn := p'.k.snd.buf[i].frame.sn;
      Sighted(p.k.conf.conv, p'.net, sn, Index(|p'.log|, sn))
  {
    var p' := Act(p, op);
    var sn := p'.k.snd.buf[i].frame.sn;
    OtherStep(p.k, op);
    var j := Accounting.OtherSegment(p.k, op, i);
    Seqs.AppendNone(p.log);
    assert p'.log == p.log && p.net <= p'.net;
    assert Sighted(p.k.conf.conv, p.net, p.k.snd.buf[j].frame.sn, Index(|p.log|, p.k.snd.buf[j].frame.sn));
    hide *;
    SightedGrows(p.k.conf.conv, p.net, p'.net, sn, Index(|p.log|, sn));
  }

  lemma NewOnNetwork(p: Peer, op: Op, i: nat)
    requires Ok(p.k) && Flushes(p.k, op) && i < |Act(p, op).k.snd.buf|
    requires SendSide(Act(p, op).log, Act(p, op).k.snd)
    requires var g := Act(p, op).k.snd.buf[i]; Accounting.OfNumber(Accounting.DataOf(p.k, op), g.frame.sn) == [g.frame]
    ensures var p' := Act(p, op); var sn := p'.k.snd.buf[i].frame.sn;
      Sighted(p.k.conf.conv, p'.net, sn, Index(|p'.log|, sn))
  {
    var p' := Act(p, op);
    var g := p'.k.snd.buf[i];
    SegmentIndex(p'.log, p'.k.snd, g);
    hide *;
    assert g.frame in [g.frame];
    OfNumberMember(Accounting.DataOf(p.k, op), g.frame.sn, g.frame);
    EmittedSighted(p, op, g.frame, Index(|p'.log|, g.frame.sn));
  }

  lemma KeptOnNetwork(p: Peer, op: Op, i: nat)
    requires Ok(p.k) && Flushes(p.k, op) && OnNetwork(p) && SendSide(p.log, p.k.snd)
    requires i < |p.k.snd.buf| && i < |Act(p, op).k.snd.buf|
    requires Act(p, op).k.snd.buf[i].frame.sn == p.k.snd.buf[i].frame.sn
    ensures var p' := Act(p, op); var sn := p'.k.snd.buf[i].frame.sn;
      Sighted(p.k.conf.conv, p'.net, sn, Index(|p'.log|, sn))
  {
    var p', sn := Act(p, op), p.k.snd.buf[i].frame.sn;
    assert p.k.snd.buf[i] in p.k.snd.buf;
    assert Sighted(p.k.conf.conv, p.net, sn, Index(|p.log|, sn));
    assert p.net <= p'.net;
    hide *;
    KeptSighted(p, op, sn);
    SightedGrows(p.k.conf.conv, p.net, p'.net, sn, Index(|p.log|, sn));
  }

  lemma InvSides(n: Pair)
    requires Usable(n) && Inv(n)
    ensures Ok(n.left.k) && SendSide(n.left.log, n.left.k.snd)
    ensures Ok(n.right.k) && SendSide(n.right.log, n.right.k.snd)
  {
  }

  lemma {:induction false} RunOnNetwork(n: Pair, es: seq<Event>)
    requires Reached(n, es)
    ensures OnNetwork(Run(n, es).left) && OnNetwork(Run(n, es).right)
  {
    if es == [] {
    } else {
      var m, e := Run(n, es[..|es| - 1]), es[|es| - 1];
      RunOnNetwork(n, es[..|es| - 1]);
      RunInv(n, es[..|es| - 1]);
      RunInv(n, es);
      InvSides(m);
      InvSides(Run(n, es));
      match e.side
      case Left => ActOnNetwork(m.left, e.op);
      case Right => ActOnNetwork(m.right, e.op);
    }
  }

  lemma OldestOnNetwork(p: Peer) returns (d: Packet, f: Frame)
    requires SendSide(p.log, p.k.snd) && OnNetwork(p) && p.k.snd.buf != []
    ensures d in p.net && f in Parse(p.k.conf.conv, d.data).frames && f.cmd == PUSH && f.sn == p.k.snd.una
    ensures |p.log| - d.log <= LIFETIME
  {
    var sn := p.k.snd.buf[0].frame.sn;
    assert Sighted(p.k.conf.conv, p.net, sn, Index(|p.log|, sn));
    d, f :| d in p.net && f in Parse(p.k.conf.conv, d.data).frames && f.cmd == PUSH && f.sn == sn
            && d.log > Index(|p.log|, sn);
    SegmentIndex(p.log, p.k.snd, p.k.snd.buf[0]);
  }

  /** The end on one side, and the other one. */
  function Ends(n: Pair, side: Side): (Peer, Peer) {
    if side == Left then (n.left, n.right) else (n.right, n.left)
  }

  ghost predicate Connected(p: Peer, q: Peer) {
    Ok(p.k) && Ok(q.k) && Direction(p, q) && Direction(q, p)
  }

  lemma ReachedConnected(n: Pair, es: seq<Event>, side: Side)
    requires Reached(n, es)
    ensures var (p, q) := Ends(Run(n, es), side); Connected(p, q)
  {
    RunInv(n, es);
  }

  /** No stall, in every reachable state: while something is outstanding and the receiver's queue has
      room, some datagram already on the network and one of the receiver's next flush, delivered one
      after the other, strictly advance the sender's `snd_una`. */
  lemma NeverStalls(n: Pair, es: seq<Event>, side: Side) returns (d: Packet, d': seq<byte>)
    requires Reached(n, es)
    requires var (p, q) := Ends(Run(n, es), side);
      p.k.snd.buf != [] && |q.k.rcv.queue| < q.k.rcv.wnd && q.k.timer.updated
    ensures var (p, q) := Ends(Run(n, es), side);
      && d in p.net && d' in Flush(Input(q.k, d.data).0).1
      && Advanced(p.k.snd, Input(p.k, d').0.snd)
  {
    var (p, q) := Ends(Run(n, es), side);
    ReachedConnected(n, es, side);
    RunOnNetwork(n, es);
    var f;
    d, f := OldestOnNetwork(p);
    d' := NoStall(p, q, d, f);
  }

  /** In every reachable state a full receive queue can be read: a complete message is at its front, and
      a read with room for it succeeds. */
  lemma FullQueueAlwaysReadable(n: Pair, es: seq<Event>, side: Side)
    requires Reached(n, es)
    ensures var q := Ends(Run(n, es), side).1;
      |q.k.rcv.queue| >= q.k.rcv.wnd ==>
        PeekSize(q.k.rcv.queue) >= 0 && ReadFront(q.k.rcv.queue, PeekSize(q.k.rcv.queue)).code >= 0
  {
    var (p, q) := Ends(Run(n, es), side);
    RunInv(n, es);
    if |q.k.rcv.queue| >= q.k.rcv.wnd {
      FullQueueIsReadable(p, q);
    }
  }
}
