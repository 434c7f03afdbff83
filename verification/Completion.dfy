/** Everything accepted can be delivered: from every reachable state of a connection some continuation
    without new data ends with both users having read all that the other end has accepted. */
module Completion {
  import opened Words
  import opened Wire
  import opened Fragments
  import opened Senders
  import opened Transmission
  import opened Receivers
  import opened Control
  import opened Link
  import opened Network
  import opened Delivery
  import opened Connection
  import opened Progress
  import opened Recovery
  import Runs
  import Seqs

  // ---- what quiet events keep ----

  /** All fragments of one end, numbered or not. */
  function Total(p: Peer): nat {
    |p.log| + |p.k.snd.queue|
  }

  /** An end some quiet events later: nothing has been accepted, and nothing has moved back. */
  ghost predicate Onward(p: Peer, p': Peer) {
    && p'.sent == p.sent && Total(p') == Total(p) && |p'.log| >= |p.log|
    && Una(p'.log, p'.k.snd) >= Una(p.log, p.k.snd)
    && Consumed(p') >= Consumed(p) && p.got <= p'.got
    && (p.k.timer.updated ==> p'.k.timer.updated) && p'.k.conf.stream == p.k.conf.stream
  }

  lemma OnwardTransitive(p: Peer, p1: Peer, p2: Peer)
    requires Onward(p, p1) && Onward(p1, p2)
    ensures Onward(p, p2)
  {
  }

  lemma UnaOnward(p: Peer, op: Op)
    requires Ok(p.k) && SendSide(p.log, p.k.snd)
    ensures Una(Act(p, op).log, Act(p, op).k.snd) >= Una(p.log, p.k.snd)
  {
    if Flushes(p.k, op) {
      FlushKeepsUna(p, op);
    } else if op.DoInput? {
      InputAct(p, op.data);
      Runs.InputForward(p.k, op.data);
    } else {
      OtherStep(p.k, op);
      Seqs.AppendNone(p.log);
    }
  }

  lemma TotalKept(p: Peer, op: Op)
    requires Ok(p.k) && !op.DoSend?
    ensures Total(Act(p, op)) == Total(p) && |Act(p, op).log| >= |p.log|
  {
    AssignsMoves(p.k, op, p.log);
  }

  lemma UpdatedKept(k: Block, op: Op)
    requires k.conf.mss > 0 && k.timer.updated
    ensures Step(k, op).timer.updated
  {
    if op.DoInput? {
      InputKeepsTimer(k, op.data);
    }
  }

  lemma QuietAct(p: Peer, q: Peer, op: Op)
    requires Connected(p, q) && Legal(op, p, q) && !op.DoSend?
    ensures p.k.conf.mss > 0 && Onward(p, Act(p, op))
  {
    ActorFacts(p, q);
    hide Connected, Ok, Linked, SendSide, Step, Legal, Act;
    ActReads(q, p, op);
    UnaOnward(p, op);
    TotalKept(p, op);
    StepKeepsConv(p.k, op);
    if p.k.timer.updated {
      UpdatedKept(p.k, op);
    }
    NothingAccepted(p, op);
  }

  lemma ActorFacts(p: Peer, q: Peer)
    requires Connected(p, q)
    ensures p.k.conf.mss > 0 && Ok(p.k) && Linked(q, p) && SendSide(p.log, p.k.snd)
  {
  }

  lemma NothingAccepted(p: Peer, op: Op)
    requires p.k.conf.mss > 0 && !op.DoSend?
    ensures Act(p, op).sent == p.sent && Act(p, op).k == Step(p.k, op)
  {
  }

  lemma OnwardSelf(p: Peer)
    ensures Onward(p, p)
  {
  }

  lemma QuietDo(m: Pair, e: Event, side: Side)
    requires Usable(m) && Inv(m) && LegalEvent(m, e) && !e.op.DoSend?
    ensures Onward(Ends(m, side).0, Ends(Do(m, e), side).0)
    ensures Onward(Ends(m, side).1, Ends(Do(m, e), side).1)
  {
    var (p, q) := Ends(m, e.side);
    assert Connected(p, q) && Legal(e.op, p, q);
    assert Ends(Do(m, e), e.side) == (Act(p, e.op), q);
    assert Ends(m, Other(e.side)) == (q, p) && Ends(Do(m, e), Other(e.side)) == (q, Act(p, e.op));
    assert side == e.side || side == Other(e.side);
    hide *;
    QuietAct(p, q, e.op);
    OnwardSelf(q);
  }

  lemma ReachedSnoc(n: Pair, es: seq<Event>, e: Event)
    requires Reached(n, es + [e])
    ensures Reached(n, es) && LegalEvent(Run(n, es), e) && Run(n, es + [e]) == Do(Run(n, es), e)
  {
    Seqs.TakeAppend(es, [e]);
  }

  lemma {:induction false} QuietRun(n: Pair, es: seq<Event>, more: seq<Event>, side: Side)
    requires Reached(n, es + more) && Quiet(more)
    ensures Reached(n, es)
    ensures Onward(Ends(Run(n, es), side).0, Ends(Run(n, es + more), side).0)
    ensures Onward(Ends(Run(n, es), side).1, Ends(Run(n, es + more), side).1)
  {
    assert Usable(n);
    if more == [] {
      Seqs.AppendNone(es);
      OnwardSelf(Ends(Run(n, es), side).0);
      OnwardSelf(Ends(Run(n, es), side).1);
    } else {
      var front, e := more[..|more| - 1], more[|more| - 1];
      assert e in more && Quiet(front);
      hide *;
      Seqs.SplitLast(more);
      Seqs.Assoc(es, front, [e]);
      ReachedSnoc(n, es + front, e);
      QuietRun(n, es, front, side);
      var m := Run(n, es + front);
      RunInv(n, es + front);
      QuietDo(m, e, side);
      OnwardTransitive(Ends(Run(n, es), side).0, Ends(m, side).0, Ends(Do(m, e), side).0);
      OnwardTransitive(Ends(Run(n, es), side).1, Ends(m, side).1, Ends(Do(m, e), side).1);
    }
  }

  // ---- one step nearer ----

  /** What is still to be acknowledged, numbered and read in one direction. */
  function Distance(p: Peer, q: Peer): int {
    (Total(p) - Una(p.log, p.k.snd)) + (Total(p) - |p.log|) + (Total(p) - Consumed(q))
  }

  /** A read of the message at the front. */
  lemma ReadStep(n: Pair, es: seq<Event>, side: Side) returns (more: seq<Event>)
    requires Reached(n, es) && PeekSize(Ends(Run(n, es), side).1.k.rcv.queue) >= 0
    ensures Quiet(more) && Reached(n, es + more)
    ensures Consumed(Ends(Run(n, es), side).1) < Consumed(Ends(Run(n, es + more), side).1)
  {
    var (p, q) := Ends(Run(n, es), side);
    var op := DoRecv(PeekSize(q.k.rcv.queue), false);
    more := [Event(Other(side), op)];
    assert !op.DoInput? && Legal(op, q, p) && Quiet(more);
    AtConnected(n, es, side, p, q);
    ReadTakes(p, q);
    hide *;
    AtOther(n, es, side, p, q);
    AtNext(n, es, Other(side), q, p, op);
    AtReached(n, es + more, Other(side), Act(q, op), p);
    EndsOther(Run(n, es + more), side);
  }

  lemma EndsOther(n: Pair, side: Side)
    ensures Ends(n, side).0 == Ends(n, Other(side)).1 && Ends(n, side).1 == Ends(n, Other(side)).0
  {
  }

  lemma ReadTakes(p: Peer, q: Peer)
    requires Connected(p, q) && PeekSize(q.k.rcv.queue) >= 0
    ensures q.k.conf.mss > 0 && Consumed(q) < Consumed(Act(q, DoRecv(PeekSize(q.k.rcv.queue), false)))
  {
    hide *;
    var op := DoRecv(PeekSize(q.k.rcv.queue), false);
    ConnectedLinked(p, q);
    OkSized(q.k);
    PeekedReads(q, p);
    ActReads(p, q, op);
    ReadsConsumes(q, op, Act(q, op));
  }

  lemma PeekedReads(q: Peer, p: Peer)
    requires PeekSize(q.k.rcv.queue) >= 0
    ensures var op := DoRecv(PeekSize(q.k.rcv.queue), false); Legal(op, q, p) && Consumes(q.k, op) > 0
  {
    ReadMatchesPeek(q.k.rcv.queue, PeekSize(q.k.rcv.queue));
    hide ReadFront, Pieces;
    assert Pieces(q.k.rcv.queue) != [] by {
      assert |Pieces(q.k.rcv.queue)| == |q.k.rcv.queue|;
    }
  }

  lemma ReadsConsumes(q: Peer, op: Op, q': Peer)
    requires Reads(q, op, q')
    ensures Consumed(q') == Consumed(q) + Consumes(q.k, op)
  {
  }

  /** A flush always leaves a window of at least one segment, and the peer's window as it was. */
  lemma FlushOpens(k: Block)
    requires k.conf.mss > 0
    ensures FlushState(k).win.cwnd >= 1 && FlushState(k).win.rmt == k.win.rmt && FlushState(k).timer == k.timer
  {
    hide Admitted, FlushContext, CountWhy, Dead, Probing, FlushWindow, Span;
  }

  lemma IdleFlush(p: Peer)
    requires Ok(p.k) && p.k.timer.updated && p.k.snd.buf == [] && |Act(p, DoFlush).log| <= |p.log|
    ensures Act(p, DoFlush).k.snd.buf == [] && Act(p, DoFlush).k.snd.queue == p.k.snd.queue
  {
    var k := p.k;
    assert Ordered(k.snd) && k.conf.mss > 0 && FlushWindow(k) <= 0xffff;
    var m := FlushAssigns(k, DoFlush);
    assert m == 0;
    assert FlushState(k).snd == Admitted(k).(buf := SentAll(Admitted(k).buf, FlushContext(k)));
    FlushStep(k, DoFlush);
    assert Act(p, DoFlush).k == FlushState(k);
    hide FlushState, Step, Ordered, FlushContext, FlushWindow, Ok, Emits, Act;
    var j := AdmitFills(k.snd, FlushWindow(k), FlushContext(k));
    Seqs.TakeAll(k.snd.queue);
  }

  lemma TickingFlush(k: Block)
    requires k.timer.updated
    ensures Flushes(k, DoFlush) && Flushed(k, DoFlush) == k
  {
  }

  lemma OkSized(k: Block)
    requires Ok(k)
    ensures k.conf.mss > 0
  {
  }

  /** An end between two flushes. */
  lemma FlushedEnd(n: Pair, es: seq<Event>, side: Side, p: Peer, q: Peer)
    requires At(n, es, side, p, q) && Connected(p, q) && p.k.timer.updated
    ensures p.k.conf.mss > 0 && Ok(p.k)
    ensures var p1 := Act(p, DoFlush);
      && At(n, es + [Event(side, DoFlush)], side, p1, q) && Connected(p1, q)
      && p1.k == FlushState(p.k) && p1.k.timer == p.k.timer && p1.k.win.cwnd >= 1 && p1.k.win.rmt == p.k.win.rmt
  {
    hide *;
    ConnectedOk(p, q);
    OkSized(p.k);
    TickingFlush(p.k);
    FlushIsLegal(p, q);
    FlushAct(p, DoFlush);
    FlushOpens(p.k);
    AtNext(n, es, side, p, q, DoFlush);
    AtReached(n, es + [Event(side, DoFlush)], side, Act(p, DoFlush), q);
    AtConnected(n, es + [Event(side, DoFlush)], side, Act(p, DoFlush), q);
  }

  /** Behind an open window two flushes are enough to number something. */
  lemma OpenStep(n: Pair, es: seq<Event>, side: Side) returns (more: seq<Event>)
    requires Reached(n, es)
    requires var p := Ends(Run(n, es), side).0;
      p.k.timer.updated && p.k.snd.buf == [] && p.k.snd.queue != [] && p.k.win.rmt > 0
    ensures Quiet(more) && Reached(n, es + more)
    ensures |Ends(Run(n, es), side).0.log| < |Ends(Run(n, es + more), side).0.log|
  {
    var (p, q) := Ends(Run(n, es), side);
    var e := Event(side, DoFlush);
    more := [e];
    assert Quiet([e]) && Quiet([e] + [e]);
    AtConnected(n, es, side, p, q);
    hide *;
    FlushedEnd(n, es, side, p, q);
    var p1 := Act(p, DoFlush);
    AtReached(n, es + [e], side, p1, q);
    if |p1.log| <= |p.log| {
      IdleFlush(p);
      LogKept(p);
      ConnectedOk(p1, q);
      OpenAdmits(p1);
      FlushedEnd(n, es + [e], side, p1, q);
      Seqs.Assoc(es, [e], [e]);
      more := [e] + [e];
      AtReached(n, es + more, side, Act(p1, DoFlush), q);
    }
  }

  lemma LogKept(p: Peer)
    requires p.k.conf.mss > 0
    ensures |Act(p, DoFlush).log| >= |p.log|
  {
  }

  /** Behind a closed window the first flush sets the time of a probe. */
  lemma ProbeSet(k: Block)
    requires Ok(k) && Closed(k)
    ensures Closed(FlushState(k)) && FlushState(k).probe.wait > 0
  {
    ClosedAdmitsNone(k);
    ProbingBacksOff(k.probe, k.win.rmt, k.timer.current);
    assert FlushState(k).snd == Admitted(k).(buf := SentAll(Admitted(k).buf, FlushContext(k)));
    hide Ok, Admitted, FlushContext, CountWhy, Dead, FlushWindow, Span, Probing;
  }

  /** Once it is set some update starts the five events of a probe. */
  lemma ProbeStep(n: Pair, es: seq<Event>, side: Side) returns (more: seq<Event>)
    requires Reached(n, es)
    requires var (p, q) := Ends(Run(n, es), side);
      && Closed(p.k) && p.k.probe.wait > 0 && |q.k.rcv.queue| < q.k.rcv.wnd
      && p.k.timer.updated && q.k.timer.updated
    ensures Quiet(more) && Reached(n, es + more)
    ensures |Ends(Run(n, es), side).0.log| < |Ends(Run(n, es + more), side).0.log|
  {
    var k := Ends(Run(n, es), side).0.k;
    var current := FlushTime(k.timer, k.conf.interval, k.probe.at);
    more := WindowReopens(n, es, side, DoUpdate(current));
  }

  /** A closed window always opens again. */
  lemma ClosedStep(n: Pair, es: seq<Event>, side: Side) returns (more: seq<Event>)
    requires Reached(n, es)
    requires var (p, q) := Ends(Run(n, es), side);
      Closed(p.k) && |q.k.rcv.queue| < q.k.rcv.wnd && p.k.timer.updated && q.k.timer.updated
    ensures Quiet(more) && Reached(n, es + more)
    ensures |Ends(Run(n, es), side).0.log| < |Ends(Run(n, es + more), side).0.log|
  {
    var (p, q) := Ends(Run(n, es), side);
    var e := Event(side, DoFlush);
    assert Quiet([e]);
    AtConnected(n, es, side, p, q);
    hide *;
    FlushedEnd(n, es, side, p, q);
    ProbeSet(p.k);
    LogKept(p);
    AtReached(n, es + [e], side, Act(p, DoFlush), q);
    var rest := ProbeStep(n, es + [e], side);
    more := [e] + rest;
    Seqs.Assoc(es, [e], rest);
    QuietBoth([e], rest);
  }

  lemma QuietBoth(a: seq<Event>, b: seq<Event>)
    requires Quiet(a) && Quiet(b)
    ensures Quiet(a + b)
  {
  }

  // ---- nothing is left over ----

  /** In stream mode no fragment announces another one. */
  ghost predicate Plain(p: Peer) {
    p.k.conf.stream ==> AllLast(p.log + p.k.snd.queue)
  }

  ghost predicate AllLast(fs: seq<Fragment>) {
    forall i :: 0 <= i < |fs| ==> fs[i].frg == 0
  }

  lemma SendPlain(mss: u32, queue: seq<Fragment>, data: seq<byte>)
    requires mss > 0 && AllLast(queue)
    ensures AllLast(Send(mss, true, queue, data).queue)
  {
    var (queue', sent) := Extend(mss, queue, data);
    assert AllLast(queue');
    var rest := data[sent..];
    if rest != [] && Count(mss, |rest|) < FRAGMENT_LIMIT {
      CountCovers(mss, |rest|);
      SplitShape(mss, true, Count(mss, |rest|), rest);
    }
  }

  lemma ActPlain(p: Peer, op: Op)
    requires Ok(p.k) && Plain(p)
    ensures Plain(Act(p, op))
  {
    StepKeepsConv(p.k, op);
    if p.k.conf.stream {
      var queue := p.k.snd.queue;
      assert AllLast(p.log) && AllLast(queue) by {
        assert forall i :: 0 <= i < |p.log| ==> (p.log + queue)[i] == p.log[i];
        assert forall i :: 0 <= i < |queue| ==> (p.log + queue)[|p.log| + i] == queue[i];
      }
      if op.DoSend? {
        OtherStep(p.k, op);
        SendPlain(p.k.conf.mss, queue, op.data);
      } else {
        AssignsMoves(p.k, op, p.log);
      }
    }
  }

  lemma {:induction false} RunPlain(n: Pair, es: seq<Event>)
    requires Reached(n, es)
    ensures Plain(Run(n, es).left) && Plain(Run(n, es).right)
  {
    if es == [] {
    } else {
      var m, e := Run(n, es[..|es| - 1]), es[|es| - 1];
      RunPlain(n, es[..|es| - 1]);
      RunInv(n, es[..|es| - 1]);
      hide Plain, Reached;
      match e.side
      case Left => ActPlain(m.left, e.op);
      case Right => ActPlain(m.right, e.op);
    }
  }

  lemma KeptOrHeld(log: seq<Fragment>, s: Sender, v: View, i: nat)
    requires Accounted(log, s, v) && s.buf == [] && i < |log|
    ensures Held(v, i)
  {
    assert Outstanding(log, s, i) || Held(v, i);
  }

  /** With nothing outstanding and room in the queue the receiver has everything that was numbered. */
  lemma AllReceived(p: Peer, q: Peer)
    requires Linked(p, q) && p.k.snd.buf == [] && |q.k.rcv.queue| < q.k.rcv.wnd
    ensures q.rcvd == |p.log|
  {
    NextNotHeld(Now(q));
    if q.rcvd < |p.log| {
      KeptOrHeld(p.log, p.k.snd, q.told, q.rcvd);
      assert false;
    }
  }

  /** Behind the messages that have been read all fragments of the next one follow. */
  lemma WholeAhead(mss: u32, sent: seq<seq<byte>>, got: seq<seq<byte>>, c: nat)
    requires mss > 0 && got <= sent && c == |CutAll(mss, got)| && got != sent
    requires forall m :: m in sent ==> Count(mss, |m|) < FRAGMENT_LIMIT
    ensures c < |CutAll(mss, sent)| && CutAll(mss, sent)[c].frg < |CutAll(mss, sent)| - c
  {
    var m := sent[|got|];
    assert sent[..|got| + 1] == got + [m];
    assert m in sent;
    hide CutAll, Count, Cut;
    CutAllPrefix(mss, sent, |got| + 1);
    CutAllSnoc(mss, got, m);
    CutIsMessage(mss, m);
    FirstBehind(CutAll(mss, got), Cut(mss, m), CutAll(mss, sent));
  }

  lemma FirstBehind(a: seq<Fragment>, b: seq<Fragment>, all: seq<Fragment>)
    requires a + b <= all && b != []
    ensures |a| < |all| && all[|a|] == b[0] && |a| + |b| <= |all|
  {
    assert (a + b)[|a|] == b[0];
  }

  lemma FrontInLog(p: Peer, q: Peer)
    requires Linked(p, q) && q.rcvd == |p.log| && Consumed(q) < |p.log|
    ensures var queue := q.k.rcv.queue;
      && queue != [] && |queue| == |p.log| - Consumed(q) && 0 <= Consumed(q)
      && queue[0].frg == p.log[Consumed(q)].frg
  {
    assert Pieces(q.k.rcv.queue)[0] == p.log[Consumed(q)];
  }

  lemma LastInLog(p: Peer, i: nat)
    requires Plain(p) && p.k.conf.stream && i < |p.log|
    ensures p.log[i].frg == 0
  {
    assert (p.log + p.k.snd.queue)[i] == p.log[i];
  }

  lemma OrderOf(p: Peer, q: Peer)
    requires Connected(p, q)
    ensures Linked(p, q) && p.k.conf.mss > 0 && (!p.k.conf.stream ==> MessagesInOrder(p, q))
  {
  }

  lemma WholeInLog(p: Peer, q: Peer)
    requires p.k.conf.mss > 0 && MessagesInOrder(p, q) && p.k.snd.queue == [] && Consumed(q) < |p.log|
    ensures p.log[Consumed(q)].frg < |p.log| - Consumed(q)
  {
    Seqs.AppendNone(p.log);
    hide CutAll, Consumed, Count;
    WholeAhead(p.k.conf.mss, p.sent, q.got, Consumed(q));
  }

  /** Then what is unread can be read. */
  lemma RestReadable(p: Peer, q: Peer)
    requires Connected(p, q) && Plain(p) && p.k.snd.buf == [] && p.k.snd.queue == []
    requires |q.k.rcv.queue| < q.k.rcv.wnd && Consumed(q) < |p.log|
    ensures PeekSize(q.k.rcv.queue) >= 0
  {
    hide Connected, Linked, MessagesInOrder, Plain, Consumed, Pieces;
    OrderOf(p, q);
    AllReceived(p, q);
    FrontInLog(p, q);
    if p.k.conf.stream {
      LastInLog(p, Consumed(q));
    } else {
      WholeInLog(p, q);
    }
  }

  // ---- to the end ----

  /** While something is unread a few events bring the direction nearer to its end. */
  lemma StepNearer(n: Pair, es: seq<Event>, side: Side) returns (more: seq<Event>)
    requires Reached(n, es)
    requires var (p, q) := Ends(Run(n, es), side);
      p.k.timer.updated && q.k.timer.updated && Consumed(q) < Total(p)
    ensures Quiet(more) && Reached(n, es + more)
    ensures var (p, q), (p', q') := Ends(Run(n, es), side), Ends(Run(n, es + more), side);
      || Una(p.log, p.k.snd) < Una(p'.log, p'.k.snd) || |p.log| < |p'.log| || Consumed(q) < Consumed(q')
  {
    var (p, q) := Ends(Run(n, es), side);
    AtConnected(n, es, side, p, q);
    RunPlain(n, es);
    assert Plain(p) && Linked(p, q);
    hide Connected, Reached, Run, Linked, Plain, At, Consumed, Una;
    if PeekSize(q.k.rcv.queue) >= 0 {
      more := ReadStep(n, es, side);
    } else {
      if |q.k.rcv.queue| >= q.k.rcv.wnd {
        FullQueueIsReadable(p, q);
      }
      if p.k.snd.buf != [] {
        more := Recovers(n, es, side);
      } else if p.k.snd.queue == [] {
        RestReadable(p, q);
        assert false;
      } else if p.k.win.rmt > 0 {
        more := OpenStep(n, es, side);
      } else {
        more := ClosedStep(n, es, side);
      }
    }
  }

  lemma DistanceParts(p: Peer, q: Peer)
    requires Connected(p, q)
    ensures Una(p.log, p.k.snd) <= |p.log| <= Total(p) && 0 <= Consumed(q) <= |p.log|
  {
  }

  /** So one direction comes to its end. */
  lemma {:induction false} Drains(n: Pair, es: seq<Event>, side: Side) returns (more: seq<Event>)
    requires Reached(n, es)
    requires var (p, q) := Ends(Run(n, es), side); p.k.timer.updated && q.k.timer.updated
    ensures Quiet(more) && Reached(n, es + more)
    ensures var (p', q') := Ends(Run(n, es + more), side); Consumed(q') == Total(p')
    decreases Distance(Ends(Run(n, es), side).0, Ends(Run(n, es), side).1)
  {
    var (p, q) := Ends(Run(n, es), side);
    AtConnected(n, es, side, p, q);
    DistanceParts(p, q);
    hide Reached, Run, Connected, At, Una, Consumed, Total;
    if Consumed(q) == Total(p) {
      more := [];
      Seqs.AppendNone(es);
    } else {
      var first := StepNearer(n, es, side);
      QuietRun(n, es, first, side);
      var (p', q') := Ends(Run(n, es + first), side);
      AtConnected(n, es + first, side, p', q');
      DistanceParts(p', q');
      var rest := Drains(n, es + first, side);
      more := first + rest;
      Seqs.Assoc(es, first, rest);
      QuietBoth(first, rest);
    }
  }

  /** One end has ticked. */
  lemma Ticks(n: Pair, es: seq<Event>, side: Side) returns (more: seq<Event>)
    requires Reached(n, es)
    ensures Quiet(more) && Reached(n, es + more) && Ends(Run(n, es + more), side).0.k.timer.updated
  {
    var (p, q) := Ends(Run(n, es), side);
    var op := DoUpdate(0);
    more := [Event(side, op)];
    assert Legal(op, p, q) && Quiet(more);
    AtConnected(n, es, side, p, q);
    AtNext(n, es, side, p, q, op);
    UpdateTicks(p);
    hide *;
    AtReached(n, es + more, side, Act(p, op), q);
  }

  lemma UpdateTicks(p: Peer)
    requires p.k.conf.mss > 0
    ensures Act(p, DoUpdate(0)).k.timer.updated
  {
    hide FlushFrames, Datagrams, Bytes, Admitted, FlushContext;
  }

  /** What `q` has read is what `p` has accepted: message by message, or in stream mode byte by byte. */
  ghost predicate Arrived(p: Peer, q: Peer) {
    Joined(q.got) == Joined(p.sent) && (!p.k.conf.stream ==> q.got == p.sent)
  }

  lemma DrainedArrived(p: Peer, q: Peer)
    requires Connected(p, q) && Consumed(q) == Total(p)
    ensures Arrived(p, q)
  {
    DistanceParts(p, q);
    assert p.k.snd.queue == [] && |p.log| == Consumed(q);
    Seqs.AppendNone(p.log);
    Seqs.TakeAll(p.log);
    if !p.k.conf.stream && q.got != p.sent {
      WholeAhead(p.k.conf.mss, p.sent, q.got, Consumed(q));
      assert false;
    }
  }

  predicate BothTick(n: Pair) {
    n.left.k.timer.updated && n.right.k.timer.updated
  }

  lemma TickBoth(n: Pair, es: seq<Event>) returns (more: seq<Event>)
    requires Reached(n, es)
    ensures Quiet(more) && Reached(n, es + more) && BothTick(Run(n, es + more))
  {
    hide Reached, Run, Quiet;
    var a := Ticks(n, es, Left);
    var b := Ticks(n, es + a, Right);
    QuietRun(n, es + a, b, Left);
    more := a + b;
    Seqs.Assoc(es, a, b);
    QuietBoth(a, b);
  }

  /** Both directions come to their end, one after the other. */
  lemma DrainBoth(n: Pair, es: seq<Event>) returns (more: seq<Event>)
    requires Reached(n, es) && BothTick(Run(n, es))
    ensures Quiet(more) && Reached(n, es + more)
    ensures var m := Run(n, es + more);
      Consumed(m.right) == Total(m.left) && Consumed(m.left) == Total(m.right)
  {
    assert Usable(n);
    hide Reached, Run, Quiet, Consumed, Total, Una;
    var a := Drains(n, es, Left);
    QuietRun(n, es, a, Left);
    var b := Drains(n, es + a, Right);
    QuietRun(n, es + a, b, Left);
    more := a + b;
    Seqs.Assoc(es, a, b);
    QuietBoth(a, b);
    var m := Run(n, es + more);
    ReachedConnected(n, es + more, Left);
    hide Connected;
    DistanceParts(m.left, m.right);
  }

  lemma SentKept(n: Pair, es: seq<Event>, more: seq<Event>)
    requires Reached(n, es + more) && Quiet(more)
    ensures Reached(n, es)
    ensures var m, m' := Run(n, es), Run(n, es + more);
      && m'.left.sent == m.left.sent && m'.right.sent == m.right.sent
      && m.left.got <= m'.left.got && m.right.got <= m'.right.got
  {
    hide Reached, Run, Quiet, Consumed, Total, Una;
    QuietRun(n, es, more, Left);
  }

  lemma BothArrived(n: Pair, es: seq<Event>)
    requires Reached(n, es)
    requires var m := Run(n, es); Consumed(m.right) == Total(m.left) && Consumed(m.left) == Total(m.right)
    ensures var m := Run(n, es); Arrived(m.left, m.right) && Arrived(m.right, m.left)
  {
    var m := Run(n, es);
    ReachedConnected(n, es, Left);
    hide *;
    ConnectedSwap(m.left, m.right);
    DrainedArrived(m.left, m.right);
    DrainedArrived(m.right, m.left);
  }

  /** Everything arrives. From every reachable state of a connection, whatever has been lost, some
      continuation in which nothing new is accepted ends with both users having read exactly what the other
      end has accepted. */
  lemma EverythingArrives(n: Pair, es: seq<Event>) returns (more: seq<Event>)
    requires Reached(n, es)
    ensures Quiet(more) && Reached(n, es + more)
    ensures var m, m' := Run(n, es), Run(n, es + more);
      && m'.left.sent == m.left.sent && m'.right.sent == m.right.sent
      && m.left.got <= m'.left.got && m.right.got <= m'.right.got
      && Arrived(m'.left, m'.right) && Arrived(m'.right, m'.left)
  {
    assert Usable(n);
    hide *;
    var a := TickBoth(n, es);
    var b := DrainBoth(n, es + a);
    more := a + b;
    Seqs.Assoc(es, a, b);
    QuietBoth(a, b);
    SentKept(n, es, more);
    BothArrived(n, es + more);
  }
}
