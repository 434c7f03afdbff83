/** One flush in terms of the fields of the block: which segments it sends and why, what they become, which
    control frames go first, and what happens to the congestion window. Times are compared by the forward
    distance on the ring, so that none of these laws leans on the functions that decide. */
module Flushing {
  import opened Words
  import opened Wire
  import opened Senders
  import opened Transmission
  import opened Receivers
  import opened Congestion
  import opened Control
  import Accounting

  // ---- when a segment is sent ----

  /** On a clock that wraps, `now` is not before `time`. */
  predicate Reached(now: u32, time: u32) {
    Sub32(now, time) < 0x8000_0000
  }

  /** Between two moments less than half of the ring apart this is the order of the moments. */
  lemma ReachedExact(now: nat, time: nat)
    requires -0x8000_0000 <= now - time < 0x8000_0000
    ensures Reached(ToU32(now), ToU32(time)) <==> time <= now
  {
  }

  lemma ReachedIsDifference(now: u32, time: u32)
    ensures Reached(now, time) <==> TimeDiff(now, time) >= 0
  {
  }

  /** The segment has been sent and its time has come. */
  predicate TimedOut(k: Block, g: Segment) {
    g.xmit > 0 && Reached(k.timer.current, g.resendts)
  }

  /** It has been sent, its time has not come, and as many acknowledgements have passed over it as the
      configured threshold asks for, while it has not been sent too often for that. */
  predicate PassedEnough(k: Block, g: Segment) {
    && g.xmit > 0 && !TimedOut(k, g)
    && (if k.conf.fastResend > 0 then k.conf.fastResend <= g.fastack else g.fastack == 0xffff_ffff)
    && (k.conf.fastLimit <= 0 || g.xmit <= k.conf.fastLimit || g.xmit >= 0x8000_0000)
  }

  /** The flush sends it. */
  predicate Due(k: Block, g: Segment) {
    g.xmit == 0 || TimedOut(k, g) || PassedEnough(k, g)
  }

  lemma WhyByFields(k: Block, g: Segment)
    ensures var why := Why(g, FlushContext(k));
      && (why.First? <==> g.xmit == 0) && (why.Timeout? <==> TimedOut(k, g)) && (why.Fast? <==> PassedEnough(k, g))
      && (why.Idle? <==> !Due(k, g))
  {
    ReachedIsDifference(k.timer.current, g.resendts);
    hide TimeDiff, Sub32;
  }

  /** Header fields that a sent segment gets from the block. */
  function Stamped(k: Block, f: Frame): Frame
    requires |k.rcv.queue| <= k.rcv.wnd <= 0xffff
  {
    f.(ts := k.timer.current, wnd := k.rcv.wnd - |k.rcv.queue|, una := k.rcv.nxt)
  }

  /** The timeout after a timeout: at least doubled in normal mode, half as long again with no-delay 1 (as a
      signed number), longer by half of the estimate beyond that. */
  function Longer(k: Block, rto: u32): u32 {
    if k.conf.nodelay == 0 then ToU32(rto + Max(rto, k.rtt.rto))
    else if k.conf.nodelay == 1 then
      if rto < 0x8000_0000 then rto + rto / 2 else rto - (0x1_0000_0000 - rto) / 2
    else ToU32(rto + k.rtt.rto / 2)
  }

  /** The extra wait of a first transmission. */
  function Grace(k: Block): u32 {
    if k.conf.nodelay == 0 then k.rtt.rto / 8 else 0
  }

  lemma LongerIsBackoff(k: Block, rto: u32)
    requires k.rtt.rto <= 60000
    ensures BackedOff(rto, FlushContext(k)) == Longer(k, rto)
  {
    if k.conf.nodelay == 1 && rto < 0x8000_0000 {
      BackoffHalf(rto, FlushContext(k));
    } else if k.conf.nodelay == 1 {
      assert ToI32(rto) == rto - 0x1_0000_0000;
    } else {
      assert ToI32(k.rtt.rto) == k.rtt.rto;
    }
  }

  /** What a flush makes of a segment. */
  ghost predicate Outcome(k: Block, g: Segment, g': Segment)
    requires |k.rcv.queue| <= k.rcv.wnd <= 0xffff
  {
    var now, f := k.timer.current, Stamped(k, g.frame);
    && (!Due(k, g) ==> g' == g)
    && (g.xmit == 0 ==>
          g' == Segment(f, ToU32(now + k.rtt.rto + Grace(k)), k.rtt.rto, g.fastack, 1))
    && (TimedOut(k, g) ==>
          g' == Segment(f, ToU32(now + Longer(k, g.rto)), Longer(k, g.rto), g.fastack, ToU32(g.xmit + 1)))
    && (PassedEnough(k, g) ==>
          g' == Segment(f, ToU32(now + g.rto), g.rto, 0, ToU32(g.xmit + 1)))
  }

  lemma ContextByFields(k: Block)
    requires Ok(k)
    ensures |k.rcv.queue| <= k.rcv.wnd <= 0xffff && k.rtt.rto <= 60000
    ensures var c := FlushContext(k);
      && c.conv == k.conf.conv && c.current == k.timer.current && c.rto == k.rtt.rto && c.rtoMin == Grace(k)
      && c.wnd == k.rcv.wnd - |k.rcv.queue| && c.una == k.rcv.nxt && c.deadLink == k.conf.deadLink
  {
    UnusedRoom(k.rcv);
  }

  lemma AddExact(x: u32, y: u32)
    ensures Add32(x, y) == ToU32(x + y)
  {
  }

  lemma AddTwice(x: u32, y: u32, z: u32)
    ensures Add32(Add32(x, y), z) == ToU32(x + y + z)
  {
  }

  lemma DueByReason(k: Block, g: Segment)
    ensures Due(k, g) <==> g.xmit == 0 || TimedOut(k, g) || PassedEnough(k, g)
    ensures TimedOut(k, g) ==> g.xmit > 0
    ensures PassedEnough(k, g) ==> g.xmit > 0 && !TimedOut(k, g)
  {
  }

  lemma SentByFields(k: Block, g: Segment)
    requires Ok(k)
    ensures |k.rcv.queue| <= k.rcv.wnd <= 0xffff && Outcome(k, g, Sent(g, FlushContext(k)))
  {
    var c := FlushContext(k);
    hide Ok, FlushContext, Why, BackedOff, Longer, Due, TimedOut, PassedEnough, Grace, ToU32, Add32;
    ContextByFields(k);
    WhyByFields(k, g);
    LongerIsBackoff(k, g.rto);
    AddTwice(k.timer.current, k.rtt.rto, Grace(k));
    AddExact(k.timer.current, Longer(k, g.rto));
    AddExact(k.timer.current, g.rto);
    AddExact(g.xmit, 1);
    DueByReason(k, g);
  }

  // ---- the data of a flush ----

  /** How many fragments get a number: as many as the least window leaves room for. */
  function Room(k: Block): nat {
    var w := Min(k.conf.sndWnd, k.win.rmt);
    var least := if k.conf.noCwnd then w else Min(w, k.win.cwnd);
    Min(|k.snd.queue|, Max(0, least - Sub32(k.snd.nxt, k.snd.una)))
  }

  /** The buffer before anything is sent: the old segments, then the fragments that get numbers. */
  lemma AdmittedShape(k: Block)
    requires Ok(k)
    ensures Room(k) <= |k.snd.queue| <= |k.snd.queue| && Room(k) <= 0xffff
    ensures var s, c := Admitted(k), FlushContext(k);
      && Ordered(s) && s.una == k.snd.una && s.nxt == Add32(k.snd.nxt, Room(k)) && s.queue == k.snd.queue[Room(k)..]
      && |s.buf| == |k.snd.buf| + Room(k)
      && (forall i :: 0 <= i < |k.snd.buf| ==> s.buf[i] == k.snd.buf[i])
      && (forall j :: 0 <= j < Room(k) ==>
            s.buf[|k.snd.buf| + j] == Numbered(k.snd.queue[j], Add32(k.snd.nxt, j), c))
  {
    var c := FlushContext(k);
    var n := AdmitFills(k.snd, FlushWindow(k), c);
    NumberAllLength(k.snd.queue[..n], k.snd.nxt, c);
    forall j | 0 <= j < n
      ensures NumberAll(k.snd.queue[..n], k.snd.nxt, c)[j] == Numbered(k.snd.queue[j], Add32(k.snd.nxt, j), c)
    {
      NumberAllAt(k.snd.queue[..n], k.snd.nxt, c, j);
    }
    hide NumberAll, Numbered, Admit, Ordered, Sendable, Windowed, FlushContext;
  }

  lemma FlushedBuffer(k: Block)
    ensures var s, c := Admitted(k), FlushContext(k);
      FlushState(k).snd == s.(buf := SentAll(s.buf, c))
  {
  }

  /** A segment of the buffer is sent by its own number only. */
  lemma SentUnderNumber(k: Block, i: nat)
    requires Ok(k) && i < |Admitted(k).buf|
    ensures var g, c := Admitted(k).buf[i], FlushContext(k);
      forall f :: f in FlushFrames(k) && f.cmd == PUSH && f.sn == g.frame.sn ==>
        !Why(g, c).Idle? && f == Sent(g, c).frame
    ensures var g, c := Admitted(k).buf[i], FlushContext(k);
      !Why(g, c).Idle? ==> Sent(g, c).frame in FlushFrames(k) && Sent(g, c).frame.cmd == PUSH
    ensures Sent(Admitted(k).buf[i], FlushContext(k)).frame.sn == Admitted(k).buf[i].frame.sn
  {
    var s, c := Admitted(k), FlushContext(k);
    var g := s.buf[i];
    AdmittedOk(k);
    Accounting.OrderedDistinct(s);
    SentKeepsIdentity(g, c);
    assert Pushes(k.conf.conv, k.conf.mss, g.frame);
    forall f | f in FlushFrames(k) && f.cmd == PUSH && f.sn == g.frame.sn
      ensures !Why(g, c).Idle? && f == Sent(g, c).frame
    {
      FlushFrameKinds(k, f);
      EmittedFrom(s.buf, c, f);
      var g' :| g' in s.buf && !Why(g', c).Idle? && f == Sent(g', c).frame;
      SentKeepsIdentity(g', c);
      Accounting.OnlyOne(s.buf, i, g');
    }
    EmittedFrom(s.buf, c, Sent(g, c).frame);
    assert g in s.buf;
  }

  /** The retransmission decision. An outstanding segment is in a data frame of the flush if and only if it has
      not been sent yet, its time has come, or it has been passed over often enough; the frame is that of the
      segment, stamped. */
  lemma FlushDecides(k: Block, i: nat)
    requires Ok(k) && i < |k.snd.buf|
    ensures |k.rcv.queue| <= k.rcv.wnd <= 0xffff
    ensures var g := k.snd.buf[i];
      && ((exists f :: f in FlushFrames(k) && f.cmd == PUSH && f.sn == g.frame.sn) <==> Due(k, g))
      && (forall f :: f in FlushFrames(k) && f.cmd == PUSH && f.sn == g.frame.sn ==> f == Stamped(k, g.frame))
  {
    var g, c := k.snd.buf[i], FlushContext(k);
    AdmittedShape(k);
    SentUnderNumber(k, i);
    SentByFields(k, g);
    WhyByFields(k, g);
    hide Ok, FlushContext, Why, FlushFrames, Admitted, Longer, TimedOut, PassedEnough, Sent, Grace;
  }

  /** What each outstanding segment is after the flush: unchanged unless it was sent, and otherwise with the
      clock, timeout and counts that the reason for sending asks for. */
  lemma FlushOutcome(k: Block, i: nat)
    requires Ok(k) && i < |k.snd.buf|
    ensures |k.rcv.queue| <= k.rcv.wnd <= 0xffff
    ensures i < |FlushState(k).snd.buf| && Outcome(k, k.snd.buf[i], FlushState(k).snd.buf[i])
  {
    AdmittedShape(k);
    SentByFields(k, k.snd.buf[i]);
    FlushedBuffer(k);
    hide Ok, FlushContext, Outcome, Admitted, Sent, FlushState;
  }

  /** The segment of the fragment with index `j` in the queue, numbered and sent for the first time. */
  function NewSegment(k: Block, j: nat): Segment
    requires j < |k.snd.queue| && |k.rcv.queue| <= k.rcv.wnd <= 0xffff
  {
    var now, q := k.timer.current, k.snd.queue[j];
    var f := Frame(k.conf.conv, PUSH, q.frg, k.rcv.wnd - |k.rcv.queue|, now, ToU32(k.snd.nxt + j), k.rcv.nxt, q.data);
    Segment(f, ToU32(now + k.rtt.rto + Grace(k)), k.rtt.rto, 0, 1)
  }

  lemma NewByFields(k: Block, j: nat)
    requires Ok(k) && j < |k.snd.queue| && j <= 0xffff
    ensures |k.rcv.queue| <= k.rcv.wnd <= 0xffff
    ensures var c := FlushContext(k);
      Sent(Numbered(k.snd.queue[j], Add32(k.snd.nxt, j), c), c) == NewSegment(k, j)
  {
    var c := FlushContext(k);
    var g := Numbered(k.snd.queue[j], Add32(k.snd.nxt, j), c);
    hide Ok, FlushContext, Sent, Longer, TimedOut, PassedEnough, Grace, ToU32, Add32;
    ContextByFields(k);
    SentByFields(k, g);
    AddExact(k.snd.nxt, j);
  }

  /** What a flush makes of the fragments that it numbers: each is sent at once, under the next number, with
      the timeout of the estimate. */
  lemma FlushNumbers(k: Block, j: nat)
    requires Ok(k) && j < Room(k)
    ensures |k.rcv.queue| <= k.rcv.wnd <= 0xffff
    ensures var s' := FlushState(k).snd;
      && |s'.buf| == |k.snd.buf| + Room(k) && s'.nxt == ToU32(k.snd.nxt + Room(k))
      && s'.una == k.snd.una && s'.queue == k.snd.queue[Room(k)..]
      && s'.buf[|k.snd.buf| + j] == NewSegment(k, j) && NewSegment(k, j).frame in FlushFrames(k)
  {
    hide Ok, FlushContext, Why, Admitted, FlushState, FlushFrames, Sent, Room, NewSegment, Numbered, Add32, ToU32;
    AdmittedShape(k);
    FlushedBuffer(k);
    var i, c := |k.snd.buf| + j, FlushContext(k);
    assert Admitted(k).buf[i] == Numbered(k.snd.queue[j], Add32(k.snd.nxt, j), c);
    NewByFields(k, j);
    AdmittedWhy(k, i);
    SentUnderNumber(k, i);
    AddExact(k.snd.nxt, Room(k));
  }

  // ---- the control frames of a flush ----

  /** The next flush asks for the peer's window: it was asked to, or the time of a probe has come. */
  predicate Asks(k: Block) {
    k.probe.askSend || (k.win.rmt == 0 && k.probe.wait > 0 && Reached(k.timer.current, k.probe.at))
  }

  /** A control frame with the number and time of an acknowledgement. */
  function ControlFrame(k: Block, cmd: u8, a: Ack): Frame
    requires |k.rcv.queue| <= k.rcv.wnd <= 0xffff
  {
    Frame(k.conf.conv, cmd, 0, k.rcv.wnd - |k.rcv.queue|, a.ts, a.sn, k.rcv.nxt, [])
  }

  function LastAck(k: Block): Ack {
    if k.rcv.acks == [] then Ack(0, 0) else k.rcv.acks[|k.rcv.acks| - 1]
  }

  /** How many frames go before the data. */
  function ControlCount(k: Block): nat {
    |k.rcv.acks| + (if Asks(k) then 1 else 0) + (if k.probe.askTell then 1 else 0)
  }

  /** The order of a flush: every pending acknowledgement with its number and the time of its segment, then the
      question for the peer's window if there is one, then the answer if one is wanted, both with the pair of
      the last acknowledgement, then data only. */
  lemma FlushOrder(k: Block)
    requires Ok(k)
    ensures |k.rcv.queue| <= k.rcv.wnd <= 0xffff
    ensures var fs, n, m := FlushFrames(k), |k.rcv.acks|, ControlCount(k);
      && m <= |fs|
      && (forall i :: 0 <= i < n ==> fs[i] == ControlFrame(k, ACK, k.rcv.acks[i]))
      && (Asks(k) ==> fs[n] == ControlFrame(k, WASK, LastAck(k)))
      && (k.probe.askTell ==> fs[m - 1] == ControlFrame(k, WINS, LastAck(k)))
      && (forall i :: m <= i < |fs| ==> fs[i].cmd == PUSH)
  {
    var fs, n, m, c := FlushFrames(k), |k.rcv.acks|, ControlCount(k), FlushContext(k);
    var probe := Probing(k.probe, k.win.rmt, k.timer.current);
    var data := Emitted(Admitted(k).buf, c);
    ContextByFields(k);
    ReachedIsDifference(k.timer.current, k.probe.at);
    assert probe.askSend == Asks(k) && probe.askTell == k.probe.askTell;
    assert fs == AckFrames(c, k.rcv.acks) + ProbeFrames(c, probe, k.rcv.acks) + data;
    hide Ok, FlushContext, Probing, FlushFrames, Emitted, Admitted, Asks;
    forall i | m <= i < |fs|
      ensures fs[i].cmd == PUSH
    {
      assert fs[i] == data[i - m] && data[i - m] in data;
      EmittedPushes(k, fs[i]);
    }
  }

  /** The same on the wire: what the datagrams of the flush parse to begins with the pending acknowledgements,
      each with its number and the time of its segment. */
  lemma FlushAcknowledges(k: Block, i: nat)
    requires Ok(k) && k.timer.updated && i < |k.rcv.acks|
    ensures var fs := ParseAll(k.conf.conv, Flush(k).1);
      && i < |fs| && fs[i].cmd == ACK && fs[i].sn == k.rcv.acks[i].sn && fs[i].ts == k.rcv.acks[i].ts
      && fs[i].una == k.rcv.nxt && fs[i].data == []
  {
    FlushRoundTrip(k);
    FlushOrder(k);
    hide Ok, Flush, FlushFrames, Asks;
  }

  /** The probing that a flush leaves: none with an open peer; behind a closed one first a wait of 7 seconds,
      and each time that it is over a wait half as long again, at most two minutes. */
  lemma FlushProbing(k: Block)
    requires Ok(k)
    ensures var p, p', now := k.probe, FlushState(k).probe, k.timer.current;
      && !p'.askSend && !p'.askTell
      && (k.win.rmt > 0 ==> p'.wait == 0 && p'.at == 0)
      && (k.win.rmt == 0 && p.wait == 0 ==> p'.wait == 7000 && p'.at == ToU32(now + 7000))
      && (k.win.rmt == 0 && p.wait > 0 && !Reached(now, p.at) ==> p'.wait == p.wait && p'.at == p.at)
      && (k.win.rmt == 0 && p.wait > 0 && Reached(now, p.at) ==>
            p'.wait == Min(p.wait + p.wait / 2, 120000) && p'.at == ToU32(now + p'.wait))
  {
    ReachedIsDifference(k.timer.current, k.probe.at);
    assert Probed(k.probe);
    hide Ok, Admitted, FlushContext, CountWhy, Dead, FlushWindow, Span, Adjust, TimeDiff, Sub32, ToU32;
  }

  // ---- loss and the congestion window ----

  lemma {:induction false} CountNone(buf: seq<Segment>, c: Context, why: Reason, n: nat)
    requires n <= |buf|
    ensures CountTo(buf, c, why, n) > 0 <==> exists i :: 0 <= i < n && Why(buf[i], c) == why
  {
    hide Why;
    if n == 0 {
    } else {
      CountNone(buf, c, why, n - 1);
    }
  }

  /** Some outstanding segment is sent for this reason. */
  ghost predicate SomeLost(k: Block) {
    exists i :: 0 <= i < |k.snd.buf| && TimedOut(k, k.snd.buf[i])
  }

  ghost predicate SomePassed(k: Block) {
    exists i :: 0 <= i < |k.snd.buf| && PassedEnough(k, k.snd.buf[i])
  }

  /** Each segment of the buffer before sending: an old one as it was, or one that is sent for the first time. */
  lemma AdmittedWhy(k: Block, i: nat)
    requires Ok(k) && i < |Admitted(k).buf|
    ensures var g, why := Admitted(k).buf[i], Why(Admitted(k).buf[i], FlushContext(k));
      && (why == Timeout <==> TimedOut(k, g)) && (why == Fast <==> PassedEnough(k, g)) && (why == Idle <==> !Due(k, g))
      && (if i < |k.snd.buf| then g == k.snd.buf[i] else why == First && g.xmit == 0 && Due(k, g))
    ensures |Admitted(k).buf| == |k.snd.buf| + Room(k)
  {
    AdmittedShape(k);
    WhyByFields(k, Admitted(k).buf[i]);
    if i >= |k.snd.buf| {
      var j := i - |k.snd.buf|;
      assert Admitted(k).buf[|k.snd.buf| + j] == Numbered(k.snd.queue[j], Add32(k.snd.nxt, j), FlushContext(k));
    }
    hide Ok, Why, FlushContext, Admitted, TimedOut, PassedEnough, Room, Add32;
  }

  lemma LossByFields(k: Block)
    requires Ok(k)
    ensures var buf, c := Admitted(k).buf, FlushContext(k);
      && (CountWhy(buf, c, Timeout) > 0 <==> SomeLost(k)) && (CountWhy(buf, c, Fast) > 0 <==> SomePassed(k))
  {
    var buf, c := Admitted(k).buf, FlushContext(k);
    AdmittedShape(k);
    CountNone(buf, c, Timeout, |buf|);
    CountNone(buf, c, Fast, |buf|);
    hide Ok, Why, FlushContext, Admitted, TimedOut, PassedEnough, CountTo, Due, Room;
    forall i | 0 <= i < |buf|
      ensures Why(buf[i], c) == Timeout <==> i < |k.snd.buf| && TimedOut(k, k.snd.buf[i])
      ensures Why(buf[i], c) == Fast <==> i < |k.snd.buf| && PassedEnough(k, k.snd.buf[i])
    {
      AdmittedWhy(k, i);
    }
  }

  /** The congestion window after a flush. A timeout sets it to one segment and the threshold to half of the
      window that the flush could fill. Fast retransmissions alone set the threshold to half of what is in
      flight and the window to that and the threshold of duplicates. Without either it stays as it is, but for
      the lower bound of one segment. */
  lemma FlushWindowLaw(k: Block)
    requires Ok(k)
    ensures var w, w', mss := k.win, FlushState(k).win, k.conf.mss;
      var fill := if k.conf.noCwnd then Min(k.conf.sndWnd, w.rmt) else Min(w.cwnd, Min(k.conf.sndWnd, w.rmt));
      var half := Max((Sub32(k.snd.nxt, k.snd.una) + Room(k)) / 2, 2);
      var fast := half + (if k.conf.fastResend > 0 then k.conf.fastResend else -1);
      && w'.rmt == w.rmt
      && (SomeLost(k) ==> w'.cwnd == 1 && w'.incr == mss && w'.ssthresh == Max(fill / 2, 2))
      && (!SomeLost(k) && SomePassed(k) ==>
            w'.ssthresh == half && w'.cwnd == fast && w'.incr == ToU32(fast * mss))
      && (!SomeLost(k) && !SomePassed(k) && w.cwnd >= 1 ==> w' == w)
      && (!SomeLost(k) && !SomePassed(k) && w.cwnd == 0 ==> w' == w.(cwnd := 1, incr := mss))
  {
    var s, c := Admitted(k), FlushContext(k);
    AdmittedShape(k);
    LossByFields(k);
    SpanGrows(k.snd, s, Room(k));
    assert c.resent == Resent(k.conf);
    assert FlushState(k).win == Adjust(
        k.win, k.conf.mss, CountWhy(s.buf, c, Fast) > 0, CountWhy(s.buf, c, Timeout) > 0, Span(s), c.resent,
        FlushWindow(k));
    hide Ok, CountWhy, FlushState, Admitted, FlushContext, SomeLost, SomePassed, Room, Span, Sub32;
    AddSmall(Max(Span(s) / 2, 2), k.conf.fastResend);
  }

  lemma AddSmall(a: u32, b: i32)
    requires a <= 0x7fff
    ensures b > 0 ==> Add32(a, b) == a + b
    ensures a > 0 ==> Add32(a, 0xffff_ffff) == a - 1
  {
  }

  lemma SpanGrows(s: Sender, s': Sender, n: nat)
    requires Ordered(s') && Ordered(s) && n <= 0xffff && s'.una == s.una && s'.nxt == Add32(s.nxt, n)
    ensures Span(s') == Span(s) + n <= 0xffff && Span(s) == Sub32(s.nxt, s.una)
  {
  }

  // ---- the other fields ----

  function Lost(k: Block): set<nat> {
    set i: nat | i < |k.snd.buf| && TimedOut(k, k.snd.buf[i])
  }

  ghost function SentFor(buf: seq<Segment>, c: Context, why: Reason, n: nat): set<nat>
    requires n <= |buf|
  {
    set i: nat | i < n && Why(buf[i], c) == why
  }

  lemma {:induction false} CountIsSize(buf: seq<Segment>, c: Context, why: Reason, n: nat)
    requires n <= |buf|
    ensures CountTo(buf, c, why, n) == |SentFor(buf, c, why, n)|
  {
    hide Why;
    if n == 0 {
      assert SentFor(buf, c, why, 0) == {};
    } else {
      CountIsSize(buf, c, why, n - 1);
      var before := SentFor(buf, c, why, n - 1);
      assert SentFor(buf, c, why, n) == if Why(buf[n - 1], c) == why then before + {n - 1} else before;
    }
  }

  lemma LostIsChosen(k: Block)
    requires Ok(k)
    ensures SentFor(Admitted(k).buf, FlushContext(k), Timeout, |Admitted(k).buf|) == Lost(k)
  {
    var buf, c := Admitted(k).buf, FlushContext(k);
    AdmittedShape(k);
    hide Ok, Why, FlushContext, Admitted, TimedOut, PassedEnough, Due, Room;
    forall i: nat | i < |buf|
      ensures Why(buf[i], c) == Timeout <==> i < |k.snd.buf| && TimedOut(k, k.snd.buf[i])
    {
      AdmittedWhy(k, i);
    }
  }

  /** The counter of timeouts grows by the number of segments that have timed out. */
  lemma FlushCounts(k: Block)
    requires Ok(k)
    ensures FlushState(k).xmit == ToU32(k.xmit + |Lost(k)|)
  {
    var buf, c := Admitted(k).buf, FlushContext(k);
    CountIsSize(buf, c, Timeout, |buf|);
    LostIsChosen(k);
    hide Ok, Admitted, FlushContext, Lost, SentFor;
  }

  /** The link is given up when a segment is sent for the `deadLink`-th time or later. */
  lemma FlushDead(k: Block)
    requires Ok(k)
    ensures FlushState(k).dead
       <==> || k.dead
            || (exists i :: 0 <= i < |k.snd.buf| &&
                  Due(k, k.snd.buf[i]) && ToU32(k.snd.buf[i].xmit + 1) >= k.conf.deadLink)
            || (Room(k) > 0 && k.conf.deadLink <= 1)
  {
    var buf, c := Admitted(k).buf, FlushContext(k);
    assert c.deadLink == k.conf.deadLink;
    AdmittedShape(k);
    hide Ok, Why, FlushContext, Admitted, Due, Sent, ToU32, Room, Dead;
    forall i | 0 <= i < |buf|
      ensures !Why(buf[i], c).Idle? && Sent(buf[i], c).xmit >= k.conf.deadLink
         <==> if i < |k.snd.buf| then Due(k, k.snd.buf[i]) && ToU32(k.snd.buf[i].xmit + 1) >= k.conf.deadLink
              else k.conf.deadLink <= 1
    {
      SentCount(k, buf[i]);
      AdmittedWhy(k, i);
    }
    DeadBySome(buf, c);
    if Room(k) > 0 {
      assert |k.snd.buf| < |buf|;
    }
    assert FlushState(k).dead == (k.dead || Dead(buf, c)) by {
      DeadState(k);
    }
  }

  lemma DeadState(k: Block)
    ensures FlushState(k).dead == (k.dead || Dead(Admitted(k).buf, FlushContext(k)))
  {
    hide Admitted, FlushContext, Dead;
  }

  lemma DeadBySome(buf: seq<Segment>, c: Context)
    ensures Dead(buf, c) <==> exists i :: 0 <= i < |buf| && !Why(buf[i], c).Idle? && Sent(buf[i], c).xmit >= c.deadLink
  {
  }

  lemma SentCount(k: Block, g: Segment)
    requires Ok(k)
    ensures var c := FlushContext(k);
      && (!Why(g, c).Idle? <==> Due(k, g)) && (Due(k, g) ==> Sent(g, c).xmit == ToU32(g.xmit + 1))
      && (g.xmit == 0 ==> Due(k, g) && ToU32(g.xmit + 1) == 1)
  {
    WhyByFields(k, g);
    SentByFields(k, g);
    hide FlushContext, Why, TimedOut, PassedEnough, Longer, Grace;
  }

  /** Nothing else changes, and the acknowledgements have left. */
  lemma FlushKeeps(k: Block)
    requires k.timer.updated
    ensures var k' := Flush(k).0;
      k'.conf == k.conf && k'.rtt == k.rtt && k'.timer == k.timer && k'.rcv == k.rcv.(acks := [])
  {
    hide Admitted, FlushContext, CountWhy, Dead, FlushWindow, Span, Adjust, Probing, FlushFrames;
  }
}
