/** Runs of one control block under any operations, with arbitrary bytes as input: what every reachable
    state satisfies, how the window edges move, and how the congestion window behaves. */
module Runs {
  import opened Words
  import opened Wire
  import opened Senders
  import opened Transmission
  import opened Receivers
  import opened Congestion
  import opened Control
  import opened Network
  import Connection
  import Fragments

  function After(k: Block, ops: seq<Op>): (k': Block)
    requires k.conf.mss > 0
    ensures k'.conf.mss == k.conf.mss
  {
    if ops == [] then k
    else
      var m := After(k, ops[..|ops| - 1]);
      StepKeepsConv(m, ops[|ops| - 1]);
      Step(m, ops[|ops| - 1])
  }

  /** The invariant of both halves holds in every reachable state, whatever arrives, also when sequence
      numbers have wrapped. */
  lemma {:induction false} AfterOk(k: Block, ops: seq<Op>)
    requires Ok(k)
    ensures Ok(After(k, ops))
  {
    if ops == [] {
    } else {
      AfterOk(k, ops[..|ops| - 1]);
      StepOk(After(k, ops[..|ops| - 1]), ops[|ops| - 1]);
    }
  }

  // ---- window edges ----

  /** Unbounded indices of `snd_una`, `snd_nxt` and `rcv_nxt`. */
  datatype Edges = Edges(una: nat, nxt: nat, rcv: nat)

  /** The wrapped numbers are those of the indices, and the window stays below 2^16. */
  ghost predicate Tracks(k: Block, e: Edges) {
    && k.snd.una == ToU32(e.una) && k.snd.nxt == ToU32(e.nxt) && k.rcv.nxt == ToU32(e.rcv)
    && e.una <= e.nxt <= e.una + 0xffff
  }

  function Moved(k: Block, k': Block, e: Edges): Edges {
    Edges(
      e.una + Sub32(k'.snd.una, k.snd.una), e.nxt + Sub32(k'.snd.nxt, k.snd.nxt), e.rcv + Sub32(k'.rcv.nxt, k.rcv.nxt))
  }

  function EdgesAfter(k: Block, ops: seq<Op>): Edges
    requires k.conf.mss > 0
  {
    if ops == [] then Edges(k.snd.una, k.snd.una + Span(k.snd), k.rcv.nxt)
    else Moved(After(k, ops[..|ops| - 1]), After(k, ops), EdgesAfter(k, ops[..|ops| - 1]))
  }

  /** No edge moves back: each moves forward by at most a window. */
  ghost predicate Forward(k: Block, k': Block) {
    && Sub32(k'.snd.una, k.snd.una) <= Span(k.snd) + Sub32(k'.snd.nxt, k.snd.nxt)
    && Sub32(k'.snd.una, k.snd.una) <= 0xffff && Sub32(k'.snd.nxt, k.snd.nxt) <= 0xffff
    && Sub32(k'.rcv.nxt, k.rcv.nxt) <= 0xffff
  }

  /** The receiver's edge moves exactly as its queue grows. */
  ghost predicate Queued(r: Receiver, r': Receiver) {
    Windowed(r') && r'.wnd == r.wnd && Sub32(r'.nxt, r.nxt) == |r'.queue| - |r.queue|
  }

  lemma TakePushQueued(r: Receiver, f: Frame)
    requires Windowed(r)
    ensures Queued(r, TakePush(r, f))
  {
    TakePushWindowed(r, f);
    var r1 := r.(acks := r.acks + [Ack(f.sn, f.ts)]);
    if InWindow(r1, f.sn) {
      InWindowExact(r1, f.sn);
      InsertExact(r1.nxt, r1.wnd, r1.buf, f);
      var k := DrainMaximal(r1.(buf := Insert(r1.buf, f)));
    }
  }

  lemma QueuedTransitive(r: Receiver, r1: Receiver, r2: Receiver)
    requires Windowed(r) && Queued(r, r1) && Queued(r1, r2)
    ensures Queued(r, r2)
  {
    WindowBounds(r);
    WindowBounds(r1);
    WindowBounds(r2);
  }

  lemma {:induction false} TakeFramesQueued(k: Block, fs: seq<Frame>)
    requires Windowed(k.rcv)
    ensures Queued(k.rcv, TakeFrames(k, fs).rcv)
  {
    if fs == [] {
    } else {
      var m, f := TakeFrames(k, fs[..|fs| - 1]), fs[|fs| - 1];
      TakeFramesQueued(k, fs[..|fs| - 1]);
      if f.cmd == PUSH {
        TakePushQueued(m.rcv, f);
        QueuedTransitive(k.rcv, m.rcv, TakePush(m.rcv, f));
      }
    }
  }

  lemma InputForward(k: Block, d: seq<byte>)
    requires Ok(k)
    ensures var k' := Input(k, d).0;
      && k'.snd.nxt == k.snd.nxt && Sub32(k'.snd.una, k.snd.una) <= Span(k.snd)
      && Sub32(k'.rcv.nxt, k.rcv.nxt) <= 0xffff
  {
    var fs := Parse(k.conf.conv, d).frames;
    assert Windowed(k.rcv) && k.conf.mss > 0;
    Connection.TakeFramesAcked(k, fs);
    hide TakeFrames, Parse, NewestOf, Conclude, Grow, Ordered, Windowed, Ascending, Ok;
    TakeFramesQueued(k, fs);
    WindowBounds(k.rcv);
    WindowBounds(TakeFrames(k, fs).rcv);
    ConcludeEdges(TakeFrames(k, fs), NewestOf(fs), k.snd.una);
  }

  lemma ConcludeEdges(k: Block, newest: Newest, una: u32)
    requires k.conf.mss > 0
    ensures var k' := Conclude(k, newest, una);
      k'.snd.una == k.snd.una && k'.snd.nxt == k.snd.nxt && k'.rcv == k.rcv
  {
    hide Grow;
  }

  lemma ReadForward(k: Block, len: nat, peek: bool)
    requires Ok(k)
    ensures Sub32(AfterRead(k.rcv, len, peek).nxt, k.rcv.nxt) <= 0xffff
  {
    if ReadFront(k.rcv.queue, len).code >= 0 {
      hide ReadFront, Drain, Pieces;
      var n := AfterReadShape(k.rcv, if peek then 0 else Fragments.MessageEnd(Pieces(k.rcv.queue)));
      WindowBounds(k.rcv);
    }
  }

  lemma FlushForward(k: Block, op: Op)
    requires Ok(k) && Flushes(k, op)
    ensures var k', f := Step(k, op), Flushed(k, op);
      && k'.rcv.nxt == k.rcv.nxt && k'.snd.una == k.snd.una
      && k'.snd == Admitted(f).(buf := SentAll(Admitted(f).buf, FlushContext(f)))
      && Ordered(Admitted(f)) && Span(k.snd) + Sub32(k'.snd.nxt, k.snd.nxt) == Span(k'.snd) <= 0xffff
  {
    var f := Flushed(k, op);
    FlushStep(k, op);
    var n := AdmitFills(f.snd, FlushWindow(f), FlushContext(f));
    AddThenSub(k.snd.nxt, n);
  }

  lemma StepForward(k: Block, op: Op)
    requires Ok(k)
    ensures Forward(k, Step(k, op))
  {
    if Flushes(k, op) {
      FlushForward(k, op);
    } else {
      OtherStep(k, op);
      match op
      case DoInput(d) => InputForward(k, d);
      case DoRecv(len, peek) => ReadForward(k, len, peek);
      case _ =>
    }
  }

  lemma WrapMove(a: nat, x: u32)
    ensures ToU32(a + Sub32(x, ToU32(a))) == x
  {
  }

  lemma DistanceExact(a: nat, b: nat)
    requires a <= b < a + 0x1_0000_0000
    ensures Sub32(ToU32(b), ToU32(a)) == b - a
  {
  }

  lemma MovedTracks(k: Block, k': Block, e: Edges)
    requires Ordered(k.snd) && Ordered(k'.snd) && Forward(k, k') && Tracks(k, e)
    ensures Tracks(k', Moved(k, k', e))
  {
    hide ToU32, Sub32, Ascending;
    var e' := Moved(k, k', e);
    WrapMove(e.una, k'.snd.una);
    WrapMove(e.nxt, k'.snd.nxt);
    WrapMove(e.rcv, k'.rcv.nxt);
    DistanceExact(e.una, e.nxt);
    DistanceExact(e'.una, e'.nxt);
  }

  lemma StartTracks(k: Block)
    requires Ordered(k.snd) && k.conf.mss > 0
    ensures Tracks(k, EdgesAfter(k, []))
  {
  }

  /** Across any number of wraps: the 32-bit edges are those of unbounded indices that never go back,
      and at most 65535 numbers are ever outstanding. */
  lemma {:induction false} EdgesOverRuns(k: Block, ops: seq<Op>)
    requires Ok(k)
    ensures Tracks(After(k, ops), EdgesAfter(k, ops))
    ensures ops != [] ==>
      var e, e' := EdgesAfter(k, ops[..|ops| - 1]), EdgesAfter(k, ops);
      && e.una <= e'.una <= e.una + 0xffff && e.nxt <= e'.nxt <= e.nxt + 0xffff
      && e.rcv <= e'.rcv <= e.rcv + 0xffff
  {
    if ops == [] {
      StartTracks(k);
    } else {
      var front := ops[..|ops| - 1];
      EdgesOverRuns(k, front);
      AfterOk(k, front);
      AfterOk(k, ops);
      StepForward(After(k, front), ops[|ops| - 1]);
      MovedTracks(After(k, front), After(k, ops), EdgesAfter(k, front));
    }
  }

  /** Only an update touches the flush timer, so the timing of any run is that of its updates. */
  lemma OnlyUpdateMovesTimer(k: Block, op: Op)
    requires Ok(k)
    ensures Step(k, op).timer == if op.DoUpdate? then Tick(k.timer, k.conf.interval, op.current).0 else k.timer
    ensures !op.DoNoDelay? ==> Step(k, op).conf == k.conf
    ensures op.DoUpdate? ==> (Flushes(k, op) <==> Tick(k.timer, k.conf.interval, op.current).1)
  {
    if op.DoInput? {
      Connection.InputKeepsTimer(k, op.data);
    }
  }

  // ---- congestion window ----

  /** If the flush has a fast retransmission and no loss, the byte count that it sets fits 32 bits. */
  ghost predicate TameFlush(k: Block, op: Op) {
    Flushes(k, op) ==>
      var f := Flushed(k, op);
      var buf, c := Admitted(f).buf, FlushContext(f);
      AdjustFits(k.conf.mss, CountWhy(buf, c, Fast) > 0, CountWhy(buf, c, Timeout) > 0, Span(Admitted(f)), c.resent)
  }

  ghost predicate Tame(k: Block, ops: seq<Op>)
    requires k.conf.mss > 0
  {
    ops == [] || (Tame(k, ops[..|ops| - 1]) && TameFlush(After(k, ops[..|ops| - 1]), ops[|ops| - 1]))
  }

  lemma FlushSpan(k: Block, op: Op)
    requires Ok(k) && Flushes(k, op)
    ensures var f := Flushed(k, op);
      f.conf == k.conf && Span(Admitted(f)) <= 0xffff && FlushContext(f).resent == Resent(k.conf)
  {
    FlushForward(k, op);
    hide Ok, Admitted, Span;
  }

  /** Every flush of a fast-resend threshold with this product is one. */
  lemma ThresholdTames(k: Block, op: Op)
    requires Ok(k) && k.conf.mss <= 0x2_0000
    requires FitsThreshold(k.conf.mss, k.conf.fastResend)
    ensures TameFlush(k, op)
  {
    if Flushes(k, op) {
      hide Admitted, FlushContext, CountWhy, AdjustFits, Ok, Flushed, Span, Step, Flushes;
      var f := Flushed(k, op);
      FlushSpan(k, op);
      var buf, c := Admitted(f).buf, FlushContext(f);
      ThresholdFits(
        k.conf.mss, CountWhy(buf, c, Fast) > 0, CountWhy(buf, c, Timeout) > 0, Span(Admitted(f)), c.resent);
    }
  }

  /** A fast-resend threshold, disabled ones included, whose product with the segment size fits. */
  predicate FitsThreshold(mss: u32, resend: i32) {
    resend > 0 ==> (0x7fff + resend) * mss < 0x1_0000_0000
  }

  /** So a run is tame when every threshold that is set in it fits. */
  lemma {:induction false} ThresholdsTame(k: Block, ops: seq<Op>)
    requires Ok(k) && k.conf.mss <= 0x2_0000 && FitsThreshold(k.conf.mss, k.conf.fastResend)
    requires forall op :: op in ops && op.DoNoDelay? ==> op.resend < 0 || FitsThreshold(k.conf.mss, op.resend)
    ensures Tame(k, ops) && FitsThreshold(k.conf.mss, After(k, ops).conf.fastResend)
  {
    if ops == [] {
    } else {
      var front, op := ops[..|ops| - 1], ops[|ops| - 1];
      ThresholdsTame(k, front);
      AfterOk(k, front);
      ThresholdTames(After(k, front), op);
      assert op in ops;
      if !op.DoNoDelay? {
        OnlyUpdateMovesTimer(After(k, front), op);
      }
    }
  }

  predicate HasFlushed(k: Block, ops: seq<Op>)
    requires k.conf.mss > 0
  {
    ops != [] && (HasFlushed(k, ops[..|ops| - 1]) || Flushes(After(k, ops[..|ops| - 1]), ops[|ops| - 1]))
  }

  /** Before the first flush nothing is outstanding, so no acknowledgement can open the window. */
  ghost predicate Unstarted(k: Block) {
    Empty(k.win) && Span(k.snd) == 0
  }

  /** A flush establishes the balance if and only if its fast retransmission fits. */
  lemma FlushBalances(k: Block, op: Op)
    requires Ok(k) && Flushes(k, op) && (Balanced(k.win, k.conf.mss) || Unstarted(k))
    ensures Balanced(Step(k, op).win, k.conf.mss) <==> TameFlush(k, op)
    ensures k.conf.mss <= 0x1_0000 && (Steady(k.win, k.conf.mss) || Unstarted(k)) ==>
      (Steady(Step(k, op).win, k.conf.mss) <==> TameFlush(k, op))
    ensures Step(k, op).win.cwnd >= 1
  {
    var f := Flushed(k, op);
    var c, s := FlushContext(f), Admitted(f);
    FlushForward(k, op);
    FlushStep(k, op);
    assert f.conf == k.conf && f.win == k.win && FlushWindow(f) <= 0xffff && Span(s) <= 0xffff;
    var fast, lost := CountWhy(s.buf, c, Fast) > 0, CountWhy(s.buf, c, Timeout) > 0;
    assert Step(k, op).win == Adjust(k.win, k.conf.mss, fast, lost, Span(s), c.resent, FlushWindow(f));
    assert TameFlush(k, op) <==> AdjustFits(k.conf.mss, fast, lost, Span(s), c.resent);
    assert k.conf.mss > 0;
    hide Ok, Step, FlushState, CountWhy, Admitted, FlushContext, TameFlush, Balanced, Flushes, Span;
    AdjustExact(k.win, k.conf.mss, fast, lost, Span(s), c.resent, FlushWindow(f));
    if k.conf.mss <= 0x1_0000 && (Steady(k.win, k.conf.mss) || Unstarted(k)) {
      AdjustSteady(k.win, k.conf.mss, fast, lost, Span(s), c.resent, FlushWindow(f));
    }
  }

  lemma {:induction false} TakeFramesWin(k: Block, fs: seq<Frame>)
    ensures var w := TakeFrames(k, fs).win; w == k.win.(rmt := w.rmt)
  {
    if fs == [] {
    } else {
      TakeFramesWin(k, fs[..|fs| - 1]);
    }
  }

  lemma ConcludeShape(k: Block, newest: Newest, una: u32)
    requires k.conf.mss > 0
    ensures var k' := Conclude(k, newest, una);
      && k'.win == (if TimeDiff(k.snd.una, una) > 0 then Grow(k.win, k.conf.mss) else k.win)
      && k'.snd.una == k.snd.una && k'.snd.nxt == k.snd.nxt
  {
  }

  lemma InputShape(k: Block, d: seq<byte>)
    requires Ok(k)
    ensures var k' := Input(k, d).0;
      && Sub32(k'.snd.una, k.snd.una) <= Span(k.snd) && k'.snd.nxt == k.snd.nxt
      && (exists rmt: u16 :: k'.win == k.win.(rmt := rmt) || k'.win == Grow(k.win.(rmt := rmt), k.conf.mss))
      && (Span(k.snd) == 0 ==> exists rmt: u16 :: k'.win == k.win.(rmt := rmt))
  {
    var fs := Parse(k.conf.conv, d).frames;
    var m := TakeFrames(k, fs);
    TakeFramesWin(k, fs);
    TakeFramesConf(k, fs);
    Connection.TakeFramesAcked(k, fs);
    ConcludeShape(m, NewestOf(fs), k.snd.una);
    hide Conclude, Grow, NewestOf, TakeFrames, Parse, Ok;
    assert k.win == k.win.(rmt := k.win.rmt);
    assert m.win == k.win.(rmt := m.win.rmt);
  }

  lemma RmtIrrelevant(w: Window, rmt: u16, mss: u32)
    ensures Steady(w.(rmt := rmt), mss) == Steady(w, mss)
  {
  }

  /** One input call, whatever its bytes, keeps the balance and raises the window by at most 1 in slow
      start and at most 2 in congestion avoidance. */
  lemma InputBalances(k: Block, d: seq<byte>)
    requires Ok(k) && k.conf.mss <= 0x1_0000 && Steady(k.win, k.conf.mss)
    ensures var w, w' := k.win, Input(k, d).0.win;
      Steady(w', k.conf.mss) && w.cwnd <= w'.cwnd <= w.cwnd + (if w.cwnd < w.ssthresh then 1 else 2)
  {
    InputShape(k, d);
    assert k.conf.mss > 0;
    hide Ok, Input, Steady, Grow;
    var w' := Input(k, d).0.win;
    var rmt: u16 :| w' == k.win.(rmt := rmt) || w' == Grow(k.win.(rmt := rmt), k.conf.mss);
    RmtIrrelevant(k.win, rmt, k.conf.mss);
    GrowSteady(k.win.(rmt := rmt), k.conf.mss);
  }

  /** Every state of this run is in balance or before its first flush, and no input has shrunk the window. */
  ghost predicate Well(k: Block, ops: seq<Op>)
    requires k.conf.mss > 0
  {
    ops == []
    || var front, op := ops[..|ops| - 1], ops[|ops| - 1];
       && Well(k, front)
       && (Balanced(After(k, ops).win, k.conf.mss) || Unstarted(After(k, ops)))
       && (op.DoInput? ==> After(k, front).win.cwnd <= After(k, ops).win.cwnd)
  }

  lemma StepBalances(k: Block, op: Op)
    requires Ok(k) && k.conf.mss <= 0x1_0000
    requires Steady(k.win, k.conf.mss) || Unstarted(k)
    ensures var k' := Step(k, op);
      && (Balanced(k'.win, k.conf.mss) || Unstarted(k') <==> TameFlush(k, op))
      && (TameFlush(k, op) ==> Steady(k'.win, k.conf.mss) || Unstarted(k'))
      && (TameFlush(k, op) && (Steady(k.win, k.conf.mss) || Flushes(k, op)) ==> Steady(k'.win, k.conf.mss))
      && (op.DoInput? ==> k.win.cwnd <= k'.win.cwnd)
  {
    if Flushes(k, op) {
      FlushBalances(k, op);
    } else if op.DoInput? {
      if Steady(k.win, k.conf.mss) {
        InputBalances(k, op.data);
      } else {
        InputShape(k, op.data);
      }
    } else {
      OtherStep(k, op);
    }
  }

  /** Any run from a fresh block with segments of at most 2^16 bytes: in every state the window is at least
      1, the threshold at least 2 and the byte count strictly within one segment of the window, or
      nothing has been flushed yet, and no input shrinks the window, if and only if the byte counts that
      its fast retransmissions set fit 32 bits. */
  lemma {:induction false} BalancedOverRuns(k: Block, ops: seq<Op>)
    requires Ok(k) && k.conf.mss <= 0x1_0000 && Unstarted(k)
    ensures Well(k, ops) <==> Tame(k, ops)
    ensures Tame(k, ops) ==> Steady(After(k, ops).win, k.conf.mss) || Unstarted(After(k, ops))
    ensures Tame(k, ops) && HasFlushed(k, ops) ==> Steady(After(k, ops).win, k.conf.mss)
  {
    if ops == [] {
    } else {
      var front, op := ops[..|ops| - 1], ops[|ops| - 1];
      BalancedOverRuns(k, front);
      AfterOk(k, front);
      if Tame(k, front) {
        StepBalances(After(k, front), op);
      }
    }
  }
}
