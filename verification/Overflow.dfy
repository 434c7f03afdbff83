/** Where the byte count of the congestion window overflows: for every segment size above 2^16 a run of
    sends, flushes and acknowledgements after which the window is out of balance or has collapsed. */
module Overflow {
  import opened Words
  import opened Wire
  import opened Fragments
  import opened Senders
  import opened Transmission
  import opened Congestion
  import opened Control
  import opened Network
  import opened Runs
  import Connection
  import Seqs

  // ---- the window alone ----

  /** A window in congestion avoidance, on the way up under a peer that announces the largest window. */
  ghost predicate Climbing(w: Window, mss: u32) {
    && Balanced(w, mss) && w.ssthresh == 2 && 2 <= w.cwnd <= 0xfffe && 2 * mss <= w.incr
    && (mss == 0x1_0001 ==> w.incr % 0x1000 == 2)
  }

  /** The step without its clamp, for a byte count of at least one segment. */
  lemma AvoidByParts(w: Window, mss: u32, d: u32)
    requires 0 < mss <= w.incr && d == Div32(Mul32(mss, mss), w.incr)
    ensures var incr := ToU32(w.incr + d + mss / 16);
      Avoid(w, mss).incr == incr && Avoid(w, mss).ssthresh == w.ssthresh
      && Avoid(w, mss).cwnd in {w.cwnd, Sub32(Add32(incr, mss), 1) / mss}
  {
    hide Mul32;
  }

  lemma QuotientTimes(square: u32, incr: u32)
    requires incr > 0
    ensures Div32(square, incr) * incr <= square
  {
    assert square == incr * (square / incr) + square % incr;
  }

  lemma EdgeSquare(mss: u32)
    requires mss == 0x1_0001
    ensures Mul32(mss, mss) == 0x2_0001
  {
  }

  lemma SmallQuotient(square: u32, incr: u32)
    requires square < incr
    ensures Div32(square, incr) == 0
  {
    QuotientBelow(square, incr, 1);
  }

  lemma SquareQuotientSmall(mss: u32, incr: u32) returns (d: u32)
    requires 0x1_0000 < mss && 2 * mss <= incr
    ensures d == Div32(Mul32(mss, mss), incr)
    ensures d * incr < 0x1_0000_0000 && (mss == 0x1_0001 ==> d == 0)
  {
    hide Mul32, Div32;
    d := Div32(Mul32(mss, mss), incr);
    QuotientTimes(Mul32(mss, mss), incr);
    if mss == 0x1_0001 {
      EdgeSquare(mss);
      SmallQuotient(Mul32(mss, mss), incr);
    }
  }

  lemma AvoidValues(w: Window, mss: u32) returns (d: u32)
    requires 0x1_0000 < mss < 0x8000_0000 && Climbing(w, mss)
    ensures d * w.incr < 0x1_0000_0000 && (mss == 0x1_0001 ==> d == 0)
    ensures var incr := ToU32(w.incr + d + mss / 16);
      Avoid(w, mss).incr == incr && Avoid(w, mss).ssthresh == 2
      && Avoid(w, mss).cwnd in {w.cwnd, Sub32(Add32(incr, mss), 1) / mss}
  {
    assert 2 * mss <= w.incr && w.ssthresh == 2;
    hide *;
    d := SquareQuotientSmall(mss, w.incr);
    AvoidByParts(w, mss, d);
  }

  lemma QuotientSmallBy(d: u32, incr: u32)
    requires incr >= 0x2_0000 && incr * d < 0x1_0000_0000
    ensures d < 0x8000
  {
    if d >= 0x8000 {
      ProductBound(0x2_0000, 0x8000, incr, d);
    }
  }

  lemma WrapIsSmall(incr: u32, d: u32, mss: u32)
    requires 0x1_0000 < mss < 0x8000_0000 && 2 * mss <= incr && d * incr < 0x1_0000_0000
    requires incr + d + mss / 16 >= 0x1_0000_0000
    ensures ToU32(incr + d + mss / 16) < mss
  {
    QuotientSmallBy(d, incr);
    if d > 1 {
      ProductBound(2, 0x8000_0000, d, incr);
    }
  }

  /** A byte count that has wrapped is below one segment, so no window that has not shrunk goes with it. */
  lemma SmallIsBad(c: int, w': Window, mss: u32)
    requires 0x1_0000 < mss < 0x8000_0000 && c >= 2 && w'.incr < mss
    requires w'.cwnd in {c, Sub32(Add32(w'.incr, mss), 1) / mss}
    ensures !(Balanced(w', mss) && c <= w'.cwnd)
  {
    var x := Sub32(Add32(w'.incr, mss), 1);
    assert x < 2 * mss;
    QuotientBelow(x, mss, 2);
    SmallFactor(w'.cwnd - 1, mss, if w'.cwnd >= 2 then 1 else -1);
  }

  lemma QuotientBelow(x: int, m: int, c: int)
    requires m > 0 && 0 <= x < c * m
    ensures x / m < c
  {
    var q := x / m;
    assert x == m * q + x % m;
    BelowFactor(q, c, m);
  }

  /** The one byte count with which the window could come to rest at its largest value. */
  lemma LargestCeil(incr: u32, mss: u32)
    requires mss > 0x1_0000 && 0xfffe * mss < incr && Sub32(Add32(incr, mss), 1) / mss >= 0xffff
    ensures mss == 0x1_0001 && incr == 0xfffe_ffff
  {
    var x := Sub32(Add32(incr, mss), 1);
    if incr + mss - 1 >= 0x1_0000_0000 {
      QuotientBelow(x, mss, 1);
      assert false;
    }
    var q := x / mss;
    assert x == mss * q + x % mss;
    ProductBound(0xffff, mss, q, mss);
  }

  lemma NeverLargest(c: int, w': Window, mss: u32)
    requires mss > 0x1_0000 && c <= 0xfffe && Balanced(w', mss)
    requires w'.cwnd in {c, Sub32(Add32(w'.incr, mss), 1) / mss}
    requires mss == 0x1_0001 ==> w'.incr % 0x1000 == 2
    ensures w'.cwnd <= 0xfffe
  {
    if w'.cwnd >= 0xffff {
      ProductBound(0xfffe, mss, w'.cwnd - 1, mss);
      LargestCeil(w'.incr, mss);
      assert false;
    }
  }

  lemma NoClamp(c: int, w': Window, mss: u32)
    requires mss > 0x1_0000 && c <= 0xfffe && w'.cwnd in {c, Sub32(Add32(w'.incr, mss), 1) / mss}
    ensures w'.cwnd <= 0xffff
  {
    QuotientBelow(Sub32(Add32(w'.incr, mss), 1), mss, 0x1_0000);
  }

  lemma GrowAvoids(w: Window, mss: u32)
    requires mss > 0 && w.ssthresh <= w.cwnd < 0xffff && Avoid(w.(rmt := 0xffff), mss).cwnd <= 0xffff
    ensures Grow(w.(rmt := 0xffff), mss) == Avoid(w.(rmt := 0xffff), mss)
  {
  }

  lemma ClimbsOn(w: Window, mss: u32, d: u32, w': Window)
    requires mss > 0x1_0000 && Climbing(w, mss) && Balanced(w', mss) && w'.ssthresh == 2 && w.cwnd <= w'.cwnd
    requires w.incr + d + mss / 16 < 0x1_0000_0000 && w'.incr == w.incr + d + mss / 16
    requires mss == 0x1_0001 ==> d == 0
    requires w'.cwnd in {w.cwnd, Sub32(Add32(w'.incr, mss), 1) / mss}
    ensures Climbing(w', mss) && w.incr + 0x1000 <= w'.incr
  {
    NeverLargest(w.cwnd, w', mss);
    hide Balanced, Sub32, Add32;
  }

  /** One step up: if it goes well it adds at least 2^12 to the byte count and the climb goes on. */
  lemma ClimbStep(w: Window, mss: u32)
    requires 0x1_0000 < mss < 0x8000_0000 && Climbing(w, mss)
    requires var w' := Grow(w.(rmt := 0xffff), mss); Balanced(w', mss) && w.cwnd <= w'.cwnd
    ensures var w' := Grow(w.(rmt := 0xffff), mss); Climbing(w', mss) && w.incr + 0x1000 <= w'.incr
  {
    var w0 := w.(rmt := 0xffff);
    assert Climbing(w0, mss) && 2 <= w.cwnd <= 0xfffe && 2 * mss <= w.incr && w.ssthresh == 2;
    hide Balanced, Climbing, Avoid, Grow, ToU32, Add32, Sub32;
    var d := AvoidValues(w0, mss);
    var w1 := Avoid(w0, mss);
    NoClamp(w.cwnd, w1, mss);
    GrowAvoids(w, mss);
    if w.incr + d + mss / 16 >= 0x1_0000_0000 {
      WrapIsSmall(w.incr, d, mss);
      SmallIsBad(w.cwnd, w1, mss);
      assert false;
    }
    ExactSum(w.incr + d + mss / 16);
    ClimbsOn(w0, mss, d, w1);
  }

  lemma ExactSum(x: nat)
    requires x < 0x1_0000_0000
    ensures ToU32(x) == x
  {
  }

  /** The first step, from one segment. */
  lemma FirstStep(w: Window, mss: u32)
    requires 0x1_0000 < mss < 0x8000_0000 && w.cwnd == 1 && w.incr == mss && w.ssthresh == 2
    ensures Climbing(Grow(w.(rmt := 0xffff), mss), mss)
  {
  }

  // ---- one round of a block ----

  /** Nothing waits and nothing is outstanding. */
  ghost predicate Calm(k: Block) {
    && Ok(k) && k.timer.updated && !k.conf.stream && k.snd.queue == [] && k.snd.buf == [] && k.win.rmt > 0
  }

  function Loaded(k: Block): Block {
    k.(snd := k.snd.(queue := [Fragment(0, [0])]))
  }

  lemma Loads(k: Block)
    requires Calm(k)
    ensures Ok(k) && Step(k, DoSend([0])) == Loaded(k) && Ok(Loaded(k))
  {
    SendOk(k, [0]);
    assert [0][0..] == [0] && [0][..1] == [0];
    assert Split(k.conf.mss, false, 1, [0]) == [Fragment(0, [0])];
    assert [] + [Fragment(0, [0])] == [Fragment(0, [0])];
  }

  /** One new segment is neither lost nor passed over. */
  lemma OneNew(g: Segment, c: Context)
    requires g.xmit == 0
    ensures CountWhy([g], c, Fast) == 0 && CountWhy([g], c, Timeout) == 0
  {
    assert CountTo([g], c, Fast, 0) == 0 && CountTo([g], c, Timeout, 0) == 0;
  }

  lemma LoadedRoom(k: Block)
    requires Calm(k) && k.win.cwnd >= 1
    ensures Ordered(Loaded(k).snd) && Span(k.snd) == 0 && 1 <= FlushWindow(Loaded(k)) <= 0xffff
    ensures k.snd.buf == [] && k.snd.queue == []
  {
  }

  lemma OneNumbered(g: Fragment, sn: u32, c: Context)
    ensures NumberAll([g][..1], sn, c) == [Numbered(g, sn, c)] && [g][1..] == []
  {
    assert NumberAll([], Add32(sn, 1), c) == [];
    assert [g][..1] == [g];
  }

  lemma OneFits(k: Block) returns (g: Segment)
    requires Calm(k) && k.win.cwnd >= 1
    ensures Ok(Loaded(k)) && Admitted(Loaded(k)) == k.snd.(nxt := Add32(k.snd.nxt, 1), buf := [g])
    ensures g.xmit == 0
  {
    hide *;
    Loads(k);
    LoadedRoom(k);
    LoadedSender(k);
    g := OneAdmitted(Loaded(k).snd, k.snd, FlushWindow(Loaded(k)), FlushContext(Loaded(k)));
    AdmittedIs(Loaded(k));
  }

  lemma LoadedSender(k: Block)
    ensures Loaded(k).snd == k.snd.(queue := [Fragment(0, [0])])
  {
  }

  lemma AdmittedIs(k: Block)
    ensures Admitted(k) == Admit(k.snd, FlushWindow(k), FlushContext(k))
  {
  }

  lemma OneAdmitted(s: Sender, s0: Sender, cwnd: u32, c: Context) returns (g: Segment)
    requires Ordered(s) && Span(s0) == 0 && s0.buf == [] && s0.queue == [] && s == s0.(queue := [Fragment(0, [0])])
    requires 1 <= cwnd <= 0xffff
    ensures Admit(s, cwnd, c) == s0.(nxt := Add32(s0.nxt, 1), buf := [g]) && g.xmit == 0
  {
    hide Ordered, NumberAll, Add32, Admit, Ascending;
    var n := AdmitFills(s, cwnd, c);
    g := Numbered(Fragment(0, [0]), s.nxt, c);
    OneNumbered(Fragment(0, [0]), s.nxt, c);
  }

  lemma FlushOne(k: Block, g: Segment)
    requires k.timer.updated && k.win.cwnd >= 1 && Admitted(k).buf == [g] && g.xmit == 0
    ensures var k' := Flush(k).0;
      && k'.conf == k.conf && k'.timer == k.timer && k'.win == k.win
      && k'.snd.(buf := []) == Admitted(k).(buf := []) && |k'.snd.buf| == 1
  {
    OneNew(g, FlushContext(k));
    hide Admitted, FlushContext, CountWhy, Dead, Probing, FlushFrames, Datagrams, Bytes, FlushWindow, ToU32;
  }

  lemma OneTame(k: Block, g: Segment)
    requires k.timer.updated && Admitted(k).buf == [g] && g.xmit == 0
    ensures TameFlush(k, DoFlush)
  {
    OneNew(g, FlushContext(k));
  }

  /** The flush numbers the fragment and leaves the window as it is. */
  lemma LoadedFlush(k: Block)
    requires Calm(k) && k.win.cwnd >= 1
    ensures Ok(Loaded(k)) && TameFlush(Loaded(k), DoFlush)
    ensures var k2 := Step(Loaded(k), DoFlush);
      && Ok(k2) && k2.conf == k.conf && k2.timer == k.timer && k2.win == k.win
      && k2.snd.queue == [] && |k2.snd.buf| == 1 && k2.snd.una == k.snd.nxt && k2.snd.nxt == Add32(k.snd.nxt, 1)
  {
    hide *;
    var g := OneFits(k);
    var k1 := Loaded(k);
    LoadedParts(k);
    FlushOk(k1);
    OneTame(k1, g);
    FlushOne(k1, g);
  }

  lemma LoadedParts(k: Block)
    requires Calm(k)
    ensures var k1 := Loaded(k);
      && k1.conf == k.conf && k1.timer == k.timer && k1.win == k.win && k1.timer.updated && k1.conf.mss > 0
      && Step(k1, DoFlush) == Flush(k1).0
    ensures k.snd.una == k.snd.nxt && k.snd.queue == []
  {
    hide Flush, Sendable;
  }

  /** The acknowledgement of everything, with the largest window. */
  function AckAll(k: Block): Frame {
    Frame(k.conf.conv, WINS, 0, 0xffff, 0, 0, k.snd.nxt, [])
  }

  lemma OneParsed(conv: u32, f: Frame)
    requires Carried(conv, f) && f.data == []
    ensures OVERHEAD == |EncodeAll([f])| && Parse(conv, EncodeAll([f])) == Parsed([f], 0)
  {
    EncodeAllAppend([], f);
    assert [] + [f] == [f];
    RoundTrip(conv, [f]);
  }

  lemma AllAcked(k: Block)
    requires Ok(k) && |k.snd.buf| == 1 && Sub32(k.snd.nxt, k.snd.una) == 1
    ensures TakeFrames(k, [AckAll(k)])
         == k.(win := k.win.(rmt := 0xffff), snd := k.snd.(una := k.snd.nxt, buf := []))
  {
    assert Sns(k.snd.buf)[0] == k.snd.una;
    assert TimeDiff(k.snd.nxt, k.snd.una) == 1;
    assert k.snd.buf[1..] == [];
    assert ParseUna(k.snd.buf, k.snd.nxt) == [];
    assert [AckAll(k)][..0] == [];
    assert TakeFrames(k, []) == k;
  }

  /** Its input clears the buffer and grows the window by one step. */
  lemma AckedInput(k: Block)
    requires Ok(k) && |k.snd.buf| == 1 && Sub32(k.snd.nxt, k.snd.una) == 1
    ensures var k' := Input(k, EncodeAll([AckAll(k)])).0;
      && k'.win == Grow(k.win.(rmt := 0xffff), k.conf.mss)
      && k'.conf == k.conf && k'.timer == k.timer && k'.snd == k.snd.(una := k.snd.nxt, buf := [])
  {
    var f := AckAll(k);
    OneParsed(k.conf.conv, f);
    AllAcked(k);
    assert [f][..0] == [];
    assert NewestOf([]) == NoAck;
    assert NewestOf([f]) == NoAck;
    assert TimeDiff(k.snd.nxt, k.snd.una) == 1;
    assert k.conf.mss > 0;
    hide Ok, Grow, Parse, EncodeAll, TakeFrames, NewestOf;
  }

  lemma GrowKeepsRmt(w: Window, mss: u32)
    requires mss > 0
    ensures Grow(w, mss).rmt == w.rmt
  {
  }

  /** One message sent, flushed and acknowledged: the window makes one step. */
  lemma Round(k: Block) returns (d: seq<byte>)
    requires Calm(k) && k.win.cwnd >= 1
    ensures Ok(k) && TameFlush(Step(k, DoSend([0])), DoFlush)
    ensures Step(k, DoSend([0])).conf.mss > 0 && Step(Step(k, DoSend([0])), DoFlush).conf.mss > 0
    ensures var k' := Step(Step(Step(k, DoSend([0])), DoFlush), DoInput(d));
      && Calm(k') && k'.win == Grow(k.win.(rmt := 0xffff), k.conf.mss) && k'.conf == k.conf
  {
    hide *;
    Loads(k);
    LoadedFlush(k);
    CalmParts(k);
    OkParts(Loaded(k));
    var k2 := Step(Loaded(k), DoFlush);
    d := EncodeAll([AckAll(k2)]);
    OkParts(k2);
    AddThenSub(k.snd.nxt, 1);
    InputOk(k2, d);
    GrowKeepsRmt(k.win.(rmt := 0xffff), k.conf.mss);
    AckedInput(k2);
    InputStep(k2, d);
    CalmAgain(Input(k2, d).0);
  }

  lemma CalmParts(k: Block)
    requires Calm(k)
    ensures Ok(k) && !k.conf.stream && k.timer.updated && k.conf.mss > 0
  {
  }

  lemma OkParts(k: Block)
    requires Ok(k)
    ensures k.conf.mss > 0
  {
  }

  lemma InputStep(k: Block, d: seq<byte>)
    requires k.conf.mss > 0
    ensures Step(k, DoInput(d)) == Input(k, d).0
  {
  }

  lemma CalmAgain(k: Block)
    requires Ok(k) && k.timer.updated && !k.conf.stream && k.snd.queue == [] && k.snd.buf == [] && k.win.rmt > 0
    ensures Calm(k)
  {
  }

  // ---- the run ----

  lemma RunSnoc(k: Block, ops: seq<Op>, op: Op)
    requires k.conf.mss > 0
    ensures After(k, ops).conf.mss > 0 && After(k, ops + [op]) == Step(After(k, ops), op)
    ensures Tame(k, ops + [op]) <==> Tame(k, ops) && TameFlush(After(k, ops), op)
    ensures Well(k, ops + [op]) ==>
      && Well(k, ops) && (Balanced(After(k, ops + [op]).win, k.conf.mss) || Unstarted(After(k, ops + [op])))
      && (op.DoInput? ==> After(k, ops).win.cwnd <= After(k, ops + [op]).win.cwnd)
  {
    Seqs.TakeAppend(ops, [op]);
  }

  /** A run with one more round. */
  lemma RunRound(k: Block, ops: seq<Op>) returns (ops': seq<Op>)
    requires k.conf.mss > 0 && Tame(k, ops) && Calm(After(k, ops)) && After(k, ops).win.cwnd >= 1
    ensures Tame(k, ops')
    ensures var m, m' := After(k, ops), After(k, ops');
      && Calm(m') && m'.win == Grow(m.win.(rmt := 0xffff), k.conf.mss)
      && (Well(k, ops') ==> Balanced(m'.win, k.conf.mss) && m.win.cwnd <= m'.win.cwnd)
  {
    var m := After(k, ops);
    var d := Round(m);
    var ops1 := ops + [DoSend([0])];
    var ops2 := ops1 + [DoFlush];
    ops' := ops2 + [DoInput(d)];
    RunSnoc(k, ops, DoSend([0]));
    RunSnoc(k, ops1, DoFlush);
    RunSnoc(k, ops2, DoInput(d));
    assert TameFlush(m, DoSend([0])) && TameFlush(After(k, ops2), DoInput(d));
    assert After(k, ops1).win == m.win;
    hide Ok, Calm, Step, Balanced, Grow, TameFlush, Tame, Well, After;
    FlushKeepsCwnd(m);
  }

  lemma FlushKeepsCwnd(k: Block)
    requires Calm(k) && k.win.cwnd >= 1
    ensures Step(k, DoSend([0])).conf.mss > 0 && Step(Step(k, DoSend([0])), DoFlush).win == k.win
  {
    Loads(k);
    LoadedFlush(k);
  }

  /** A block before its first flush, with segments of this size. */
  ghost predicate Begins(k: Block, mss: u32) {
    Ok(k) && Unstarted(k) && k.conf.mss == mss
  }

  /** A flush with nothing to send. */
  lemma EmptyFlush(f: Block)
    requires f.snd == Sender(0, 0, [], [])
    ensures var k' := FlushState(f);
      && k'.conf == f.conf && k'.timer == f.timer && k'.snd == f.snd
      && k'.win == Adjust(f.win, f.conf.mss, false, false, 0, Resent(f.conf), FlushWindow(f))
    ensures Admitted(f) == f.snd && FlushContext(f).resent == Resent(f.conf)
    ensures CountWhy([], FlushContext(f), Fast) == 0
  {
    assert Admitted(f) == f.snd;
    hide Admitted, Probing, FlushWindow, ToU16;
  }

  lemma EmptyTame(k: Block, op: Op)
    requires k.snd == Sender(0, 0, [], []) && Flushed(k, op).snd == k.snd
    ensures TameFlush(k, op)
  {
    EmptyFlush(Flushed(k, op));
    hide Admitted, FlushContext, Flushed, Flushes;
  }

  lemma FirstTick(k: Block)
    requires !k.timer.updated
    ensures Flushes(k, DoUpdate(0)) && Flushed(k, DoUpdate(0)).timer.updated
    ensures var f := Flushed(k, DoUpdate(0)); f.snd == k.snd && f.win == k.win && f.conf == k.conf
  {
  }

  /** The first update starts the clock and opens the window for one segment. */
  lemma FirstFlush(k: Block)
    requires Ok(k) && !k.timer.updated && k.snd == Sender(0, 0, [], []) && k.win == Window(WND_RCV, 0, 0, 2)
    requires !k.conf.stream
    ensures TameFlush(k, DoUpdate(0)) && Calm(Step(k, DoUpdate(0)))
    ensures Step(k, DoUpdate(0)).win == Window(WND_RCV, 1, k.conf.mss, 2)
  {
    hide *;
    var f := Flushed(k, DoUpdate(0));
    OkParts(k);
    StepOk(k, DoUpdate(0));
    FirstTick(k);
    FlushStep(k, DoUpdate(0));
    EmptyFlush(f);
    EmptyTame(k, DoUpdate(0));
    FirstWindow(k.conf.mss, Resent(f.conf), FlushWindow(f));
    CalmAgain(Step(k, DoUpdate(0)));
  }

  lemma FirstWindow(mss: u32, resent: u32, cwnd: u32)
    ensures Adjust(Window(WND_RCV, 0, 0, 2), mss, false, false, 0, resent, cwnd) == Window(WND_RCV, 1, mss, 2)
    ensures WND_RCV > 0
  {
  }

  /** A block of this segment size, and its first update. */
  lemma Start(mss: u32) returns (k: Block)
    requires MTU_MIN - OVERHEAD <= mss < 0x8000_0000 - OVERHEAD
    ensures Begins(k, mss) && Tame(k, [DoUpdate(0)]) && Calm(After(k, [DoUpdate(0)]))
    ensures After(k, [DoUpdate(0)]).win == Window(WND_RCV, 1, mss, 2)
  {
    k := Connection.Open(0, false, FASTACK_LIMIT, DEADLINK, mss + OVERHEAD, WND_SND, WND_RCV);
    Connection.OpenIsFresh(0, false, FASTACK_LIMIT, DEADLINK, mss + OVERHEAD, WND_SND, WND_RCV);
    assert Ok(k) && k.conf.mss == mss && k.win == Window(WND_RCV, 0, 0, 2) && Unstarted(k);
    FirstFlush(k);
    RunSnoc(k, [], DoUpdate(0));
    assert [] + [DoUpdate(0)] == [DoUpdate(0)];
  }

  /** As long as all goes well the byte count grows, so at some point it does not. */
  lemma {:induction false} Diverges(k: Block, ops: seq<Op>, mss: u32) returns (ops': seq<Op>)
    requires 0x1_0000 < mss < 0x8000_0000 && Begins(k, mss) && Tame(k, ops)
    requires Calm(After(k, ops)) && Climbing(After(k, ops).win, mss)
    ensures Tame(k, ops') && !Well(k, ops')
    decreases 0x1_0000_0000 - After(k, ops).win.incr
  {
    assert k.conf.mss == mss;
    var w := After(k, ops).win;
    assert w.cwnd >= 2;
    hide *;
    ops' := RunRound(k, ops);
    if Well(k, ops') {
      ClimbStep(w, mss);
      ops' := Diverges(k, ops', mss);
    }
  }

  /** For every segment size above 2^16 some tame run ends with a window out of balance, or with an
      acknowledgement that has shrunk it. */
  lemma OverflowReached(mss: u32) returns (k: Block, ops: seq<Op>)
    requires 0x1_0000 < mss < 0x8000_0000 - OVERHEAD
    ensures Begins(k, mss) && Tame(k, ops) && !Well(k, ops)
  {
    k := Start(mss);
    ops := RunRound(k, [DoUpdate(0)]);
    FirstStep(After(k, [DoUpdate(0)]).win, mss);
    ops := Diverges(k, ops, mss);
  }

  /** The range of the congestion window: for every segment size that an MTU can give, every tame run of
      every fresh block keeps the balance and shrinks the window on no input, if and only if the size is at
      most 2^16. */
  lemma SegmentSizeExact(mss: u32)
    requires 0 < mss < 0x8000_0000 - OVERHEAD
    ensures (forall k, ops :: Begins(k, mss) && Tame(k, ops) ==> Well(k, ops)) <==> mss <= 0x1_0000
  {
    if mss <= 0x1_0000 {
      forall k, ops | Begins(k, mss) && Tame(k, ops)
        ensures Well(k, ops)
      {
        BalancedOverRuns(k, ops);
      }
    } else {
      var k, ops := OverflowReached(mss);
    }
  }
}
