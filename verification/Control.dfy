/** A whole control block as a value, and each public operation as a function on it. The class in
    module `Kcps` is proved to compute these functions; the theorems are about them. */
module Control {
  import opened Words
  import opened Wire
  import opened Fragments
  import opened Senders
  import opened Transmission
  import opened Receivers
  import opened Estimator
  import opened Congestion

  const MTU_MIN := 50
  const MTU_DEF: u32 := 1400
  const RTO_DEF: u32 := 200
  const RTO_MIN: u32 := 100
  const RTO_NDL: u32 := 30
  const WND_SND: u32 := 32
  const WND_RCV: u32 := 128
  const INTERVAL: u32 := 100
  const DEADLINK: u32 := 20
  const FASTACK_LIMIT: i32 := 5
  const PROBE_INIT: u32 := 7000
  const PROBE_LIMIT: u32 := 120000

  datatype Config = Config(
    conv: u32, mtu: u32, mss: u32, sndWnd: u32, nodelay: u32, interval: u32, minRto: u32,
    fastResend: i32, fastLimit: i32, noCwnd: bool, stream: bool, deadLink: u32)

  /** Zero-window probing: what the next flush must send, and when to ask again. */
  datatype Probe = Probe(askSend: bool, askTell: bool, at: u32, wait: u32)

  datatype Timer = Timer(current: u32, updated: bool, flushAt: u32)

  datatype Block = Block(
    conf: Config, snd: Sender, rcv: Receiver, rtt: Rtt, win: Window, probe: Probe, timer: Timer,
    xmit: u32, dead: bool)

  /** `ikcp_create` */
  function Create(conv: u32): Block {
    Block(
      Config(
        conv, MTU_DEF, MTU_DEF - OVERHEAD, WND_SND, 0, INTERVAL, RTO_MIN, 0, FASTACK_LIMIT, false, false, DEADLINK),
      Sender(0, 0, [], []), Receiver(0, WND_RCV, [], [], []), Rtt(0, 0, RTO_DEF),
      Window(WND_RCV, 0, 0, THRESH_MIN), Probe(false, false, 0, 0), Timer(0, false, INTERVAL), 0, false)
  }

  predicate Configured(c: Config) {
    && MTU_MIN <= c.mtu < 0x8000_0000 && c.mss == c.mtu - OVERHEAD
    && 10 <= c.interval <= 5000 && c.minRto <= RTO_MAX && c.sndWnd > 0
  }

  /** The wait before the next probe: none, or between 7 and 120 seconds. */
  predicate Probed(p: Probe) {
    p.wait == 0 || PROBE_INIT <= p.wait <= PROBE_LIMIT
  }

  /** What every operation keeps, whatever bytes arrive and however long the connection lasts. */
  ghost predicate Ok(k: Block) {
    && Configured(k.conf)
    && Ordered(k.snd) && Sendable(k.conf.conv, k.conf.mss, k.snd)
    && Windowed(k.rcv)
    && k.rtt.rto <= RTO_MAX && Probed(k.probe)
  }

  /** A created block is empty, with these settings: segments of 1376 bytes, windows of 32 and 128, an interval
      of 100 ms, timeouts of 200 ms and at least 100 ms, no fast retransmission but at most 5 of a segment, and
      20 transmissions before the link is given up. */
  lemma CreateOk(conv: u32)
    ensures Ok(Create(conv))
    ensures var k := Create(conv);
      && k.conf == Config(conv, 1400, 1376, 32, 0, 100, 100, 0, 5, false, false, 20)
      && k.snd == Sender(0, 0, [], []) && k.rcv == Receiver(0, 128, [], [], []) && k.rtt == Rtt(0, 0, 200)
      && k.win == Window(128, 0, 0, 2) && k.probe == Probe(false, false, 0, 0) && k.timer == Timer(0, false, 100)
      && k.xmit == 0 && !k.dead
  {
  }

  // ---- send and receive ----

  function SendBlock(k: Block, data: seq<byte>): (Block, int)
    requires k.conf.mss > 0
  {
    var r := Send(k.conf.mss, k.conf.stream, k.snd.queue, data);
    (k.(snd := k.snd.(queue := r.queue)), r.code)
  }

  function RecvBlock(k: Block, len: nat, peek: bool): (Block, Read) {
    var tell := k.probe.askTell || Reopens(k.rcv, len, peek);
    (k.(rcv := AfterRead(k.rcv, len, peek), probe := k.probe.(askTell := tell)), ReadFront(k.rcv.queue, len))
  }

  lemma SendOk(k: Block, data: seq<byte>)
    requires Ok(k)
    ensures Ok(SendBlock(k, data).0)
  {
    SendConserves(k.conf.mss, k.conf.stream, k.snd.queue, data);
  }

  /** A read notes that the peer is to be told of room exactly when it succeeds on a full queue and leaves room
      in it; apart from this it changes only what has been received. */
  lemma RecvTells(k: Block, len: nat, peek: bool)
    requires Ok(k)
    ensures var k' := RecvBlock(k, len, peek).0;
      && k' == k.(rcv := k'.rcv, probe := k.probe.(askTell := k'.probe.askTell))
      && (k'.probe.askTell <==>
            || k.probe.askTell
            || (0 <= PeekSize(k.rcv.queue) <= len && |k.rcv.queue| == k.rcv.wnd && |k'.rcv.queue| < k.rcv.wnd))
  {
    ReadMatchesPeek(k.rcv.queue, len);
    AfterReadWindowed(k.rcv, len, peek);
    WindowBounds(k.rcv);
    hide Ordered, Sendable, Drain, Windowed, Ascending, ReadFront, PeekSize;
  }

  lemma RecvOk(k: Block, len: nat, peek: bool)
    requires Ok(k)
    ensures Ok(RecvBlock(k, len, peek).0)
  {
    AfterReadWindowed(k.rcv, len, peek);
  }

  // ---- input ----

  /** The newest acknowledgement of a datagram, which decides the fast retransmissions. */
  datatype Newest = NoAck | Newest(sn: u32, ts: u32)

  function TakeNewest(n: Newest, f: Frame): Newest {
    if f.cmd != ACK then n
    else if n.NoAck? || (TimeDiff(f.sn, n.sn) > 0 && TimeDiff(f.ts, n.ts) > 0) then Newest(f.sn, f.ts)
    else n
  }

  /** An acknowledgement carries the time at which the segment was sent. */
  function TakeRtt(r: Rtt, current: u32, ts: u32, c: Config): Rtt {
    var rtt := TimeDiff(current, ts);
    if rtt >= 0 then Sample(r, rtt, c.interval, c.minRto) else r
  }

  function TakeFrame(k: Block, f: Frame): Block {
    var k1 := k.(win := k.win.(rmt := f.wnd), snd := TakeUna(k.snd, f.una));
    if f.cmd == ACK then k1.(rtt := TakeRtt(k.rtt, k.timer.current, f.ts, k.conf), snd := TakeAck(k1.snd, f.sn))
    else if f.cmd == PUSH then k1.(rcv := TakePush(k.rcv, f))
    else if f.cmd == WASK then k1.(probe := k.probe.(askTell := true))
    else k1
  }

  function TakeFrames(k: Block, fs: seq<Frame>): Block {
    if fs == [] then k else TakeFrame(TakeFrames(k, fs[..|fs| - 1]), fs[|fs| - 1])
  }

  function NewestOf(fs: seq<Frame>): Newest {
    if fs == [] then NoAck else TakeNewest(NewestOf(fs[..|fs| - 1]), fs[|fs| - 1])
  }

  /** The end of an input call: fast acknowledgement, then the congestion window if `snd_una` moved. */
  function Conclude(k: Block, newest: Newest, una: u32): Block
    requires k.conf.mss > 0
  {
    var k1 := if newest.NoAck? then k else k.(snd := ParseFastack(k.snd, newest.sn, newest.ts));
    if TimeDiff(k1.snd.una, una) > 0 then k1.(win := Grow(k1.win, k1.conf.mss)) else k1
  }

  /** `ikcp_input`: the frames before a malformed one have taken effect when the call fails, but the
      conclusion has not. */
  function Input(k: Block, data: seq<byte>): (Block, int)
    requires k.conf.mss > 0
  {
    if ToI32(|data|) < OVERHEAD then (k, -1)
    else
      var p := Parse(k.conf.conv, data);
      var k1 := TakeFrames(k, p.frames);
      (if p.code < 0 then k1 else TakeFramesConf(k, p.frames); Conclude(k1, NewestOf(p.frames), k.snd.una), p.code)
  }

  lemma {:induction false} TakeFramesConf(k: Block, fs: seq<Frame>)
    ensures TakeFrames(k, fs).conf == k.conf
  {
    if fs == [] {
    } else {
      TakeFramesConf(k, fs[..|fs| - 1]);
    }
  }

  lemma AckedSendable(k: Block, s: Sender)
    requires Ok(k) && Acked(k.snd, s)
    ensures Sendable(k.conf.conv, k.conf.mss, s)
  {
    forall i | 0 <= i < |s.buf|
      ensures Pushes(k.conf.conv, k.conf.mss, s.buf[i].frame)
    {
      assert s.buf[i] in k.snd.buf;
      var j :| 0 <= j < |k.snd.buf| && k.snd.buf[j] == s.buf[i];
    }
  }

  lemma SampleRto(r: Rtt, rtt: i32, interval: u32, minRto: u32)
    requires minRto <= RTO_MAX
    ensures minRto <= Sample(r, rtt, interval, minRto).rto <= RTO_MAX
  {
  }

  lemma TakeFrameOk(k: Block, f: Frame)
    requires Ok(k)
    ensures Ok(TakeFrame(k, f))
  {
    TakeUnaOrdered(k.snd, f.una);
    AckedSendable(k, TakeUna(k.snd, f.una));
    if f.cmd == ACK {
      var k1 := k.(win := k.win.(rmt := f.wnd), snd := TakeUna(k.snd, f.una));
      TakeAckOrdered(k1.snd, f.sn);
      AckedSendable(k1, TakeAck(k1.snd, f.sn));
      if TimeDiff(k.timer.current, f.ts) >= 0 {
        SampleRto(k.rtt, TimeDiff(k.timer.current, f.ts), k.conf.interval, k.conf.minRto);
      }
    } else if f.cmd == PUSH {
      TakePushWindowed(k.rcv, f);
    }
  }

  lemma {:induction false} TakeFramesOk(k: Block, fs: seq<Frame>)
    requires Ok(k)
    ensures Ok(TakeFrames(k, fs))
  {
    if fs == [] {
    } else {
      TakeFramesOk(k, fs[..|fs| - 1]);
      TakeFrameOk(TakeFrames(k, fs[..|fs| - 1]), fs[|fs| - 1]);
    }
  }

  lemma ConcludeOk(k: Block, newest: Newest, una: u32)
    requires Ok(k)
    ensures Ok(Conclude(k, newest, una))
  {
    if newest.Newest? {
      ParseFastackOrdered(k.snd, newest.sn, newest.ts);
    }
  }

  /** Arbitrary bytes keep the invariant. */
  lemma InputOk(k: Block, data: seq<byte>)
    requires Ok(k)
    ensures Ok(Input(k, data).0)
  {
    var fs := Parse(k.conf.conv, data).frames;
    TakeFramesOk(k, fs);
    ConcludeOk(TakeFrames(k, fs), NewestOf(fs), k.snd.una);
  }

  // ---- flush ----

  function Probing(p: Probe, rmt: u16, current: u32): Probe {
    if rmt != 0 then p.(at := 0, wait := 0)
    else if p.wait == 0 then p.(at := Add32(current, PROBE_INIT), wait := PROBE_INIT)
    else if TimeDiff(current, p.at) >= 0 then
      var base := Max(p.wait, PROBE_INIT);
      var wait := Min(Add32(base, base / 2), PROBE_LIMIT);
      p.(askSend := true, at := Add32(current, wait), wait := wait)
    else p
  }

  /** An open window ends the probing; while it is closed the wait never shrinks, a probe is only added
      when its time has come, and then the next one is at least 7 seconds away. */
  lemma ProbingBacksOff(p: Probe, rmt: u16, current: u32)
    requires Probed(p)
    ensures var p' := Probing(p, rmt, current);
      && Probed(p') && p'.askTell == p.askTell
      && (p'.wait == 0 <==> rmt != 0)
      && (rmt == 0 ==> p.wait <= p'.wait <= p.wait + Max(p.wait / 2, PROBE_INIT))
      && (p'.askSend && !p.askSend ==>
            rmt == 0 && p.wait > 0 && TimeDiff(current, p.at) >= 0 && TimeDiff(p'.at, current) >= PROBE_INIT)
  {
  }

  function Resent(c: Config): u32 {
    if c.fastResend > 0 then c.fastResend else 0xffff_ffff
  }

  function FlushContext(k: Block): Context {
    Context(
      k.conf.conv, k.timer.current, k.rtt.rto, if k.conf.nodelay == 0 then k.rtt.rto / 8 else 0, k.conf.nodelay,
      Resent(k.conf), k.conf.fastLimit, k.conf.deadLink, ToU16(Unused(k.rcv)), k.rcv.nxt)
  }

  function AckFrame(c: Context, cmd: u8, a: Ack): Frame {
    Frame(c.conv, cmd, 0, c.wnd, a.ts, a.sn, c.una, [])
  }

  function AckFrames(c: Context, acks: seq<Ack>): (r: seq<Frame>)
    ensures |r| == |acks| && forall i :: 0 <= i < |acks| ==> r[i] == AckFrame(c, ACK, acks[i])
  {
    seq(|acks|, i requires 0 <= i < |acks| => AckFrame(c, ACK, acks[i]))
  }

  /** Probe frames repeat the number and time of the last acknowledgement of this flush, if any. */
  function ProbeFrames(c: Context, p: Probe, acks: seq<Ack>): seq<Frame> {
    var last := if acks == [] then Ack(0, 0) else acks[|acks| - 1];
    (if p.askSend then [AckFrame(c, WASK, last)] else [])
    + (if p.askTell then [AckFrame(c, WINS, last)] else [])
  }

  /** The window that this flush may fill. */
  function FlushWindow(k: Block): u16 {
    var w := Min(k.conf.sndWnd, k.win.rmt);
    if k.conf.noCwnd then w else Min(k.win.cwnd, w)
  }

  /** The sender once the window is filled, before anything is sent. */
  function Admitted(k: Block): Sender {
    Admit(k.snd, FlushWindow(k), FlushContext(k))
  }

  /** Everything one flush sends, in order: acknowledgements, probes, data. */
  function FlushFrames(k: Block): seq<Frame> {
    var c := FlushContext(k);
    AckFrames(c, k.rcv.acks)
    + ProbeFrames(c, Probing(k.probe, k.win.rmt, k.timer.current), k.rcv.acks)
    + Emitted(Admitted(k).buf, c)
  }

  function FlushState(k: Block): Block {
    var c := FlushContext(k);
    var s := Admitted(k);
    var timeouts := CountWhy(s.buf, c, Timeout);
    k.(
      snd := s.(buf := SentAll(s.buf, c)),
      rcv := k.rcv.(acks := []),
      win := Adjust(k.win, k.conf.mss, CountWhy(s.buf, c, Fast) > 0, timeouts > 0, Span(s), c.resent, FlushWindow(k)),
      probe := Probing(k.probe, k.win.rmt, k.timer.current).(askSend := false, askTell := false),
      xmit := ToU32(k.xmit + timeouts),
      dead := k.dead || Dead(s.buf, c))
  }

  /** `ikcp_flush`, with the datagrams handed to the output callback. Before the first update it does
      nothing. */
  function Flush(k: Block): (Block, seq<seq<byte>>) {
    if !k.timer.updated then (k, []) else (FlushState(k), Bytes(Datagrams(k.conf.mtu, FlushFrames(k))))
  }

  lemma {:induction false} NumberAllPushes(fs: seq<Fragment>, sn: u32, c: Context, mss: u32)
    requires Sized(mss, fs)
    ensures forall i :: 0 <= i < |NumberAll(fs, sn, c)| ==> Pushes(c.conv, mss, NumberAll(fs, sn, c)[i].frame)
  {
    if fs == [] {
    } else {
      NumberAllPushes(fs[1..], Add32(sn, 1), c, mss);
    }
  }

  lemma AdmittedOk(k: Block)
    requires Ok(k)
    ensures Ordered(Admitted(k)) && Sendable(k.conf.conv, k.conf.mss, Admitted(k))
  {
    var c := FlushContext(k);
    var n := AdmitFills(k.snd, FlushWindow(k), c);
    NumberAllPushes(k.snd.queue[..n], k.snd.nxt, c, k.conf.mss);
  }

  ghost predicate AdmittedFits(k: Block) {
    forall i :: 0 <= i < |Admitted(k).buf| ==> Size(Admitted(k).buf[i].frame) <= k.conf.mtu
  }

  lemma AdmittedSizes(k: Block)
    requires Ok(k)
    ensures AdmittedFits(k) && k.conf.mtu >= MTU_MIN
  {
    AdmittedOk(k);
  }

  lemma SentSendable(conv: u32, mss: u32, s: Sender, c: Context)
    requires Sendable(conv, mss, s)
    ensures Sendable(conv, mss, s.(buf := SentAll(s.buf, c)))
  {
    forall i | 0 <= i < |s.buf|
      ensures Pushes(conv, mss, SentAll(s.buf, c)[i].frame)
    {
      SentKeepsIdentity(s.buf[i], c);
    }
  }

  lemma FlushOk(k: Block)
    requires Ok(k)
    ensures Ok(Flush(k).0)
  {
    var c := FlushContext(k);
    assert Windowed(k.rcv.(acks := []));
    hide Configured, Ordered, Sendable, Windowed, Admitted, Adjust, CountWhy, Dead, FlushContext, FlushWindow, ToU32;
    hide Datagrams, FlushFrames, Probing;
    ProbingBacksOff(k.probe, k.win.rmt, k.timer.current);
    AdmittedOk(k);
    SentAllOrdered(Admitted(k), c);
    SentSendable(k.conf.conv, k.conf.mss, Admitted(k), c);
  }

  /** A flush sends acknowledgements, probes and data. */
  lemma FlushFrameKinds(k: Block, f: Frame)
    requires f in FlushFrames(k)
    ensures var c := FlushContext(k);
      || (exists a :: a in k.rcv.acks && f == AckFrame(c, ACK, a))
      || (exists a :: f == AckFrame(c, WASK, a) || f == AckFrame(c, WINS, a))
      || f in Emitted(Admitted(k).buf, c)
  {
    var c := FlushContext(k);
    hide FlushContext, Admitted, Emitted, AckFrame, Probing;
    if f in AckFrames(c, k.rcv.acks) {
      var i :| 0 <= i < |k.rcv.acks| && f == AckFrames(c, k.rcv.acks)[i];
      assert k.rcv.acks[i] in k.rcv.acks;
    } else if f !in Emitted(Admitted(k).buf, c) {
      assert f in ProbeFrames(c, Probing(k.probe, k.win.rmt, k.timer.current), k.rcv.acks);
    }
  }

  /** What is emitted carries the time, the window and the edge of the flush. */
  lemma EmittedStamps(buf: seq<Segment>, c: Context, f: Frame)
    requires f in Emitted(buf, c)
    ensures f.ts == c.current && f.wnd == c.wnd && f.una == c.una
  {
    EmittedFrom(buf, c, f);
    hide Emitted, Add32, BackedOff;
  }

  lemma ContextStamps(k: Block)
    requires Ok(k)
    ensures var c := FlushContext(k);
      c.conv == k.conf.conv && c.una == k.rcv.nxt && c.wnd == k.rcv.wnd - |k.rcv.queue| && c.current == k.timer.current
  {
    UnusedRoom(k.rcv);
  }

  /** Every frame of a flush is of this conversation, carries the receiver's edge and its free room, and
      the data frames carry the time. */
  lemma FlushAnnounces(k: Block, f: Frame)
    requires Ok(k) && f in FlushFrames(k)
    ensures f.conv == k.conf.conv && f.una == k.rcv.nxt && f.wnd == k.rcv.wnd - |k.rcv.queue|
    ensures f.cmd == PUSH ==> f.ts == k.timer.current
  {
    var c := FlushContext(k);
    hide Ok, FlushFrames, FlushContext, Admitted, Emitted;
    ContextStamps(k);
    FlushFrameKinds(k, f);
    if f in Emitted(Admitted(k).buf, c) {
      EmittedPushes(k, f);
      EmittedStamps(Admitted(k).buf, c, f);
    }
  }

  /** A flush numbers fragments up to the smallest of the three windows and no further; what then still
      waits is held back by one of them. */
  lemma FlushFillsWindow(k: Block)
    requires Ok(k)
    ensures var n := Span(Admitted(k));
      && Span(k.snd) <= n
      && (n > Span(k.snd) ==> n <= k.conf.sndWnd && n <= k.win.rmt && (!k.conf.noCwnd ==> n <= k.win.cwnd))
      && (Admitted(k).queue != [] ==>
            n >= k.conf.sndWnd || n >= k.win.rmt || (!k.conf.noCwnd && n >= k.win.cwnd))
  {
    var m := AdmitFills(k.snd, FlushWindow(k), FlushContext(k));
    hide Admit, Ordered, Sendable, Windowed, Span;
  }

  lemma EmittedPushes(k: Block, f: Frame)
    requires Ok(k) && f in Emitted(Admitted(k).buf, FlushContext(k))
    ensures Pushes(k.conf.conv, k.conf.mss, f)
  {
    AdmittedOk(k);
    EmittedFrom(Admitted(k).buf, FlushContext(k), f);
  }

  lemma FlushFramesCarried(k: Block, f: Frame)
    requires Ok(k) && f in FlushFrames(k)
    ensures Carried(k.conf.conv, f) && Size(f) <= k.conf.mtu
  {
    var c := FlushContext(k);
    var fs := AckFrames(c, k.rcv.acks);
    if f in fs {
    } else if f in Emitted(Admitted(k).buf, c) {
      EmittedPushes(k, f);
    } else {
      assert f in ProbeFrames(c, Probing(k.probe, k.win.rmt, k.timer.current), k.rcv.acks);
    }
  }

  /** Flush and input undo each other: every datagram is non-empty and within the MTU, parses without
      error, and together they give back exactly the frames of the flush, in order. */
  lemma FlushRoundTrip(k: Block)
    requires Ok(k) && k.timer.updated
    ensures var ds := Flush(k).1;
      && (forall d :: d in ds ==> 0 < |d| <= k.conf.mtu && Parse(k.conf.conv, d).code == 0)
      && (forall d, f :: d in ds && f in Parse(k.conf.conv, d).frames ==> f in FlushFrames(k))
      && ParseAll(k.conf.conv, ds) == FlushFrames(k)
  {
    forall f | f in FlushFrames(k)
      ensures Carried(k.conf.conv, f) && Size(f) <= k.conf.mtu
    {
      FlushFramesCarried(k, f);
    }
    DatagramsRoundTrip(k.conf.conv, k.conf.mtu, FlushFrames(k));
  }

  // ---- clock ----

  /** `ikcp_update` up to the decision to flush: the new timer, and whether to flush. */
  function Tick(t: Timer, interval: u32, current: u32): (Timer, bool) {
    var flushAt := if t.updated then t.flushAt else current;
    var slap := TimeDiff(current, flushAt);
    var reset := slap >= 10000 || slap < -10000;
    var from := if reset then current else flushAt;
    if !reset && slap < 0 then (Timer(current, true, from), false)
    else
      var next := Add32(from, interval);
      (Timer(current, true, if TimeDiff(current, next) >= 0 then Add32(current, interval) else next), true)
  }

  function Update(k: Block, current: u32): (Block, seq<seq<byte>>) {
    var (t, flush) := Tick(k.timer, k.conf.interval, current);
    if flush then Flush(k.(timer := t)) else (k.(timer := t), [])
  }

  lemma UpdateOk(k: Block, current: u32)
    requires Ok(k)
    ensures Ok(Update(k, current).0)
  {
    FlushOk(k.(timer := Tick(k.timer, k.conf.interval, current).0));
  }

  // ---- configuration ----

  function ClampInterval(interval: i32): u32 {
    Bound(10, interval, 5000)
  }

  /** `ikcp_nodelay`: negative arguments leave a setting as it is. */
  function NoDelay(c: Config, nodelay: i32, interval: i32, resend: i32, nc: i32): Config {
    var c1 := if nodelay < 0 then c
              else c.(nodelay := nodelay, minRto := if nodelay != 0 then RTO_NDL else RTO_MIN);
    var c2 := if interval < 0 then c1 else c1.(interval := ClampInterval(interval));
    var c3 := if resend < 0 then c2 else c2.(fastResend := resend);
    if nc < 0 then c3 else c3.(noCwnd := nc != 0)
  }

  /** `ikcp_setmtu`: an MTU that cannot hold a header is refused. */
  function SetMtu(c: Config, mtu: i32): (Config, int) {
    if mtu < MTU_MIN then (c, -1) else (c.(mtu := mtu, mss := mtu - OVERHEAD), 0)
  }

  /** `ikcp_wndsize`: the receive window is never smaller than a whole message. */
  function WndSize(k: Block, sndwnd: i32, rcvwnd: i32): Block {
    k.(conf := if sndwnd > 0 then k.conf.(sndWnd := sndwnd) else k.conf,
       rcv := if rcvwnd > 0 then k.rcv.(wnd := Max(rcvwnd, WND_RCV)) else k.rcv)
  }

  /** Everything queued or outstanding still fits one datagram of the new size. */
  predicate MtuFits(k: Block, mtu: i32) {
    mtu >= MTU_MIN ==>
      && (forall i :: 0 <= i < |k.snd.queue| ==> |k.snd.queue[i].data| <= mtu - OVERHEAD)
      && (forall i :: 0 <= i < |k.snd.buf| ==> |k.snd.buf[i].frame.data| <= mtu - OVERHEAD)
  }

  /** A new MTU keeps the invariant exactly when everything in the block still fits. */
  lemma SetMtuOk(k: Block, mtu: i32)
    requires Ok(k)
    ensures Ok(k.(conf := SetMtu(k.conf, mtu).0)) <==> MtuFits(k, mtu)
    ensures SetMtu(k.conf, mtu) == if mtu < 50 then (k.conf, -1) else (k.conf.(mtu := mtu, mss := mtu - 24), 0)
  {
    hide Ordered, Windowed;
    var k' := k.(conf := SetMtu(k.conf, mtu).0);
    if Ok(k') && mtu >= MTU_MIN {
      assert forall i :: 0 <= i < |k.snd.buf| ==> Pushes(k.conf.conv, k'.conf.mss, k.snd.buf[i].frame);
    }
  }

  /** The new receive window holds what has been received, and lets nothing more move. */
  predicate WndFits(k: Block, rcvwnd: i32) {
    rcvwnd > 0 ==>
      var wnd := Max(rcvwnd, WND_RCV);
      && |k.rcv.queue| <= wnd <= 0xffff
      && (forall i :: 0 <= i < |k.rcv.buf| ==> Sub32(k.rcv.buf[i].sn, k.rcv.nxt) < wnd)
      && (|k.rcv.queue| == wnd || k.rcv.buf == [] || k.rcv.buf[0].sn != k.rcv.nxt)
  }

  /** New windows keep the invariant exactly when what has been received fits them. */
  lemma WndSizeOk(k: Block, sndwnd: i32, rcvwnd: i32)
    requires Ok(k)
    ensures Ok(WndSize(k, sndwnd, rcvwnd)) <==> WndFits(k, rcvwnd)
    ensures WndSize(k, sndwnd, rcvwnd)
         == k.(conf := k.conf.(sndWnd := if sndwnd > 0 then sndwnd else k.conf.sndWnd),
               rcv := k.rcv.(wnd := if rcvwnd <= 0 then k.rcv.wnd else if rcvwnd < 128 then 128 else rcvwnd))
  {
    hide Ordered, Sendable;
    var k' := WndSize(k, sndwnd, rcvwnd);
    assert FrameSns(k'.rcv.buf) == FrameSns(k.rcv.buf);
    if Ok(k') {
      assert forall i :: 0 <= i < |k.rcv.buf| ==> Sub32(FrameSns(k.rcv.buf)[i], k.rcv.nxt) < k'.rcv.wnd;
    }
    assert Configured(k'.conf);
  }

  lemma NoDelayOk(k: Block, nodelay: i32, interval: i32, resend: i32, nc: i32)
    requires Ok(k)
    ensures Ok(k.(conf := NoDelay(k.conf, nodelay, interval, resend, nc)))
    ensures NoDelay(k.conf, nodelay, interval, resend, nc).mtu == k.conf.mtu
  {
  }

  /** One argument of an option call: negative ones leave the setting alone. */
  function Chosen(kept: i32, asked: i32): i32 {
    if asked < 0 then kept else asked
  }

  /** Each argument that is not negative sets exactly its own setting, and every other setting stays. */
  lemma NoDelaySets(c: Config, nodelay: i32, interval: i32, resend: i32, nc: i32)
    ensures var c' := NoDelay(c, nodelay, interval, resend, nc);
      && (nodelay >= 0 ==> c'.nodelay == nodelay && c'.minRto == if nodelay == 0 then 100 else 30)
      && (nodelay < 0 ==> c'.nodelay == c.nodelay && c'.minRto == c.minRto)
      && (10 <= interval <= 5000 ==> c'.interval == interval) && (interval < 0 ==> c'.interval == c.interval)
      && (0 <= interval < 10 ==> c'.interval == 10) && (interval > 5000 ==> c'.interval == 5000)
      && c'.fastResend == Chosen(c.fastResend, resend) && (nc >= 0 ==> c'.noCwnd == (nc != 0))
      && (nc < 0 ==> c'.noCwnd == c.noCwnd)
      && c' == c.(nodelay := c'.nodelay, minRto := c'.minRto, interval := c'.interval,
                  fastResend := c'.fastResend, noCwnd := c'.noCwnd)
  {
  }

  /** Two option calls are one: for each argument the later call decides, unless it is negative. */
  lemma NoDelayLastWins(
      c: Config, a1: i32, b1: i32, d1: i32, e1: i32, a2: i32, b2: i32, d2: i32, e2: i32)
    ensures NoDelay(NoDelay(c, a1, b1, d1, e1), a2, b2, d2, e2)
         == NoDelay(c, Chosen(a1, a2), Chosen(b1, b2), Chosen(d1, d2), Chosen(e1, e2))
  {
    var first := NoDelay(c, a1, b1, d1, e1);
    var both := NoDelay(first, a2, b2, d2, e2);
    var one := NoDelay(c, Chosen(a1, a2), Chosen(b1, b2), Chosen(d1, d2), Chosen(e1, e2));
    NoDelaySets(c, a1, b1, d1, e1);
    NoDelaySets(first, a2, b2, d2, e2);
    NoDelaySets(c, Chosen(a1, a2), Chosen(b1, b2), Chosen(d1, d2), Chosen(e1, e2));
    hide NoDelay;
    assert both.nodelay == one.nodelay && both.minRto == one.minRto;
    assert both.interval == one.interval;
    assert both.fastResend == one.fastResend;
    assert both.noCwnd == one.noCwnd;
  }

  // ---- runs ----

  /** Everything a program can do to a control block once traffic has started. */
  datatype Op =
    | DoSend(data: seq<byte>)
    | DoRecv(len: nat, peek: bool)
    | DoInput(data: seq<byte>)
    | DoFlush
    | DoUpdate(current: u32)
    | DoNoDelay(nodelay: i32, interval: i32, resend: i32, nc: i32)

  function Step(k: Block, op: Op): Block
    requires k.conf.mss > 0
  {
    match op
    case DoSend(data) => SendBlock(k, data).0
    case DoRecv(len, peek) => RecvBlock(k, len, peek).0
    case DoInput(data) => Input(k, data).0
    case DoFlush => Flush(k).0
    case DoUpdate(current) => Update(k, current).0
    case DoNoDelay(nodelay, interval, resend, nc) => k.(conf := NoDelay(k.conf, nodelay, interval, resend, nc))
  }

  lemma StepOk(k: Block, op: Op)
    requires Ok(k)
    ensures Ok(Step(k, op))
  {
    match op
    case DoSend(data) => SendOk(k, data);
    case DoRecv(len, peek) => RecvOk(k, len, peek);
    case DoInput(data) => InputOk(k, data);
    case DoFlush => FlushOk(k);
    case DoUpdate(current) => UpdateOk(k, current);
    case DoNoDelay(nodelay, interval, resend, nc) => NoDelayOk(k, nodelay, interval, resend, nc);
  }
}
