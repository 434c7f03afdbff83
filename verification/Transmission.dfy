/** The data part of one flush: queued segments get numbers while the window has room, and each
    numbered segment is sent for the first time, on timeout, or after it was passed over. */
module Transmission {
  import opened Words
  import opened Wire
  import opened Fragments
  import opened Senders
  import Seqs

  /** What one flush reads while it handles data: the clock, the retransmission settings, and the
      header fields `wnd` and `una` that every frame of the flush carries. */
  datatype Context = Context(
    conv: u32, current: u32, rto: u32, rtoMin: u32, nodelay: u32,
    resent: u32, fastLimit: i32, deadLink: u32, wnd: u16, una: u32)

  // ---- numbering ----

  function Numbered(f: Fragment, sn: u32, c: Context): Segment {
    Segment(Frame(c.conv, PUSH, f.frg, c.wnd, c.current, sn, c.una, f.data), c.current, c.rto, 0, 0)
  }

  /** The head of the queue moves to the buffer under the next number. */
  function AdmitOne(s: Sender, c: Context): Sender
    requires s.queue != []
  {
    Sender(s.una, Add32(s.nxt, 1), s.queue[1..], s.buf + [Numbered(s.queue[0], s.nxt, c)])
  }

  function Admit(s: Sender, cwnd: u32, c: Context): Sender
    decreases |s.queue|
  {
    if TimeDiff(s.nxt, Add32(s.una, cwnd)) < 0 && s.queue != [] then Admit(AdmitOne(s, c), cwnd, c) else s
  }

  lemma AdmitOneOrdered(s: Sender, c: Context)
    requires Ordered(s) && Span(s) < 0xffff && s.queue != []
    ensures Ordered(AdmitOne(s, c)) && Span(AdmitOne(s, c)) == Span(s) + 1
  {
    var s' := AdmitOne(s, c);
    assert Sns(s'.buf) == Sns(s.buf) + [s.nxt];
    if s.buf != [] {
      assert s'.buf[0] == s.buf[0];
    }
  }

  function NumberAll(fs: seq<Fragment>, sn: u32, c: Context): seq<Segment> {
    if fs == [] then [] else [Numbered(fs[0], sn, c)] + NumberAll(fs[1..], Add32(sn, 1), c)
  }

  lemma {:induction false} NumberAllLength(fs: seq<Fragment>, sn: u32, c: Context)
    ensures |NumberAll(fs, sn, c)| == |fs|
  {
    if fs == [] {
    } else {
      NumberAllLength(fs[1..], Add32(sn, 1), c);
    }
  }

  lemma {:induction false} NumberAllAt(fs: seq<Fragment>, sn: u32, c: Context, i: nat)
    requires i < |fs| < 0x1_0000_0000
    ensures |NumberAll(fs, sn, c)| == |fs| && NumberAll(fs, sn, c)[i] == Numbered(fs[i], Add32(sn, i), c)
  {
    if i > 0 {
      NumberAllAt(fs[1..], Add32(sn, 1), c, i - 1);
    } else if |fs| > 1 {
      NumberAllAt(fs[1..], Add32(sn, 1), c, 0);
    }
  }

  lemma AdmitOneStep(s: Sender, c: Context, k: nat)
    requires 0 < k <= |s.queue|
    ensures var t := AdmitOne(s, c);
      && t.queue[k - 1..] == s.queue[k..]
      && t.buf + NumberAll(t.queue[..k - 1], t.nxt, c) == s.buf + NumberAll(s.queue[..k], s.nxt, c)
  {
    var t := AdmitOne(s, c);
    assert s.queue[..k][1..] == t.queue[..k - 1];
    Seqs.Assoc(s.buf, [Numbered(s.queue[0], s.nxt, c)], NumberAll(t.queue[..k - 1], t.nxt, c));
  }

  lemma AdmitNone(s: Sender, c: Context)
    ensures s.queue == s.queue[0..] && s.buf == s.buf + NumberAll(s.queue[..0], s.nxt, c) && Add32(s.nxt, 0) == s.nxt
  {
  }

  /** The loop goes on exactly while fewer than `cwnd` numbers are outstanding. */
  lemma RoomLeft(s: Sender, cwnd: u32)
    requires Span(s) <= 0xffff && cwnd <= 0xffff
    ensures TimeDiff(s.nxt, Add32(s.una, cwnd)) == Span(s) - cwnd
  {
    TimeDiffInWindow(s.una, s.nxt, Add32(s.una, cwnd));
  }

  lemma AddOneMore(x: u32, k: nat)
    requires k < 0xffff
    ensures Add32(Add32(x, 1), k) == Add32(x, k + 1)
  {
  }

  /** The window that the flush fills: numbers are assigned one after the other until `cwnd` of them
      are outstanding or the queue is empty. */
  lemma {:induction false} AdmitFills(s: Sender, cwnd: u32, c: Context) returns (k: nat)
    requires Ordered(s) && cwnd <= 0xffff
    ensures k <= |s.queue| && k == Min(|s.queue|, Max(0, cwnd - Span(s)))
    ensures var s' := Admit(s, cwnd, c);
      && Ordered(s') && s'.una == s.una && Span(s') == Span(s) + k && s'.nxt == Add32(s.nxt, k)
      && s'.queue == s.queue[k..] && s'.buf == s.buf + NumberAll(s.queue[..k], s.nxt, c)
    decreases |s.queue|
  {
    RoomLeft(s, cwnd);
    assert Span(s) <= 0xffff;
    if Span(s) >= cwnd || s.queue == [] {
      k := 0;
      AdmitNone(s, c);
    } else {
      var s1 := AdmitOne(s, c);
      assert Admit(s, cwnd, c) == Admit(s1, cwnd, c);
      hide Admit, Ordered, NumberAll, Span, TimeDiff, Add32;
      AdmitOneOrdered(s, c);
      var k' := AdmitFills(s1, cwnd, c);
      k := k' + 1;
      AddOneMore(s.nxt, k');
      AdmitOneStep(s, c, k);
    }
  }

  // ---- sending ----

  datatype Reason = First | Timeout | Fast | Idle

  /** Why, if at all, a segment is sent by this flush. */
  function Why(g: Segment, c: Context): Reason {
    if g.xmit == 0 then First
    else if TimeDiff(c.current, g.resendts) >= 0 then Timeout
    else if g.fastack >= c.resent && (ToI32(g.xmit) <= c.fastLimit || c.fastLimit <= 0) then Fast
    else Idle
  }

  /** The retransmission timeout after a timeout: doubled at least, or half as long again in the
      no-delay modes. */
  function BackedOff(rto: u32, c: Context): u32 {
    if c.nodelay == 0 then Add32(rto, Max(rto, c.rto))
    else ToU32(rto + TruncDiv(if c.nodelay < 2 then ToI32(rto) else ToI32(c.rto), 2))
  }

  function Sent(g: Segment, c: Context): Segment {
    var f := g.frame.(ts := c.current, wnd := c.wnd, una := c.una);
    match Why(g, c)
    case First =>
      Segment(f, Add32(Add32(c.current, c.rto), c.rtoMin), c.rto, g.fastack, 1)
    case Timeout =>
      var rto := BackedOff(g.rto, c);
      Segment(f, Add32(c.current, rto), rto, g.fastack, Add32(g.xmit, 1))
    case Fast =>
      Segment(f, Add32(c.current, g.rto), g.rto, 0, Add32(g.xmit, 1))
    case Idle => g
  }

  function SentAll(buf: seq<Segment>, c: Context): (r: seq<Segment>)
    ensures |r| == |buf| && forall i :: 0 <= i < |buf| ==> r[i] == Sent(buf[i], c)
  {
    seq(|buf|, i requires 0 <= i < |buf| => Sent(buf[i], c))
  }

  /** The frames emitted for the first `n` segments of the buffer, in order. */
  function EmittedTo(buf: seq<Segment>, c: Context, n: nat): seq<Frame>
    requires n <= |buf|
  {
    if n == 0 then []
    else EmittedTo(buf, c, n - 1) + if Why(buf[n - 1], c).Idle? then [] else [Sent(buf[n - 1], c).frame]
  }

  function Emitted(buf: seq<Segment>, c: Context): seq<Frame> {
    EmittedTo(buf, c, |buf|)
  }

  /** How many of the first `n` segments are sent for a given reason. */
  function CountTo(buf: seq<Segment>, c: Context, why: Reason, n: nat): nat
    requires n <= |buf|
  {
    if n == 0 then 0 else CountTo(buf, c, why, n - 1) + if Why(buf[n - 1], c) == why then 1 else 0
  }

  function CountWhy(buf: seq<Segment>, c: Context, why: Reason): nat {
    CountTo(buf, c, why, |buf|)
  }

  /** Some segment sent by this flush has been sent `deadLink` times or more. */
  predicate DeadTo(buf: seq<Segment>, c: Context, n: nat)
    requires n <= |buf|
  {
    exists i :: 0 <= i < n && !Why(buf[i], c).Idle? && Sent(buf[i], c).xmit >= c.deadLink
  }

  predicate Dead(buf: seq<Segment>, c: Context) {
    DeadTo(buf, c, |buf|)
  }

  /** Sending changes only the clock fields of a segment: number, fragment and payload stay. */
  lemma SentKeepsIdentity(g: Segment, c: Context)
    ensures var f, f' := g.frame, Sent(g, c).frame; f' == f.(ts := f'.ts, wnd := f'.wnd, una := f'.una)
  {
  }

  lemma HalfOf(x: u32)
    requires 2 <= x < 0x4000_0000
    ensures 1 <= TruncDiv(ToI32(x), 2) <= x
  {
  }

  /** After a timeout the next timeout is longer, at most by the larger of its old value and the current
      estimate, and in normal mode at least twice as long. */
  lemma BackoffGrows(rto: u32, c: Context)
    requires 2 <= rto < 0x4000_0000 && 2 <= c.rto < 0x4000_0000
    ensures rto < BackedOff(rto, c) <= rto + Max(rto, c.rto)
    ensures c.nodelay == 0 ==> 2 * rto <= BackedOff(rto, c)
  {
    HalfOf(rto);
    HalfOf(c.rto);
    hide TruncDiv, ToI32;
  }

  /** A segment that has just been sent is due again at the same instant exactly when its timeout is 0
      or has grown past half of the clock's range; nothing caps the backoff. */
  lemma SentIsDue(g: Segment, c: Context)
    requires !Why(g, c).Idle?
    ensures var wait := Sub32(Sent(g, c).resendts, c.current);
      TimeDiff(c.current, Sent(g, c).resendts) >= 0 <==> wait == 0 || wait > 0x8000_0000
    ensures Sub32(Sent(g, c).resendts, c.current)
         == if Why(g, c).First? then Add32(c.rto, c.rtoMin)
            else if Why(g, c).Timeout? then BackedOff(g.rto, c) else g.rto
  {
    var g' := Sent(g, c);
    hide Why, BackedOff;
    match Why(g, c)
    case First =>
      AddThenSub(c.current, Add32(c.rto, c.rtoMin));
    case Timeout =>
      AddThenSub(c.current, g'.rto);
    case Fast =>
      AddThenSub(c.current, g.rto);
  }

  // ---- consecutive timeouts ----

  function Pow2(n: nat): nat {
    if n == 0 then 1 else 2 * Pow2(n - 1)
  }

  /** The segment after it has been sent by the flushes with these contexts. */
  function AfterFlushes(g: Segment, cs: seq<Context>): Segment {
    if cs == [] then g else Sent(AfterFlushes(g, cs[..|cs| - 1]), cs[|cs| - 1])
  }

  /** Each of these flushes finds the segment timed out. */
  predicate TimesOut(g: Segment, cs: seq<Context>) {
    cs == []
    || (TimesOut(g, cs[..|cs| - 1]) && Why(AfterFlushes(g, cs[..|cs| - 1]), cs[|cs| - 1]).Timeout?)
  }

  /** Flushes in normal mode, with an estimate that is no longer than `rto`. */
  ghost predicate Normal(cs: seq<Context>, rto: u32) {
    forall i :: 0 <= i < |cs| ==> cs[i].nodelay == 0 && cs[i].rto <= rto
  }

  lemma BackoffDoubles(rto: u32, c: Context)
    requires c.nodelay == 0 && c.rto <= rto
    ensures BackedOff(rto, c) == ToU32(2 * rto)
  {
  }

  lemma TimeoutStep(g: Segment, c: Context)
    requires Why(g, c).Timeout?
    ensures Sent(g, c).rto == BackedOff(g.rto, c) && Sent(g, c).xmit == Add32(g.xmit, 1)
    ensures Sent(g, c).resendts == Add32(c.current, Sent(g, c).rto)
  {
  }

  /** In normal mode `n` consecutive timeouts multiply the timeout by 2^n while that fits 32 bits. */
  lemma {:induction false} TimeoutsDouble(g: Segment, cs: seq<Context>)
    requires TimesOut(g, cs) && Normal(cs, g.rto) && g.rto * Pow2(|cs|) < 0x1_0000_0000
    ensures AfterFlushes(g, cs).rto == g.rto * Pow2(|cs|) >= g.rto
  {
    if cs == [] {
    } else {
      var front, c := cs[..|cs| - 1], cs[|cs| - 1];
      Pow2Next(g.rto, |front|);
      TimeoutsDouble(g, front);
      var g' := AfterFlushes(g, front);
      TimeoutStep(g', c);
      BackoffDoubles(g'.rto, c);
      hide Pow2, BackedOff, Sent, Why;
    }
  }

  lemma Pow2Next(x: nat, n: nat)
    ensures x * Pow2(n + 1) == 2 * (x * Pow2(n))
  {
  }

  /** After `n` timeouts in a row, none before the last of which has brought the wait past half of the
      clock's range, the segment is due again at the same instant if and only if the first timeout
      times 2^n is past it. */
  lemma DueAfterTimeouts(g: Segment, cs: seq<Context>)
    requires cs != [] && TimesOut(g, cs) && Normal(cs, g.rto) && g.rto > 0
    requires g.rto * Pow2(|cs| - 1) <= 0x8000_0000
    ensures TimeDiff(cs[|cs| - 1].current, AfterFlushes(g, cs).resendts) >= 0
       <==> g.rto * Pow2(|cs|) > 0x8000_0000
  {
    var front, c := cs[..|cs| - 1], cs[|cs| - 1];
    TimeoutsDouble(g, front);
    Pow2Next(g.rto, |front|);
    var g' := AfterFlushes(g, front);
    TimeoutStep(g', c);
    BackoffDoubles(g'.rto, c);
    SentIsDue(g', c);
    DoubledIsDue(g'.rto);
    hide Pow2, BackedOff, Sent, Why, ToU32, TimeDiff;
    AddThenSub(c.current, ToU32(2 * g'.rto));
  }

  lemma DoubledIsDue(rto: u32)
    requires 0 < rto <= 0x8000_0000
    ensures ToU32(2 * rto) == 0 || ToU32(2 * rto) > 0x8000_0000 <==> 2 * rto > 0x8000_0000
  {
  }

  /** Flushes that come exactly when the segment is due. */
  function OnTime(g: Segment, c: Context, n: nat): (cs: seq<Context>)
    ensures |cs| == n
  {
    if n == 0 then []
    else OnTime(g, c, n - 1) + [c.(current := AfterFlushes(g, OnTime(g, c, n - 1)).resendts)]
  }

  /** Any number of timeouts in a row can happen to a segment that has been sent. */
  lemma {:induction false} OnTimeTimesOut(g: Segment, c: Context, n: nat)
    requires 0 < g.xmit && g.xmit + n < 0x1_0000_0000
    ensures TimesOut(g, OnTime(g, c, n)) && AfterFlushes(g, OnTime(g, c, n)).xmit == g.xmit + n
    ensures forall i :: 0 <= i < n ==> OnTime(g, c, n)[i].nodelay == c.nodelay && OnTime(g, c, n)[i].rto == c.rto
  {
    if n == 0 {
    } else {
      var front := OnTime(g, c, n - 1);
      var g' := AfterFlushes(g, front);
      var last := c.(current := g'.resendts);
      OnTimeTimesOut(g, c, n - 1);
      Seqs.TakeAppend(front, [last]);
      assert Why(g', last).Timeout?;
      TimeoutStep(g', last);
      hide Sent, Why;
    }
  }

  /** From the largest timeout that the estimator gives, 60 seconds, the sixteenth timeout in a row is the
      first after which the segment is due again at once; every earlier one leaves a wait. */
  lemma SixteenTimeouts(g: Segment, c: Context, n: nat)
    requires g.xmit == 1 && g.rto == 60000 && c.nodelay == 0 && c.rto <= 60000 && 1 <= n <= 16
    ensures var cs := OnTime(g, c, n);
      && TimesOut(g, cs)
      && (TimeDiff(cs[n - 1].current, AfterFlushes(g, cs).resendts) >= 0 <==> n == 16)
  {
    OnTimeTimesOut(g, c, n);
    Pow2Sixteen(n);
    DueAfterTimeouts(g, OnTime(g, c, n));
  }

  lemma Pow2Sixteen(n: nat)
    requires 1 <= n <= 16
    ensures 60000 * Pow2(n - 1) <= 0x8000_0000
    ensures 60000 * Pow2(n) > 0x8000_0000 <==> n == 16
  {
    Pow2Grows(n - 1, 15);
    if n < 16 {
      Pow2Grows(n, 15);
    }
    assert Pow2(4) == 16 && Pow2(8) == 256 && Pow2(12) == 4096;
    assert Pow2(15) == 32768 && Pow2(16) == 65536;
  }

  lemma {:induction false} Pow2Grows(m: nat, n: nat)
    requires m <= n
    ensures Pow2(m) <= Pow2(n)
  {
    if m == n {
    } else {
      Pow2Grows(m, n - 1);
    }
  }

  // ---- the same in no-delay mode ----

  /** Half as long again, rounded down, `n` times. */
  function Grown(rto: nat, n: nat): nat {
    if n == 0 then rto else Grown(rto, n - 1) + Grown(rto, n - 1) / 2
  }

  function Pow3(n: nat): nat {
    if n == 0 then 1 else 3 * Pow3(n - 1)
  }

  /** It lies between the powers of three halves of one less and of the whole. */
  lemma {:induction false} GrownBounds(rto: nat, n: nat)
    requires rto > 0
    ensures Pow2(n) * Grown(rto, n) <= Pow3(n) * rto
    ensures Pow3(n) * (rto - 1) <= Pow2(n) * (Grown(rto, n) - 1)
    ensures Grown(rto, n) >= rto
  {
    if n == 0 {
    } else {
      GrownBounds(rto, n - 1);
      var x, x' := Grown(rto, n - 1), Grown(rto, n);
      assert 3 * x - 1 <= 2 * x' <= 3 * x;
      assert Pow2(n) == 2 * Pow2(n - 1) && Pow3(n) == 3 * Pow3(n - 1);
      hide Grown, Pow2, Pow3;
      ScaledBounds(Pow2(n - 1), Pow3(n - 1), rto, x, x');
    }
  }

  lemma ScaledBounds(p: nat, q: nat, rto: nat, x: nat, x': nat)
    requires 3 * x - 1 <= 2 * x' <= 3 * x
    requires p * x <= q * rto && q * (rto - 1) <= p * (x - 1)
    ensures 2 * p * x' <= 3 * q * rto && 3 * q * (rto - 1) <= 2 * p * (x' - 1)
  {
    ProductBound(p, 0, p, 3 * x - 2 * x');
    ProductBound(p, 0, p, 2 * x' - 3 * x + 1);
    assert p * (3 * x - 2 * x') == 3 * (p * x) - 2 * p * x';
    assert p * (2 * x' - 3 * x + 1) == 2 * p * (x' - 1) - 3 * (p * (x - 1));
  }

  /** Flushes in the mode that the client sets: no-delay, growth by half of the segment's own timeout. */
  ghost predicate NoDelayed(cs: seq<Context>) {
    forall i :: 0 <= i < |cs| ==> cs[i].nodelay == 1
  }

  lemma BackoffHalf(rto: u32, c: Context)
    requires c.nodelay == 1 && rto < 0x8000_0000
    ensures BackedOff(rto, c) == rto + rto / 2
  {
    assert ToI32(rto) == rto;
    hide ToI32;
  }

  lemma {:induction false} GrownMonotone(rto: nat, m: nat, n: nat)
    requires m <= n
    ensures Grown(rto, m) <= Grown(rto, n)
  {
    if m == n {
    } else {
      GrownMonotone(rto, m, n - 1);
    }
  }

  /** In no-delay mode each of `n` consecutive timeouts adds half of the timeout, while the one before is
      below half of the clock's range, and whatever the estimate is. */
  lemma {:induction false} TimeoutsGrow(g: Segment, cs: seq<Context>)
    requires TimesOut(g, cs) && NoDelayed(cs) && (cs != [] ==> Grown(g.rto, |cs| - 1) < 0x8000_0000)
    ensures AfterFlushes(g, cs).rto == Grown(g.rto, |cs|)
  {
    if cs == [] {
    } else {
      var front, c := cs[..|cs| - 1], cs[|cs| - 1];
      if front != [] {
        GrownMonotone(g.rto, |front| - 1, |front|);
      }
      TimeoutsGrow(g, front);
      TimeoutStep(AfterFlushes(g, front), c);
      BackoffHalf(AfterFlushes(g, front).rto, c);
      hide BackedOff, Sent, Why;
    }
  }

  /** After `n` timeouts in a row in no-delay mode, none before the last of which has brought the wait to
      half of the clock's range, the segment is due again at the same instant if and only if the last one
      has brought it past. */
  lemma DueAfterNoDelay(g: Segment, cs: seq<Context>)
    requires cs != [] && TimesOut(g, cs) && NoDelayed(cs) && g.rto > 0 && Grown(g.rto, |cs| - 1) < 0x8000_0000
    ensures TimeDiff(cs[|cs| - 1].current, AfterFlushes(g, cs).resendts) >= 0
       <==> Grown(g.rto, |cs|) > 0x8000_0000
  {
    var front, c := cs[..|cs| - 1], cs[|cs| - 1];
    TimeoutsGrow(g, cs);
    GrownMonotone(g.rto, 0, |cs|);
    var g' := AfterFlushes(g, front);
    TimeoutStep(g', c);
    SentIsDue(g', c);
    assert AfterFlushes(g, cs) == Sent(g', c);
    hide Grown, BackedOff, Sent, Why, TimeDiff;
    AddThenSub(c.current, Sent(g', c).rto);
  }

  lemma GrownNext(rto: nat, n: nat, x: nat, y: nat)
    requires Grown(rto, n) == x && y == x + x / 2
    ensures Grown(rto, n + 1) == y
  {
  }

  lemma GrownFive(rto: nat, n: nat, x: nat, x1: nat, x2: nat, x3: nat, x4: nat, x5: nat)
    requires Grown(rto, n) == x && x1 == x + x / 2 && x2 == x1 + x1 / 2 && x3 == x2 + x2 / 2
    requires x4 == x3 + x3 / 2 && x5 == x4 + x4 / 2
    ensures Grown(rto, n + 5) == x5
  {
    hide Grown;
    GrownNext(rto, n, x, x1);
    GrownNext(rto, n + 1, x1, x2);
    GrownNext(rto, n + 2, x2, x3);
    GrownNext(rto, n + 3, x3, x4);
    GrownNext(rto, n + 4, x4, x5);
  }

  lemma GrownTen(rto: nat)
    requires rto == 60000
    ensures Grown(rto, 10) == 3459897
  {
    assert Grown(rto, 0) == rto;
    hide Grown;
    GrownFive(rto, 0, 60000, 90000, 135000, 202500, 303750, 455625);
    GrownFive(rto, 5, 455625, 683437, 1025155, 1537732, 2306598, 3459897);
  }

  lemma GrownTwenty(rto: nat)
    requires rto == 60000
    ensures Grown(rto, 20) == 199515048
  {
    hide Grown;
    GrownTen(rto);
    GrownFive(rto, 10, 3459897, 5189845, 7784767, 11677150, 17515725, 26273587);
    GrownFive(rto, 15, 26273587, 39410380, 59115570, 88673355, 133010032, 199515048);
  }

  lemma GrownMinute(rto: nat)
    requires rto == 60000
    ensures Grown(rto, 25) == 1515067395 && Grown(rto, 26) == 2272601092
  {
    hide Grown;
    GrownTwenty(rto);
    GrownFive(rto, 20, 199515048, 299272572, 448908858, 673363287, 1010044930, 1515067395);
    GrownNext(rto, 25, 1515067395, 2272601092);
  }

  /** From 60 seconds the twenty-sixth timeout in a row is the first of this kind in no-delay mode. */
  lemma TwentySixTimeouts(g: Segment, c: Context, n: nat)
    requires g.xmit == 1 && g.rto == 60000 && c.nodelay == 1 && 1 <= n <= 26
    ensures var cs := OnTime(g, c, n);
      && TimesOut(g, cs)
      && (TimeDiff(cs[n - 1].current, AfterFlushes(g, cs).resendts) >= 0 <==> n == 26)
  {
    OnTimeTimesOut(g, c, n);
    GrownMinute(g.rto);
    GrownMonotone(g.rto, n - 1, 25);
    if n < 26 {
      GrownMonotone(g.rto, n, 25);
    }
    hide Grown, AfterFlushes, TimesOut, OnTime;
    DueAfterNoDelay(g, OnTime(g, c, n));
  }

  lemma SentAllOrdered(s: Sender, c: Context)
    requires Ordered(s)
    ensures Ordered(s.(buf := SentAll(s.buf, c)))
  {
    assert Sns(SentAll(s.buf, c)) == Sns(s.buf);
  }

  lemma {:induction false} EmittedToFrom(buf: seq<Segment>, c: Context, n: nat, f: Frame)
    requires n <= |buf|
    ensures f in EmittedTo(buf, c, n)
       <==> exists i :: 0 <= i < n && !Why(buf[i], c).Idle? && f == Sent(buf[i], c).frame
  {
    if n == 0 {
    } else {
      EmittedToFrom(buf, c, n - 1, f);
    }
  }

  /** A flush emits a frame exactly when it is that of a segment which is due. */
  lemma EmittedFrom(buf: seq<Segment>, c: Context, f: Frame)
    ensures f in Emitted(buf, c)
       <==> exists g :: g in buf && !Why(g, c).Idle? && f == Sent(g, c).frame
  {
    EmittedToFrom(buf, c, |buf|, f);
  }

  lemma {:induction false} EmittedToAscending(base: u32, span: int, buf: seq<Segment>, c: Context, n: nat)
    requires n <= |buf| && Ascending(base, span, Sns(buf))
    ensures Ascending(base, span, FrameSns(EmittedTo(buf, c, n)))
    ensures forall i, j :: 0 <= i < |EmittedTo(buf, c, n)| && n <= j < |buf| ==>
      Sub32(EmittedTo(buf, c, n)[i].sn, base) < Sub32(Sns(buf)[j], base)
  {
    if n == 0 {
    } else {
      EmittedToAscending(base, span, buf, c, n - 1);
      var fs, f := EmittedTo(buf, c, n - 1), Sent(buf[n - 1], c).frame;
      assert f.sn == Sns(buf)[n - 1];
      assert FrameSns(fs + [f]) == FrameSns(fs) + [f.sn];
    }
  }

  /** One flush emits each number at most once and in increasing order. */
  lemma EmittedAscending(base: u32, span: int, buf: seq<Segment>, c: Context)
    requires Ascending(base, span, Sns(buf))
    ensures Ascending(base, span, FrameSns(Emitted(buf, c)))
  {
    EmittedToAscending(base, span, buf, c, |buf|);
  }
}
