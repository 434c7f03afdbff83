/** Retransmission accounting over whole runs: what has been sent under each number. */
module Accounting {
  import opened Words
  import opened Wire
  import opened Senders
  import opened Transmission
  import opened Control
  import opened Network
  import opened Runs
  import Connection
  import Estimator
  import Receivers
  import Seqs

  /** The data frames that one operation emits, in order. */
  function DataOf(k: Block, op: Op): seq<Frame> {
    if Flushes(k, op) then Emitted(Admitted(Flushed(k, op)).buf, FlushContext(Flushed(k, op))) else []
  }

  function OfNumber(fs: seq<Frame>, sn: u32): seq<Frame> {
    if fs == [] then []
    else OfNumber(fs[..|fs| - 1], sn) + if fs[|fs| - 1].sn == sn then [fs[|fs| - 1]] else []
  }

  /** The operation gives the number `sn` to a queued fragment. */
  predicate Assigned(k: Block, op: Op, sn: u32)
    requires k.conf.mss > 0
  {
    Sub32(sn, k.snd.nxt) < Sub32(Step(k, op).snd.nxt, k.snd.nxt)
  }

  /** Every frame emitted under the number `sn` since the number was last assigned. */
  function History(k: Block, ops: seq<Op>, sn: u32): seq<Frame>
    requires k.conf.mss > 0
  {
    if ops == [] then []
    else
      var m, op := After(k, ops[..|ops| - 1]), ops[|ops| - 1];
      (if Assigned(m, op, sn) then [] else History(k, ops[..|ops| - 1], sn)) + OfNumber(DataOf(m, op), sn)
  }

  lemma OfNumberSnoc(fs: seq<Frame>, f: Frame, sn: u32)
    ensures OfNumber(fs + [f], sn) == OfNumber(fs, sn) + if f.sn == sn then [f] else []
  {
    Seqs.TakeAppend(fs, [f]);
  }

  ghost predicate Distinct(buf: seq<Segment>) {
    forall i, j :: 0 <= i < j < |buf| ==> buf[i].frame.sn != buf[j].frame.sn
  }

  lemma DistinctAt(buf: seq<Segment>, i: nat, j: nat)
    requires Distinct(buf) && i < |buf| && j < |buf| && i != j
    ensures buf[i].frame.sn != buf[j].frame.sn
  {
  }

  lemma OnlyOne(buf: seq<Segment>, i: nat, g: Segment)
    requires Distinct(buf) && i < |buf| && g in buf && g.frame.sn == buf[i].frame.sn
    ensures g == buf[i]
  {
    var j :| 0 <= j < |buf| && buf[j] == g;
    assert j == i;
  }

  lemma OrderedDistinct(s: Sender)
    requires Ordered(s)
    ensures Distinct(s.buf)
  {
    var sns := Sns(s.buf);
    forall i, j | 0 <= i < j < |s.buf|
      ensures s.buf[i].frame.sn != s.buf[j].frame.sn
    {
      assert Sub32(sns[i], s.una) < Sub32(sns[j], s.una);
    }
  }

  lemma OfNumberNext(buf: seq<Segment>, c: Context, n: nat, sn: u32)
    requires n < |buf|
    ensures OfNumber(EmittedTo(buf, c, n + 1), sn) == OfNumber(EmittedTo(buf, c, n), sn)
         + if buf[n].frame.sn == sn && !Why(buf[n], c).Idle? then [Sent(buf[n], c).frame] else []
  {
    var fs, f := EmittedTo(buf, c, n), Sent(buf[n], c).frame;
    SentKeepsIdentity(buf[n], c);
    OfNumberSnoc(fs, f, sn);
    Seqs.AppendNone(fs);
    Seqs.AppendNone(OfNumber(fs, sn));
  }

  /** What the first `n` segments emit under the number of segment `i`. */
  ghost predicate EmitsOnce(buf: seq<Segment>, c: Context, i: nat, n: nat)
    requires i < |buf| && n <= |buf|
  {
    OfNumber(EmittedTo(buf, c, n), buf[i].frame.sn)
    == if i < n && !Why(buf[i], c).Idle? then [Sent(buf[i], c).frame] else []
  }

  lemma EmitsOnceNext(buf: seq<Segment>, c: Context, i: nat, n: nat)
    requires i < |buf| && n < |buf| && Distinct(buf) && EmitsOnce(buf, c, i, n)
    ensures EmitsOnce(buf, c, i, n + 1)
  {
    hide Why, Sent, OfNumber, EmittedTo, Distinct;
    OfNumberNext(buf, c, n, buf[i].frame.sn);
    Seqs.AppendNone([Sent(buf[i], c).frame]);
    Seqs.AppendNone<Frame>([]);
    if i != n {
      DistinctAt(buf, i, n);
    }
  }

  lemma NoneEmittedYet(buf: seq<Segment>, c: Context, i: nat)
    requires i < |buf|
    ensures EmitsOnce(buf, c, i, 0)
  {
  }

  /** One flush emits a number at most once, and then from its segment. */
  lemma {:induction false} OfNumberEmitted(buf: seq<Segment>, c: Context, i: nat, n: nat)
    requires i < |buf| && n <= |buf| && Distinct(buf)
    ensures EmitsOnce(buf, c, i, n)
  {
    hide *;
    if n == 0 {
      NoneEmittedYet(buf, c, i);
    } else {
      OfNumberEmitted(buf, c, i, n - 1);
      EmitsOnceNext(buf, c, i, n - 1);
    }
  }

  /** The segment keeps its number, fragment and payload. */
  ghost predicate SameData(g: Segment, g': Segment) {
    g'.frame.sn == g.frame.sn && g'.frame.frg == g.frame.frg && g'.frame.data == g.frame.data
  }

  /** What an operation does to one segment that is buffered afterwards: if it emits the number, it
      counts that; otherwise the count stays. */
  ghost predicate Counted(xmit: u32, emitted: seq<Frame>, g': Segment) {
    if emitted == [] then g'.xmit == xmit else emitted == [g'.frame] && g'.xmit == Add32(xmit, 1)
  }

  lemma SentCounted(g: Segment, c: Context)
    ensures SameData(g, Sent(g, c))
    ensures Counted(g.xmit, if Why(g, c).Idle? then [] else [Sent(g, c).frame], Sent(g, c))
  {
  }

  lemma NumberedAt(s: Sender, s': Sender, c: Context, n: nat, i: nat)
    requires Ordered(s) && n <= |s.queue| && Span(s) + n <= 0xffff
    requires s'.buf == s.buf + NumberAll(s.queue[..n], s.nxt, c) && i < |s'.buf|
    ensures Sub32(s'.buf[i].frame.sn, s.nxt) < n <==> i >= |s.buf|
    ensures if i < |s.buf| then s'.buf[i] == s.buf[i] else s'.buf[i].xmit == 0
  {
    NumberAllLength(s.queue[..n], s.nxt, c);
    if i < |s.buf| {
      assert Sns(s.buf)[i] == s.buf[i].frame.sn;
    } else {
      NumberAllAt(s.queue[..n], s.nxt, c, i - |s.buf|);
      AddThenSub(s.nxt, i - |s.buf|);
    }
  }

  /** After the window is filled, the old segments stand first and the new ones have just been
      numbered. */
  lemma AdmittedAt(k: Block, op: Op, i: nat)
    requires Ok(k) && Flushes(k, op) && i < |Admitted(Flushed(k, op)).buf|
    ensures var g := Admitted(Flushed(k, op)).buf[i];
      && (Assigned(k, op, g.frame.sn) <==> i >= |k.snd.buf|)
      && (if i < |k.snd.buf| then g == k.snd.buf[i] else g.xmit == 0)
  {
    var f := Flushed(k, op);
    var n := AdmitFills(f.snd, FlushWindow(f), FlushContext(f));
    FlushForward(k, op);
    assert f.snd == k.snd && Ordered(k.snd);
    NumberedAt(k.snd, Admitted(f), FlushContext(f), n, i);
  }

  /** A flush either numbers a segment and sends it at once, or it was there before. */
  lemma FlushSegment(k: Block, op: Op, i: nat)
    requires Ok(k) && Flushes(k, op) && i < |Step(k, op).snd.buf|
    ensures var g' := Step(k, op).snd.buf[i]; var emitted := OfNumber(DataOf(k, op), g'.frame.sn);
      && (Assigned(k, op, g'.frame.sn) <==> i >= |k.snd.buf|)
      && (if i >= |k.snd.buf| then emitted == [g'.frame] && g'.xmit == 1
          else SameData(k.snd.buf[i], g') && Counted(k.snd.buf[i].xmit, emitted, g'))
  {
    var f := Flushed(k, op);
    var c, s := FlushContext(f), Admitted(f);
    FlushForward(k, op);
    OrderedDistinct(s);
    hide Step, Admitted, FlushContext, Ok, Ordered, Distinct, OfNumber, Assigned;
    AdmittedAt(k, op, i);
    OfNumberEmitted(s.buf, c, i, |s.buf|);
    SentCounted(s.buf[i], c);
  }

  lemma ConcludeSegment(k: Block, newest: Newest, una: u32, i: nat)
    requires k.conf.mss > 0 && i < |Conclude(k, newest, una).snd.buf|
    ensures i < |k.snd.buf| && SameData(k.snd.buf[i], Conclude(k, newest, una).snd.buf[i])
    ensures Conclude(k, newest, una).snd.buf[i].xmit == k.snd.buf[i].xmit
  {
  }

  lemma InputSegment(k: Block, d: seq<byte>, i: nat) returns (j: nat)
    requires Ok(k) && i < |Input(k, d).0.snd.buf|
    ensures j < |k.snd.buf| && SameData(k.snd.buf[j], Input(k, d).0.snd.buf[i])
    ensures Input(k, d).0.snd.buf[i].xmit == k.snd.buf[j].xmit
  {
    var fs := Parse(k.conf.conv, d).frames;
    var m := TakeFrames(k, fs);
    Connection.TakeFramesAcked(k, fs);
    hide Conclude, NewestOf, TakeFrames, Parse, Ok, ToI32, SameData;
    if ToI32(|d|) < OVERHEAD {
      SameSegment(k.snd.buf[i]);
      j := i;
    } else {
      if Parse(k.conf.conv, d).code >= 0 {
        ConcludeSegment(m, NewestOf(fs), k.snd.una, i);
      } else {
        SameSegment(m.snd.buf[i]);
      }
      assert m.snd.buf[i] in k.snd.buf;
      j :| 0 <= j < |k.snd.buf| && k.snd.buf[j] == m.snd.buf[i];
    }
  }

  lemma SameSegment(g: Segment)
    ensures SameData(g, g)
  {
  }

  /** Between flushes segments only leave the buffer; nothing is emitted or numbered. */
  lemma OtherSegment(k: Block, op: Op, i: nat) returns (j: nat)
    requires Ok(k) && !Flushes(k, op) && i < |Step(k, op).snd.buf|
    ensures j < |k.snd.buf| && SameData(k.snd.buf[j], Step(k, op).snd.buf[i])
    ensures Step(k, op).snd.buf[i].xmit == k.snd.buf[j].xmit
    ensures DataOf(k, op) == [] && !Assigned(k, op, Step(k, op).snd.buf[i].frame.sn)
  {
    OtherStep(k, op);
    if op.DoInput? {
      j := InputSegment(k, op.data, i);
      InputForward(k, op.data);
    } else {
      j := i;
    }
  }

  /** The history of a buffered segment: every frame emitted under its number, since the number was
      assigned, carries its fragment and payload, and `xmit` counts these frames. */
  ghost predicate Accounted(k: Block, ops: seq<Op>, g: Segment)
    requires k.conf.mss > 0
  {
    var h := History(k, ops, g.frame.sn);
    0 < |h| <= |ops| && g.xmit == ToU32(|h|) && Carries(h, g)
  }

  lemma HistoryGrows(k: Block, ops: seq<Op>, sn: u32)
    requires k.conf.mss > 0 && ops != []
    requires !Assigned(After(k, ops[..|ops| - 1]), ops[|ops| - 1], sn)
    ensures var m, op := After(k, ops[..|ops| - 1]), ops[|ops| - 1];
      History(k, ops, sn) == History(k, ops[..|ops| - 1], sn) + OfNumber(DataOf(m, op), sn)
  {
    hide After, DataOf, Assigned, OfNumber;
  }

  /** Every frame carries the data of the segment. */
  ghost predicate Carries(h: seq<Frame>, g: Segment) {
    forall f :: f in h ==> f.sn == g.frame.sn && f.frg == g.frame.frg && f.data == g.frame.data
  }

  lemma CarriedHistory(h: seq<Frame>, emitted: seq<Frame>, g: Segment, g': Segment)
    requires g.xmit == ToU32(|h|) && Carries(h, g) && SameData(g, g') && Counted(g.xmit, emitted, g')
    ensures |emitted| <= 1 && g'.xmit == ToU32(|h + emitted|) && Carries(h + emitted, g')
  {
    AddToU32(|h|, 1);
    hide ToU32, Add32;
  }

  lemma CarriedAccounted(k: Block, ops: seq<Op>, g: Segment, g': Segment)
    requires k.conf.mss > 0 && ops != [] && SameData(g, g') && Accounted(k, ops[..|ops| - 1], g)
    requires var m, op := After(k, ops[..|ops| - 1]), ops[|ops| - 1];
      !Assigned(m, op, g'.frame.sn) && Counted(g.xmit, OfNumber(DataOf(m, op), g'.frame.sn), g')
    ensures Accounted(k, ops, g')
  {
    var m, op := After(k, ops[..|ops| - 1]), ops[|ops| - 1];
    HistoryGrows(k, ops, g'.frame.sn);
    hide After, DataOf, Assigned, OfNumber, ToU32, History, Counted, Carries;
    CarriedHistory(History(k, ops[..|ops| - 1], g.frame.sn), OfNumber(DataOf(m, op), g'.frame.sn), g, g');
  }

  lemma FreshAccounted(k: Block, ops: seq<Op>, g: Segment)
    requires k.conf.mss > 0 && ops != [] && g.xmit == 1
    requires var m, op := After(k, ops[..|ops| - 1]), ops[|ops| - 1];
      Assigned(m, op, g.frame.sn) && OfNumber(DataOf(m, op), g.frame.sn) == [g.frame]
    ensures Accounted(k, ops, g)
  {
    hide After, DataOf, Assigned, OfNumber;
    Seqs.AppendNone([g.frame]);
  }

  ghost predicate AllAccounted(k: Block, ops: seq<Op>, buf: seq<Segment>)
    requires k.conf.mss > 0
  {
    forall i :: 0 <= i < |buf| ==> Accounted(k, ops, buf[i])
  }

  lemma StepAccounted(k: Block, ops: seq<Op>, m: Block, op: Op, i: nat)
    requires k.conf.mss > 0 && ops != [] && m == After(k, ops[..|ops| - 1]) && op == ops[|ops| - 1]
    requires Ok(m) && AllAccounted(k, ops[..|ops| - 1], m.snd.buf) && i < |Step(m, op).snd.buf|
    ensures Accounted(k, ops, Step(m, op).snd.buf[i])
  {
    hide After, Step, Flushes, Ok, Accounted, Assigned, DataOf, OfNumber;
    if !Flushes(m, op) {
      var j := OtherSegment(m, op, i);
      NoneEmitted(Step(m, op).snd.buf[i]);
      CarriedAccounted(k, ops, m.snd.buf[j], Step(m, op).snd.buf[i]);
    } else {
      FlushSegment(m, op, i);
      if i < |m.snd.buf| {
        CarriedAccounted(k, ops, m.snd.buf[i], Step(m, op).snd.buf[i]);
      } else {
        FreshAccounted(k, ops, Step(m, op).snd.buf[i]);
      }
    }
  }

  lemma NoneEmitted(g: Segment)
    ensures OfNumber([], g.frame.sn) == [] && Counted(g.xmit, [], g)
  {
  }

  lemma {:induction false} AllAccountedOverRuns(k: Block, ops: seq<Op>)
    requires Ok(k) && k.snd.buf == []
    ensures AllAccounted(k, ops, After(k, ops).snd.buf)
  {
    if ops == [] {
    } else {
      var m, op := After(k, ops[..|ops| - 1]), ops[|ops| - 1];
      AllAccountedOverRuns(k, ops[..|ops| - 1]);
      AfterOk(k, ops[..|ops| - 1]);
      hide Ok, Step, Accounted;
      forall i | 0 <= i < |Step(m, op).snd.buf|
        ensures Accounted(k, ops, Step(m, op).snd.buf[i])
      {
        StepAccounted(k, ops, m, op, i);
      }
    }
  }

  /** Over any run of fewer than 2^32 operations, `xmit` is the exact number of times that a segment has
      been emitted, at least once, always with the same fragment and payload. */
  lemma AccountingOverRuns(k: Block, ops: seq<Op>, g: Segment)
    requires Ok(k) && k.snd.buf == [] && g in After(k, ops).snd.buf
    ensures var h := History(k, ops, g.frame.sn);
      && (|ops| < 0x1_0000_0000 ==> g.xmit == |h|) && 0 < |h| <= |ops|
      && forall f :: f in h ==> f.sn == g.frame.sn && f.frg == g.frame.frg && f.data == g.frame.data
  {
    AllAccountedOverRuns(k, ops);
    MemberAccounted(k, ops, After(k, ops).snd.buf, g);
    if |ops| < 0x1_0000_0000 {
      AccountedExact(k, ops, g);
    }
  }

  lemma MemberAccounted(k: Block, ops: seq<Op>, buf: seq<Segment>, g: Segment)
    requires k.conf.mss > 0 && AllAccounted(k, ops, buf) && g in buf
    ensures Accounted(k, ops, g)
  {
  }

  lemma AccountedExact(k: Block, ops: seq<Op>, g: Segment)
    requires k.conf.mss > 0 && Accounted(k, ops, g) && |ops| < 0x1_0000_0000
    ensures g.xmit == |History(k, ops, g.frame.sn)|
  {
    hide ToU32, History, After;
    Estimator.ExactU32(|History(k, ops, g.frame.sn)|);
  }

  /** One flush emits each number at most once, in increasing order within the window. */
  lemma FlushInOrder(k: Block, op: Op)
    requires Ok(k) && Flushes(k, op)
    ensures Ascending(k.snd.una, Span(Step(k, op).snd), FrameSns(DataOf(k, op)))
  {
    var s := Admitted(Flushed(k, op));
    FlushForward(k, op);
    EmittedAscending(s.una, Span(s), s.buf, FlushContext(Flushed(k, op)));
  }

  function PushesOf(fs: seq<Frame>): seq<Frame> {
    if fs == [] then []
    else PushesOf(fs[..|fs| - 1]) + if fs[|fs| - 1].cmd == PUSH then [fs[|fs| - 1]] else []
  }

  lemma {:induction false} PushesOfConcat(a: seq<Frame>, b: seq<Frame>)
    requires forall f :: f in a ==> f.cmd != PUSH
    requires forall f :: f in b ==> f.cmd == PUSH
    ensures PushesOf(a + b) == b
  {
    if b != [] {
      Seqs.FrontAppend(a, b);
      PushesOfConcat(a, b[..|b| - 1]);
      Seqs.SplitLast(b);
    } else if a != [] {
      Seqs.AppendNone(a);
      PushesOfConcat(a[..|a| - 1], []);
      Seqs.AppendNone(a[..|a| - 1]);
    }
  }

  lemma ControlIsNotData(c: Context, p: Probe, acks: seq<Receivers.Ack>, g: Frame)
    requires g in AckFrames(c, acks) + ProbeFrames(c, p, acks)
    ensures g.cmd != PUSH
  {
    if g in AckFrames(c, acks) {
      var i :| 0 <= i < |acks| && AckFrames(c, acks)[i] == g;
    }
  }

  lemma PushesOfFlush(k: Block)
    requires Ok(k)
    ensures PushesOf(FlushFrames(k)) == Emitted(Admitted(k).buf, FlushContext(k))
  {
    var c := FlushContext(k);
    var probe, data := Probing(k.probe, k.win.rmt, k.timer.current), Emitted(Admitted(k).buf, c);
    hide PushesOf, Ok, Emitted, Probing, AckFrames, ProbeFrames, FlushContext, Admitted;
    forall g | g in AckFrames(c, k.rcv.acks) + ProbeFrames(c, probe, k.rcv.acks)
      ensures g.cmd != PUSH
    {
      ControlIsNotData(c, probe, k.rcv.acks, g);
    }
    forall g | g in data
      ensures g.cmd == PUSH
    {
      EmittedPushes(k, g);
    }
    PushesOfConcat(AckFrames(c, k.rcv.acks) + ProbeFrames(c, probe, k.rcv.acks), data);
  }

  /** What is accounted here is what is on the wire: reading all datagrams of a flush gives exactly
      these data frames, in order. */
  lemma PushesOnWire(k: Block, op: Op)
    requires Ok(k) && Flushes(k, op)
    ensures PushesOf(ParseAll(k.conf.conv, Emits(k, op))) == DataOf(k, op)
  {
    var f := Flushed(k, op);
    assert Ok(f);
    FlushStep(k, op);
    FlushRoundTrip(f);
    PushesOfFlush(f);
  }

  // ---- fast retransmission ----

  ghost predicate FastSent(k: Block, op: Op, sn: u32) {
    Flushes(k, op) &&
    exists g :: g in Admitted(Flushed(k, op)).buf && g.frame.sn == sn && Why(g, FlushContext(Flushed(k, op))).Fast?
  }

  /** How often the number was sent by fast retransmission since it was assigned. */
  ghost function FastCount(k: Block, ops: seq<Op>, sn: u32): nat
    requires k.conf.mss > 0
  {
    if ops == [] then 0
    else
      var m, op := After(k, ops[..|ops| - 1]), ops[|ops| - 1];
      (if Assigned(m, op, sn) then 0 else FastCount(k, ops[..|ops| - 1], sn)) + if FastSent(m, op, sn) then 1 else 0
  }

  /** Segment `i` is the only one that can be sent under its number. */
  lemma FastIsSegment(k: Block, op: Op, i: nat)
    requires Ok(k) && Flushes(k, op) && i < |Step(k, op).snd.buf|
    ensures i < |Admitted(Flushed(k, op)).buf|
    ensures FastSent(k, op, Step(k, op).snd.buf[i].frame.sn)
       <==> Why(Admitted(Flushed(k, op)).buf[i], FlushContext(Flushed(k, op))).Fast?
  {
    var f := Flushed(k, op);
    var c, s := FlushContext(f), Admitted(f);
    FlushForward(k, op);
    OrderedDistinct(s);
    SentKeepsIdentity(s.buf[i], c);
    hide Step, Admitted, FlushContext, Ok, Ordered, Why, Sent, Flushed;
    forall g | g in s.buf && g.frame.sn == s.buf[i].frame.sn
      ensures g == s.buf[i]
    {
      OnlyOne(s.buf, i, g);
    }
  }

  lemma StepKeepsLimit(k: Block, op: Op)
    requires k.conf.mss > 0
    ensures Step(k, op).conf.fastLimit == k.conf.fastLimit
  {
    if op.DoInput? {
      TakeFramesConf(k, Parse(k.conf.conv, op.data).frames);
    }
  }

  lemma {:induction false} AfterKeepsLimit(k: Block, ops: seq<Op>)
    requires k.conf.mss > 0
    ensures After(k, ops).conf.fastLimit == k.conf.fastLimit
  {
    if ops == [] {
    } else {
      AfterKeepsLimit(k, ops[..|ops| - 1]);
      StepKeepsLimit(After(k, ops[..|ops| - 1]), ops[|ops| - 1]);
    }
  }

  lemma FastWithin(g: Segment, c: Context)
    requires Why(g, c).Fast? && c.fastLimit > 0 && g.xmit < 0x7fff_ffff
    ensures 1 <= g.xmit <= c.fastLimit && Sent(g, c).xmit == g.xmit + 1
  {
  }

  /** With a limit set, a segment is fast-retransmitted at most that many times. */
  lemma {:induction false} FastLimited(k: Block, ops: seq<Op>, i: nat)
    requires Ok(k) && k.snd.buf == [] && k.conf.fastLimit > 0 && |ops| < 0x7fff_ffff
    requires i < |After(k, ops).snd.buf|
    ensures var g := After(k, ops).snd.buf[i];
      FastCount(k, ops, g.frame.sn) <= k.conf.fastLimit && FastCount(k, ops, g.frame.sn) < g.xmit
  {
    var front := ops[..|ops| - 1];
    var m, op := After(k, front), ops[|ops| - 1];
    AfterOk(k, front);
    hide Ok, Step, Assigned, FastSent, Flushed, Flushes, Admitted, FlushContext, ToU32;
    if !Flushes(m, op) {
      OtherIsNotFast(m, op, After(k, ops).snd.buf[i].frame.sn);
      var j := OtherSegment(m, op, i);
      FastLimited(k, front, j);
    } else {
      FlushSegment(m, op, i);
      FastIsSegment(m, op, i);
      AdmittedAt(m, op, i);
      if i < |m.snd.buf| {
        FastLimited(k, front, i);
        AccountingOverRuns(k, front, m.snd.buf[i]);
        AccountingOverRuns(k, ops, After(k, ops).snd.buf[i]);
        AfterKeepsLimit(k, front);
        FlushedAt(m, op, i);
      }
    }
  }

  lemma OtherIsNotFast(k: Block, op: Op, sn: u32)
    requires !Flushes(k, op)
    ensures !FastSent(k, op, sn)
  {
  }

  /** What fast retransmission does to a segment's count. */
  lemma FlushedAt(k: Block, op: Op, i: nat)
    requires Ok(k) && Flushes(k, op) && i < |k.snd.buf| && i < |Step(k, op).snd.buf|
    requires k.conf.fastLimit > 0 && k.snd.buf[i].xmit < 0x7fff_ffff
    ensures Step(k, op).snd.buf[i].xmit >= k.snd.buf[i].xmit
    ensures FastSent(k, op, Step(k, op).snd.buf[i].frame.sn) ==>
      1 <= k.snd.buf[i].xmit <= k.conf.fastLimit && Step(k, op).snd.buf[i].xmit == k.snd.buf[i].xmit + 1
  {
    var f := Flushed(k, op);
    FlushForward(k, op);
    FastIsSegment(k, op, i);
    AdmittedAt(k, op, i);
    hide Step, Ok, FastSent, Admitted, Ordered, Flushed, Flushes, FlushContext;
    if FastSent(k, op, Step(k, op).snd.buf[i].frame.sn) {
      FastWithin(k.snd.buf[i], FlushContext(f));
    }
  }
}
