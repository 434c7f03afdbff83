/** What an input does, in terms of the frames that it carries: the samples that it gives to the estimator, the
    segments that it passes over, with the fast retransmission that enough of these bring, the congestion
    window, and the other fields. */
module Inputs {
  import opened Words
  import opened Wire
  import opened Senders
  import opened Estimator
  import opened Congestion
  import opened Control
  import opened Flushing
  import Accounting
  import Connection
  import Runs
  import Seqs

  // ---- samples ----

  /** The round trips that the acknowledgements of these frames measure: for each of them that does not come
      from the future, the time since its segment was sent. */
  function RoundTrips(now: u32, fs: seq<Frame>): seq<i32> {
    if fs == [] then []
    else
      var f := fs[|fs| - 1];
      RoundTrips(now, fs[..|fs| - 1]) + if f.cmd == ACK && Reached(now, f.ts) then [Sub32(now, f.ts)] else []
  }

  lemma SamplesSnoc(r: Rtt, xs: seq<i32>, x: i32, interval: u32, minRto: u32)
    ensures Samples(r, xs + [x], interval, minRto) == Sample(Samples(r, xs, interval, minRto), x, interval, minRto)
  {
    Seqs.TakeAppend(xs, [x]);
  }

  lemma DifferenceIsDistance(now: u32, ts: u32)
    ensures Reached(now, ts) <==> TimeDiff(now, ts) >= 0
    ensures Reached(now, ts) ==> TimeDiff(now, ts) == Sub32(now, ts)
  {
  }

  lemma {:induction false} TakeFramesSamples(k: Block, fs: seq<Frame>)
    ensures TakeFrames(k, fs).rtt
         == Samples(k.rtt, RoundTrips(k.timer.current, fs), k.conf.interval, k.conf.minRto)
    ensures TakeFrames(k, fs).timer == k.timer && TakeFrames(k, fs).conf == k.conf
  {
    if fs == [] {
    } else {
      var front, f := fs[..|fs| - 1], fs[|fs| - 1];
      var xs := RoundTrips(k.timer.current, front);
      TakeFramesSamples(k, front);
      DifferenceIsDistance(k.timer.current, f.ts);
      Seqs.AppendNone(xs);
      hide Samples, Sample, Sub32, TimeDiff, TakeUna, TakeAck;
      if f.cmd == ACK && Reached(k.timer.current, f.ts) {
        SamplesSnoc(k.rtt, xs, Sub32(k.timer.current, f.ts), k.conf.interval, k.conf.minRto);
      }
    }
  }

  /** An input gives the estimator exactly the round trips that its acknowledgements measure, in order. */
  lemma InputSamples(k: Block, d: seq<byte>)
    requires k.conf.mss > 0 && OVERHEAD <= |d| < 0x8000_0000
    ensures Input(k, d).0.rtt
         == Samples(k.rtt, RoundTrips(k.timer.current, Parse(k.conf.conv, d).frames), k.conf.interval, k.conf.minRto)
  {
    var fs := Parse(k.conf.conv, d).frames;
    TakeFramesSamples(k, fs);
    hide TakeFrames, Parse, NewestOf, Samples, RoundTrips;
  }

  lemma {:induction false} RoundTripMember(now: u32, fs: seq<Frame>, f: Frame)
    requires f in fs && f.cmd == ACK && Reached(now, f.ts)
    ensures Sub32(now, f.ts) in RoundTrips(now, fs)
  {
    var front := fs[..|fs| - 1];
    if f in front {
      RoundTripMember(now, front, f);
    }
  }

  // ---- the newest acknowledgement ----

  /** Later in number and in time. */
  predicate Newer(f: Frame, g: Frame) {
    0 < Sub32(f.sn, g.sn) < 0x8000_0000 && 0 < Sub32(f.ts, g.ts) < 0x8000_0000
  }

  lemma NewerIsDifference(f: Frame, g: Frame)
    ensures Newer(f, g) <==> TimeDiff(f.sn, g.sn) > 0 && TimeDiff(f.ts, g.ts) > 0
  {
  }

  /** Frame `i` is the newest acknowledgement: it is the first one or newer than one before it, and no later one
      is newer. */
  ghost predicate IsNewest(fs: seq<Frame>, i: nat) {
    && i < |fs| && fs[i].cmd == ACK
    && (forall j :: i < j < |fs| && fs[j].cmd == ACK ==> !Newer(fs[j], fs[i]))
    && ((exists j :: 0 <= j < i && fs[j].cmd == ACK) ==>
          exists j :: 0 <= j < i && fs[j].cmd == ACK && Newer(fs[i], fs[j]))
  }

  /** The pair that decides fast acknowledgement is that of such a frame. */
  lemma {:induction false} NewestIs(fs: seq<Frame>) returns (i: nat)
    ensures NewestOf(fs).NoAck? <==> forall f :: f in fs ==> f.cmd != ACK
    ensures NewestOf(fs).Newest? ==> IsNewest(fs, i) && NewestOf(fs) == Newest(fs[i].sn, fs[i].ts)
  {
    i := 0;
    if fs == [] {
    } else {
      var front, f := fs[..|fs| - 1], fs[|fs| - 1];
      i := NewestIs(front);
      Seqs.SplitLast(fs);
      assert forall j :: 0 <= j < |front| ==> fs[j] == front[j];
      if f.cmd == ACK {
        if NewestOf(front).NoAck? {
          i := |front|;
          assert forall j :: 0 <= j < i ==> fs[j] in front;
        } else {
          NewerIsDifference(f, front[i]);
          if Newer(f, front[i]) {
            assert Newer(fs[|front|], fs[i]);
            i := |front|;
          }
        }
      }
    }
  }

  // ---- segments that are passed over ----

  /** The number is outstanding. */
  predicate Outstanding(s: Sender, sn: u32) {
    Sub32(sn, s.una) < Sub32(s.nxt, s.una)
  }

  /** The acknowledgement is for a later number than that of the segment, and for a copy that was sent no
      earlier than it. */
  predicate PassesOver(n: Newest, g: Segment) {
    n.Newest? && 0 < Sub32(n.sn, g.frame.sn) < 0x8000_0000 && Reached(n.ts, g.frame.ts)
  }

  lemma InFlightByFields(s: Sender, sn: u32)
    requires Ordered(s)
    ensures InFlight(s, sn) <==> Outstanding(s, sn)
  {
  }

  lemma PassedOverByFields(g: Segment, sn: u32, ts: u32)
    ensures PassedOver(g, sn, ts)
         == if PassesOver(Newest(sn, ts), g) then g.(fastack := ToU32(g.fastack + 1)) else g
  {
    ReachedIsDifference(ts, g.frame.ts);
    AfterIsDifference(sn, g.frame.sn);
    hide TimeDiff, Sub32;
  }

  lemma AfterIsDifference(x: u32, y: u32)
    ensures TimeDiff(x, y) > 0 <==> 0 < Sub32(x, y) < 0x8000_0000
  {
  }

  /** What the end of an input makes of a segment. */
  function Counted(s: Sender, n: Newest, g: Segment): Segment {
    if n.Newest? && Outstanding(s, n.sn) && PassesOver(n, g) then g.(fastack := ToU32(g.fastack + 1)) else g
  }

  lemma ConcludeCounts(k: Block, n: Newest, una: u32)
    requires Ok(k)
    ensures var s' := Conclude(k, n, una).snd;
      && s' == k.snd.(buf := s'.buf) && |s'.buf| == |k.snd.buf|
      && forall i :: 0 <= i < |s'.buf| ==> s'.buf[i] == Counted(k.snd, n, k.snd.buf[i])
  {
    assert Ordered(k.snd) && k.conf.mss > 0;
    if n.Newest? {
      InFlightByFields(k.snd, n.sn);
      forall i | 0 <= i < |k.snd.buf|
        ensures PassedOver(k.snd.buf[i], n.sn, n.ts)
             == if PassesOver(n, k.snd.buf[i]) then k.snd.buf[i].(fastack := ToU32(k.snd.buf[i].fastack + 1))
                else k.snd.buf[i]
      {
        PassedOverByFields(k.snd.buf[i], n.sn, n.ts);
      }
    }
    hide Ok, Ordered, InFlight, Outstanding, PassesOver, PassedOver, ToU32;
  }

  /** Fast acknowledgement. After a well-formed input every segment that is still outstanding is the one that was
      there before, with one more count exactly when the newest acknowledgement of the datagram is for an
      outstanding number behind it and for a copy that was sent no earlier; a malformed one counts nothing. */
  lemma InputCounts(k: Block, d: seq<byte>, i: nat) returns (j: nat)
    requires Ok(k) && OVERHEAD <= |d| < 0x8000_0000 && i < |Input(k, d).0.snd.buf|
    ensures j < |k.snd.buf|
    ensures var p, s' := Parse(k.conf.conv, d), Input(k, d).0.snd;
      s'.buf[i] == if p.code < 0 then k.snd.buf[j] else Counted(s', NewestOf(p.frames), k.snd.buf[j])
  {
    var p := Parse(k.conf.conv, d);
    var m := TakeFrames(k, p.frames);
    assert k.conf.mss > 0;
    hide *;
    Connection.TakeFramesAcked(k, p.frames);
    InputParts(k, d);
    if p.code >= 0 {
      ConcludeCounts(m, NewestOf(p.frames), k.snd.una);
      CountedByEdges(m.snd, Input(k, d).0.snd, NewestOf(p.frames));
    }
    j := StillThere(k.snd, m.snd, i);
  }

  lemma StillThere(s: Sender, s': Sender, i: nat) returns (j: nat)
    requires Acked(s, s') && i < |s'.buf|
    ensures j < |s.buf| && s.buf[j] == s'.buf[i]
  {
    assert s'.buf[i] in s.buf;
    j :| 0 <= j < |s.buf| && s.buf[j] == s'.buf[i];
  }

  lemma CountedByEdges(s: Sender, s': Sender, n: Newest)
    requires s'.una == s.una && s'.nxt == s.nxt
    ensures forall g :: Counted(s', n, g) == Counted(s, n, g)
  {
  }

  // ---- enough of them ----

  /** The datagram leaves the segment with this number outstanding and passes over it. */
  ghost predicate Passes(k: Block, d: seq<byte>, sn: u32)
    requires k.conf.mss > 0
  {
    var p := Parse(k.conf.conv, d);
    && OVERHEAD <= |d| < 0x8000_0000 && p.code >= 0 && NewestOf(p.frames).Newest?
    && Outstanding(Input(k, d).0.snd, NewestOf(p.frames).sn)
    && (exists g :: g in k.snd.buf && g.frame.sn == sn && PassesOver(NewestOf(p.frames), g))
    && (exists g :: g in Input(k, d).0.snd.buf && g.frame.sn == sn)
  }

  /** A run of inputs each of which passes over the segment. */
  ghost predicate AllPass(k: Block, ops: seq<Op>, sn: u32)
    requires k.conf.mss > 0
  {
    ops == []
    || var front, op := ops[..|ops| - 1], ops[|ops| - 1];
       AllPass(k, front, sn) && op.DoInput? && Passes(Runs.After(k, front), op.data, sn)
  }

  lemma OfNumber(s: Sender, g: Segment, h: Segment)
    requires Ordered(s) && g in s.buf && h in s.buf && g.frame.sn == h.frame.sn
    ensures g == h
  {
    Accounting.OrderedDistinct(s);
    var i :| 0 <= i < |s.buf| && s.buf[i] == g;
    Accounting.OnlyOne(s.buf, i, h);
  }

  lemma PassesThis(k: Block, d: seq<byte>, g: Segment) returns (i: nat)
    requires Ok(k) && g in k.snd.buf && Passes(k, d, g.frame.sn)
    ensures var p, s' := Parse(k.conf.conv, d), Input(k, d).0.snd;
      && OVERHEAD <= |d| < 0x8000_0000 && p.code >= 0 && PassesOver(NewestOf(p.frames), g)
      && Outstanding(s', NewestOf(p.frames).sn) && i < |s'.buf| && s'.buf[i].frame.sn == g.frame.sn
  {
    var p, s' := Parse(k.conf.conv, d), Input(k, d).0.snd;
    assert Ordered(k.snd);
    hide Ok, Ordered, Parse, NewestOf, Input, PassesOver, Outstanding;
    var h :| h in k.snd.buf && h.frame.sn == g.frame.sn && PassesOver(NewestOf(p.frames), h);
    OfNumber(k.snd, g, h);
    var g' :| g' in s'.buf && g'.frame.sn == g.frame.sn;
    i :| 0 <= i < |s'.buf| && s'.buf[i] == g';
  }

  lemma CountedHas(s: Sender, n: Newest, g: Segment)
    ensures Counted(s, n, g).frame == g.frame
    ensures n.Newest? && PassesOver(n, g) && Outstanding(s, n.sn) ==>
      Counted(s, n, g) == g.(fastack := ToU32(g.fastack + 1))
    ensures PassesOver(n, g) ==> n.Newest?
  {
  }

  /** One such input adds one to the count and leaves the rest of the segment. */
  lemma PassCounts(k: Block, d: seq<byte>, g: Segment)
    requires Ok(k) && g in k.snd.buf && Passes(k, d, g.frame.sn)
    ensures g.(fastack := ToU32(g.fastack + 1)) in Input(k, d).0.snd.buf
  {
    var p, s' := Parse(k.conf.conv, d), Input(k, d).0.snd;
    assert Ordered(k.snd);
    hide *;
    var i := PassesThis(k, d, g);
    var j := InputCounts(k, d, i);
    CountedHas(s', NewestOf(p.frames), k.snd.buf[j]);
    assert k.snd.buf[j] in k.snd.buf;
    OfNumber(k.snd, g, k.snd.buf[j]);
    assert s'.buf[i] in s'.buf;
    CountedHas(s', NewestOf(p.frames), g);
  }

  lemma LastPasses(k: Block, ops: seq<Op>, sn: u32)
    requires k.conf.mss > 0 && ops != [] && AllPass(k, ops, sn)
    ensures AllPass(k, ops[..|ops| - 1], sn) && ops[|ops| - 1].DoInput?
    ensures Passes(Runs.After(k, ops[..|ops| - 1]), ops[|ops| - 1].data, sn)
  {
    hide Passes;
  }

  lemma AfterInput(k: Block, ops: seq<Op>)
    requires k.conf.mss > 0 && ops != [] && ops[|ops| - 1].DoInput?
    ensures Runs.After(k, ops[..|ops| - 1]).conf.mss > 0
    ensures Runs.After(k, ops) == Input(Runs.After(k, ops[..|ops| - 1]), ops[|ops| - 1].data).0
  {
    hide Input;
  }

  lemma NonePassed(k: Block, g: Segment)
    requires k.conf.mss > 0
    ensures Runs.After(k, []) == k && g.(fastack := g.fastack + 0) == g
  {
  }

  lemma {:induction false} PassesCount(k: Block, ops: seq<Op>, g: Segment)
    requires Ok(k) && k.conf.mss > 0 && g in k.snd.buf && AllPass(k, ops, g.frame.sn)
    requires g.fastack + |ops| < 0x1_0000_0000
    ensures g.(fastack := g.fastack + |ops|) in Runs.After(k, ops).snd.buf
  {
    hide *;
    if ops == [] {
      NonePassed(k, g);
    } else {
      var front := ops[..|ops| - 1];
      LastPasses(k, ops, g.frame.sn);
      AfterInput(k, ops);
      PassesCount(k, front, g);
      Runs.AfterOk(k, front);
      var g' := g.(fastack := g.fastack + |front|);
      PassCounts(Runs.After(k, front), ops[|ops| - 1].data, g');
      OneMore(g'.fastack);
    }
  }

  lemma OneMore(x: u32)
    requires x < 0xffff_ffff
    ensures ToU32(x + 1) == x + 1
  {
  }

  lemma {:induction false} PassesKeepConf(k: Block, ops: seq<Op>, sn: u32)
    requires k.conf.mss > 0 && AllPass(k, ops, sn)
    ensures Runs.After(k, ops).conf == k.conf
  {
    if ops == [] {
    } else {
      PassesKeepConf(k, ops[..|ops| - 1], sn);
      Connection.InputKeepsTimer(Runs.After(k, ops[..|ops| - 1]), ops[|ops| - 1].data);
      hide Passes, Input;
    }
  }

  /** Fast retransmission fires. Once as many inputs as the threshold asks for have passed over a segment that
      has not been sent too often, the next flush sends it again. */
  lemma FastFires(k: Block, ops: seq<Op>, i: nat) returns (f: Frame)
    requires Ok(k) && i < |k.snd.buf| && AllPass(k, ops, k.snd.buf[i].frame.sn)
    requires var g := k.snd.buf[i];
      && 0 < k.conf.fastResend <= g.fastack + |ops| < 0x1_0000_0000
      && 0 < g.xmit && (k.conf.fastLimit <= 0 || g.xmit <= k.conf.fastLimit)
    ensures f in FlushFrames(Runs.After(k, ops)) && f.cmd == PUSH
    ensures f.sn == k.snd.buf[i].frame.sn && f.frg == k.snd.buf[i].frame.frg && f.data == k.snd.buf[i].frame.data
  {
    var g, m := k.snd.buf[i], Runs.After(k, ops);
    Runs.AfterOk(k, ops);
    PassesCount(k, ops, g);
    PassesKeepConf(k, ops, g.frame.sn);
    hide Ok, Runs.After, AllPass, FlushFrames;
    var g' := g.(fastack := g.fastack + |ops|);
    var j :| 0 <= j < |m.snd.buf| && m.snd.buf[j] == g';
    FlushDecides(m, j);
    assert Due(m, g');
    f :| f in FlushFrames(m) && f.cmd == PUSH && f.sn == g'.frame.sn;
  }

  // ---- the windows ----

  /** The window that the last frame announces; without any frame the one before. */
  function Announced(k: Block, fs: seq<Frame>): u16 {
    if fs == [] then k.win.rmt else fs[|fs| - 1].wnd
  }

  lemma {:induction false} TakeFramesWindow(k: Block, fs: seq<Frame>)
    ensures TakeFrames(k, fs).win == k.win.(rmt := Announced(k, fs))
  {
    if fs == [] {
    } else {
      TakeFramesWindow(k, fs[..|fs| - 1]);
      hide Announced;
      assert Announced(k, fs) == fs[|fs| - 1].wnd by {
        LastAnnounces(k, fs);
      }
    }
  }

  lemma LastAnnounces(k: Block, fs: seq<Frame>)
    requires fs != []
    ensures Announced(k, fs) == fs[|fs| - 1].wnd
  {
  }

  /** One growth step, for a byte count that fits: none behind a full window, one segment in slow start, and in
      congestion avoidance about a segment for each window, both limited by what the peer announced. */
  lemma GrowthByFields(w: Window, mss: u32)
    requires 0 < mss <= 0xffff && Balanced(w, mss)
    ensures var w' := Grow(w, mss);
      var base := Max(w.incr, mss);
      var incr := base + mss * mss / base + mss / 16;
      var cwnd := if incr < (w.cwnd + 1) * mss then w.cwnd else (incr + mss - 1) / mss;
      && w'.rmt == w.rmt && w'.ssthresh == w.ssthresh
      && (w.cwnd >= w.rmt ==> w' == w)
      && (w.cwnd < w.rmt && w.cwnd < w.ssthresh ==> w'.cwnd == w.cwnd + 1 && w'.incr == w.incr + mss)
      && (w.ssthresh <= w.cwnd < w.rmt ==>
            w'.cwnd == Min(cwnd, w.rmt) && w'.incr == if cwnd > w.rmt then w.rmt * mss else incr)
  {
    if w.cwnd < w.rmt {
      if w.ssthresh <= w.cwnd {
        AvoidExact(w, mss);
        GrowAvoids(w, mss);
        hide Avoid, Grow, Balanced, Mul32;
        ProductBound(w.rmt, mss, 0xffff, 0xffff);
        Mul32Exact(w.rmt, mss);
      } else {
        GrowSlow(w, mss);
      }
    }
  }

  lemma GrowAvoids(w: Window, mss: u32)
    requires mss > 0 && w.ssthresh <= w.cwnd < w.rmt
    ensures var w1 := Avoid(w, mss);
      Grow(w, mss) == if w1.cwnd > w1.rmt then w1.(cwnd := w1.rmt, incr := Mul32(w1.rmt, mss)) else w1
  {
    AvoidKeepsRmt(w, mss);
    hide Avoid, Mul32, Add32;
  }

  lemma GrowSlow(w: Window, mss: u32)
    requires 0 < mss <= 0xffff && Balanced(w, mss) && w.cwnd < w.rmt && w.cwnd < w.ssthresh
    ensures Grow(w, mss) == w.(cwnd := w.cwnd + 1, incr := w.incr + mss)
  {
    ProductBound(w.cwnd + 1, mss, 0x7fff, 0xffff);
  }

  /** The windows after an input: the peer's is the last one announced, and the congestion window makes one growth
      step exactly when the datagram is well formed and has moved `snd_una`. */
  lemma InputWindows(k: Block, d: seq<byte>)
    requires Ok(k) && OVERHEAD <= |d| < 0x8000_0000
    ensures var p, k' := Parse(k.conf.conv, d), Input(k, d).0;
      var w := k.win.(rmt := Announced(k, p.frames));
      k.conf.mss > 0 && k'.win == if p.code >= 0 && k'.snd.una != k.snd.una then Grow(w, k.conf.mss) else w
  {
    var p := Parse(k.conf.conv, d);
    var m := TakeFrames(k, p.frames);
    assert Ordered(k.snd) && k.conf.mss > 0;
    hide *;
    TakeFramesWindow(k, p.frames);
    TakeFramesConf(k, p.frames);
    Connection.TakeFramesAcked(k, p.frames);
    AdvanceByEdges(k.snd, m.snd);
    InputParts(k, d);
    if p.code >= 0 {
      ConcludeWindow(m, NewestOf(p.frames), k.snd.una);
    }
  }

  lemma InputParts(k: Block, d: seq<byte>)
    requires k.conf.mss > 0 && OVERHEAD <= |d| < 0x8000_0000
    ensures var p := Parse(k.conf.conv, d); var m := TakeFrames(k, p.frames);
      m.conf == k.conf && Input(k, d) == (if p.code < 0 then m else Conclude(m, NewestOf(p.frames), k.snd.una), p.code)
  {
    TakeFramesConf(k, Parse(k.conf.conv, d).frames);
    hide Parse, TakeFrames, NewestOf, Conclude;
  }

  lemma AdvanceByEdges(s: Sender, s': Sender)
    requires Ordered(s) && Acked(s, s')
    ensures TimeDiff(s'.una, s.una) > 0 <==> s'.una != s.una
  {
  }

  lemma ConcludeWindow(k: Block, n: Newest, una: u32)
    requires k.conf.mss > 0
    ensures var k' := Conclude(k, n, una);
      && k'.snd.una == k.snd.una
      && k'.win == if TimeDiff(k.snd.una, una) > 0 then Grow(k.win, k.conf.mss) else k.win
  {
    hide Grow, TimeDiff;
  }

  // ---- the other fields ----

  lemma {:induction false} TakeFramesProbe(k: Block, fs: seq<Frame>)
    ensures TakeFrames(k, fs).probe == k.probe.(askTell := TakeFrames(k, fs).probe.askTell)
    ensures TakeFrames(k, fs).probe.askTell <==> k.probe.askTell || exists f :: f in fs && f.cmd == WASK
    ensures TakeFrames(k, fs).xmit == k.xmit && TakeFrames(k, fs).dead == k.dead
  {
    if fs == [] {
    } else {
      TakeFramesProbe(k, fs[..|fs| - 1]);
      TakeFrameProbe(TakeFrames(k, fs[..|fs| - 1]), fs[|fs| - 1]);
      hide TakeFrame;
      Seqs.SplitLast(fs);
    }
  }

  lemma TakeFrameProbe(k: Block, f: Frame)
    ensures var k' := TakeFrame(k, f);
      && k'.probe == k.probe.(askTell := k.probe.askTell || f.cmd == WASK)
      && k'.xmit == k.xmit && k'.dead == k.dead
  {
    hide TakeUna, TakeAck, TakeRtt;
  }

  /** The peer is to be told of the window exactly when it has asked; no input changes the settings, the clock, the
      times of probes, or the counters of transmissions. */
  lemma InputKeeps(k: Block, d: seq<byte>)
    requires k.conf.mss > 0 && OVERHEAD <= |d| < 0x8000_0000
    ensures var fs, k' := Parse(k.conf.conv, d).frames, Input(k, d).0;
      && k'.conf == k.conf && k'.timer == k.timer && k'.xmit == k.xmit && k'.dead == k.dead
      && k'.probe == k.probe.(askTell := k'.probe.askTell)
      && (k'.probe.askTell <==> k.probe.askTell || exists f :: f in fs && f.cmd == WASK)
      && Input(k, d).1 == Parse(k.conf.conv, d).code
  {
    var p := Parse(k.conf.conv, d);
    hide *;
    TakeFramesProbe(k, p.frames);
    Connection.InputKeepsTimer(k, d);
    InputParts(k, d);
    ConcludeKeeps(TakeFrames(k, p.frames), NewestOf(p.frames), k.snd.una);
  }

  lemma ConcludeKeeps(k: Block, n: Newest, una: u32)
    ensures k.conf.mss > 0 ==>
      var k' := Conclude(k, n, una); k' == k.(snd := k'.snd, win := k'.win)
  {
    hide Grow;
  }

  /** Fewer bytes than a header change nothing. */
  lemma ShortInput(k: Block, d: seq<byte>)
    requires k.conf.mss > 0 && |d| < 24
    ensures Input(k, d) == (k, -1)
  {
  }
}
