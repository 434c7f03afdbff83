/** The sending half of a control block: the queue of fragments that wait for a number, and the
    buffer of numbered segments that wait for an acknowledgement. */
module Senders {
  import opened Words
  import opened Wire
  import opened Fragments
  import Seqs

  datatype Segment = Segment(frame: Frame, resendts: u32, rto: u32, fastack: u32, xmit: u32)

  datatype Sender = Sender(una: u32, nxt: u32, queue: seq<Fragment>, buf: seq<Segment>)

  function Sns(buf: seq<Segment>): (r: seq<u32>)
    ensures |r| == |buf| && forall i :: 0 <= i < |buf| ==> r[i] == buf[i].frame.sn
  {
    seq(|buf|, i requires 0 <= i < |buf| => buf[i].frame.sn)
  }

  /** How many numbers are assigned and not yet past `una`. */
  function Span(s: Sender): u32 {
    Sub32(s.nxt, s.una)
  }

  /** The buffer is strictly increasing in `[una, nxt)`, `una` is its first number, or `nxt` when it
      is empty, and the window never exceeds what the 16-bit field of the peer can announce. */
  ghost predicate Ordered(s: Sender) {
    && Span(s) <= 0xffff
    && Ascending(s.una, Span(s), Sns(s.buf))
    && s.una == if s.buf == [] then s.nxt else s.buf[0].frame.sn
  }

  /** Every segment, queued or numbered, is a PUSH that fits one datagram of this conversation. */
  ghost predicate Sendable(conv: u32, mss: u32, s: Sender) {
    && Sized(mss, s.queue)
    && (forall i :: 0 <= i < |s.buf| ==> Pushes(conv, mss, s.buf[i].frame))
  }

  predicate Pushes(conv: u32, mss: u32, f: Frame) {
    f.conv == conv && f.cmd == PUSH && |f.data| <= mss && f.frg < FRAGMENT_LIMIT - 1
  }

  // ---- acknowledgements ----

  /** `ikcp_shrink_buf` */
  function Shrink(s: Sender): Sender {
    s.(una := if s.buf == [] then s.nxt else s.buf[0].frame.sn)
  }

  /** `ikcp_parse_una`: drops segments from the front while they are before `una`. */
  function ParseUna(buf: seq<Segment>, una: u32): seq<Segment> {
    if buf != [] && TimeDiff(una, buf[0].frame.sn) > 0 then ParseUna(buf[1..], una) else buf
  }

  predicate InFlight(s: Sender, sn: u32) {
    TimeDiff(sn, s.una) >= 0 && TimeDiff(sn, s.nxt) < 0
  }

  function Without(buf: seq<Segment>, sn: u32): seq<Segment> {
    if buf == [] then []
    else if buf[0].frame.sn == sn then buf[1..]
    else [buf[0]] + Without(buf[1..], sn)
  }

  /** `ikcp_parse_ack`: removes the segment numbered `sn`. */
  function ParseAck(s: Sender, sn: u32): Sender {
    if InFlight(s, sn) then s.(buf := Without(s.buf, sn)) else s
  }

  /** A segment before the acknowledged number, sent no later than the acknowledged copy, has been
      passed over once more. */
  function PassedOver(seg: Segment, sn: u32, ts: u32): Segment {
    if TimeDiff(sn, seg.frame.sn) > 0 && TimeDiff(ts, seg.frame.ts) >= 0
    then seg.(fastack := Add32(seg.fastack, 1))
    else seg
  }

  function PassOver(buf: seq<Segment>, sn: u32, ts: u32): (r: seq<Segment>)
    ensures |r| == |buf| && forall i :: 0 <= i < |buf| ==> r[i] == PassedOver(buf[i], sn, ts)
  {
    seq(|buf|, i requires 0 <= i < |buf| => PassedOver(buf[i], sn, ts))
  }

  /** `ikcp_parse_fastack` */
  function ParseFastack(s: Sender, sn: u32, ts: u32): Sender {
    if InFlight(s, sn) then s.(buf := PassOver(s.buf, sn, ts)) else s
  }

  /** Both window edges of one frame: `ikcp_parse_una`, then `ikcp_shrink_buf`. */
  function TakeUna(s: Sender, una: u32): Sender {
    Shrink(s.(buf := ParseUna(s.buf, una)))
  }

  function TakeAck(s: Sender, sn: u32): Sender {
    Shrink(ParseAck(s, sn))
  }

  /** `s'` is `s` after some acknowledgements: segments have only been removed, so the window only
      closes from the left. */
  ghost predicate Acked(s: Sender, s': Sender) {
    && s'.nxt == s.nxt && s'.queue == s.queue
    && Sub32(s'.una, s.una) <= Span(s)
    && (forall g :: g in s'.buf ==> g in s.buf)
  }

  lemma {:induction false} ParseUnaDrops(buf: seq<Segment>, una: u32) returns (k: nat)
    ensures k <= |buf| && ParseUna(buf, una) == buf[k..]
    ensures forall i :: 0 <= i < k ==> TimeDiff(una, buf[i].frame.sn) > 0
    ensures k < |buf| ==> TimeDiff(una, buf[k].frame.sn) <= 0
  {
    if buf != [] && TimeDiff(una, buf[0].frame.sn) > 0 {
      var k' := ParseUnaDrops(buf[1..], una);
      k := k' + 1;
      assert forall i :: 1 <= i < k ==> buf[i] == buf[1..][i - 1];
    } else {
      k := 0;
    }
  }

  lemma SuffixOrdered(s: Sender, k: nat)
    requires Ordered(s) && k <= |s.buf|
    ensures var s' := Shrink(s.(buf := s.buf[k..])); Ordered(s') && Acked(s, s')
  {
    var s' := Shrink(s.(buf := s.buf[k..]));
    var sns := Sns(s.buf);
    assert Sns(s'.buf) == sns[k..];
    assert s'.una == if k < |sns| then sns[k] else s.nxt;
    assert Ascending(s.una, Span(s), sns[k..]);
    AscendingRebase(s.una, Span(s), sns[k..], s'.una);
  }

  /** Whatever cumulative acknowledgement arrives, the window invariant holds again and `una` has not
      moved back. */
  lemma TakeUnaOrdered(s: Sender, una: u32)
    requires Ordered(s)
    ensures Ordered(TakeUna(s, una)) && Acked(s, TakeUna(s, una))
  {
    var k := ParseUnaDrops(s.buf, una);
    SuffixOrdered(s, k);
  }

  /** The early exit loses nothing: for a `una` inside the window, across the wrap, exactly the
      segments before `una` are dropped. */
  lemma TakeUnaExact(s: Sender, una: u32, g: Segment)
    requires Ordered(s) && Sub32(una, s.una) <= Span(s)
    ensures g in TakeUna(s, una).buf
       <==> g in s.buf && Sub32(g.frame.sn, s.una) >= Sub32(una, s.una)
  {
    var k := ParseUnaDrops(s.buf, una);
    var sns := Sns(s.buf);
    forall i | 0 <= i < |s.buf|
      ensures TimeDiff(una, s.buf[i].frame.sn) == Sub32(una, s.una) - Sub32(sns[i], s.una)
    {
      TimeDiffInWindow(s.una, una, sns[i]);
    }
    if g in s.buf {
      var i :| 0 <= i < |s.buf| && s.buf[i] == g;
      if i >= k {
        assert s.buf[k..][i - k] == g;
        assert Sub32(sns[i], s.una) >= Sub32(sns[k], s.una);
      }
    }
    if g in s.buf[k..] {
      var j :| 0 <= j < |s.buf| - k && s.buf[k..][j] == g;
      assert s.buf[k + j] == g;
      assert Sub32(sns[k + j], s.una) >= Sub32(sns[k], s.una);
    }
  }

  /** A cumulative acknowledgement that is already past, of any age and for an edge at index `u`, drops
      nothing if and only if its age, less whole rounds of the ring, is at most half of the ring; any other
      one drops what has not arrived. */
  lemma OldUnaDrops(s: Sender, u: nat, i: nat)
    requires Ordered(s) && s.buf != [] && s.una == ToU32(u) && i <= u
    ensures TakeUna(s, ToU32(i)) == s <==> (u - i) % 0x1_0000_0000 <= 0x8000_0000
  {
    var k := ParseUnaDrops(s.buf, ToU32(i));
    OldDifference(u, i);
    hide ToU32, TimeDiff, Ascending, ParseUna;
    Seqs.TakeAll(s.buf);
  }

  lemma OldDifference(u: nat, i: nat)
    requires i <= u
    ensures TimeDiff(ToU32(i), ToU32(u)) > 0 <==> (u - i) % 0x1_0000_0000 > 0x8000_0000
  {
    RingDistance(u, i);
    hide ToU32;
  }

  lemma {:induction false} WithoutAt(buf: seq<Segment>, sn: u32, k: nat)
    requires k <= |buf| && forall i :: 0 <= i < k ==> buf[i].frame.sn != sn
    requires k < |buf| ==> buf[k].frame.sn == sn
    ensures Without(buf, sn) == if k < |buf| then buf[..k] + buf[k + 1..] else buf
  {
    if k == 0 {
    } else {
      WithoutAt(buf[1..], sn, k - 1);
      Seqs.SplitFirst(buf);
      if k < |buf| {
        assert buf[..k] == [buf[0]] + buf[1..][..k - 1];
        assert buf[1..][k..] == buf[k + 1..];
        Seqs.Assoc([buf[0]], buf[1..][..k - 1], buf[k + 1..]);
      }
    }
  }

  lemma IndexOfSn(buf: seq<Segment>, sn: u32) returns (k: nat)
    ensures k <= |buf| && forall i :: 0 <= i < k ==> buf[i].frame.sn != sn
    ensures k < |buf| ==> buf[k].frame.sn == sn
  {
    k := 0;
    while k < |buf| && buf[k].frame.sn != sn
      invariant k <= |buf| && forall i :: 0 <= i < k ==> buf[i].frame.sn != sn
    {
      k := k + 1;
    }
  }

  lemma RemoveOrdered(s: Sender, k: nat)
    requires Ordered(s) && k < |s.buf|
    ensures var s' := Shrink(s.(buf := s.buf[..k] + s.buf[k + 1..])); Ordered(s') && Acked(s, s')
  {
    var buf' := s.buf[..k] + s.buf[k + 1..];
    var s' := Shrink(s.(buf := buf'));
    var sns, sns' := Sns(s.buf), Sns(buf');
    assert sns' == sns[..k] + sns[k + 1..];
    assert Ascending(s.una, Span(s), sns');
    if k == 0 {
      assert buf' == s.buf[1..];
      SuffixOrdered(s, 1);
    } else {
      assert s'.una == s.una;
      assert forall g :: g in buf' ==> g in s.buf;
    }
  }

  lemma TakeAckOrdered(s: Sender, sn: u32)
    requires Ordered(s)
    ensures Ordered(TakeAck(s, sn)) && Acked(s, TakeAck(s, sn))
  {
    var k := IndexOfSn(s.buf, sn);
    WithoutAt(s.buf, sn, k);
    if InFlight(s, sn) && k < |s.buf| {
      RemoveOrdered(s, k);
    } else {
      SuffixOrdered(s, 0);
      Seqs.TakeAll(s.buf);
    }
  }

  /** A selective acknowledgement removes exactly the segment with that number, if it is there. */
  lemma TakeAckExact(s: Sender, sn: u32, g: Segment)
    requires Ordered(s)
    ensures g in TakeAck(s, sn).buf <==> g in s.buf && g.frame.sn != sn
  {
    var k := IndexOfSn(s.buf, sn);
    WithoutAt(s.buf, sn, k);
    var sns := Sns(s.buf);
    if k < |s.buf| {
      TimeDiffInWindow(s.una, sn, s.una);
      TimeDiffInWindow(s.una, sn, s.nxt);
      assert sns[k] == sn;
      assert InFlight(s, sn);
      forall i | 0 <= i < |s.buf| && i != k
        ensures sns[i] != sn
      {
        assert if i < k then Sub32(sns[i], s.una) < Sub32(sns[k], s.una)
          else Sub32(sns[k], s.una) < Sub32(sns[i], s.una);
      }
    }
  }

  lemma ParseFastackOrdered(s: Sender, sn: u32, ts: u32)
    requires Ordered(s)
    ensures Ordered(ParseFastack(s, sn, ts))
  {
    assert Sns(ParseFastack(s, sn, ts).buf) == Sns(s.buf);
  }

  /** In the ordered buffer, once a number is after `sn`, all the rest are. */
  lemma RestIsAfter(s: Sender, sn: u32, i: nat)
    requires Ordered(s) && InFlight(s, sn) && i < |s.buf| && TimeDiff(sn, s.buf[i].frame.sn) < 0
    ensures forall j :: i <= j < |s.buf| ==> TimeDiff(sn, s.buf[j].frame.sn) < 0 && s.buf[j].frame.sn != sn
  {
    var sns := Sns(s.buf);
    TimeDiffInWindow(s.una, sn, sns[i]);
    forall j | i <= j < |s.buf|
      ensures TimeDiff(sn, s.buf[j].frame.sn) < 0
    {
      TimeDiffInWindow(s.una, sn, sns[j]);
    }
  }
}
