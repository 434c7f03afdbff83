/** The control block as the program keeps it: mutable fields, queues changed in place, an array of
    pending acknowledgements that doubles, and one output buffer written through a cursor. Every method
    is proved to compute the function of module `Control` with its name. */
module Kcps {
  import opened Words
  import opened Wire
  import opened Fragments
  import opened Senders
  import opened Transmission
  import opened Receivers
  import opened Estimator
  import opened Congestion
  import opened Control
  import opened Schedule
  import Seqs

  function Pairs(words: seq<u32>, n: nat): (r: seq<Ack>)
    requires 2 * n <= |words|
    ensures |r| == n && forall i :: 0 <= i < n ==> r[i] == Ack(words[2 * i], words[2 * i + 1])
  {
    seq(n, i requires 0 <= i < n => Ack(words[2 * i], words[2 * i + 1]))
  }

  class Kcp {
    /** The settings: conversation, sizes, retransmission options, intervals. */
    var conf: Config

    var sndUna: u32
    var sndNxt: u32
    var sndQueue: seq<Fragment>
    var sndBuf: seq<Segment>
    var nsndQue: nat
    var nsndBuf: nat

    var rcvNxt: u32
    var rcvWnd: u32
    var rcvQueue: seq<Frame>
    var rcvBuf: seq<Frame>
    var nrcvQue: nat
    var nrcvBuf: nat

    /** Pairs of number and time; `ackBlock` pairs are allocated, `ackCount` are in use. */
    var acklist: array<u32>
    var ackCount: nat
    var ackBlock: nat

    var rtt: Rtt
    var win: Window
    var probe: Probe
    var timer: Timer

    var xmit: u32
    var dead: bool

    /** Frames are assembled here. */
    var buffer: array<byte>
    /** What the output callback has been given so far. */
    var output: seq<seq<byte>>

    // ---- abstraction ----

    function Snd(): Sender
      reads this`sndUna, this`sndNxt, this`sndQueue, this`sndBuf
    {
      Sender(sndUna, sndNxt, sndQueue, sndBuf)
    }

    function Acks(): seq<Ack>
      requires acklist.Length == 2 * ackBlock && ackCount <= ackBlock
      reads this`acklist, this`ackCount, this`ackBlock, acklist
    {
      Pairs(acklist[..], ackCount)
    }

    function Rcv(): Receiver
      requires acklist.Length == 2 * ackBlock && ackCount <= ackBlock
      reads this`rcvNxt, this`rcvWnd, this`rcvQueue, this`rcvBuf, this`acklist, this`ackCount, this`ackBlock, acklist
    {
      Receiver(rcvNxt, rcvWnd, rcvQueue, rcvBuf, Acks())
    }

    function Abs(): Block
      requires acklist.Length == 2 * ackBlock && ackCount <= ackBlock
      reads this, acklist
    {
      Block(conf, Snd(), Rcv(), rtt, win, probe, timer, xmit, dead)
    }

    /** The counters agree with the lists, and the arrays have their sizes. */
    predicate Shaped()
      reads this
    {
      && acklist.Length == 2 * ackBlock && ackCount <= ackBlock
      && nsndQue == |sndQueue| && nsndBuf == |sndBuf| && nrcvQue == |rcvQueue| && nrcvBuf == |rcvBuf|
      && buffer.Length == 3 * (conf.mtu + OVERHEAD)
    }

    ghost predicate Valid()
      reads this, acklist
    {
      Shaped() && Ok(Abs())
    }

    constructor (conv: u32)
      ensures Valid() && fresh(acklist) && fresh(buffer)
      ensures Abs() == Create(conv) && output == []
    {
      conf := Config(
        conv, MTU_DEF, MTU_DEF - OVERHEAD, WND_SND, 0, INTERVAL, RTO_MIN, 0, FASTACK_LIMIT, false, false, DEADLINK);
      sndUna, sndNxt, rcvNxt := 0, 0, 0;
      rcvWnd := WND_RCV;
      win := Window(WND_RCV, 0, 0, THRESH_MIN);
      probe := Probe(false, false, 0, 0);
      buffer := new byte[3 * (MTU_DEF + OVERHEAD)](_ => 0);
      sndQueue, rcvQueue, sndBuf, rcvBuf := [], [], [], [];
      nrcvBuf, nsndBuf, nrcvQue, nsndQue := 0, 0, 0, 0;
      dead, xmit := false, 0;
      acklist, ackBlock, ackCount := new u32[0], 0, 0;
      rtt := Rtt(0, 0, RTO_DEF);
      timer := Timer(0, false, INTERVAL);
      output := [];
      new;
      assert Acks() == [];
      CreateOk(conv);
    }

    // ---- user side ----

    /** Stream mode tops up the last queued fragment. */
    method TopUp(buffer: seq<byte>) returns (sent: nat)
      requires |buffer| < 0x8000_0000 && nsndQue == |sndQueue|
      modifies this`sndQueue
      ensures (sndQueue, sent) == Extend(conf.mss, old(sndQueue), buffer)
      ensures nsndQue == |sndQueue|
    {
      sent := 0;
      if sndQueue != [] {
        var last := sndQueue[|sndQueue| - 1];
        if |last.data| < conf.mss {
          var capacity := conf.mss - |last.data|;
          var extend := if |buffer| < capacity then |buffer| else capacity;
          sndQueue := sndQueue[..|sndQueue| - 1] + [Fragment(0, last.data + buffer[..extend])];
          sent := extend;
        }
      }
    }

    /** The loop that cuts the buffer into `count` fragments. */
    method Enqueue(buffer: seq<byte>, count: nat)
      requires count < FRAGMENT_LIMIT && nsndQue == |sndQueue|
      modifies this`sndQueue, this`nsndQue
      ensures sndQueue == old(sndQueue) + Split(conf.mss, conf.stream, count, buffer) && nsndQue == |sndQueue|
    {
      var rest := buffer;
      var i := 0;
      Seqs.AppendNone(sndQueue);
      while i < count
        invariant i <= count && nsndQue == |sndQueue|
        invariant sndQueue + Split(conf.mss, conf.stream, count - i, rest)
               == old(sndQueue) + Split(conf.mss, conf.stream, count, buffer)
      {
        var size := if |rest| > conf.mss then conf.mss else |rest|;
        var piece := Fragment(if conf.stream then 0 else count - i - 1, rest[..size]);
        Seqs.Assoc(sndQueue, [piece], Split(conf.mss, conf.stream, count - i - 1, rest[size..]));
        sndQueue := sndQueue + [piece];
        nsndQue := nsndQue + 1;
        rest := rest[size..];
        i := i + 1;
      }
      Seqs.AppendNone(sndQueue);
    }

    method SendData(data: seq<byte>) returns (code: int)
      requires nsndQue == |sndQueue| && conf.mss > 0 && |data| < 0x8000_0000
      modifies this`sndQueue, this`nsndQue
      ensures SendResult(sndQueue, code) == Fragments.Send(conf.mss, conf.stream, old(sndQueue), data)
      ensures nsndQue == |sndQueue|
    {
      var sent := 0;
      if conf.stream {
        sent := TopUp(data);
        if |data| - sent <= 0 {
          assert data[sent..] == [];
          return sent;
        }
      }
      var rest := data[sent..];
      var count := if |rest| <= conf.mss then 1 else (|rest| + conf.mss - 1) / conf.mss;
      CountCovers(conf.mss, |rest|);
      if count >= FRAGMENT_LIMIT {
        return if conf.stream && sent > 0 then sent else -2;
      }
      Enqueue(rest, count);
      code := |data|;
    }

    /** `ikcp_send` */
    method Send(buffer: seq<byte>, len: i32) returns (code: int)
      requires Valid() && len <= |buffer|
      modifies this`sndQueue, this`nsndQue
      ensures Valid()
      ensures len < 0 ==> code == -1 && Abs() == old(Abs())
      ensures len >= 0 ==> (Abs(), code) == SendBlock(old(Abs()), buffer[..len])
    {
      if len < 0 {
        return -1;
      }
      SendOk(Abs(), buffer[..len]);
      code := SendData(buffer[..len]);
    }

    /** `ikcp_peeksize` */
    method PeekSize() returns (size: int)
      requires nrcvQue == |rcvQueue|
      ensures size == Receivers.PeekSize(rcvQueue)
    {
      if rcvQueue == [] {
        return -1;
      }
      if rcvQueue[0].frg == 0 {
        return |rcvQueue[0].data|;
      }
      if nrcvQue < rcvQueue[0].frg + 1 {
        return -1;
      }
      ghost var ps := Pieces(rcvQueue);
      size := 0;
      var i := 0;
      while i < |rcvQueue|
        invariant i < |rcvQueue| && size == |Stream(ps[..i])|
        invariant forall j :: 0 <= j < i ==> ps[j].frg != 0
        decreases |rcvQueue| - i
      {
        StreamNext(ps, i);
        size := size + |rcvQueue[i].data|;
        if rcvQueue[i].frg == 0 || i == |rcvQueue| - 1 {
          MessageEndAt(ps, i);
          break;
        }
        i := i + 1;
      }
    }

    /** The loop that copies payloads out, unlinking each frame unless the call only peeks. */
    method Merge(peek: bool) returns (data: seq<byte>)
      requires rcvQueue != [] && nrcvQue == |rcvQueue|
      modifies this`rcvQueue, this`nrcvQue
      ensures var n := MessageEnd(Pieces(old(rcvQueue)));
        && data == Stream(Pieces(old(rcvQueue))[..n])
        && rcvQueue == (if peek then old(rcvQueue) else old(rcvQueue)[n..])
        && nrcvQue == |rcvQueue|
    {
      hide Merged, Stream, MessageEnd, Pieces;
      var queue := rcvQueue;
      data := [];
      var i := 0;
      Seqs.TakeAll(queue);
      MergeStart(queue);
      while true
        invariant i < |queue| && Merged(queue, i, data) && nrcvQue == |rcvQueue|
        invariant rcvQueue == if peek then queue else queue[i..]
        decreases |queue| - i
      {
        var seg := queue[i];
        MergeStep(queue, i, data);
        Seqs.DropDrop(queue, i);
        i := i + 1;
        data := data + seg.data;
        if !peek {
          rcvQueue := rcvQueue[1..];
          nrcvQue := nrcvQue - 1;
        }
        if seg.frg == 0 || i == |queue| {
          break;
        }
      }
    }

    /** The loop that moves available frames from the buffer to the queue. */
    method MoveUp()
      requires Shaped()
      modifies this`rcvQueue, this`nrcvQue, this`rcvBuf, this`nrcvBuf, this`rcvNxt
      ensures Shaped() && Rcv() == Drain(old(Rcv()))
    {
      hide Drain, Pairs, ToU32;
      while rcvBuf != []
        invariant Shaped() && Drain(Rcv()) == Drain(old(Rcv()))
        decreases |rcvBuf|
      {
        DrainUnfold(Rcv());
        var seg := rcvBuf[0];
        if seg.sn == rcvNxt && nrcvQue < rcvWnd {
          rcvBuf, nrcvBuf := rcvBuf[1..], nrcvBuf - 1;
          rcvQueue, nrcvQue := rcvQueue + [seg], nrcvQue + 1;
          rcvNxt := Add32(rcvNxt, 1);
        } else {
          break;
        }
      }
      DrainUnfold(Rcv());
    }

    static lemma DrainUnfold(r: Receiver)
      ensures Drain(r) == if Drained(r) then r else Drain(DrainOne(r))
    {
    }

    /** A read that the size test admits. */
    method ReadMessage(peek: bool) returns (data: seq<byte>)
      requires Shaped() && rcvQueue != []
      modifies this`rcvQueue, this`nrcvQue, this`rcvBuf, this`nrcvBuf, this`rcvNxt, this`probe
      ensures Shaped()
      ensures var r, n := old(Rcv()), MessageEnd(Pieces(old(rcvQueue)));
        && data == Stream(Pieces(r.queue)[..n])
        && Rcv() == Drain(r.(queue := r.queue[if peek then 0 else n..]))
        && probe == old(probe).(askTell := old(probe.askTell) || (|r.queue| >= r.wnd && |rcvQueue| < r.wnd))
    {
      hide Drain, Pieces, MessageEnd, Stream, Pairs;
      var recover := nrcvQue >= rcvWnd;
      Seqs.TakeAll(rcvQueue);
      data := Merge(peek);
      MoveUp();
      if nrcvQue < rcvWnd && recover {
        probe := probe.(askTell := true);
      }
    }

    static lemma ReadSucceeds(r: Receiver, len: nat, peek: bool)
      requires 0 <= Receivers.PeekSize(r.queue) <= len
      ensures var n := MessageEnd(Pieces(r.queue)); var data := Stream(Pieces(r.queue)[..n]);
        && ReadFront(r.queue, len) == Receivers.Read(|data|, data) && |data| == Receivers.PeekSize(r.queue)
        && AfterRead(r, len, peek) == Drain(r.(queue := r.queue[if peek then 0 else n..]))
    {
      ReadMatchesPeek(r.queue, len);
    }

    method Read(len: nat, peek: bool) returns (code: int, data: seq<byte>)
      requires Shaped()
      modifies this`rcvQueue, this`nrcvQue, this`rcvBuf, this`nrcvBuf, this`rcvNxt, this`probe
      ensures Shaped() && Receivers.Read(code, data) == ReadFront(old(rcvQueue), len)
      ensures Rcv() == AfterRead(old(Rcv()), len, peek)
      ensures probe == old(probe).(askTell := old(probe.askTell) || Reopens(old(Rcv()), len, peek))
    {
      if rcvQueue == [] {
        return -1, [];
      }
      var size := PeekSize();
      if size < 0 {
        return -2, [];
      }
      if size > len {
        return -3, [];
      }
      ReadSucceeds(Rcv(), len, peek);
      data := ReadMessage(peek);
      assert |data| == size;
      code := |data|;
    }

    /** `ikcp_recv`; a negative length peeks. */
    method Recv(length: i32) returns (code: int, data: seq<byte>)
      requires Valid()
      modifies this`rcvQueue, this`nrcvQue, this`rcvBuf, this`nrcvBuf, this`rcvNxt, this`probe
      ensures Valid()
      ensures Abs() == RecvBlock(old(Abs()), Magnitude(length), length < 0).0
      ensures Receivers.Read(code, data) == RecvBlock(old(Abs()), Magnitude(length), length < 0).1
    {
      RecvOk(Abs(), Magnitude(length), length < 0);
      code, data := Read(Magnitude(length), length < 0);
    }

    // ---- acknowledgements ----

    /** `ikcp_update_ack` */
    method UpdateAck(sample: i32)
      modifies this`rtt
      ensures rtt == Sample(old(rtt), sample, conf.interval, conf.minRto)
    {
      if rtt.srtt == 0 {
        rtt := rtt.(srtt := sample, rttval := TruncDiv(sample, 2));
      } else {
        var delta := sample - rtt.srtt;
        if delta < 0 {
          delta := -delta;
        }
        rtt := rtt.(rttval := ToI32(TruncDiv(ToI32(3 * rtt.rttval) + delta, 4)));
        var srtt := TruncDiv(ToI32(ToI32(7 * rtt.srtt) + sample), 8);
        if srtt < 1 {
          srtt := 1;
        }
        rtt := rtt.(srtt := srtt);
      }
      var rto := ToU32(rtt.srtt + Max(conf.interval, ToU32(4 * rtt.rttval)));
      rtt := rtt.(rto := Bound(conf.minRto, rto, RTO_MAX));
    }

    /** `ikcp_shrink_buf` */
    method ShrinkBuf()
      modifies this`sndUna
      ensures Snd() == Shrink(old(Snd()))
    {
      if sndBuf != [] {
        sndUna := sndBuf[0].frame.sn;
      } else {
        sndUna := sndNxt;
      }
    }

    /** `ikcp_parse_una` */
    method ParseUna(una: u32)
      requires nsndBuf == |sndBuf|
      modifies this`sndBuf, this`nsndBuf
      ensures sndBuf == Senders.ParseUna(old(sndBuf), una) && nsndBuf == |sndBuf|
    {
      while sndBuf != []
        invariant nsndBuf == |sndBuf|
        invariant Senders.ParseUna(sndBuf, una) == Senders.ParseUna(old(sndBuf), una)
        invariant sndBuf == [] ==> sndBuf == Senders.ParseUna(old(sndBuf), una)
        decreases |sndBuf|
      {
        if TimeDiff(una, sndBuf[0].frame.sn) > 0 {
          sndBuf, nsndBuf := sndBuf[1..], nsndBuf - 1;
        } else {
          break;
        }
      }
    }

    /** `ikcp_parse_ack`: the scan stops at the number or at the first one after it. */
    method ParseAck(sn: u32)
      requires nsndBuf == |sndBuf| && Ordered(Snd())
      modifies this`sndBuf, this`nsndBuf
      ensures Snd() == Senders.ParseAck(old(Snd()), sn) && nsndBuf == |sndBuf|
    {
      if TimeDiff(sn, sndUna) < 0 || TimeDiff(sn, sndNxt) >= 0 {
        return;
      }
      var i := 0;
      while i < |sndBuf|
        invariant i <= |sndBuf| && sndBuf == old(sndBuf) && nsndBuf == |sndBuf|
        invariant forall j :: 0 <= j < i ==> sndBuf[j].frame.sn != sn
      {
        if sn == sndBuf[i].frame.sn {
          WithoutAt(sndBuf, sn, i);
          sndBuf, nsndBuf := sndBuf[..i] + sndBuf[i + 1..], nsndBuf - 1;
          return;
        }
        if TimeDiff(sn, sndBuf[i].frame.sn) < 0 {
          RestIsAfter(Snd(), sn, i);
          break;
        }
        i := i + 1;
      }
      WithoutAt(sndBuf, sn, |sndBuf|);
    }

    /** `ikcp_parse_fastack`: the scan stops at the first number after `sn`. */
    method ParseFastack(sn: u32, ts: u32)
      requires Ordered(Snd())
      modifies this`sndBuf
      ensures Snd() == Senders.ParseFastack(old(Snd()), sn, ts)
    {
      if TimeDiff(sn, sndUna) < 0 || TimeDiff(sn, sndNxt) >= 0 {
        return;
      }
      ghost var buf := sndBuf;
      var i := 0;
      while i < |sndBuf|
        invariant i <= |sndBuf| == |buf|
        invariant forall j :: 0 <= j < i ==> sndBuf[j] == PassedOver(buf[j], sn, ts)
        invariant forall j :: i <= j < |buf| ==> sndBuf[j] == buf[j]
      {
        var seg := sndBuf[i];
        if TimeDiff(sn, seg.frame.sn) < 0 {
          RestIsAfter(old(Snd()), sn, i);
          break;
        } else if sn != seg.frame.sn {
          if TimeDiff(ts, seg.frame.ts) >= 0 {
            sndBuf := sndBuf[i := seg.(fastack := Add32(seg.fastack, 1))];
          }
        }
        i := i + 1;
      }
      assert sndBuf == PassOver(buf, sn, ts);
    }

    /** `ikcp_ack_push`: the array doubles until the new pair fits. */
    method AckPush(sn: u32, ts: u32)
      requires acklist.Length == 2 * ackBlock && ackCount <= ackBlock
      modifies this`acklist, this`ackCount, this`ackBlock, acklist
      ensures acklist.Length == 2 * ackBlock && ackCount <= ackBlock
      ensures acklist == old(acklist) || fresh(acklist)
      ensures Acks() == old(Acks()) + [Ack(sn, ts)]
    {
      ghost var acks := Acks();
      var newsize := ackCount + 1;
      if newsize > ackBlock {
        var newblock := 8;
        while newblock < newsize
          invariant newblock > 0
          decreases newsize - newblock
        {
          newblock := 2 * newblock;
        }
        var bigger := new u32[2 * newblock](_ => 0);
        var x := 0;
        while x < ackCount
          modifies bigger
          invariant x <= ackCount
          invariant forall i :: 0 <= i < 2 * x ==> bigger[i] == acklist[i]
        {
          bigger[2 * x] := acklist[2 * x];
          bigger[2 * x + 1] := acklist[2 * x + 1];
          x := x + 1;
        }
        acklist, ackBlock := bigger, newblock;
      }
      assert Acks() == acks;
      acklist[2 * ackCount] := sn;
      acklist[2 * ackCount + 1] := ts;
      ackCount := ackCount + 1;
    }

    // ---- data ----

    /** The search from the tail of the buffer: where it stops, and whether the number is there. */
    method FindPlace(sn: u32) returns (p: nat, repeated: bool)
      ensures p == Place(rcvBuf, sn) && (repeated <==> p > 0 && rcvBuf[p - 1].sn == sn)
    {
      hide Place, TimeDiff;
      p, repeated := |rcvBuf|, false;
      Seqs.TakeAll(rcvBuf);
      while p > 0
        invariant 0 <= p <= |rcvBuf| && Place(rcvBuf, sn) == Place(rcvBuf[..p], sn)
      {
        var seg := rcvBuf[p - 1];
        PlaceStep(rcvBuf, p, sn);
        if seg.sn == sn {
          repeated := true;
          break;
        }
        if TimeDiff(sn, seg.sn) > 0 {
          break;
        }
        p := p - 1;
      }
    }

    /** `ikcp_parse_data` */
    method ParseData(f: Frame)
      requires Shaped() && FRAGMENT_LIMIT <= rcvWnd <= 0xffff
      modifies this`rcvQueue, this`nrcvQue, this`rcvBuf, this`nrcvBuf, this`rcvNxt
      ensures Shaped() && Rcv() == Receivers.ParseData(old(Rcv()), f)
    {
      if TimeDiff(f.sn, Add32(rcvNxt, rcvWnd)) >= 0 || TimeDiff(f.sn, rcvNxt) < 0 {
        return;
      }
      assert InWindow(Rcv(), f.sn);
      hide Place, InWindow, Drain, Pairs;
      var p, repeated := FindPlace(f.sn);
      if !repeated {
        rcvBuf, nrcvBuf := rcvBuf[..p] + [f] + rcvBuf[p..], nrcvBuf + 1;
      }
      MoveUp();
    }

    // ---- input ----

    /** The part common to all commands: the peer's window and its cumulative acknowledgement. */
    method TakeEdges(wnd: u16, una: u32)
      requires nsndBuf == |sndBuf|
      modifies this`win, this`sndBuf, this`nsndBuf, this`sndUna
      ensures win == old(win).(rmt := wnd) && Snd() == TakeUna(old(Snd()), una) && nsndBuf == |sndBuf|
    {
      win := win.(rmt := wnd);
      ParseUna(una);
      ShrinkBuf();
    }

    method TakeAckFrame(sn: u32, ts: u32)
      requires nsndBuf == |sndBuf| && Ordered(Snd())
      modifies this`rtt, this`sndBuf, this`nsndBuf, this`sndUna
      ensures Snd() == TakeAck(old(Snd()), sn) && nsndBuf == |sndBuf|
      ensures rtt == TakeRtt(old(rtt), timer.current, ts, conf)
    {
      if TimeDiff(timer.current, ts) >= 0 {
        UpdateAck(TimeDiff(timer.current, ts));
      }
      ParseAck(sn);
      ShrinkBuf();
    }

    method TakePushFrame(f: Frame)
      requires Shaped() && FRAGMENT_LIMIT <= rcvWnd <= 0xffff
      modifies this`rcvQueue, this`nrcvQue, this`rcvBuf, this`nrcvBuf, this`rcvNxt
      modifies this`acklist, this`ackCount, this`ackBlock, acklist
      ensures Shaped() && Rcv() == TakePush(old(Rcv()), f)
      ensures acklist == old(acklist) || fresh(acklist)
    {
      if TimeDiff(f.sn, Add32(rcvNxt, rcvWnd)) < 0 {
        AckPush(f.sn, f.ts);
        if TimeDiff(f.sn, rcvNxt) >= 0 {
          ParseData(f);
        }
      }
    }

    method Dispatch(f: Frame)
      requires Shaped() && Ordered(Snd()) && FRAGMENT_LIMIT <= rcvWnd <= 0xffff
      modifies this`win, this`rtt, this`probe, this`sndBuf, this`nsndBuf, this`sndUna
      modifies this`rcvQueue, this`nrcvQue, this`rcvBuf, this`nrcvBuf, this`rcvNxt
      modifies this`acklist, this`ackCount, this`ackBlock, acklist
      ensures Shaped() && (acklist == old(acklist) || fresh(acklist))
      ensures win == old(win).(rmt := f.wnd)
      ensures var s := TakeUna(old(Snd()), f.una); Snd() == if f.cmd == ACK then TakeAck(s, f.sn) else s
      ensures Rcv() == if f.cmd == PUSH then TakePush(old(Rcv()), f) else old(Rcv())
      ensures rtt == if f.cmd == ACK then TakeRtt(old(rtt), timer.current, f.ts, conf) else old(rtt)
      ensures probe == if f.cmd == WASK then old(probe).(askTell := true) else old(probe)
    {
      hide TakeUna, TakeAck, TakePush, TakeRtt, Ordered, Pairs;
      TakeUnaOrdered(Snd(), f.una);
      TakeEdges(f.wnd, f.una);
      if f.cmd == ACK {
        TakeAckFrame(f.sn, f.ts);
      } else if f.cmd == PUSH {
        TakePushFrame(f);
      } else if f.cmd == WASK {
        probe := probe.(askTell := true);
      }
    }

    /** One pass of the input loop. */
    method Handle(f: Frame)
      requires Valid()
      modifies this`win, this`rtt, this`probe, this`sndBuf, this`nsndBuf, this`sndUna
      modifies this`rcvQueue, this`nrcvQue, this`rcvBuf, this`nrcvBuf, this`rcvNxt
      modifies this`acklist, this`ackCount, this`ackBlock, acklist
      ensures Valid() && (acklist == old(acklist) || fresh(acklist))
      ensures Abs() == TakeFrame(old(Abs()), f)
    {
      assert Ordered(Snd()) && Windowed(Rcv());
      hide Ok, Ordered, TakeUna, TakeAck, TakePush, TakeRtt, Pairs;
      TakeFrameOk(Abs(), f);
      Dispatch(f);
    }

    method GrowWindow()
      requires conf.mss > 0
      modifies this`win
      ensures win == Grow(old(win), conf.mss)
    {
      if win.cwnd < win.rmt {
        var mss := conf.mss;
        if win.cwnd < win.ssthresh {
          win := win.(cwnd := Add32(win.cwnd, 1), incr := Add32(win.incr, mss));
        } else {
          if win.incr < mss {
            win := win.(incr := mss);
          }
          win := win.(incr := Add32(win.incr, Add32(Div32(Mul32(mss, mss), win.incr), mss / 16)));
          if Mul32(Add32(win.cwnd, 1), mss) <= win.incr {
            win := win.(cwnd := Div32(Sub32(Add32(win.incr, mss), 1), mss));
          }
        }
        if win.cwnd > win.rmt {
          win := win.(cwnd := win.rmt, incr := Mul32(win.rmt, mss));
        }
      }
    }

    method Settle(newest: Newest, una: u32)
      requires Ordered(Snd()) && conf.mss > 0 && nsndBuf == |sndBuf|
      modifies this`win, this`sndBuf
      ensures Snd() == if newest.NoAck? then old(Snd()) else Senders.ParseFastack(old(Snd()), newest.sn, newest.ts)
      ensures win == if TimeDiff(sndUna, una) > 0 then Grow(old(win), conf.mss) else old(win)
      ensures nsndBuf == |sndBuf|
    {
      hide Ordered, Grow, ToI32;
      if newest.Newest? {
        ParseFastack(newest.sn, newest.ts);
      }
      if TimeDiff(sndUna, una) > 0 {
        GrowWindow();
      }
    }

    /** The end of an input call. */
    method Finish(newest: Newest, una: u32)
      requires Valid()
      modifies this`win, this`sndBuf
      ensures Valid() && Abs() == Conclude(old(Abs()), newest, una)
    {
      ConcludeOk(Abs(), newest, una);
      assert conf.mss > 0 && Ordered(Snd());
      hide Ok, Ordered, Grow, Senders.ParseFastack, ToI32, Pairs;
      Settle(newest, una);
    }

    /** `ikcp_input` */
    method Input(data: seq<byte>) returns (code: int)
      requires Valid()
      modifies this`win, this`rtt, this`probe, this`sndBuf, this`nsndBuf, this`sndUna
      modifies this`rcvQueue, this`nrcvQue, this`rcvBuf, this`nrcvBuf, this`rcvNxt
      modifies this`acklist, this`ackCount, this`ackBlock, acklist
      ensures Valid() && (acklist == old(acklist) || fresh(acklist))
      ensures (Abs(), code) == Control.Input(old(Abs()), data)
    {
      var prevUna := sndUna;
      if ToI32(|data|) < OVERHEAD {
        return -1;
      }
      ghost var k, done := Abs(), [];
      var newest := NoAck;
      assert TakeFrames(k, []) == k && NewestOf([]) == NoAck && k.conf.mss > 0;
      hide Ok, TakeFrames, NewestOf, Parse, Conclude, Pairs;
      var rest := data;
      code := 0;
      Seqs.AppendNone(Parse(conf.conv, data).frames);
      while code == 0
        invariant Valid() && (acklist == old(acklist) || fresh(acklist))
        invariant Abs() == TakeFrames(k, done) && newest == NewestOf(done) && conf == k.conf
        invariant code == 0 ==> Parsing(k.conf.conv, data, done, rest)
        invariant code != 0 ==> Parse(k.conf.conv, data) == Parsed(done, code)
        decreases code == 0, |rest|
      {
        if |rest| < OVERHEAD {
          ParsingEnds(k.conf.conv, data, done, rest);
          break;
        }
        var (f, len) := DecodeHeader(rest);
        if f.conv != conf.conv {
          ParsingEnds(k.conf.conv, data, done, rest);
          code := -1;
        } else if |rest| - OVERHEAD < len || len >= 0x8000_0000 {
          ParsingEnds(k.conf.conv, data, done, rest);
          code := -2;
        } else if !IsCommand(f.cmd) {
          ParsingEnds(k.conf.conv, data, done, rest);
          code := -3;
        } else {
          ParsingStep(k, data, done, rest);
          f := f.(data := rest[OVERHEAD..OVERHEAD + len]);
          rest := rest[OVERHEAD + len..];
          Handle(f);
          newest := TakeNewest(newest, f);
          done := done + [f];
        }
      }
      if code == 0 {
        Finish(newest, prevUna);
      }
    }

    // ---- output ----

    /** The encoders write at a cursor and return it advanced. */
    method Encode8u(p: nat, c: byte) returns (q: nat)
      requires p < buffer.Length
      modifies buffer
      ensures q == p + 1 && buffer[..q] == old(buffer[..p]) + [c]
    {
      buffer[p] := c;
      q := p + 1;
    }

    method Encode16u(p: nat, w: u16) returns (q: nat)
      requires p + 2 <= buffer.Length
      modifies buffer
      ensures q == p + 2 && buffer[..q] == old(buffer[..p]) + Encode16(w)
    {
      q := Encode8u(p, Low(w));
      q := Encode8u(q, Low(w / 0x100));
    }

    method Encode32u(p: nat, l: u32) returns (q: nat)
      requires p + 4 <= buffer.Length
      modifies buffer
      ensures q == p + 4 && buffer[..q] == old(buffer[..p]) + Encode32(l)
    {
      q := Encode16u(p, l % 0x1_0000);
      q := Encode16u(q, l / 0x1_0000);
    }

    /** `ikcp_encode_seg` */
    method EncodeSeg(p: nat, f: Frame) returns (q: nat)
      requires p + OVERHEAD <= buffer.Length && |f.data| < 0x1_0000_0000
      modifies buffer
      ensures q == p + OVERHEAD && buffer[..q] == old(buffer[..p]) + Header(f)
    {
      hide Encode32, Encode16, Low;
      q := Encode32u(p, f.conv);
      q := Encode8u(q, Low(f.cmd));
      q := Encode8u(q, Low(f.frg));
      q := Encode16u(q, f.wnd);
      q := Encode32u(q, f.ts);
      q := Encode32u(q, f.sn);
      q := Encode32u(q, f.una);
      q := Encode32u(q, |f.data|);
    }

    /** The payload follows its header. */
    method CopyData(p: nat, data: seq<byte>) returns (q: nat)
      requires p + |data| <= buffer.Length
      modifies buffer
      ensures q == p + |data| && buffer[..q] == old(buffer[..p]) + data
    {
      q := p;
      var i := 0;
      while i < |data|
        invariant i <= |data| && q == p + i
        invariant buffer[..q] == old(buffer[..p]) + data[..i]
      {
        buffer[q] := data[i];
        q := q + 1;
        i := i + 1;
      }
    }

    /** `ikcp_output`: an empty buffer is not handed on. */
    method Output(size: nat)
      requires size <= buffer.Length
      modifies this`output
      ensures output == if size == 0 then old(output) else old(output) + [buffer[..size]]
    {
      if size != 0 {
        output := output + [buffer[..size]];
      }
    }

    /** The buffer and the output hold the packing `k` of one flush that started with `out`. */
    ghost predicate Packed(p: nat, k: Packing, out: seq<seq<byte>>)
      reads this`conf, this`output, this`buffer, buffer
    {
      && buffer.Length == 3 * (conf.mtu + OVERHEAD)
      && p == |EncodeAll(k.cur)| <= conf.mtu && buffer[..p] == EncodeAll(k.cur)
      && output == out + Bytes(k.done)
    }

    /** One frame is added to the buffer, which is sent first when the frame would exceed the MTU. */
    method Emit(p: nat, f: Frame, ghost k: Packing, ghost out: seq<seq<byte>>) returns (q: nat)
      requires Packed(p, k, out) && Size(f) <= conf.mtu
      modifies this`output, buffer
      ensures Packed(q, Pack(conf.mtu, k, f), out)
    {
      EncodeAllEmpty(k.cur);
      EncodeAllAppend(k.cur, f);
      EncodeAllAppend([], f);
      BytesSnoc(k.done, k.cur);
      Seqs.AppendNone([f]);
      Seqs.AppendNone(Encode(f));
      Seqs.Assoc(out, Bytes(k.done), [EncodeAll(k.cur)]);
      q := p;
      if q + Size(f) > conf.mtu {
        Output(q);
        q := 0;
      }
      ghost var before := buffer[..q];
      q := EncodeSeg(q, f);
      if |f.data| > 0 {
        q := CopyData(q, f.data);
      }
      Seqs.Assoc(before, Header(f), f.data);
    }

    // ---- flush ----

    /** `ikcp_wnd_unused`: the free room of the receive queue, which the 16-bit field of a header holds. */
    method WndUnused() returns (n: u32)
      requires Valid()
      ensures n == Unused(Rcv())
      ensures n == rcvWnd - |rcvQueue| && ToU16(n) == n
    {
      UnusedRoom(Rcv());
      if nrcvQue < rcvWnd {
        return rcvWnd - nrcvQue;
      }
      return 0;
    }

    method FlushAcks(c: Context, ghost k: Packing, ghost out: seq<seq<byte>>) returns (p: nat)
      requires acklist.Length == 2 * ackBlock && ackCount <= ackBlock
      requires Packed(0, k, out) && conf.mtu >= MTU_MIN
      modifies this`output, buffer
      ensures Packed(p, PackAll(conf.mtu, k, AckFrames(c, Acks())), out)
    {
      hide Packed, Pack;
      p := 0;
      ghost var frames := AckFrames(c, Acks());
      var i := 0;
      while i < ackCount
        invariant i <= ackCount && Packed(p, PackTo(conf.mtu, k, frames, i), out)
      {
        p := Emit(p, AckFrame(c, ACK, Ack(acklist[2 * i], acklist[2 * i + 1])), PackTo(conf.mtu, k, frames, i), out);
        i := i + 1;
      }
    }

    /** Whether to ask a peer whose window is closed. */
    method UpdateProbe()
      modifies this`probe
      ensures probe == Probing(old(probe), win.rmt, timer.current)
    {
      if win.rmt == 0 {
        if probe.wait == 0 {
          probe := probe.(wait := PROBE_INIT);
          probe := probe.(at := Add32(timer.current, probe.wait));
        } else if TimeDiff(timer.current, probe.at) >= 0 {
          var wait := probe.wait;
          if wait < PROBE_INIT {
            wait := PROBE_INIT;
          }
          wait := Add32(wait, wait / 2);
          if wait > PROBE_LIMIT {
            wait := PROBE_LIMIT;
          }
          probe := probe.(wait := wait, at := Add32(timer.current, wait), askSend := true);
        }
      } else {
        probe := probe.(at := 0, wait := 0);
      }
    }

    method FlushProbes(p: nat, c: Context, last: Ack, ghost acks: seq<Ack>, ghost k: Packing, ghost out: seq<seq<byte>>)
      returns (q: nat)
      requires Packed(p, k, out) && conf.mtu >= MTU_MIN
      requires last == if acks == [] then Ack(0, 0) else acks[|acks| - 1]
      modifies this`output, this`probe, buffer
      ensures Packed(q, PackAll(conf.mtu, k, ProbeFrames(c, old(probe), acks)), out)
      ensures probe == old(probe).(askSend := false, askTell := false)
    {
      PackProbes(conf.mtu, k, c, probe, acks);
      q := p;
      ghost var k' := k;
      if probe.askSend {
        q := Emit(q, AckFrame(c, WASK, last), k', out);
        k' := Pack(conf.mtu, k', AckFrame(c, WASK, last));
      }
      if probe.askTell {
        q := Emit(q, AckFrame(c, WINS, last), k', out);
      }
      probe := probe.(askSend := false, askTell := false);
    }

    /** The loop that numbers queued fragments. */
    method FillWindow(cwnd: u32, c: Context)
      requires nsndQue == |sndQueue| && nsndBuf == |sndBuf|
      modifies this`sndQueue, this`nsndQue, this`sndBuf, this`nsndBuf, this`sndNxt
      ensures Snd() == Admit(old(Snd()), cwnd, c)
      ensures nsndQue == |sndQueue| && nsndBuf == |sndBuf|
    {
      while TimeDiff(sndNxt, Add32(sndUna, cwnd)) < 0
        invariant Admit(Snd(), cwnd, c) == Admit(old(Snd()), cwnd, c)
        invariant nsndQue == |sndQueue| && nsndBuf == |sndBuf|
        decreases |sndQueue|
      {
        if sndQueue == [] {
          break;
        }
        var f := sndQueue[0];
        sndQueue, nsndQue := sndQueue[1..], nsndQue - 1;
        var frame := Frame(c.conv, PUSH, f.frg, c.wnd, c.current, sndNxt, c.una, f.data);
        sndBuf, nsndBuf := sndBuf + [Segment(frame, c.current, c.rto, 0, 0)], nsndBuf + 1;
        sndNxt := Add32(sndNxt, 1);
      }
    }

    /** The decision for one segment, in the order of the source's branches. */
    static method Decide(g: Segment, c: Context) returns (g': Segment, needsend: bool, lost: bool, fast: bool)
      ensures g' == Sent(g, c)
      ensures needsend == !Why(g, c).Idle? && lost == Why(g, c).Timeout? && fast == Why(g, c).Fast?
    {
      g', needsend, lost, fast := g, false, false, false;
      if g.xmit == 0 {
        needsend := true;
        g' := g'.(xmit := 1, rto := c.rto);
        g' := g'.(resendts := Add32(Add32(c.current, g'.rto), c.rtoMin));
      } else if TimeDiff(c.current, g.resendts) >= 0 {
        needsend, lost := true, true;
        g' := g'.(xmit := Add32(g'.xmit, 1));
        if c.nodelay == 0 {
          g' := g'.(rto := Add32(g'.rto, Max(g'.rto, c.rto)));
        } else {
          var step := if c.nodelay < 2 then ToI32(g'.rto) else ToI32(c.rto);
          g' := g'.(rto := ToU32(g'.rto + TruncDiv(step, 2)));
        }
        g' := g'.(resendts := Add32(c.current, g'.rto));
      } else if g.fastack >= c.resent {
        if ToI32(g.xmit) <= c.fastLimit || c.fastLimit <= 0 {
          needsend, fast := true, true;
          g' := g'.(xmit := Add32(g'.xmit, 1), fastack := 0, resendts := Add32(c.current, g'.rto));
        }
      }
      if needsend {
        g' := g'.(frame := g'.frame.(ts := c.current, wnd := c.wnd, una := c.una));
      }
    }

    /** One pass of the loop over the send buffer. */
    method FlushOne(i: nat, p: nat, c: Context, ghost k: Packing, ghost out: seq<seq<byte>>)
      returns (q: nat, lost: bool, fast: bool)
      requires i < |sndBuf| && Packed(p, k, out) && Size(sndBuf[i].frame) <= conf.mtu
      modifies this`output, this`sndBuf, this`xmit, this`dead, buffer
      ensures sndBuf == old(sndBuf)[i := Sent(old(sndBuf[i]), c)]
      ensures var why := Why(old(sndBuf[i]), c);
        && Packed(q, if why.Idle? then k else Pack(conf.mtu, k, Sent(old(sndBuf[i]), c).frame), out)
        && lost == why.Timeout? && fast == why.Fast?
        && xmit == (if why.Timeout? then Add32(old(xmit), 1) else old(xmit))
        && dead == (old(dead) || (!why.Idle? && Sent(old(sndBuf[i]), c).xmit >= c.deadLink))
    {
      q := p;
      var g, needsend;
      g, needsend, lost, fast := Decide(sndBuf[i], c);
      SentKeepsIdentity(sndBuf[i], c);
      sndBuf := sndBuf[i := g];
      if lost {
        xmit := Add32(xmit, 1);
      }
      if needsend {
        q := Emit(q, g.frame, k, out);
        if g.xmit >= c.deadLink {
          dead := true;
        }
      }
    }

    /** The loop over the send buffer. */
    method FlushData(p: nat, c: Context, ghost k: Packing, ghost out: seq<seq<byte>>)
      returns (q: nat, lost: bool, change: nat)
      requires Packed(p, k, out) && nsndBuf == |sndBuf|
      requires forall i :: 0 <= i < |sndBuf| ==> Size(sndBuf[i].frame) <= conf.mtu
      modifies this`output, this`sndBuf, this`xmit, this`dead, buffer
      ensures Packed(q, PackAll(conf.mtu, k, Emitted(old(sndBuf), c)), out)
      ensures sndBuf == SentAll(old(sndBuf), c) && nsndBuf == |sndBuf|
      ensures lost == (CountWhy(old(sndBuf), c, Timeout) > 0) && change == CountWhy(old(sndBuf), c, Fast)
      ensures xmit == ToU32(old(xmit) + CountWhy(old(sndBuf), c, Timeout))
      ensures dead == (old(dead) || Dead(old(sndBuf), c))
    {
      hide Packed, Pack, Why, Sent, EmittedTo, CountTo, DeadTo, ToU32, Add32;
      q, lost, change := p, false, 0;
      ghost var buf, x, d := sndBuf, xmit, dead;
      CountOne(xmit, 0);
      NothingFlushed(conf.mtu, k, buf, c);
      var i := 0;
      while i < |sndBuf|
        invariant i <= |sndBuf| == |buf|
        invariant forall j :: 0 <= j < i ==> sndBuf[j] == Sent(buf[j], c)
        invariant forall j :: i <= j < |buf| ==> sndBuf[j] == buf[j]
        invariant Packed(q, PackAll(conf.mtu, k, EmittedTo(buf, c, i)), out)
        invariant lost == (CountTo(buf, c, Timeout, i) > 0) && change == CountTo(buf, c, Fast, i)
        invariant xmit == ToU32(x + CountTo(buf, c, Timeout, i))
        invariant dead == (d || DeadTo(buf, c, i))
      {
        var timeout, fast;
        ghost var fs, g := EmittedTo(buf, c, i), Sent(buf[i], c);
        PackMaybe(conf.mtu, k, fs, !Why(buf[i], c).Idle?, g.frame);
        FlushedNext(buf, c, i);
        CountOne(x, CountTo(buf, c, Timeout, i));
        q, timeout, fast := FlushOne(i, q, c, PackAll(conf.mtu, k, fs), out);
        lost := lost || timeout;
        change := if fast then change + 1 else change;
        i := i + 1;
      }
      assert sndBuf == SentAll(buf, c);
    }

    method AdjustWindow(change: nat, lost: bool, resent: u32, cwnd: u32)
      modifies this`win
      ensures win == Adjust(old(win), conf.mss, change > 0, lost, Sub32(sndNxt, sndUna), resent, cwnd)
    {
      if change > 0 {
        var inflight := Sub32(sndNxt, sndUna);
        win := win.(ssthresh := inflight / 2);
        if win.ssthresh < THRESH_MIN {
          win := win.(ssthresh := THRESH_MIN);
        }
        win := win.(cwnd := Add32(win.ssthresh, resent));
        win := win.(incr := Mul32(win.cwnd, conf.mss));
      }
      if lost {
        win := win.(ssthresh := cwnd / 2);
        if win.ssthresh < THRESH_MIN {
          win := win.(ssthresh := THRESH_MIN);
        }
        win := win.(cwnd := 1, incr := conf.mss);
      }
      if win.cwnd < 1 {
        win := win.(cwnd := 1, incr := conf.mss);
      }
    }

    lemma NothingPacked()
      requires buffer.Length == 3 * (conf.mtu + OVERHEAD)
      ensures Packed(0, Packing([], []), output)
    {
      Seqs.AppendNone(output);
    }

    /** The first part of a flush: acknowledgements, then window probes. */
    method SendControl(c: Context) returns (p: nat)
      requires acklist.Length == 2 * ackBlock && ackCount <= ackBlock
      requires buffer.Length == 3 * (conf.mtu + OVERHEAD) && conf.mtu >= MTU_MIN
      modifies this`output, this`probe, this`ackCount, buffer
      ensures ackCount == 0
      ensures probe == Probing(old(probe), win.rmt, timer.current).(askSend := false, askTell := false)
      ensures Packed(p, PackAll(conf.mtu, PackAll(conf.mtu, Packing([], []), AckFrames(c, old(Acks()))),
                                ProbeFrames(c, Probing(old(probe), win.rmt, timer.current), old(Acks()))), old(output))
    {
      hide Packed, Pack, PackTo, Probing, ProbeFrames, AckFrames;
      ghost var acks, out := Acks(), output;
      NothingPacked();
      p := FlushAcks(c, Packing([], []), out);
      var last :=
        if ackCount == 0 then Ack(0, 0) else Ack(acklist[2 * (ackCount - 1)], acklist[2 * (ackCount - 1) + 1]);
      UpdateProbe();
      p := FlushProbes(p, c, last, acks, PackAll(conf.mtu, Packing([], []), AckFrames(c, acks)), out);
      ackCount := 0;
    }

    /** The second part: the window is filled and data is sent. */
    method SendSegments(p: nat, c: Context, cwnd: u16, ghost k: Packing, ghost out: seq<seq<byte>>)
      returns (lost: bool, change: nat)
      requires Packed(p, k, out) && nsndQue == |sndQueue| && nsndBuf == |sndBuf|
      requires forall i :: 0 <= i < |Admit(Snd(), cwnd, c).buf| ==> Size(Admit(Snd(), cwnd, c).buf[i].frame) <= conf.mtu
      modifies this`output, this`sndQueue, this`nsndQue, this`sndBuf, this`nsndBuf, this`sndNxt
      modifies this`xmit, this`dead, buffer
      ensures nsndQue == |sndQueue| && nsndBuf == |sndBuf|
      ensures var s := Admit(old(Snd()), cwnd, c);
        && Snd() == s.(buf := SentAll(s.buf, c))
        && output == out + Bytes(Wire.Finish(PackAll(conf.mtu, k, Emitted(s.buf, c))))
        && lost == (CountWhy(s.buf, c, Timeout) > 0) && change == CountWhy(s.buf, c, Fast)
        && xmit == ToU32(old(xmit) + CountWhy(s.buf, c, Timeout))
        && dead == (old(dead) || Dead(s.buf, c))
    {
      hide Packed, Pack, PackTo, Why, Sent, Dead, CountTo, EmittedTo;
      FillWindow(cwnd, c);
      ghost var s := Snd();
      var q;
      q, lost, change := FlushData(p, c, k, out);
      FinishPacked(q, PackAll(conf.mtu, k, Emitted(s.buf, c)), out);
    }

    /** What remains in the buffer is sent. */
    method FinishPacked(p: nat, ghost k: Packing, ghost out: seq<seq<byte>>)
      requires Packed(p, k, out)
      modifies this`output
      ensures output == out + Bytes(Wire.Finish(k))
    {
      EncodeAllEmpty(k.cur);
      BytesSnoc(k.done, k.cur);
      Seqs.Assoc(out, Bytes(k.done), [EncodeAll(k.cur)]);
      Output(p);
    }

    /** The flush proper, once an update has started the clock. */
    method FlushNow(c: Context, cwnd: u16)
      requires Shaped() && conf.mtu >= MTU_MIN && AdmittedFits(Abs())
      requires c == FlushContext(Abs()) && cwnd == FlushWindow(Abs())
      modifies this`output, this`probe, this`sndQueue, this`nsndQue, this`sndBuf, this`nsndBuf, this`sndNxt
      modifies this`xmit, this`dead, this`ackCount, this`win, buffer
      ensures ackCount == 0 && nsndQue == |sndQueue| && nsndBuf == |sndBuf|
      ensures output == old(output) + Bytes(Datagrams(conf.mtu, FlushFrames(old(Abs()))))
      ensures var k' := FlushState(old(Abs()));
        Snd() == k'.snd && win == k'.win && probe == k'.probe && xmit == k'.xmit && dead == k'.dead
    {
      hide Packed, Pack, PackTo, Why, Sent, Dead, CountTo, EmittedTo, AckFrames, ProbeFrames, Adjust;
      ghost var k, out := Abs(), output;
      PackFlush(k, c);
      var p := SendControl(c);
      var lost, change := SendSegments(
        p, c, cwnd,
        PackAll(conf.mtu, PackAll(conf.mtu, Packing([], []), AckFrames(c, k.rcv.acks)),
                ProbeFrames(c, Probing(k.probe, win.rmt, timer.current), k.rcv.acks)),
        out);
      AdjustWindow(change, lost, c.resent, cwnd);
    }

    /** The local variables of a flush. */
    method Prepare() returns (c: Context, cwnd: u16)
      requires Valid()
      ensures c == FlushContext(Abs()) && cwnd == FlushWindow(Abs())
    {
      var unused := WndUnused();
      var resent := if conf.fastResend > 0 then conf.fastResend else 0xffff_ffff;
      var rtoMin := if conf.nodelay == 0 then rtt.rto / 8 else 0;
      c := Context(
        conf.conv, timer.current, rtt.rto, rtoMin, conf.nodelay,
        resent, conf.fastLimit, conf.deadLink, ToU16(unused), rcvNxt);
      cwnd := Min(conf.sndWnd, win.rmt);
      if !conf.noCwnd {
        cwnd := Min(win.cwnd, cwnd);
      }
    }

    /** `ikcp_flush` */
    method Flush()
      requires Valid()
      modifies this`output, this`probe, this`sndQueue, this`nsndQue, this`sndBuf, this`nsndBuf, this`sndNxt
      modifies this`xmit, this`dead, this`ackCount, this`win, buffer
      ensures Valid()
      ensures Abs() == Control.Flush(old(Abs())).0
      ensures output == old(output) + Control.Flush(old(Abs())).1
    {
      hide Ok, FlushFrames, Datagrams, Bytes, Adjust, Admit, SentAll, CountWhy, Dead, Probing, ToU32;
      hide FlushContext, FlushWindow, AdmittedFits;
      FlushOk(Abs());
      AdmittedSizes(Abs());
      if !timer.updated {
        Seqs.AppendNone(output);
        return;
      }
      var c, cwnd := Prepare();
      FlushNow(c, cwnd);
      assert Acks() == [];
    }

    // ---- clock ----

    /** The part of an update that decides whether to flush. */
    method AdvanceClock(current: u32) returns (flush: bool)
      modifies this`timer
      ensures (timer, flush) == Tick(old(timer), conf.interval, current)
    {
      timer := timer.(current := current);
      if !timer.updated {
        timer := timer.(updated := true, flushAt := timer.current);
      }
      var slap := TimeDiff(timer.current, timer.flushAt);
      if slap >= 10000 || slap < -10000 {
        timer := timer.(flushAt := timer.current);
        slap := 0;
      }
      flush := slap >= 0;
      if flush {
        timer := timer.(flushAt := Add32(timer.flushAt, conf.interval));
        if TimeDiff(timer.current, timer.flushAt) >= 0 {
          timer := timer.(flushAt := Add32(timer.current, conf.interval));
        }
      }
    }

    /** `ikcp_update` */
    method Update(current: u32)
      requires Valid()
      modifies this`timer
      modifies this`output, this`probe, this`sndQueue, this`nsndQue, this`sndBuf, this`nsndBuf, this`sndNxt
      modifies this`xmit, this`dead, this`ackCount, this`win, buffer
      ensures Valid()
      ensures Abs() == Control.Update(old(Abs()), current).0
      ensures output == old(output) + Control.Update(old(Abs()), current).1
    {
      hide Control.Flush;
      var flush := AdvanceClock(current);
      if flush {
        Flush();
      } else {
        Seqs.AppendNone(output);
      }
    }

    /** `ikcp_check` */
    method Check(current: u32) returns (at: u32)
      requires Shaped()
      ensures at == Hint(Abs(), current)
    {
      hide ToI32, ToU32, Add32;
      if !timer.updated {
        return current;
      }
      var flushAt := timer.flushAt;
      if TimeDiff(current, flushAt) >= 10000 || TimeDiff(current, flushAt) < -10000 {
        flushAt := current;
      }
      if TimeDiff(current, flushAt) >= 0 {
        return current;
      }
      var untilFlush := TimeDiff(flushAt, current);
      var untilPacket := FOREVER;
      var i := 0;
      while i < |sndBuf|
        invariant i <= |sndBuf| && !DueTo(sndBuf, current, i)
        invariant untilPacket == NearestTo(sndBuf, current, i)
      {
        var diff := TimeDiff(sndBuf[i].resendts, current);
        if diff <= 0 {
          return current;
        }
        if diff < untilPacket {
          untilPacket := diff;
        }
        i := i + 1;
      }
      NearestBounds(sndBuf, current, |sndBuf|);
      var minimal := if untilPacket < untilFlush then untilPacket else untilFlush;
      if minimal >= conf.interval {
        minimal := conf.interval;
      }
      at := Add32(current, minimal);
    }

    // ---- configuration ----

    /** `ikcp_setmtu`: the buffer is replaced by one of the new size, which is computed in 32 bits. The block
        stays valid when what it holds still fits and that size does not wrap. */
    method SetMtu(mtu: i32) returns (code: int)
      requires Valid()
      modifies this`conf, this`buffer
      ensures Abs() == old(Abs()).(conf := conf) && (conf, code) == Control.SetMtu(old(conf), mtu)
      ensures if code < 0 then buffer == old(buffer) else fresh(buffer) && buffer.Length == ToU32(3 * (mtu + OVERHEAD))
      ensures mtu < MTU_MIN || 3 * (mtu + OVERHEAD) < 0x1_0000_0000 ==> (Valid() <==> MtuFits(old(Abs()), mtu))
    {
      hide Ok, Pairs, MtuFits;
      SetMtuOk(Abs(), mtu);
      if mtu < MTU_MIN || mtu < OVERHEAD {
        return -1;
      }
      buffer := new byte[ToU32(3 * (mtu + OVERHEAD))](_ => 0);
      conf := conf.(mtu := mtu, mss := mtu - OVERHEAD);
      code := 0;
    }

    /** `ikcp_wndsize`: the block stays valid when the new receive window fits what has been received. */
    method WndSize(sndwnd: i32, rcvwnd: i32)
      requires Valid()
      modifies this`conf, this`rcvWnd
      ensures Shaped() && Abs() == Control.WndSize(old(Abs()), sndwnd, rcvwnd)
      ensures Valid() <==> WndFits(old(Abs()), rcvwnd)
    {
      hide Ok, Pairs, WndFits;
      WndSizeOk(Abs(), sndwnd, rcvwnd);
      if sndwnd > 0 {
        conf := conf.(sndWnd := sndwnd);
      }
      if rcvwnd > 0 {
        rcvWnd := Max(rcvwnd, WND_RCV);
      }
    }

    /** `ikcp_interval` */
    method Interval(interval: i32)
      requires Valid()
      modifies this`conf
      ensures Valid() && Abs() == old(Abs()).(conf := conf)
      ensures conf == old(conf).(interval := ClampInterval(interval))
      ensures conf == Control.NoDelay(old(conf), -1, Max(interval, 0), -1, -1)
    {
      var clamped := interval;
      if clamped > 5000 {
        clamped := 5000;
      } else if clamped < 10 {
        clamped := 10;
      }
      conf := conf.(interval := clamped);
    }

    method SetOptions(nodelay: i32, interval: i32, resend: i32, nc: i32)
      modifies this`conf
      ensures conf == Control.NoDelay(old(conf), nodelay, interval, resend, nc)
    {
      if nodelay >= 0 {
        conf := conf.(nodelay := nodelay);
        if nodelay != 0 {
          conf := conf.(minRto := RTO_NDL);
        } else {
          conf := conf.(minRto := RTO_MIN);
        }
      }
      if interval >= 0 {
        var clamped := interval;
        if clamped > 5000 {
          clamped := 5000;
        } else if clamped < 10 {
          clamped := 10;
        }
        conf := conf.(interval := clamped);
      }
      if resend >= 0 {
        conf := conf.(fastResend := resend);
      }
      if nc >= 0 {
        conf := conf.(noCwnd := nc != 0);
      }
    }

    /** `ikcp_nodelay` */
    method NoDelay(nodelay: i32, interval: i32, resend: i32, nc: i32)
      requires Valid()
      modifies this`conf
      ensures Valid() && Abs() == old(Abs()).(conf := Control.NoDelay(old(conf), nodelay, interval, resend, nc))
    {
      hide Ok, Control.NoDelay;
      NoDelayOk(Abs(), nodelay, interval, resend, nc);
      SetOptions(nodelay, interval, resend, nc);
    }

    /** `ikcp_waitsnd` */
    method WaitSnd() returns (n: nat)
      requires Valid()
      ensures n == |Snd().buf| + |Snd().queue|
    {
      n := nsndBuf + nsndQue;
    }
  }

  /** The first `i` payloads of the queue, none of which ends the message. */
  ghost predicate Merged(queue: seq<Frame>, i: nat, data: seq<byte>) {
    && i <= |queue| && data == Stream(Pieces(queue)[..i])
    && forall j :: 0 <= j < i ==> Pieces(queue)[j].frg != 0
  }

  lemma MergeStart(queue: seq<Frame>)
    ensures Merged(queue, 0, [])
  {
    Seqs.TakeAll(Pieces(queue));
  }

  lemma MergeStep(queue: seq<Frame>, i: nat, data: seq<byte>)
    requires i < |queue| && Merged(queue, i, data)
    ensures if queue[i].frg == 0 || i + 1 == |queue|
            then MessageEnd(Pieces(queue)) == i + 1 && data + queue[i].data == Stream(Pieces(queue)[..i + 1])
            else Merged(queue, i + 1, data + queue[i].data)
  {
    var ps := Pieces(queue);
    assert ps[i] == Fragment(queue[i].frg, queue[i].data);
    StreamNext(ps, i);
    if queue[i].frg == 0 || i + 1 == |queue| {
      MessageEndAt(ps, i);
    }
  }

  lemma NothingFlushed(mtu: u32, k: Packing, buf: seq<Segment>, c: Context)
    ensures PackAll(mtu, k, EmittedTo(buf, c, 0)) == k && !DeadTo(buf, c, 0)
    ensures CountTo(buf, c, Timeout, 0) == 0 && CountTo(buf, c, Fast, 0) == 0
  {
  }

  /** One more segment in the loop of a flush. */
  lemma CountOne(x: u32, n: nat)
    ensures Add32(ToU32(x + n), 1) == ToU32(x + (n + 1)) && ToU32(x) == x
  {
  }

  lemma FlushedNext(buf: seq<Segment>, c: Context, i: nat)
    requires i < |buf|
    ensures var why := Why(buf[i], c);
      && EmittedTo(buf, c, i + 1) == EmittedTo(buf, c, i) + (if why.Idle? then [] else [Sent(buf[i], c).frame])
      && CountTo(buf, c, Timeout, i + 1) == CountTo(buf, c, Timeout, i) + (if why.Timeout? then 1 else 0)
      && CountTo(buf, c, Fast, i + 1) == CountTo(buf, c, Fast, i) + (if why.Fast? then 1 else 0)
      && (DeadTo(buf, c, i + 1)
          <==> DeadTo(buf, c, i) || (!why.Idle? && Sent(buf[i], c).xmit >= c.deadLink))
  {
    hide Why, Sent;
  }

  lemma PackFlush(k: Block, c: Context)
    requires c == FlushContext(k)
    ensures var none := Packing([], []);
      var probes := ProbeFrames(c, Probing(k.probe, k.win.rmt, k.timer.current), k.rcv.acks);
      PackAll(k.conf.mtu, none, FlushFrames(k))
      == PackAll(k.conf.mtu,
           PackAll(k.conf.mtu, PackAll(k.conf.mtu, none, AckFrames(c, k.rcv.acks)), probes),
           Emitted(Admitted(k).buf, c))
  {
    var acks := AckFrames(c, k.rcv.acks);
    var probes := ProbeFrames(c, Probing(k.probe, k.win.rmt, k.timer.current), k.rcv.acks);
    PackAllConcat(k.conf.mtu, Packing([], []), acks, probes);
    PackAllConcat(k.conf.mtu, Packing([], []), acks + probes, Emitted(Admitted(k).buf, c));
  }

  /** The frames in `done` have been read from `data` and `rest` is what follows them. */
  ghost predicate Parsing(conv: u32, data: seq<byte>, done: seq<Frame>, rest: seq<byte>) {
    Parse(conv, data) == Parsed(done + Parse(conv, rest).frames, Parse(conv, rest).code)
  }

  lemma ParsingEnds(conv: u32, data: seq<byte>, done: seq<Frame>, rest: seq<byte>)
    requires Parsing(conv, data, done, rest) && Parse(conv, rest).frames == []
    ensures Parse(conv, data) == Parsed(done, Parse(conv, rest).code)
  {
    Seqs.AppendNone(done);
  }

  lemma ParsingStep(k: Block, data: seq<byte>, done: seq<Frame>, rest: seq<byte>)
    requires Parsing(k.conf.conv, data, done, rest) && |rest| >= OVERHEAD
    requires var (h, len) := DecodeHeader(rest);
      h.conv == k.conf.conv && len <= |rest| - OVERHEAD && len < 0x8000_0000 && IsCommand(h.cmd)
    ensures var (h, len) := DecodeHeader(rest); var f := h.(data := rest[OVERHEAD..OVERHEAD + len]);
      && Parsing(k.conf.conv, data, done + [f], rest[OVERHEAD + len..])
      && TakeFrames(k, done + [f]) == TakeFrame(TakeFrames(k, done), f)
      && NewestOf(done + [f]) == TakeNewest(NewestOf(done), f)
  {
    var (h, len) := DecodeHeader(rest);
    var f := h.(data := rest[OVERHEAD..OVERHEAD + len]);
    Seqs.TakeAppend(done, [f]);
    Seqs.Assoc(done, [f], Parse(k.conf.conv, rest[OVERHEAD + len..]).frames);
  }

  lemma PackProbes(mtu: u32, k: Packing, c: Context, p: Probe, acks: seq<Ack>)
    ensures var last := if acks == [] then Ack(0, 0) else acks[|acks| - 1];
      var k1 := if p.askSend then Pack(mtu, k, AckFrame(c, WASK, last)) else k;
      PackAll(mtu, k, ProbeFrames(c, p, acks)) == if p.askTell then Pack(mtu, k1, AckFrame(c, WINS, last)) else k1
  {
    var last := if acks == [] then Ack(0, 0) else acks[|acks| - 1];
    var ask := if p.askSend then [AckFrame(c, WASK, last)] else [];
    PackAllSnoc(mtu, k, [], AckFrame(c, WASK, last));
    PackAllSnoc(mtu, k, ask, AckFrame(c, WINS, last));
    Seqs.AppendNone([AckFrame(c, WASK, last)]);
    Seqs.AppendNone(ask);
  }
}
