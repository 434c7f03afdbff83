/** What a connection delivers: the bytes and the messages accepted at one end, the position of the other
    end in them, and why each operation keeps their order. */
module Delivery {
  import opened Words
  import opened Wire
  import opened Fragments
  import opened Senders
  import opened Receivers
  import opened Control
  import opened Network
  import Seqs

  // ---- what the user data should look like ----

  function Joined(ms: seq<seq<byte>>): seq<byte> {
    if ms == [] then [] else Joined(ms[..|ms| - 1]) + ms[|ms| - 1]
  }

  /** The fragments of a message that `ikcp_send` accepts outside stream mode. */
  function Cut(mss: u32, m: seq<byte>): seq<Fragment>
    requires mss > 0
  {
    if Count(mss, |m|) >= FRAGMENT_LIMIT then [] else Split(mss, false, Count(mss, |m|), m)
  }

  function CutAll(mss: u32, ms: seq<seq<byte>>): seq<Fragment>
    requires mss > 0
  {
    if ms == [] then [] else CutAll(mss, ms[..|ms| - 1]) + Cut(mss, ms[|ms| - 1])
  }

  /** How many fragments the receiver's user has consumed. */
  function Consumed(q: Peer): int {
    q.rcvd - |q.k.rcv.queue|
  }

  /** Byte by byte: what was accepted is in the log and the queue, what was delivered is the part of
      the log that was consumed. */
  ghost predicate BytesInOrder(p: Peer, q: Peer) {
    && 0 <= Consumed(q) <= |p.log|
    && Stream(p.log + p.k.snd.queue) == Joined(p.sent)
    && Stream(p.log[..Consumed(q)]) == Joined(q.got)
  }

  /** The same, message by message, when the sender is not in stream mode. */
  ghost predicate MessagesInOrder(p: Peer, q: Peer)
    requires p.k.conf.mss > 0
  {
    InOrder(p.k.conf.mss, p.log, p.k.snd.queue, p.sent, Consumed(q), q.got)
  }

  ghost predicate InOrder(
    mss: u32, log: seq<Fragment>, queue: seq<Fragment>, sent: seq<seq<byte>>, consumed: int, got: seq<seq<byte>>)
    requires mss > 0
  {
    && 0 <= consumed <= |log|
    && got <= sent
    && log + queue == CutAll(mss, sent)
    && log[..consumed] == CutAll(mss, got)
    && (forall m :: m in sent ==> Count(mss, |m|) < FRAGMENT_LIMIT)
  }

  lemma JoinedSnoc(ms: seq<seq<byte>>, m: seq<byte>)
    ensures Joined(ms + [m]) == Joined(ms) + m
  {
    Seqs.TakeAppend(ms, [m]);
  }

  lemma CutAllSnoc(mss: u32, ms: seq<seq<byte>>, m: seq<byte>)
    requires mss > 0
    ensures CutAll(mss, ms + [m]) == CutAll(mss, ms) + Cut(mss, m)
  {
    Seqs.TakeAppend(ms, [m]);
  }

  lemma {:induction false} CutAllPrefix(mss: u32, ms: seq<seq<byte>>, n: nat)
    requires mss > 0 && n <= |ms|
    ensures CutAll(mss, ms[..n]) <= CutAll(mss, ms)
  {
    if n < |ms| {
      CutAllPrefix(mss, ms[..|ms| - 1], n);
      assert ms[..|ms| - 1][..n] == ms[..n];
    } else {
      Seqs.TakeAll(ms);
    }
  }

  lemma CutIsMessage(mss: u32, m: seq<byte>)
    requires mss > 0 && Count(mss, |m|) < FRAGMENT_LIMIT
    ensures IsMessage(Cut(mss, m)) && Stream(Cut(mss, m)) == m
  {
    CountCovers(mss, |m|);
    SplitShape(mss, false, Count(mss, |m|), m);
    SplitStream(mss, false, Count(mss, |m|), m);
  }

  // ---- each operation keeps the order ----

  lemma OtherKeepsQueue(k: Block, op: Op)
    requires k.conf.mss > 0 && !Flushes(k, op) && !op.DoSend?
    ensures Step(k, op).snd.queue == k.snd.queue
  {
    hide TakeFrames, NewestOf, Parse, AfterRead;
    if op.DoInput? {
      TakeFramesKeepsQueue(k, Parse(k.conf.conv, op.data).frames);
    }
  }

  /** Numbering moves fragments from the queue to the log and changes neither. */
  lemma AssignsMoves(k: Block, op: Op, log: seq<Fragment>)
    requires Ok(k) && !op.DoSend?
    ensures (log + Assigns(k, op)) + Step(k, op).snd.queue == log + k.snd.queue
  {
    if Flushes(k, op) {
      var n := FlushAssigns(k, op);
      Seqs.SplitAt(k.snd.queue, n);
      Seqs.Assoc(log, k.snd.queue[..n], k.snd.queue[n..]);
    } else {
      OtherStep(k, op);
      OtherKeepsQueue(k, op);
      hide Step, Ok, Assigns;
      Seqs.AppendNone(log);
    }
  }

  lemma FlushAssigns(k: Block, op: Op) returns (n: nat)
    requires Ok(k) && Flushes(k, op)
    ensures n <= |k.snd.queue| && Assigns(k, op) == k.snd.queue[..n] && Step(k, op).snd.queue == k.snd.queue[n..]
  {
    var k1 := Flushed(k, op);
    assert k1.snd == k.snd && Ordered(k1.snd);
    hide Step, FlushState, Flushed, Flushes, Flush, Ok, Ordered, Emits;
    FlushStep(k, op);
    n := FlushQueue(k1);
  }

  /** What sending does to log and queue together: nothing, or the accepted bytes at the end. */
  lemma SenderBytes(p: Peer, op: Op)
    requires Ok(p.k) && Stream(p.log + p.k.snd.queue) == Joined(p.sent)
    ensures var p' := Act(p, op); Stream(p'.log + p'.k.snd.queue) == Joined(p'.sent)
  {
    var p' := Act(p, op);
    if op.DoSend? {
      var code := SendBlock(p.k, op.data).1;
      SendConserves(p.k.conf.mss, p.k.conf.stream, p.k.snd.queue, op.data);
      OtherStep(p.k, op);
      StreamConcat(p.log, p.k.snd.queue);
      StreamConcat(p.log, p'.k.snd.queue);
      assert p'.log == p.log;
      Seqs.Assoc(Stream(p.log), Stream(p.k.snd.queue), op.data[..Max(code, 0)]);
      if code >= 0 {
        JoinedSnoc(p.sent, op.data[..code]);
      } else {
        assert p.sent + [] == p.sent;
        assert Joined(p.sent) + op.data[..0] == Joined(p.sent);
      }
    } else {
      AssignsMoves(p.k, op, p.log);
      assert p.sent + [] == p.sent;
    }
  }

  lemma SenderMessages(p: Peer, op: Op)
    requires Ok(p.k) && !p.k.conf.stream
    requires p.log + p.k.snd.queue == CutAll(p.k.conf.mss, p.sent)
    requires forall m :: m in p.sent ==> Count(p.k.conf.mss, |m|) < FRAGMENT_LIMIT
    ensures var p' := Act(p, op);
      && p'.log + p'.k.snd.queue == CutAll(p.k.conf.mss, p'.sent)
      && (forall m :: m in p'.sent ==> Count(p.k.conf.mss, |m|) < FRAGMENT_LIMIT)
      && p.sent <= p'.sent
  {
    var p' := Act(p, op);
    if op.DoSend? {
      OtherStep(p.k, op);
      assert p'.log == p.log;
      Seqs.TakeAll(op.data);
      if Count(p.k.conf.mss, |op.data|) < FRAGMENT_LIMIT {
        CutAllSnoc(p.k.conf.mss, p.sent, op.data);
        Seqs.Assoc(p.log, p.k.snd.queue, Cut(p.k.conf.mss, op.data));
      } else {
        assert p.sent + [] == p.sent;
      }
    } else {
      AssignsMoves(p.k, op, p.log);
      assert p.sent + [] == p.sent;
    }
  }

  lemma ConsumedPieces(p: Peer, q: Peer, n: nat)
    requires Linked(p, q) && n <= |q.k.rcv.queue|
    ensures var c := Consumed(q);
      0 <= c && c + n <= |p.log| && p.log[c..c + n] == Pieces(q.k.rcv.queue)[..n]
  {
    var c := Consumed(q);
    assert p.log[c..q.rcvd][..n] == p.log[c..c + n];
  }

  lemma DeliveredBytes(k: Block, op: Op, got: seq<seq<byte>>)
    ensures Joined(got + Delivers(k, op)) == Joined(got) + Stream(Pieces(k.rcv.queue)[..Consumes(k, op)])
  {
    if Delivers(k, op) != [] {
      JoinedSnoc(got, Delivers(k, op)[0]);
    } else {
      Seqs.AppendNone(got);
      Seqs.AppendNone(Joined(got));
      Seqs.TakeAll(Pieces(k.rcv.queue));
    }
  }

  /** What an operation of the receiving end does to consumption and delivery. */
  ghost predicate Reads(q: Peer, op: Op, q': Peer) {
    Consumed(q') == Consumed(q) + Consumes(q.k, op) && q'.got == q.got + Delivers(q.k, op)
  }

  lemma ActReads(p: Peer, q: Peer, op: Op)
    requires Ok(q.k) && Linked(p, q) && Legal(op, q, p)
    ensures Reads(q, op, Act(q, op))
  {
    ReceiverStep(p, q, op);
  }

  lemma ReceiverBytes(p: Peer, q: Peer, op: Op, q': Peer)
    requires Linked(p, q) && BytesInOrder(p, q) && Reads(q, op, q')
    ensures BytesInOrder(p, q')
  {
    hide Linked, Consumed, Delivers, Stream, Joined;
    var c, n := Consumed(q), Consumes(q.k, op);
    ConsumedPieces(p, q, n);
    DeliveredBytes(q.k, op, q.got);
    Seqs.SplitRange(p.log, c, c + n);
    StreamConcat(p.log[..c], Pieces(q.k.rcv.queue)[..n]);
  }

  lemma ReadNeedsWhole(queue: seq<Frame>, m: seq<Fragment>, rest: seq<Fragment>, len: nat)
    requires IsMessage(m) && Pieces(queue) <= m + rest && ReadFront(queue, len).code >= 0
    ensures |m| <= |queue|
  {
    assert Pieces(queue)[0] == m[0];
  }

  lemma ReadData(queue: seq<Frame>, m: seq<Fragment>, rest: seq<Fragment>, len: nat)
    requires Pieces(queue) == m + rest && MessageEnd(Pieces(queue)) == |m| && ReadFront(queue, len).code >= 0
    ensures ReadFront(queue, len).data == Stream(m)
  {
    Seqs.TakeAppend(m, rest);
  }

  /** A read that succeeds takes exactly the next message. */
  lemma ReadsNextMessage(queue: seq<Frame>, m: seq<Fragment>, rest: seq<Fragment>, len: nat)
    requires IsMessage(m) && Pieces(queue) <= m + rest && ReadFront(queue, len).code >= 0
    ensures MessageEnd(Pieces(queue)) == |m| <= |queue|
    ensures Pieces(queue)[..|m|] == m
    ensures ReadFront(queue, len).data == Stream(m)
  {
    var ps := Pieces(queue);
    ReadNeedsWhole(queue, m, rest, len);
    Seqs.PrefixOfAppend(ps, m, rest);
    MessageEndOfMessage(m, ps[|m|..]);
    ReadData(queue, m, ps[|m|..], len);
  }

  /** While something is left to read, the message after those delivered is next in the log. */
  lemma NextInOrder(mss: u32, sent: seq<seq<byte>>, got: seq<seq<byte>>, n: nat)
    returns (m: seq<byte>, rest: seq<Fragment>)
    requires mss > 0 && got <= sent && |CutAll(mss, got)| < n <= |CutAll(mss, sent)|
    ensures got + [m] <= sent
    ensures CutAll(mss, sent)[|CutAll(mss, got)|..n] <= Cut(mss, m) + rest
  {
    assert |got| == |sent| ==> got == sent;
    m := sent[|got|];
    assert sent[..|got| + 1] == got + [m];
    CutAllPrefix(mss, sent, |got| + 1);
    CutAllSnoc(mss, got, m);
    rest := CutAll(mss, sent)[|CutAll(mss, got + [m])|..];
    PrefixParts(CutAll(mss, got), Cut(mss, m), CutAll(mss, sent), n);
  }

  lemma PrefixParts(a: seq<Fragment>, b: seq<Fragment>, all: seq<Fragment>, n: nat)
    requires a + b <= all && |a| <= n <= |all|
    ensures all[|a|..n] <= b + all[|a + b|..]
  {
    assert all == (a + b) + all[|a + b|..];
  }

  lemma QueueInLog(p: Peer, q: Peer)
    requires Linked(p, q)
    ensures q.rcvd <= |p.log| && Pieces(q.k.rcv.queue) == (p.log + p.k.snd.queue)[Consumed(q)..q.rcvd]
  {
  }

  lemma NextRead(p: Peer, q: Peer, len: nat) returns (m: seq<byte>)
    requires Ok(p.k) && Ok(q.k) && Linked(p, q) && MessagesInOrder(p, q)
    requires ReadFront(q.k.rcv.queue, len).code >= 0
    ensures q.got + [m] <= p.sent && ReadFront(q.k.rcv.queue, len).data == m
    ensures Pieces(q.k.rcv.queue)[..MessageEnd(Pieces(q.k.rcv.queue))] == Cut(p.k.conf.mss, m)
  {
    var mss := p.k.conf.mss;
    QueueInLog(p, q);
    assert |CutAll(mss, q.got)| == Consumed(q);
    var rest;
    m, rest := NextInOrder(mss, p.sent, q.got, q.rcvd);
    assert m in q.got + [m];
    CutIsMessage(mss, m);
    ReadsNextMessage(q.k.rcv.queue, Cut(mss, m), rest, len);
  }

  lemma DeliveredMessages(p: Peer, q: Peer, op: Op)
    requires Ok(p.k) && Ok(q.k) && Linked(p, q) && MessagesInOrder(p, q)
    ensures var got' := q.got + Delivers(q.k, op);
      && got' <= p.sent
      && CutAll(p.k.conf.mss, got')
         == CutAll(p.k.conf.mss, q.got) + Pieces(q.k.rcv.queue)[..Consumes(q.k, op)]
  {
    if Delivers(q.k, op) == [] {
      Seqs.AppendNone(q.got);
      Seqs.AppendNone(CutAll(p.k.conf.mss, q.got));
      Seqs.TakeAll(Pieces(q.k.rcv.queue));
    } else {
      var m := NextRead(p, q, op.len);
      CutAllSnoc(p.k.conf.mss, q.got, m);
    }
  }

  lemma InOrderAfter(p: Peer, q: Peer, q': Peer, n: nat)
    requires p.k.conf.mss > 0 && MessagesInOrder(p, q)
    requires Consumed(q') == Consumed(q) + n <= |p.log| && q'.got <= p.sent
    requires CutAll(p.k.conf.mss, q'.got) == CutAll(p.k.conf.mss, q.got) + p.log[Consumed(q)..Consumed(q) + n]
    ensures MessagesInOrder(p, q')
  {
    hide Consumed, CutAll, Count;
    Seqs.SplitRange(p.log, Consumed(q), Consumed(q) + n);
  }

  lemma ReceiverMessages(p: Peer, q: Peer, op: Op, q': Peer)
    requires Ok(p.k) && Ok(q.k) && Linked(p, q) && MessagesInOrder(p, q) && Reads(q, op, q')
    ensures MessagesInOrder(p, q')
  {
    assert p.k.conf.mss > 0;
    hide Ok, Linked, MessagesInOrder, Consumed, Consumes, Delivers, CutAll, Pieces;
    var n := Consumes(q.k, op);
    ConsumedPieces(p, q, n);
    DeliveredMessages(p, q, op);
    InOrderAfter(p, q, q', n);
  }
}
