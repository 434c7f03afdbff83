/** One direction of a connection: what the sender has numbered, what the receiver holds, and what is
    true of every frame on the way. The log holds all fragments ever numbered; a 32-bit number stands
    for an index in it, found by counting from an edge that is near. */
module Link {
  import opened Words
  import opened Wire
  import opened Fragments
  import opened Senders
  import opened Transmission
  import opened Receivers

  /** How old the cumulative acknowledgement of a frame may be: half of the ring, less the windows of both
      ends. */
  const LIFETIME := 0x7ffe_0000

  /** How old the number of a data frame may be: the whole ring, less both windows. */
  const DATA_LIFETIME := 0xfffe_0000

  /** How far behind the edge of the receiver an acknowledged number can be. */
  const ACK_AGE := 0x8001_fffe

  /** A receiving half together with the unbounded index of its `rcv_nxt`. */
  datatype View = View(n: nat, r: Receiver)

  /** The view after the receiver has become `r`, its edge having moved forward. */
  function Onto(v: View, r: Receiver): View {
    View(v.n + Sub32(r.nxt, v.r.nxt), r)
  }

  /** The frame carries the fragment of index `i`, under its number. */
  ghost predicate Matches(log: seq<Fragment>, i: int, f: Frame) {
    0 <= i < |log| && f.sn == ToU32(i) && log[i] == Fragment(f.frg, f.data)
  }

  /** The index of `snd_una`. */
  function Una(log: seq<Fragment>, s: Sender): int {
    |log| - Span(s)
  }

  ghost predicate SendSide(log: seq<Fragment>, s: Sender) {
    && s.nxt == ToU32(|log|) && Ordered(s) && 0 <= Una(log, s)
    && forall g :: g in s.buf ==> Matches(log, Index(|log|, g.frame.sn), g.frame)
  }

  /** The receiving half is consistent, and `n` is the index of its edge. */
  ghost predicate Viewed(v: View) {
    Windowed(v.r) && v.r.nxt == ToU32(v.n)
  }

  ghost predicate RecvSide(log: seq<Fragment>, v: View) {
    && Viewed(v) && |v.r.queue| <= v.n <= |log|
    && (forall f :: f in v.r.buf ==> Matches(log, Index(v.n, f.sn), f))
    && Pieces(v.r.queue) == log[v.n - |v.r.queue|..v.n]
  }

  /** The receiver has this index, in its buffer, in its queue, or already delivered. */
  ghost predicate Held(v: View, i: int) {
    i < v.n || exists f :: f in v.r.buf && Index(v.n, f.sn) == i
  }

  ghost predicate Outstanding(log: seq<Fragment>, s: Sender, i: int) {
    exists g :: g in s.buf && Index(|log|, g.frame.sn) == i
  }

  /** Every index assigned so far is still kept for retransmission or held by the receiver. */
  ghost predicate Accounted(log: seq<Fragment>, s: Sender, v: View) {
    forall i :: 0 <= i < |log| ==> Outstanding(log, s, i) || Held(v, i)
  }

  /** Each pending acknowledgement, counted from `base`, stands for an index that the receiver has. */
  ghost predicate AcksHeld(base: nat, v: View) {
    forall a :: a in v.r.acks ==> Held(v, Index(base, a.sn))
  }

  /** The receiver has lost nothing. */
  ghost predicate Retains(v: View, v': View) {
    v.n <= v'.n && forall i :: Held(v, i) ==> Held(v', i)
  }

  lemma RetainsTransitive(v: View, v1: View, v2: View)
    requires Retains(v, v1) && Retains(v1, v2)
    ensures Retains(v, v2)
  {
  }

  /** Segments in the buffer stand for the indices from `snd_una` on. */
  lemma SegmentIndex(log: seq<Fragment>, s: Sender, g: Segment)
    requires s.nxt == ToU32(|log|) && Ordered(s) && g in s.buf
    ensures Index(|log|, g.frame.sn) == Una(log, s) + Sub32(g.frame.sn, s.una) < |log|
  {
    var j :| 0 <= j < |s.buf| && s.buf[j] == g;
    assert Sns(s.buf)[j] == g.frame.sn;
    hide ToU32;
    IndexBackward(|log|, g.frame.sn);
  }

  /** Frames in the buffer stand for indices of the window. */
  lemma FrameIndex(v: View, f: Frame)
    requires Viewed(v) && f in v.r.buf
    ensures v.n <= Index(v.n, f.sn) == v.n + Sub32(f.sn, v.r.nxt) < v.n + v.r.wnd
  {
    var j :| 0 <= j < |v.r.buf| && v.r.buf[j] == f;
    assert FrameSns(v.r.buf)[j] == f.sn;
    hide ToU32;
    IndexForward(v.n, f.sn);
  }

  /** Whatever the receiver holds lies below the end of its window. */
  lemma HeldBelow(v: View, i: int)
    requires Viewed(v) && Held(v, i)
    ensures i < v.n + 0xffff
  {
    if i >= v.n {
      var f :| f in v.r.buf && Index(v.n, f.sn) == i;
      hide Index;
      FrameIndex(v, f);
    }
  }

  /** The sender is never more than two windows ahead of a receiver that it knows of. */
  lemma Spread(log: seq<Fragment>, s: Sender, v: View)
    requires SendSide(log, s) && Viewed(v) && Accounted(log, s, v)
    ensures Una(log, s) <= v.n + 0xffff && |log| <= v.n + 0x1_fffe
  {
    var i := Una(log, s) - 1;
    if i >= 0 {
      assert i < |log|;
      if Outstanding(log, s, i) {
        var g :| g in s.buf && Index(|log|, g.frame.sn) == i;
        SegmentIndex(log, s, g);
        assert false;
      }
      HeldBelow(v, i);
    }
  }

  // ---- the sender takes acknowledgements ----

  lemma NextIsLogEnd(log: seq<Fragment>, s: Sender, s': Sender)
    requires SendSide(log, s) && Ordered(s') && Acked(s, s')
    ensures SendSide(log, s') && Una(log, s) <= Una(log, s')
  {
    forall g | g in s'.buf
      ensures Matches(log, Index(|log|, g.frame.sn), g.frame)
    {
      assert g in s.buf;
    }
  }

  /** A true cumulative acknowledgement, not too old, drops only what the receiver has. */
  lemma TakeUnaLink(log: seq<Fragment>, s: Sender, v: View, i: nat)
    requires SendSide(log, s) && Accounted(log, s, v)
    requires i <= v.n && |log| - i < 0x8000_0000
    ensures SendSide(log, TakeUna(s, ToU32(i))) && Accounted(log, TakeUna(s, ToU32(i)), v)
    ensures Una(log, s) <= Una(log, TakeUna(s, ToU32(i)))
  {
    var una := ToU32(i);
    var s' := TakeUna(s, una);
    TakeUnaOrdered(s, una);
    NextIsLogEnd(log, s, s');
    var k := ParseUnaDrops(s.buf, una);
    forall j | 0 <= j < |log| && !Held(v, j)
      ensures Outstanding(log, s', j)
    {
      assert Outstanding(log, s, j);
      var g :| g in s.buf && Index(|log|, g.frame.sn) == j;
      UnaKeeps(s.buf, una, k, g, i, j);
    }
  }

  lemma UnaKeeps(buf: seq<Segment>, una: u32, k: nat, g: Segment, i: int, j: int)
    requires k <= |buf| && forall x :: 0 <= x < k ==> TimeDiff(una, buf[x].frame.sn) > 0
    requires g in buf && una == ToU32(i) && g.frame.sn == ToU32(j) && 0 <= i <= j < i + 0x8000_0000
    ensures g in buf[k..]
  {
    TimeDiffExact(i, j);
    hide ToU32, TimeDiff;
    var x :| 0 <= x < |buf| && buf[x] == g;
    assert x >= k;
    assert buf[k..][x - k] == g;
  }

  /** A true selective acknowledgement, not too old, drops only what the receiver has. */
  lemma TakeAckLink(log: seq<Fragment>, s: Sender, v: View, i: int)
    requires SendSide(log, s) && Accounted(log, s, v) && Held(v, i)
    requires -0x1_0000_0000 < i - |log| < 0x8000_0000
    ensures SendSide(log, TakeAck(s, ToU32(i))) && Accounted(log, TakeAck(s, ToU32(i)), v)
    ensures Una(log, s) <= Una(log, TakeAck(s, ToU32(i)))
  {
    var sn := ToU32(i);
    var s' := TakeAck(s, sn);
    TakeAckOrdered(s, sn);
    NextIsLogEnd(log, s, s');
    forall j | 0 <= j < |log| && !Held(v, j)
      ensures Outstanding(log, s', j)
    {
      assert Outstanding(log, s, j);
      var g :| g in s.buf && Index(|log|, g.frame.sn) == j;
      SegmentIndex(log, s, g);
      NumbersDiffer(i, j);
      TakeAckExact(s, sn, g);
    }
  }

  lemma ParseFastackLink(log: seq<Fragment>, s: Sender, v: View, sn: u32, ts: u32)
    requires SendSide(log, s) && Accounted(log, s, v)
    ensures SendSide(log, ParseFastack(s, sn, ts)) && Accounted(log, ParseFastack(s, sn, ts), v)
  {
    var s' := ParseFastack(s, sn, ts);
    ParseFastackOrdered(s, sn, ts);
    SameFramesLink(log, s, s', v);
  }

  /** Changing the retransmission fields of segments, or their header times, changes nothing here. */
  lemma SameFramesLink(log: seq<Fragment>, s: Sender, s': Sender, v: View)
    requires SendSide(log, s) && Accounted(log, s, v) && Ordered(s')
    requires s'.una == s.una && s'.nxt == s.nxt && |s'.buf| == |s.buf|
    requires forall i :: 0 <= i < |s.buf| ==>
      var f, f' := s.buf[i].frame, s'.buf[i].frame; f'.sn == f.sn && f'.frg == f.frg && f'.data == f.data
    ensures SendSide(log, s') && Accounted(log, s', v)
  {
    hide Ordered, ToU32, Index, Sub32;
    forall g | g in s'.buf
      ensures Matches(log, Index(|log|, g.frame.sn), g.frame)
    {
      var i :| 0 <= i < |s'.buf| && s'.buf[i] == g;
      assert s.buf[i] in s.buf;
    }
    forall i | 0 <= i < |log| && !Held(v, i)
      ensures Outstanding(log, s', i)
    {
      assert Outstanding(log, s, i);
      var g :| g in s.buf && Index(|log|, g.frame.sn) == i;
      var j :| 0 <= j < |s.buf| && s.buf[j] == g;
      assert s'.buf[j] in s'.buf;
    }
  }

  // ---- the receiver takes data ----

  /** What the receiver shows before it has moved everything that can move. */
  ghost predicate Ready(log: seq<Fragment>, v: View) {
    && v.r.nxt == ToU32(v.n) && |v.r.queue| <= v.n <= |log| && FRAGMENT_LIMIT <= v.r.wnd <= 0xffff
    && Ascending(v.r.nxt, v.r.wnd, FrameSns(v.r.buf)) && Contiguous(v.r)
    && (forall f :: f in v.r.buf ==> Matches(log, Index(v.n, f.sn), f))
    && Pieces(v.r.queue) == log[v.n - |v.r.queue|..v.n]
  }

  /** The first `k` buffered frames have moved to the queue. */
  function Moved(r: Receiver, k: nat): Receiver
    requires k <= |r.buf| && k <= 0xffff
  {
    r.(nxt := Add32(r.nxt, k), queue := r.queue + r.buf[..k], buf := r.buf[k..])
  }

  /** What moves to the queue are the next fragments of the log. */
  lemma MovedMatch(log: seq<Fragment>, v: View, k: nat, j: nat)
    requires Ready(log, v) && j < k <= |v.r.buf| && k <= 0xffff && Contiguous(Moved(v.r, k))
    ensures Index(v.n, v.r.buf[j].sn) == v.n + j && Matches(log, v.n + j, v.r.buf[j])
  {
    var f := v.r.buf[j];
    assert Moved(v.r, k).queue[|v.r.queue| + j] == f;
    assert Sub32(Moved(v.r, k).nxt, f.sn) == k - j;
    assert f in v.r.buf;
    assert Sub32(f.sn, v.r.nxt) == j;
    hide ToU32;
    IndexForward(v.n, f.sn);
  }

  lemma MovedPieces(log: seq<Fragment>, v: View, k: nat)
    requires |v.r.queue| <= v.n <= |log| && Pieces(v.r.queue) == log[v.n - |v.r.queue|..v.n]
    requires k <= |v.r.buf| && (forall j :: 0 <= j < k ==> Matches(log, v.n + j, v.r.buf[j]))
    ensures v.n + k <= |log|
    ensures Pieces(v.r.queue + v.r.buf[..k]) == log[v.n - |v.r.queue|..v.n + k]
  {
    if k > 0 {
      assert Matches(log, v.n + (k - 1), v.r.buf[k - 1]);
    }
    var ps, ls := Pieces(v.r.queue + v.r.buf[..k]), log[v.n - |v.r.queue|..v.n + k];
    forall i | 0 <= i < |ps|
      ensures ps[i] == ls[i]
    {
      if i < |v.r.queue| {
        assert ps[i] == Pieces(v.r.queue)[i];
      } else {
        assert Matches(log, v.n + (i - |v.r.queue|), v.r.buf[i - |v.r.queue|]);
      }
    }
  }

  /** Buffered frames keep their indices while the edge moves on. */
  lemma IndexKept(v: View, k: nat, f: Frame)
    requires v.r.nxt == ToU32(v.n) && k <= 0xffff
    requires v.r.wnd <= 0xffff && Ascending(v.r.nxt, v.r.wnd, FrameSns(v.r.buf)) && f in v.r.buf
    ensures Index(v.n + k, f.sn) == Index(v.n, f.sn)
  {
    var j :| 0 <= j < |v.r.buf| && v.r.buf[j] == f;
    assert FrameSns(v.r.buf)[j] == f.sn;
    hide ToU32;
    IndexForward(v.n, f.sn);
    IndexMoves(v.n, v.n + k, f.sn);
  }

  lemma MovedRetains(v: View, k: nat)
    requires k <= |v.r.buf| && k <= 0xffff
    requires forall f :: f in v.r.buf ==> Index(v.n + k, f.sn) == Index(v.n, f.sn)
    requires forall j :: 0 <= j < k ==> Index(v.n, v.r.buf[j].sn) == v.n + j
    ensures Retains(v, View(v.n + k, Moved(v.r, k)))
  {
    hide Index;
    var v' := View(v.n + k, Moved(v.r, k));
    forall i | Held(v, i)
      ensures Held(v', i)
    {
      if i >= v'.n {
        var f :| f in v.r.buf && Index(v.n, f.sn) == i;
        var j :| 0 <= j < |v.r.buf| && v.r.buf[j] == f;
        assert v'.r.buf[j - k] == f;
      }
    }
  }

  lemma MovedIndices(log: seq<Fragment>, v: View, k: nat)
    requires Ready(log, v) && k <= |v.r.buf| && k <= 0xffff && Contiguous(Moved(v.r, k))
    ensures forall j :: 0 <= j < k ==> Index(v.n, v.r.buf[j].sn) == v.n + j && Matches(log, v.n + j, v.r.buf[j])
    ensures forall f :: f in v.r.buf ==> Index(v.n + k, f.sn) == Index(v.n, f.sn)
  {
    hide ToU32, Index, Matches, Contiguous, Ascending, Pieces, Moved;
    forall j | 0 <= j < k
      ensures Index(v.n, v.r.buf[j].sn) == v.n + j && Matches(log, v.n + j, v.r.buf[j])
    {
      MovedMatch(log, v, k, j);
    }
    forall f | f in v.r.buf
      ensures Index(v.n + k, f.sn) == Index(v.n, f.sn)
    {
      IndexKept(v, k, f);
    }
  }

  lemma MovedBuffer(log: seq<Fragment>, v: View, k: nat)
    requires k <= |v.r.buf| && forall f :: f in v.r.buf ==> Matches(log, Index(v.n, f.sn), f)
    requires forall f :: f in v.r.buf ==> Index(v.n + k, f.sn) == Index(v.n, f.sn)
    ensures forall f :: f in v.r.buf[k..] ==> Matches(log, Index(v.n + k, f.sn), f)
  {
    hide Matches, Index;
  }

  lemma MovedSide(log: seq<Fragment>, v: View, k: nat)
    requires Ready(log, v) && k <= |v.r.buf| && k <= 0xffff && Windowed(Moved(v.r, k))
    requires v.n + k <= |log| && Pieces(v.r.queue + v.r.buf[..k]) == log[v.n - |v.r.queue|..v.n + k]
    requires forall f :: f in v.r.buf ==> Index(v.n + k, f.sn) == Index(v.n, f.sn)
    ensures RecvSide(log, View(v.n + k, Moved(v.r, k)))
  {
    AddToU32(v.n, k);
    assert Viewed(View(v.n + k, Moved(v.r, k)));
    assert |v.r.queue| <= v.n && forall f :: f in v.r.buf ==> Matches(log, Index(v.n, f.sn), f);
    hide ToU32, Index, Matches, Viewed, Ready, Pieces;
    MovedBuffer(log, v, k);
    assert |Moved(v.r, k).queue| == |v.r.queue| + k;
  }

  lemma MovedLink(log: seq<Fragment>, v: View, k: nat)
    requires Ready(log, v) && k <= |v.r.buf| && k <= 0xffff && Windowed(Moved(v.r, k))
    ensures var v' := View(v.n + k, Moved(v.r, k)); RecvSide(log, v') && Retains(v, v')
  {
    assert Contiguous(Moved(v.r, k));
    assert |v.r.queue| <= v.n <= |log| && Pieces(v.r.queue) == log[v.n - |v.r.queue|..v.n];
    hide *;
    MovedIndices(log, v, k);
    MovedPieces(log, v, k);
    MovedRetains(v, k);
    MovedSide(log, v, k);
  }

  lemma DrainLink(log: seq<Fragment>, v: View)
    requires Ready(log, v)
    ensures var v' := Onto(v, Drain(v.r));
      && RecvSide(log, v') && Retains(v, v') && v'.n - |v'.r.queue| == v.n - |v.r.queue|
      && v'.r.acks == v.r.acks && v'.r.wnd == v.r.wnd
  {
    var k := DrainMaximal(v.r);
    AscendingLength(v.r.nxt, v.r.wnd, FrameSns(v.r.buf));
    assert Drain(v.r) == Moved(v.r, k) && Windowed(Drain(v.r));
    assert Onto(v, Drain(v.r)) == View(v.n + k, Moved(v.r, k));
    hide Ready, RecvSide, Retains, Windowed, Drain;
    MovedLink(log, v, k);
  }

  lemma InsertHolds(v: View, f: Frame, buf: seq<Frame>)
    requires if f.sn in FrameSns(v.r.buf) then buf == v.r.buf else forall g :: g in buf <==> g in v.r.buf || g == f
    ensures Retains(v, v.(r := v.r.(buf := buf))) && Held(v.(r := v.r.(buf := buf)), Index(v.n, f.sn))
  {
    hide Index;
    if f.sn in FrameSns(v.r.buf) {
      var i :| 0 <= i < |v.r.buf| && FrameSns(v.r.buf)[i] == f.sn;
      assert v.r.buf[i] in buf;
    } else {
      assert f in buf;
    }
  }

  lemma InsertReady(log: seq<Fragment>, v: View, f: Frame, i: int)
    requires RecvSide(log, v) && Matches(log, i, f) && Index(v.n, f.sn) == i
    requires Ascending(v.r.nxt, v.r.wnd, FrameSns(Insert(v.r.buf, f)))
    requires forall g :: g in Insert(v.r.buf, f) ==> g in v.r.buf || g == f
    ensures Ready(log, v.(r := v.r.(buf := Insert(v.r.buf, f))))
  {
    hide Insert, Index, ToU32, Ascending, Drained, Matches;
    assert Contiguous(v.r.(buf := Insert(v.r.buf, f)));
  }

  lemma ParseDataLink(log: seq<Fragment>, v: View, f: Frame, i: int)
    requires RecvSide(log, v) && Matches(log, i, f) && v.n <= i < v.n + v.r.wnd
    ensures InWindow(v.r, f.sn)
    ensures var v' := Onto(v, ParseData(v.r, f));
      && RecvSide(log, v') && Retains(v, v') && Held(v', i)
      && v'.r.acks == v.r.acks && v'.n - |v'.r.queue| == v.n - |v.r.queue|
  {
    IndexOfNumber(v.n, i);
    IndexInWindow(v, f.sn);
    InsertExact(v.r.nxt, v.r.wnd, v.r.buf, f);
    InsertReady(log, v, f, i);
    var v1 := v.(r := v.r.(buf := Insert(v.r.buf, f)));
    InsertHolds(v, f, v1.r.buf);
    assert Onto(v, ParseData(v.r, f)) == Onto(v1, Drain(v1.r));
    hide *;
    DrainLink(log, v1);
    RetainsTransitive(v, v1, Onto(v1, Drain(v1.r)));
    RetainsHeld(v1, Onto(v1, Drain(v1.r)), i);
  }

  lemma RetainsHeld(v: View, v': View, i: int)
    requires Retains(v, v') && Held(v, i)
    ensures Held(v', i)
  {
  }

  /** The window test on numbers is the window test on indices that are near. */
  lemma IndexInWindow(v: View, sn: u32)
    requires v.r.nxt == ToU32(v.n) && v.r.wnd <= 0xffff
    ensures v.n <= Index(v.n, sn) < v.n + v.r.wnd ==> InWindow(v.r, sn) && Sub32(sn, v.r.nxt) < v.r.wnd
  {
    InWindowExact(v.r, sn);
  }

  /** The test for an acknowledgement is right for every index that is not half of the ring away. */
  lemma IndexBelow(v: View, i: int)
    requires v.r.nxt == ToU32(v.n) && v.r.wnd <= 0xffff
    requires -0x8000_0000 + v.r.wnd <= i - v.n < 0x8000_0000
    ensures Below(v.r, ToU32(i)) <==> i < v.n + v.r.wnd
    ensures InWindow(v.r, ToU32(i)) <==> v.n <= i < v.n + v.r.wnd
  {
    AddToU32(v.n, v.r.wnd);
    if i >= 0 {
      hide ToU32, TimeDiff, Add32;
      TimeDiffNear(i, v.n + v.r.wnd);
      TimeDiffNear(i, v.n);
    } else {
      TimeDiffNear(i, v.n + v.r.wnd);
      TimeDiffNear(i, v.n);
    }
  }

  /** A frame that is older than that, up to the whole ring less the window, is not acknowledged. */
  lemma OldIsIgnored(v: View, i: int)
    requires v.r.nxt == ToU32(v.n) && v.r.wnd <= 0xffff
    requires 0x8000_0000 - v.r.wnd < v.n - i <= 0x1_0000_0000 - v.r.wnd
    ensures !Below(v.r, ToU32(i))
  {
    AddToU32(v.n, v.r.wnd);
    TimeDiffFar(i, v.n + v.r.wnd);
  }

  lemma TimeDiffFar(i: int, j: int)
    requires 0x8000_0000 < j - i <= 0x1_0000_0000
    ensures TimeDiff(ToU32(i), ToU32(j)) >= 0
  {
  }

  lemma TimeDiffNear(i: int, j: int)
    requires -0x8000_0000 <= i - j < 0x8000_0000
    ensures TimeDiff(ToU32(i), ToU32(j)) == i - j
  {
  }

  /** The list of acknowledgements has no part in what is held. */
  lemma OtherAcks(log: seq<Fragment>, v: View, acks: seq<Ack>)
    requires RecvSide(log, v)
    ensures var v1 := v.(r := v.r.(acks := acks)); RecvSide(log, v1) && Retains(v, v1)
  {
    var v1 := v.(r := v.r.(acks := acks));
    hide Index, ToU32, Ascending, Matches;
    assert Windowed(v1.r);
  }

  lemma AcksExtend(base: nat, v: View, v': View, a: Ack)
    requires AcksHeld(base, v) && Retains(v, v') && v'.r.acks == v.r.acks + [a]
    requires Held(v', Index(base, a.sn))
    ensures AcksHeld(base, v') && a in v'.r.acks
  {
    hide Index, Held;
  }

  /** A true data frame of any age below the bound keeps the receiver's view; it is acknowledged only
      when the receiver has it, and always when it is younger than half of the ring. */
  lemma TakePushLink(log: seq<Fragment>, base: nat, v: View, f: Frame, i: int)
    requires RecvSide(log, v) && base <= v.n && v.n - DATA_LIFETIME - 0xffff <= i && |log| <= base + 0x1_fffe
    requires AcksHeld(base, v) && Matches(log, i, f)
    ensures var v' := Onto(v, TakePush(v.r, f));
      && RecvSide(log, v') && AcksHeld(base, v') && Retains(v, v')
      && v'.n - |v'.r.queue| == v.n - |v.r.queue|
      && (v.n - 0x8000_0000 + v.r.wnd <= i < v.n + v.r.wnd ==> Ack(f.sn, f.ts) in v'.r.acks)
  {
    if i < v.n - 0x8000_0000 + v.r.wnd {
      OldIsIgnored(v, i);
    } else {
      IndexBelow(v, i);
      IndexOfNumber(base, i);
      if i < v.n + v.r.wnd {
        TakeBelowLink(log, base, v, f, i);
      }
    }
  }

  lemma TakeBelowLink(log: seq<Fragment>, base: nat, v: View, f: Frame, i: int)
    requires RecvSide(log, v) && base <= v.n && i < v.n + v.r.wnd
    requires AcksHeld(base, v) && Matches(log, i, f) && Index(base, f.sn) == i
    requires Below(v.r, f.sn) && (InWindow(v.r, f.sn) <==> v.n <= i)
    ensures var v' := Onto(v, TakePush(v.r, f));
      && RecvSide(log, v') && AcksHeld(base, v') && Retains(v, v')
      && v'.n - |v'.r.queue| == v.n - |v.r.queue| && Ack(f.sn, f.ts) in v'.r.acks
  {
    var a := Ack(f.sn, f.ts);
    var v1 := v.(r := v.r.(acks := v.r.acks + [a]));
    OtherAcks(log, v, v.r.acks + [a]);
    assert InWindow(v1.r, f.sn) == InWindow(v.r, f.sn);
    var v' := Onto(v1, ParseData(v1.r, f));
    assert v' == Onto(v, TakePush(v.r, f));
    assert i < v.n ==> v' == v1 && Held(v', i);
    hide *;
    if i >= v.n {
      ParseDataLink(log, v1, f, i);
      RetainsTransitive(v, v1, v');
    }
    AcksExtend(base, v, v', a);
  }

  lemma PiecesDrop(fs: seq<Frame>, n: nat)
    requires n <= |fs|
    ensures Pieces(fs[n..]) == Pieces(fs)[n..]
  {
  }

  lemma RangeDrop(log: seq<Fragment>, i: nat, j: nat, n: nat)
    requires i + n <= j <= |log|
    ensures log[i..j][n..] == log[i + n..j]
  {
  }

  lemma SameBufferRetains(v: View, v': View)
    requires v'.n == v.n && v'.r.buf == v.r.buf
    ensures Retains(v, v')
  {
    hide Index;
  }

  lemma ReadReady(log: seq<Fragment>, v: View, n: nat)
    requires RecvSide(log, v) && n <= |v.r.queue|
    ensures var v1 := v.(r := v.r.(queue := v.r.queue[n..])); Ready(log, v1) && Retains(v, v1)
  {
    var v1 := v.(r := v.r.(queue := v.r.queue[n..]));
    DropFrontContiguous(v.r, n);
    hide Index, ToU32, Ascending, Matches, Contiguous, Drained;
    PiecesDrop(v.r.queue, n);
    RangeDrop(log, v.n - |v.r.queue|, v.n, n);
    SameBufferRetains(v, v1);
    hide Retains;
  }

  lemma AfterReadLink(log: seq<Fragment>, v: View, n: nat)
    requires RecvSide(log, v) && n <= |v.r.queue|
    ensures var v' := Onto(v, Drain(v.r.(queue := v.r.queue[n..])));
      && RecvSide(log, v') && Retains(v, v') && v'.r.acks == v.r.acks
      && v'.n - |v'.r.queue| == v.n - |v.r.queue| + n
  {
    var v1 := v.(r := v.r.(queue := v.r.queue[n..]));
    assert Onto(v1, Drain(v1.r)) == Onto(v, Drain(v1.r));
    hide *;
    ReadReady(log, v, n);
    DrainLink(log, v1);
    RetainsTransitive(v, v1, Onto(v1, Drain(v1.r)));
  }

  // ---- the sender flushes ----

  /** The log has grown: segments of the buffer keep their indices. */
  lemma LogGrows(log: seq<Fragment>, more: seq<Fragment>, s: Sender, g: Segment)
    requires SendSide(log, s) && g in s.buf && |more| <= 0xffff
    ensures Index(|log + more|, g.frame.sn) == Index(|log|, g.frame.sn)
    ensures Matches(log + more, Index(|log|, g.frame.sn), g.frame)
  {
    SegmentIndex(log, s, g);
    IndexMoves(|log|, |log + more|, g.frame.sn);
  }

  /** The k-th fragment taken from the queue gets the index behind the log. */
  lemma NumberedMatches(log: seq<Fragment>, fs: seq<Fragment>, nxt: u32, c: Context, i: nat)
    requires nxt == ToU32(|log|) && i < |fs| <= 0xffff
    ensures |NumberAll(fs, nxt, c)| == |fs|
    ensures var f := NumberAll(fs, nxt, c)[i].frame;
      Index(|log + fs|, f.sn) == |log| + i && Matches(log + fs, |log| + i, f)
  {
    NumberAllAt(fs, nxt, c, i);
    AddToU32(|log|, i);
    IndexOfNumber(|log + fs|, |log| + i);
  }

  lemma AllGrow(log: seq<Fragment>, more: seq<Fragment>, s: Sender)
    requires SendSide(log, s) && |more| <= 0xffff
    ensures forall g :: g in s.buf ==>
      && Index(|log + more|, g.frame.sn) == Index(|log|, g.frame.sn)
      && Matches(log + more, Index(|log|, g.frame.sn), g.frame)
  {
    forall g | g in s.buf
      ensures Index(|log + more|, g.frame.sn) == Index(|log|, g.frame.sn)
      ensures Matches(log + more, Index(|log|, g.frame.sn), g.frame)
    {
      LogGrows(log, more, s, g);
    }
  }

  lemma AllNumbered(log: seq<Fragment>, fs: seq<Fragment>, nxt: u32, c: Context)
    requires nxt == ToU32(|log|) && |fs| <= 0xffff
    ensures |NumberAll(fs, nxt, c)| == |fs|
    ensures forall i :: 0 <= i < |fs| ==>
      var f := NumberAll(fs, nxt, c)[i].frame;
      Index(|log + fs|, f.sn) == |log| + i && Matches(log + fs, |log| + i, f)
  {
    NumberAllLength(fs, nxt, c);
    hide Index, Matches, NumberAll, ToU32;
    forall i | 0 <= i < |fs|
      ensures var f := NumberAll(fs, nxt, c)[i].frame;
        Index(|log + fs|, f.sn) == |log| + i && Matches(log + fs, |log| + i, f)
    {
      NumberedMatches(log, fs, nxt, c, i);
    }
  }

  /** The sender after numbering `fs`, when every segment is where it should be. */
  lemma AdmittedSide(log: seq<Fragment>, s: Sender, fs: seq<Fragment>, more: seq<Segment>, s': Sender)
    requires Ordered(s') && s'.nxt == ToU32(|log + fs|) && Span(s') <= |log + fs|
    requires s'.buf == s.buf + more && |more| == |fs|
    requires forall g :: g in s.buf ==>
      && Index(|log + fs|, g.frame.sn) == Index(|log|, g.frame.sn)
      && Matches(log + fs, Index(|log|, g.frame.sn), g.frame)
    requires forall i :: 0 <= i < |more| ==>
      Index(|log + fs|, more[i].frame.sn) == |log| + i && Matches(log + fs, |log| + i, more[i].frame)
    ensures SendSide(log + fs, s')
  {
    hide Index, Matches, Ordered, ToU32;
  }

  lemma AdmitShape(log: seq<Fragment>, s: Sender, cwnd: u32, c: Context) returns (k: nat)
    requires SendSide(log, s) && cwnd <= 0xffff
    ensures k <= |s.queue| && k <= 0xffff && Admit(s, cwnd, c).queue == s.queue[k..]
    ensures var s', fs := Admit(s, cwnd, c), s.queue[..k];
      && Ordered(s') && s'.nxt == ToU32(|log + fs|) && Span(s') <= |log + fs|
      && s'.buf == s.buf + NumberAll(fs, s.nxt, c)
  {
    k := AdmitFills(s, cwnd, c);
    AddToU32(|log|, k);
  }

  lemma AdmitLink(log: seq<Fragment>, s: Sender, v: View, cwnd: u32, c: Context) returns (k: nat)
    requires SendSide(log, s) && Accounted(log, s, v) && cwnd <= 0xffff
    ensures k <= |s.queue| && Admit(s, cwnd, c).queue == s.queue[k..]
    ensures SendSide(log + s.queue[..k], Admit(s, cwnd, c))
    ensures Accounted(log + s.queue[..k], Admit(s, cwnd, c), v)
  {
    k := AdmitShape(log, s, cwnd, c);
    var s', fs := Admit(s, cwnd, c), s.queue[..k];
    assert s.nxt == ToU32(|log|);
    hide *;
    AllGrow(log, fs, s);
    AllNumbered(log, fs, s.nxt, c);
    AdmittedAccounted(log, s, v, fs, NumberAll(fs, s.nxt, c), s');
    AdmittedSide(log, s, fs, NumberAll(fs, s.nxt, c), s');
  }

  lemma AdmittedAccounted(
      log: seq<Fragment>, s: Sender, v: View, fs: seq<Fragment>, more: seq<Segment>, s': Sender)
    requires Accounted(log, s, v) && s'.buf == s.buf + more && |more| == |fs|
    requires forall g :: g in s.buf ==> Index(|log + fs|, g.frame.sn) == Index(|log|, g.frame.sn)
    requires forall i :: 0 <= i < |more| ==> Index(|log + fs|, more[i].frame.sn) == |log| + i
    ensures Accounted(log + fs, s', v)
  {
    hide Index, Held;
    forall i | 0 <= i < |log + fs| && !Held(v, i)
      ensures Outstanding(log + fs, s', i)
    {
      if i < |log| {
        assert Outstanding(log, s, i);
        var g :| g in s.buf && Index(|log|, g.frame.sn) == i;
        assert g in s'.buf;
      } else {
        assert more[i - |log|] in s'.buf;
      }
    }
  }

  /** Every emitted data frame carries the fragment logged under its index, which is outstanding. */
  lemma SendAllLink(log: seq<Fragment>, s: Sender, v: View, c: Context)
    requires SendSide(log, s) && Accounted(log, s, v)
    ensures SendSide(log, s.(buf := SentAll(s.buf, c))) && Accounted(log, s.(buf := SentAll(s.buf, c)), v)
    ensures forall f :: f in Emitted(s.buf, c) ==>
      |log| - 0xffff <= Index(|log|, f.sn) && Matches(log, Index(|log|, f.sn), f)
  {
    SentAllOrdered(s, c);
    SameFramesLink(log, s, s.(buf := SentAll(s.buf, c)), v);
    forall f | f in Emitted(s.buf, c)
      ensures |log| - 0xffff <= Index(|log|, f.sn) && Matches(log, Index(|log|, f.sn), f)
    {
      EmittedFrom(s.buf, c, f);
      var g :| g in s.buf && !Why(g, c).Idle? && f == Sent(g, c).frame;
      SentKeepsIdentity(g, c);
      SegmentIndex(log, s, g);
    }
  }
}
