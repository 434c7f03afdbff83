/** The wire format: little-endian headers of 24 bytes, each followed by its payload, several to a
    datagram. */
module Wire {
  import opened Words
  import Seqs

  const OVERHEAD := 24
  const PUSH: u8 := 81
  const ACK: u8 := 82
  const WASK: u8 := 83
  const WINS: u8 := 84

  /** What one segment puts on the wire; its `len` field is the length of `data`. */
  datatype Frame = Frame(conv: u32, cmd: u8, frg: u8, wnd: u16, ts: u32, sn: u32, una: u32, data: seq<byte>)

  predicate IsCommand(cmd: u8) {
    cmd == PUSH || cmd == ACK || cmd == WASK || cmd == WINS
  }

  /** A frame of conversation `conv` that a receiver accepts. */
  predicate Carried(conv: u32, f: Frame) {
    f.conv == conv && IsCommand(f.cmd) && |f.data| < 0x8000_0000
  }

  function FrameSns(fs: seq<Frame>): (r: seq<u32>)
    ensures |r| == |fs| && forall i :: 0 <= i < |fs| ==> r[i] == fs[i].sn
  {
    seq(|fs|, i requires 0 <= i < |fs| => fs[i].sn)
  }

  function Low(x: int): byte {
    (x % 0x100) as byte
  }

  function Encode16(w: int): (r: seq<byte>)
    ensures |r| == 2
  {
    [Low(w), Low(w / 0x100)]
  }

  function Encode32(w: int): (r: seq<byte>)
    ensures |r| == 4
  {
    Encode16(w % 0x1_0000) + Encode16(w / 0x1_0000)
  }

  function Decode16(s: seq<byte>): u16
    requires |s| == 2
  {
    s[0] as int + 0x100 * s[1] as int
  }

  function Decode32(s: seq<byte>): u32
    requires |s| == 4
  {
    Decode16(s[..2]) + 0x1_0000 * Decode16(s[2..])
  }

  lemma Decode16Encode16(w: u16)
    ensures Decode16(Encode16(w)) == w
  {
  }

  lemma Decode32Encode32(w: u32)
    ensures Decode32(Encode32(w)) == w
  {
  }

  lemma Encode16Decode16(s: seq<byte>)
    requires |s| == 2
    ensures Encode16(Decode16(s)) == s
  {
  }

  lemma Encode32Decode32(s: seq<byte>)
    requires |s| == 4
    ensures Encode32(Decode32(s)) == s
  {
    hide Encode16, Decode16;
    Encode16Decode16(s[..2]);
    Encode16Decode16(s[2..]);
    SplitWord(Decode16(s[..2]), Decode16(s[2..]));
    Seqs.SplitAt(s, 2);
  }

  lemma SplitWord(low: u16, high: u16)
    ensures (low + 0x1_0000 * high) % 0x1_0000 == low && (low + 0x1_0000 * high) / 0x1_0000 == high
  {
  }

  /** `ikcp_encode_seg` */
  function Header(f: Frame): (r: seq<byte>)
    ensures |r| == OVERHEAD
  {
    Encode32(f.conv) + [Low(f.cmd), Low(f.frg)] + Encode16(f.wnd) + Encode32(f.ts)
    + Encode32(f.sn) + Encode32(f.una) + Encode32(|f.data|)
  }

  function Size(f: Frame): nat {
    OVERHEAD + |f.data|
  }

  function Encode(f: Frame): (r: seq<byte>)
    ensures |r| == Size(f)
  {
    Header(f) + f.data
  }

  function EncodeAll(fs: seq<Frame>): seq<byte> {
    if fs == [] then [] else EncodeAll(fs[..|fs| - 1]) + Encode(fs[|fs| - 1])
  }

  /** The header at the front of `s`, with the payload length that it announces. */
  function DecodeHeader(s: seq<byte>): (Frame, u32)
    requires |s| >= OVERHEAD
  {
    (Frame(Decode32(s[0..4]), s[4] as int, s[5] as int, Decode16(s[6..8]), Decode32(s[8..12]),
           Decode32(s[12..16]), Decode32(s[16..20]), []),
     Decode32(s[20..24]))
  }

  /** The frames that the input loop handles, and the value that it returns at the end. */
  datatype Parsed = Parsed(frames: seq<Frame>, code: int)

  function Parse(conv: u32, s: seq<byte>): (r: Parsed)
    ensures forall f :: f in r.frames ==> Carried(conv, f)
  {
    if |s| < OVERHEAD then Parsed([], 0)
    else
      var (h, len) := DecodeHeader(s);
      if h.conv != conv then Parsed([], -1)
      else if |s| - OVERHEAD < len || len >= 0x8000_0000 then Parsed([], -2)
      else if !IsCommand(h.cmd) then Parsed([], -3)
      else
        var rest := Parse(conv, s[OVERHEAD + len..]);
        Parsed([h.(data := s[OVERHEAD..OVERHEAD + len])] + rest.frames, rest.code)
  }

  /** The bytes of a frame, least significant first in each word: the conversation in the first four, then
      command and fragment number, the window in two, time, number, cumulative acknowledgement and payload length
      in four each, and behind these 24 the payload. */
  lemma Layout(f: Frame)
    ensures var s, n := Encode(f), |f.data|;
      && |s| == 24 + n && s[24..] == f.data && s[4] as int == f.cmd && s[5] as int == f.frg
      && WordBytes(s, 0, f.conv) && WordBytes(s, 8, f.ts) && WordBytes(s, 12, f.sn) && WordBytes(s, 16, f.una)
      && (n < 0x1_0000_0000 ==> WordBytes(s, 20, n))
      && s[6] as int == f.wnd % 0x100 && s[7] as int == f.wnd / 0x100
  {
    var s, n := Encode(f), |f.data|;
    assert s[24..] == f.data;
    HeaderFields(f, s);
    LowByte(f.cmd);
    LowByte(f.frg);
    EncodedHalf(f.wnd);
    assert s[4] == Low(f.cmd) && s[5] == Low(f.frg);
    hide Header, Encode, Encode32, Encode16, Low;
    WordAt(s, 0, f.conv);
    WordAt(s, 8, f.ts);
    WordAt(s, 12, f.sn);
    WordAt(s, 16, f.una);
    assert s[6] == s[6..8][0] && s[7] == s[6..8][1];
    if n < 0x1_0000_0000 {
      WordAt(s, 20, n);
    }
  }

  lemma EncodedHalf(w: u16)
    ensures Encode16(w)[0] as int == w % 0x100 && Encode16(w)[1] as int == w / 0x100
  {
  }

  lemma WordAt(s: seq<byte>, i: nat, w: u32)
    requires i + 4 <= |s| && s[i..i + 4] == Encode32(w)
    ensures WordBytes(s, i, w)
  {
    EncodedWord(w);
    hide Encode32;
    var t := s[i..i + 4];
    assert t[0] == s[i] && t[1] == s[i + 1] && t[2] == s[i + 2] && t[3] == s[i + 3];
  }

  /** The four bytes at `i` are those of `w`, the least significant one first. */
  predicate WordBytes(s: seq<byte>, i: nat, w: u32)
    requires i + 4 <= |s|
  {
    && s[i] as int == w % 0x100 && s[i + 1] as int == w / 0x100 % 0x100
    && s[i + 2] as int == w / 0x1_0000 % 0x100 && s[i + 3] as int == w / 0x100_0000
  }

  lemma LowHalf(w: u32)
    ensures w % 0x1_0000 % 0x100 == w % 0x100 && w % 0x1_0000 / 0x100 % 0x100 == w / 0x100 % 0x100
  {
    var q, r := w / 0x1_0000, w % 0x1_0000;
    assert w == 0x1_0000 * q + r;
    assert w / 0x100 == 0x100 * q + r / 0x100;
  }

  lemma HighHalf(w: u32)
    ensures w / 0x1_0000 / 0x100 == w / 0x100_0000 < 0x100
  {
  }

  lemma LowIs(x: int)
    ensures Low(x) as int == x % 0x100
  {
  }

  lemma EncodedWord(w: u32)
    ensures WordBytes(Encode32(w), 0, w)
  {
    var s, low, high := Encode32(w), w % 0x1_0000, w / 0x1_0000;
    assert s == [Low(low), Low(low / 0x100), Low(high), Low(high / 0x100)];
    hide *;
    LowHalf(w);
    HighHalf(w);
    LowIs(low);
    LowIs(low / 0x100);
    LowIs(high);
    LowIs(high / 0x100);
    SmallByte(high / 0x100);
    WordIs(s, w);
  }

  lemma SmallByte(x: nat)
    requires x < 0x100
    ensures x % 0x100 == x
  {
  }

  lemma WordIs(s: seq<byte>, w: u32)
    requires |s| == 4 && s[0] as int == w % 0x100 && s[1] as int == w / 0x100 % 0x100
    requires s[2] as int == w / 0x1_0000 % 0x100 && s[3] as int == w / 0x100_0000
    ensures WordBytes(s, 0, w)
  {
  }

  /** The commands of the protocol. */
  lemma Commands(cmd: u8)
    ensures PUSH == 81 && ACK == 82 && WASK == 83 && WINS == 84
    ensures IsCommand(cmd) <==> 81 <= cmd <= 84
  {
  }

  /** Where each field of a header lies. */
  lemma HeaderFields(f: Frame, s: seq<byte>)
    requires Encode(f) <= s
    ensures |s| >= OVERHEAD
    ensures s[0..4] == Encode32(f.conv) && s[4] == Low(f.cmd) && s[5] == Low(f.frg) && s[6..8] == Encode16(f.wnd)
    ensures s[8..12] == Encode32(f.ts) && s[12..16] == Encode32(f.sn) && s[16..20] == Encode32(f.una)
    ensures s[20..24] == Encode32(|f.data|)
  {
    hide Encode32, Encode16, Low;
  }

  lemma LowByte(x: u8)
    ensures Low(x) as int == x
  {
  }

  lemma DecodeHeaderEncode(f: Frame, tail: seq<byte>)
    requires Carried(f.conv, f)
    ensures DecodeHeader(Encode(f) + tail) == (f.(data := []), |f.data|)
  {
    hide Encode, Encode32, Encode16, Decode32, Decode16, Low;
    HeaderFields(f, Encode(f) + tail);
    LowByte(f.cmd);
    LowByte(f.frg);
    Decode32Encode32(f.conv);
    Decode16Encode16(f.wnd);
    Decode32Encode32(f.ts);
    Decode32Encode32(f.sn);
    Decode32Encode32(f.una);
    Decode32Encode32(|f.data|);
  }

  lemma ParseEncode(conv: u32, f: Frame, tail: seq<byte>)
    requires Carried(conv, f)
    ensures Parse(conv, Encode(f) + tail)
         == Parsed([f] + Parse(conv, tail).frames, Parse(conv, tail).code)
  {
    var s := Encode(f) + tail;
    DecodeHeaderEncode(f, tail);
    assert s[OVERHEAD..OVERHEAD + |f.data|] == f.data;
    assert s[OVERHEAD + |f.data|..] == tail;
  }

  lemma {:induction false} EncodeAllPrepend(f: Frame, fs: seq<Frame>)
    ensures EncodeAll([f] + fs) == Encode(f) + EncodeAll(fs)
  {
    hide Encode;
    var all := [f] + fs;
    if fs == [] {
      assert all[..|all| - 1] == [];
      assert [] + Encode(f) == Encode(f) + [];
    } else {
      var front, last := fs[..|fs| - 1], fs[|fs| - 1];
      assert all[..|all| - 1] == [f] + front && all[|all| - 1] == last;
      EncodeAllPrepend(f, front);
      assert (Encode(f) + EncodeAll(front)) + Encode(last) == Encode(f) + (EncodeAll(front) + Encode(last));
    }
  }

  /** Parsing undoes encoding: the bytes of any list of carried frames give back that list. */
  lemma {:induction false} RoundTrip(conv: u32, fs: seq<Frame>)
    requires forall f :: f in fs ==> Carried(conv, f)
    ensures Parse(conv, EncodeAll(fs)) == Parsed(fs, 0)
  {
    if fs == [] {
    } else {
      var f, rest := fs[0], fs[1..];
      assert fs == [f] + rest;
      EncodeAllPrepend(f, rest);
      RoundTrip(conv, rest);
      ParseEncode(conv, f, EncodeAll(rest));
    }
  }

  /** A header in its parts. */
  lemma HeaderParts(s: seq<byte>)
    requires |s| >= OVERHEAD
    ensures s[..OVERHEAD] == s[0..4] + [s[4], s[5]] + s[6..8] + s[8..12] + s[12..16] + s[16..20] + s[20..24]
  {
  }

  lemma LowOfByte(b: byte)
    ensures Low(b as int) == b
  {
  }

  lemma EncodeDecodeHeader(s: seq<byte>)
    requires |s| >= OVERHEAD
    requires var (h, len) := DecodeHeader(s); IsCommand(h.cmd) && len <= |s| - OVERHEAD
    ensures var (h, len) := DecodeHeader(s);
      Encode(h.(data := s[OVERHEAD..OVERHEAD + len])) == s[..OVERHEAD + len]
  {
    var (h, len) := DecodeHeader(s);
    var f := h.(data := s[OVERHEAD..OVERHEAD + len]);
    hide Encode32, Encode16, Decode32, Decode16, Low, IsCommand;
    Encode32Decode32(s[0..4]);
    LowOfByte(s[4]);
    LowOfByte(s[5]);
    Encode16Decode16(s[6..8]);
    Encode32Decode32(s[8..12]);
    Encode32Decode32(s[12..16]);
    Encode32Decode32(s[16..20]);
    Encode32Decode32(s[20..24]);
    HeaderParts(s);
    assert Header(f) == s[..OVERHEAD];
    hide Header, DecodeHeader;
    Seqs.SplitRange(s, OVERHEAD, OVERHEAD + len);
  }

  lemma PrefixExtends(head: seq<byte>, rest: seq<byte>, s: seq<byte>, t: seq<byte>)
    requires s == head + rest && t <= rest
    ensures head + t <= s && |s| - |head + t| == |rest| - |t|
  {
  }

  /** The other way round, for arbitrary bytes: what is parsed re-encodes to the bytes read, and on
      success fewer than one header of bytes is left over. */
  lemma {:induction false} ParsedIsPrefix(conv: u32, s: seq<byte>)
    ensures EncodeAll(Parse(conv, s).frames) <= s
    ensures Parse(conv, s).code == 0 ==> |s| - |EncodeAll(Parse(conv, s).frames)| < OVERHEAD
    decreases |s|
  {
    if Parse(conv, s).frames == [] {
    } else {
      var f, rest := ParseFirst(conv, s);
      ParsedIsPrefix(conv, rest);
      EncodeAllPrepend(f, Parse(conv, rest).frames);
      PrefixExtends(Encode(f), rest, s, EncodeAll(Parse(conv, rest).frames));
    }
  }

  /** What stops the parsing of arbitrary bytes: behind the frames that have been read there is less than a header,
      or one of another conversation, or one that announces more bytes than follow (as a signed length), or one
      with an unknown command, in the order of the tests. */
  lemma {:induction false} ParseStops(conv: u32, s: seq<byte>) returns (rest: seq<byte>)
    ensures s == EncodeAll(Parse(conv, s).frames) + rest
    ensures Parse(conv, s).code
         == if |rest| < 24 then 0
            else if Decode32(rest[0..4]) != conv then -1
            else if Decode32(rest[20..24]) > |rest| - 24 || Decode32(rest[20..24]) >= 0x8000_0000 then -2
            else -3
    ensures Parse(conv, s).code == -3 ==> !(81 <= rest[4] as int <= 84)
    decreases |s|
  {
    if Parse(conv, s).frames == [] {
      rest := s;
      Seqs.AppendNone(s);
    } else {
      var f, tail := ParseFirst(conv, s);
      rest := ParseStops(conv, tail);
      EncodeAllPrepend(f, Parse(conv, tail).frames);
      Seqs.Assoc(Encode(f), EncodeAll(Parse(conv, tail).frames), rest);
    }
  }

  lemma ParseFirst(conv: u32, s: seq<byte>) returns (f: Frame, rest: seq<byte>)
    requires Parse(conv, s).frames != []
    ensures s == Encode(f) + rest
    ensures Parse(conv, s) == Parsed([f] + Parse(conv, rest).frames, Parse(conv, rest).code)
  {
    var (h, len) := DecodeHeader(s);
    f, rest := h.(data := s[OVERHEAD..OVERHEAD + len]), s[OVERHEAD + len..];
    EncodeDecodeHeader(s);
    Seqs.SplitAt(s, OVERHEAD + len);
  }

  // ---- packing frames into datagrams ----

  /** Datagrams already handed to the output callback, and the frames still in the buffer. */
  datatype Packing = Packing(done: seq<seq<Frame>>, cur: seq<Frame>)

  /** One frame joins the buffer, which is first sent and emptied when the frame would exceed `mtu`;
      an empty buffer is not sent. */
  function Pack(mtu: u32, p: Packing, f: Frame): Packing {
    if |EncodeAll(p.cur)| + Size(f) <= mtu then p.(cur := p.cur + [f])
    else Packing(Finish(p), [f])
  }

  /** The datagrams once whatever remains in the buffer is sent. */
  function Finish(p: Packing): seq<seq<Frame>> {
    if p.cur == [] then p.done else p.done + [p.cur]
  }

  /** The first `n` frames of `fs`, one after the other. */
  function PackTo(mtu: u32, p: Packing, fs: seq<Frame>, n: nat): Packing
    requires n <= |fs|
  {
    if n == 0 then p else Pack(mtu, PackTo(mtu, p, fs, n - 1), fs[n - 1])
  }

  function PackAll(mtu: u32, p: Packing, fs: seq<Frame>): Packing {
    PackTo(mtu, p, fs, |fs|)
  }

  /** The frame lists of the datagrams that one flush sends for `fs`. */
  function Datagrams(mtu: u32, fs: seq<Frame>): seq<seq<Frame>> {
    Finish(PackAll(mtu, Packing([], []), fs))
  }

  function Concat(ds: seq<seq<Frame>>): seq<Frame> {
    if ds == [] then [] else Concat(ds[..|ds| - 1]) + ds[|ds| - 1]
  }

  /** The frames that a receiver reads from a list of datagrams taken in order. */
  function ParseAll(conv: u32, ds: seq<seq<byte>>): seq<Frame> {
    if ds == [] then [] else ParseAll(conv, ds[..|ds| - 1]) + Parse(conv, ds[|ds| - 1]).frames
  }

  function Bytes(ds: seq<seq<Frame>>): seq<seq<byte>> {
    seq(|ds|, i requires 0 <= i < |ds| => EncodeAll(ds[i]))
  }

  ghost predicate Fits(mtu: u32, d: seq<Frame>) {
    d != [] && |EncodeAll(d)| <= mtu
  }

  ghost predicate PackingFits(mtu: u32, p: Packing) {
    (forall d :: d in p.done ==> Fits(mtu, d)) && |EncodeAll(p.cur)| <= mtu
  }

  lemma EncodeAllAppend(fs: seq<Frame>, f: Frame)
    ensures EncodeAll(fs + [f]) == EncodeAll(fs) + Encode(f)
    ensures |EncodeAll(fs + [f])| == |EncodeAll(fs)| + Size(f)
  {
    assert (fs + [f])[..|fs|] == fs;
  }

  lemma ConcatFinish(p: Packing)
    ensures Concat(Finish(p)) == Concat(p.done) + p.cur
  {
    if p.cur != [] {
      assert (p.done + [p.cur])[..|p.done|] == p.done;
    }
  }

  lemma PackKeeps(mtu: u32, p: Packing, f: Frame)
    requires PackingFits(mtu, p) && Size(f) <= mtu
    ensures var q := Pack(mtu, p, f);
      PackingFits(mtu, q) && Concat(q.done) + q.cur == Concat(p.done) + p.cur + [f]
  {
    EncodeAllAppend(p.cur, f);
    EncodeAllAppend([], f);
    assert [] + [f] == [f];
    ConcatFinish(p);
    assert Concat(p.done) + (p.cur + [f]) == Concat(p.done) + p.cur + [f];
  }

  lemma NothingPacked(mtu: u32, fs: seq<Frame>)
    ensures var p := PackTo(mtu, Packing([], []), fs, 0);
      PackingFits(mtu, p) && Concat(p.done) + p.cur == fs[..0]
  {
  }

  lemma PackToNext(mtu: u32, p: Packing, fs: seq<Frame>, n: nat)
    requires 0 < n <= |fs|
    ensures PackTo(mtu, p, fs, n) == Pack(mtu, PackTo(mtu, p, fs, n - 1), fs[n - 1])
  {
    hide Pack;
  }

  lemma {:induction false} PackToFits(mtu: u32, fs: seq<Frame>, n: nat)
    requires n <= |fs| && forall f :: f in fs ==> Size(f) <= mtu
    ensures var p := PackTo(mtu, Packing([], []), fs, n);
      PackingFits(mtu, p) && Concat(p.done) + p.cur == fs[..n]
  {
    hide *;
    if n == 0 {
      NothingPacked(mtu, fs);
    } else {
      PackToFits(mtu, fs, n - 1);
      PackToNext(mtu, Packing([], []), fs, n);
      assert fs[n - 1] in fs;
      PackKeeps(mtu, PackTo(mtu, Packing([], []), fs, n - 1), fs[n - 1]);
      Seqs.TakeNext(fs, n - 1);
    }
  }

  lemma {:induction false} ParseAllBytes(conv: u32, ds: seq<seq<Frame>>)
    requires forall d, f :: d in ds && f in d ==> Carried(conv, f)
    ensures ParseAll(conv, Bytes(ds)) == Concat(ds)
  {
    if ds == [] {
    } else {
      var front, d := ds[..|ds| - 1], ds[|ds| - 1];
      assert Bytes(ds)[..|ds| - 1] == Bytes(front);
      ParseAllBytes(conv, front);
      RoundTrip(conv, d);
    }
  }

  lemma {:induction false} ConcatMember(ds: seq<seq<Frame>>, d: seq<Frame>, f: Frame)
    requires d in ds && f in d
    ensures f in Concat(ds)
  {
    if d != ds[|ds| - 1] {
      ConcatMember(ds[..|ds| - 1], d, f);
    }
  }

  lemma DatagramsFit(mtu: u32, fs: seq<Frame>)
    requires forall f :: f in fs ==> Size(f) <= mtu
    ensures Concat(Datagrams(mtu, fs)) == fs
    ensures forall d :: d in Datagrams(mtu, fs) ==> Fits(mtu, d)
    ensures forall d, f :: d in Datagrams(mtu, fs) && f in d ==> f in fs
  {
    var p := PackAll(mtu, Packing([], []), fs);
    PackToFits(mtu, fs, |fs|);
    Seqs.TakeAll(fs);
    ConcatFinish(p);
    forall d, f | d in Datagrams(mtu, fs) && f in d
      ensures f in fs
    {
      ConcatMember(Datagrams(mtu, fs), d, f);
    }
  }

  /** Sending and parsing are inverse: every datagram is non-empty and within the MTU, and reading
      all of them in order gives exactly the frames that were to be sent, in order. */
  lemma DatagramsRoundTrip(conv: u32, mtu: u32, fs: seq<Frame>)
    requires forall f :: f in fs ==> Carried(conv, f) && Size(f) <= mtu
    ensures var ds := Bytes(Datagrams(mtu, fs));
      && (forall d :: d in ds ==> 0 < |d| <= mtu && Parse(conv, d).code == 0)
      && (forall d, f :: d in ds && f in Parse(conv, d).frames ==> f in fs)
      && ParseAll(conv, ds) == fs
  {
    hide Datagrams, Concat;
    var gs := Datagrams(mtu, fs);
    DatagramsFit(mtu, fs);
    ParseAllBytes(conv, gs);
    forall d | d in Bytes(gs)
      ensures 0 < |d| <= mtu && Parse(conv, d).code == 0
      ensures forall f :: f in Parse(conv, d).frames ==> f in fs
    {
      var i :| 0 <= i < |gs| && d == EncodeAll(gs[i]);
      assert gs[i] in gs;
      RoundTrip(conv, gs[i]);
    }
  }

  lemma {:induction false} PackToPrefix(mtu: u32, p: Packing, a: seq<Frame>, b: seq<Frame>, n: nat)
    requires n <= |a|
    ensures PackTo(mtu, p, a + b, n) == PackTo(mtu, p, a, n)
  {
    hide Pack;
    if n == 0 {
    } else {
      PackToPrefix(mtu, p, a, b, n - 1);
    }
  }

  lemma {:induction false} PackToConcat(mtu: u32, p: Packing, a: seq<Frame>, b: seq<Frame>, n: nat)
    requires n <= |b|
    ensures PackTo(mtu, PackAll(mtu, p, a), b, n) == PackTo(mtu, p, a + b, |a| + n)
  {
    hide Pack;
    if n > 0 {
      PackToConcat(mtu, p, a, b, n - 1);
    } else {
      PackToPrefix(mtu, p, a, b, |a|);
    }
  }

  /** No frame would have fitted the datagram before its own. */
  ghost predicate Greedy(mtu: u32, ds: seq<seq<Frame>>) {
    forall i :: 0 < i < |ds| && ds[i] != [] ==> |EncodeAll(ds[i - 1])| + Size(ds[i][0]) > mtu
  }

  ghost predicate PackedGreedily(mtu: u32, p: Packing) {
    Greedy(mtu, Finish(p)) && (p.cur == [] ==> p.done == [])
  }

  lemma PackGreedily(mtu: u32, p: Packing, f: Frame)
    requires PackedGreedily(mtu, p)
    ensures PackedGreedily(mtu, Pack(mtu, p, f))
  {
    hide Size;
    var q := Pack(mtu, p, f);
    forall i | 0 < i < |Finish(q)| && Finish(q)[i] != []
      ensures |EncodeAll(Finish(q)[i - 1])| + Size(Finish(q)[i][0]) > mtu
    {
      if |EncodeAll(p.cur)| + Size(f) <= mtu {
        assert Finish(p)[i - 1] == Finish(q)[i - 1];
        assert Finish(p)[i] != [] && Finish(p)[i][0] == Finish(q)[i][0];
      } else if i < |Finish(p)| {
        assert Finish(p)[i] == Finish(q)[i];
      }
    }
  }

  lemma NothingGreedy(mtu: u32, fs: seq<Frame>)
    ensures PackedGreedily(mtu, PackTo(mtu, Packing([], []), fs, 0))
  {
  }

  lemma {:induction false} PackToGreedily(mtu: u32, fs: seq<Frame>, n: nat)
    requires n <= |fs|
    ensures PackedGreedily(mtu, PackTo(mtu, Packing([], []), fs, n))
  {
    hide *;
    if n == 0 {
      NothingGreedy(mtu, fs);
    } else {
      PackToGreedily(mtu, fs, n - 1);
      PackToNext(mtu, Packing([], []), fs, n);
      PackGreedily(mtu, PackTo(mtu, Packing([], []), fs, n - 1), fs[n - 1]);
    }
  }

  /** A new datagram is begun only for a frame that the one before has no room for. */
  lemma DatagramsGreedy(mtu: u32, fs: seq<Frame>)
    ensures Greedy(mtu, Datagrams(mtu, fs))
  {
    PackToGreedily(mtu, fs, |fs|);
  }

  /** Packing one list after another is packing their concatenation. */
  lemma PackAllConcat(mtu: u32, p: Packing, a: seq<Frame>, b: seq<Frame>)
    ensures PackAll(mtu, PackAll(mtu, p, a), b) == PackAll(mtu, p, a + b)
  {
    PackToConcat(mtu, p, a, b, |b|);
  }

  lemma PackAllSnoc(mtu: u32, p: Packing, fs: seq<Frame>, f: Frame)
    ensures PackAll(mtu, p, fs + [f]) == Pack(mtu, PackAll(mtu, p, fs), f)
  {
    PackToPrefix(mtu, p, fs, [f], |fs|);
  }

  lemma PackMaybe(mtu: u32, p: Packing, fs: seq<Frame>, send: bool, f: Frame)
    ensures PackAll(mtu, p, fs + if send then [f] else [])
         == if send then Pack(mtu, PackAll(mtu, p, fs), f) else PackAll(mtu, p, fs)
  {
    PackAllSnoc(mtu, p, fs, f);
    Seqs.AppendNone(fs);
  }

  lemma {:induction false} EncodeAllEmpty(fs: seq<Frame>)
    ensures |EncodeAll(fs)| == 0 <==> fs == []
  {
  }

  lemma BytesSnoc(ds: seq<seq<Frame>>, d: seq<Frame>)
    ensures Bytes(ds + [d]) == Bytes(ds) + [EncodeAll(d)]
  {
  }
}
