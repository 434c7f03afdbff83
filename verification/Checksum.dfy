/** The Internet checksum (section 1 of RFC 1071) over an IPv4 header (section 3.1 of RFC 791) and over
    TCP with its pseudo-header (section 3.1 of RFC 9293). */
module Checksums {
  import opened Words

  /** The 16-bit word in network order at word index `i`. */
  function WordAt(s: seq<byte>, i: nat): u16
    requires 2 * i + 1 < |s|
  {
    0x100 * s[2 * i] as int + s[2 * i + 1] as int
  }

  /** The plain sum of the first `n` words. */
  function SumTo(s: seq<byte>, n: nat): nat
    requires 2 * n <= |s|
  {
    if n == 0 then 0 else SumTo(s, n - 1) + WordAt(s, n - 1)
  }

  function Sum(s: seq<byte>): nat {
    SumTo(s, |s| / 2)
  }

  /** A last odd byte is followed by a zero. */
  function Padded(s: seq<byte>): (r: seq<byte>)
    ensures |r| % 2 == 0
  {
    if |s| % 2 == 1 then s + [0] else s
  }

  /** The one's-complement sum: the representative of `sum` modulo 65535 that is 0 only for 0. */
  function Folded(sum: nat): (r: u16)
    ensures r % 0xffff == sum % 0xffff && (r == 0 <==> sum == 0)
  {
    if sum == 0 then 0 else 1 + (sum - 1) % 0xffff
  }

  function Complement(x: u16): u16 {
    0xffff - x
  }

  /** The Internet checksum of any bytes. */
  function Internet(s: seq<byte>): u16 {
    Complement(Folded(Sum(Padded(s))))
  }

  /** What a receiver computes over everything, check field included. */
  predicate Verifies(s: seq<byte>) {
    Folded(Sum(s)) == 0xffff
  }

  // ---- sums ----

  lemma {:induction false} SumToPrefix(a: seq<byte>, b: seq<byte>, n: nat)
    requires 2 * n <= |a|
    ensures SumTo(a + b, n) == SumTo(a, n)
  {
    if n == 0 {
    } else {
      SumToPrefix(a, b, n - 1);
    }
  }

  lemma {:induction false} SumToConcat(a: seq<byte>, b: seq<byte>, n: nat)
    requires |a| % 2 == 0 && 2 * n <= |b|
    ensures SumTo(a + b, |a| / 2 + n) == Sum(a) + SumTo(b, n)
  {
    if n > 0 {
      SumToConcat(a, b, n - 1);
    } else {
      SumToPrefix(a, b, |a| / 2);
    }
  }

  /** Separate sums of even parts are one sum over their concatenation. */
  lemma SumConcat(a: seq<byte>, b: seq<byte>)
    requires |a| % 2 == 0
    ensures Sum(a + b) == Sum(a) + Sum(b)
  {
    SumToConcat(a, b, |b| / 2);
  }

  lemma {:induction false} SumToBound(s: seq<byte>, n: nat)
    requires 2 * n <= |s|
    ensures SumTo(s, n) <= 0xffff * n
  {
    if n == 0 {
    } else {
      SumToBound(s, n - 1);
    }
  }

  /** The bytes at even and at odd positions. */
  function ByteSum(s: seq<byte>, odd: bool): nat {
    if s == [] then 0
    else ByteSum(s[..|s| - 1], odd) + if (|s| % 2 == 0) == odd then s[|s| - 1] as int else 0
  }

  lemma {:induction false} SumToBytes(s: seq<byte>, n: nat)
    requires 2 * n <= |s|
    ensures SumTo(s, n) == 0x100 * ByteSum(s[..2 * n], false) + ByteSum(s[..2 * n], true)
  {
    if n == 0 {
    } else {
      var t := s[..2 * n];
      SumToBytes(s, n - 1);
      assert t[..|t| - 1][..|t| - 2] == s[..2 * (n - 1)];
      assert ByteSum(t[..|t| - 1], false) == ByteSum(s[..2 * (n - 1)], false) + s[2 * n - 2] as int;
      assert ByteSum(t[..|t| - 1], true) == ByteSum(s[..2 * (n - 1)], true);
    }
  }

  /** The sum of padded bytes: those at even positions count 256 times, those at odd positions once, and the
      padding adds nothing. */
  lemma PaddedSum(s: seq<byte>)
    ensures Sum(Padded(s)) == 0x100 * ByteSum(s, false) + ByteSum(s, true)
  {
    var t := Padded(s);
    SumToBytes(t, |t| / 2);
    assert t[..2 * (|t| / 2)] == t;
    if |s| % 2 == 1 {
      assert t[..|t| - 1] == s;
    }
  }

  // ---- folding ----

  lemma SameRemainder(x: nat, y: nat)
    ensures (x + 0xffff * y) % 0xffff == x % 0xffff
  {
  }

  lemma FoldStep(sum: nat)
    requires sum >= 0x1_0000
    ensures 0 < sum % 0x1_0000 + sum / 0x1_0000 < sum
    ensures Folded(sum % 0x1_0000 + sum / 0x1_0000) == Folded(sum)
  {
    var low, high := sum % 0x1_0000, sum / 0x1_0000;
    SameRemainder(low + high - 1, high);
    assert sum - 1 == (low + high - 1) + 0xffff * high;
  }

  /** The folding loop ends and returns the complement of the sum modulo 65535. */
  method Fold(total: u32) returns (r: u16)
    ensures r == Complement(Folded(total))
  {
    var sum := total;
    while sum / 0x1_0000 != 0
      invariant 0 <= sum && Folded(sum) == Folded(total)
      decreases sum
    {
      FoldStep(sum);
      sum := sum % 0x1_0000 + sum / 0x1_0000;
    }
    r := ToU16(0xffff_ffff - sum);
  }

  method AddWords(start: u32, s: seq<byte>) returns (sum: u32)
    ensures sum == ToU32(start + Sum(s))
  {
    sum := start;
    var i := 0;
    while i < |s| / 2
      invariant i <= |s| / 2 && sum == ToU32(start + SumTo(s, i))
    {
      WrapTwice(start + SumTo(s, i), WordAt(s, i));
      assert SumTo(s, i + 1) == SumTo(s, i) + WordAt(s, i);
      hide ToU32, WordAt, SumTo;
      sum := Add32(sum, WordAt(s, i));
      i := i + 1;
    }
  }

  /** `calculate_ip_checksum`: the low half of the first byte counts the words of 4 bytes, so the
      length is never odd. */
  method IpChecksum(header: seq<byte>) returns (r: u16)
    requires 20 <= |header| && 4 * (header[0] as int % 16) <= |header|
    ensures r == Internet(header[..4 * (header[0] as int % 16)])
  {
    var length := 4 * (header[0] as int % 16);
    SumToBound(header[..length], length / 2);
    assert Internet(header[..length]) == Complement(Folded(Sum(header[..length])));
    assert ToU32(0 + Sum(header[..length])) == Sum(header[..length]);
    hide *;
    var sum := AddWords(0, header[..length]);
    if length % 2 != 0 {
      assert false;
    }
    r := Fold(sum);
  }

  function PseudoHeader(source: seq<byte>, dest: seq<byte>, length: u16): seq<byte> {
    source + dest + [0, 6, (length / 0x100) as byte, (length % 0x100) as byte]
  }

  function AddressWords(a: seq<byte>): nat
    requires |a| == 4
  {
    WordAt(a, 0) + WordAt(a, 1)
  }

  /** The sum that the TCP checksum is made of: both addresses, the protocol, the length of the segment in 16
      bits, the header, and the payload filled up to whole words. */
  function TcpTotal(source: seq<byte>, dest: seq<byte>, tcp: seq<byte>, data: seq<byte>): nat
    requires |source| == 4 && |dest| == 4
  {
    AddressWords(source) + AddressWords(dest) + 6 + (20 + |data|) % 0x1_0000 + Sum(tcp) + Sum(Padded(data))
  }

  lemma PseudoSum(source: seq<byte>, dest: seq<byte>, length: u16)
    requires |source| == 4 && |dest| == 4
    ensures Sum(PseudoHeader(source, dest, length)) == AddressWords(source) + AddressWords(dest) + 6 + length
  {
    var s := PseudoHeader(source, dest, length);
    assert |s| == 12;
    assert SumTo(s, 0) == 0 && SumTo(s, 1) == WordAt(source, 0);
    assert SumTo(s, 2) == AddressWords(source);
    assert SumTo(s, 3) == SumTo(s, 2) + WordAt(dest, 0);
    assert SumTo(s, 4) == SumTo(s, 2) + AddressWords(dest);
    assert WordAt(s, 4) == 6 && WordAt(s, 5) == length;
    assert SumTo(s, 6) == SumTo(s, 4) + 6 + length;
  }

  /** Everything that the TCP checksum covers. */
  function Covered(source: seq<byte>, dest: seq<byte>, tcp: seq<byte>, data: seq<byte>): seq<byte> {
    PseudoHeader(source, dest, ToU16(20 + |data|)) + tcp + Padded(data)
  }

  lemma CoveredSum(source: seq<byte>, dest: seq<byte>, tcp: seq<byte>, data: seq<byte>)
    requires |source| == 4 && |dest| == 4 && |tcp| == 20
    ensures Sum(Covered(source, dest, tcp, data))
         == Sum(PseudoHeader(source, dest, ToU16(20 + |data|))) + Sum(tcp) + Sum(Padded(data))
         == TcpTotal(source, dest, tcp, data)
    ensures |data| <= 0xffff - 20 ==> Sum(Covered(source, dest, tcp, data)) < 0x1_0000_0000
  {
    var pseudo := PseudoHeader(source, dest, ToU16(20 + |data|));
    PseudoSum(source, dest, ToU16(20 + |data|));
    SumConcat(pseudo, tcp);
    SumConcat(pseudo + tcp, Padded(data));
    var all := Covered(source, dest, tcp, data);
    SumToBound(all, |all| / 2);
  }

  lemma CoveredEven(source: seq<byte>, dest: seq<byte>, tcp: seq<byte>, data: seq<byte>)
    requires |source| == 4 && |dest| == 4 && |tcp| == 20
    ensures Padded(Covered(source, dest, tcp, data)) == Covered(source, dest, tcp, data)
  {
  }

  lemma WrapTwice(a: nat, b: nat)
    ensures ToU32(ToU32(a) + b) == ToU32(a + b)
    ensures a < 0x1_0000_0000 ==> ToU32(a) == a
  {
  }

  lemma NothingAdds()
    ensures Sum(Padded([])) == 0
  {
  }

  /** `calculate_tcp_checksum`: three sums, the last over a padded copy of the payload, in 32 bits. */
  method TcpChecksum(source: seq<byte>, dest: seq<byte>, tcp: seq<byte>, data: seq<byte>) returns (r: u16)
    requires |source| == 4 && |dest| == 4 && |tcp| == 20 && |data| < 0x7fff_ffff
    ensures r == Complement(Folded(ToU32(TcpTotal(source, dest, tcp, data))))
    ensures Sum(Covered(source, dest, tcp, data)) < 0x1_0000_0000 ==> r == Internet(Covered(source, dest, tcp, data))
  {
    TcpParts(source, dest, tcp, data);
    TcpCovers(source, dest, tcp, data);
    hide Sum, SumTo, WordAt, Covered, PseudoHeader, ToU32, Folded, Complement, Internet, TcpTotal, ToU16;
    var sum := AddWords(0, PseudoHeader(source, dest, ToU16(20 + |data|)));
    sum := AddWords(sum, tcp);
    if |data| != 0 {
      var padded := data;
      if |data| % 2 == 1 {
        padded := padded + [0];
      }
      sum := AddWords(sum, padded);
    }
    r := Fold(sum);
  }

  /** The three sums in 32 bits are the total in 32 bits; without payload the third adds nothing. */
  lemma TcpParts(source: seq<byte>, dest: seq<byte>, tcp: seq<byte>, data: seq<byte>)
    requires |source| == 4 && |dest| == 4 && |tcp| == 20
    ensures var pseudo, total := PseudoHeader(source, dest, ToU16(20 + |data|)), TcpTotal(source, dest, tcp, data);
      var two := ToU32(ToU32(0 + Sum(pseudo)) + Sum(tcp));
      ToU32(two + Sum(Padded(data))) == ToU32(total) && (data == [] ==> two == ToU32(total))
  {
    var pseudo := PseudoHeader(source, dest, ToU16(20 + |data|));
    CoveredSum(source, dest, tcp, data);
    NothingAdds();
    hide Sum, Covered, PseudoHeader, ToU32, TcpTotal;
    WrapTwice(Sum(pseudo), Sum(tcp));
    WrapTwice(Sum(pseudo) + Sum(tcp), Sum(Padded(data)));
  }

  lemma TcpCovers(source: seq<byte>, dest: seq<byte>, tcp: seq<byte>, data: seq<byte>)
    requires |source| == 4 && |dest| == 4 && |tcp| == 20
    ensures var total := TcpTotal(source, dest, tcp, data);
      && Sum(Covered(source, dest, tcp, data)) == total
      && Internet(Covered(source, dest, tcp, data)) == Complement(Folded(total))
      && (total < 0x1_0000_0000 ==> ToU32(total) == total)
  {
    CoveredSum(source, dest, tcp, data);
    CoveredEven(source, dest, tcp, data);
    WrapTwice(TcpTotal(source, dest, tcp, data), 0);
    hide Sum, Covered, PseudoHeader, TcpTotal, Folded, Complement, ToU32;
  }

  // ---- verification ----

  /** The value `v` in network order at offset `k`. */
  function Stored(s: seq<byte>, k: nat, v: u16): seq<byte>
    requires k + 1 < |s|
  {
    s[k := (v / 0x100) as byte][k + 1 := (v % 0x100) as byte]
  }

  ghost predicate Zeroed(s: seq<byte>, k: nat) {
    |s| % 2 == 0 && k % 2 == 0 && k + 1 < |s| && s[k] == 0 && s[k + 1] == 0
  }

  lemma {:induction false} SumToStored(s: seq<byte>, k: nat, v: u16, n: nat)
    requires Zeroed(s, k) && 2 * n <= |s|
    ensures SumTo(Stored(s, k, v), n) == SumTo(s, n) + if k / 2 < n then v else 0
  {
    if n == 0 {
    } else {
      SumToStored(s, k, v, n - 1);
    }
  }

  lemma FoldedComplement(sum: nat, v: u16)
    ensures Folded(sum + v) == 0xffff
       <==> v == Complement(Folded(sum)) || (Complement(Folded(sum)) == 0 && v == 0xffff)
  {
  }

  /** With a zeroed check field, exactly one value makes the receiver's sum come out right, the
      checksum itself; only where that is 0 does the other zero of one's complement pass as well. */
  lemma AcceptsOnlyChecksum(s: seq<byte>, k: nat, v: u16)
    requires Zeroed(s, k)
    ensures Verifies(Stored(s, k, v)) <==> v == Internet(s) || (Internet(s) == 0 && v == 0xffff)
  {
    SumToStored(s, k, v, |s| / 2);
    FoldedComplement(Sum(s), v);
  }

  /** Storing the checksum of an IPv4 header, in network order, in its check field. */
  lemma IpHeaderVerifies(header: seq<byte>)
    requires 20 <= |header| == 4 * (header[0] as int % 16) && header[10] == 0 && header[11] == 0
    ensures Verifies(Stored(header, 10, Internet(header)))
  {
    AcceptsOnlyChecksum(header, 10, Internet(header));
  }

  lemma StoredInside(source: seq<byte>, dest: seq<byte>, tcp: seq<byte>, data: seq<byte>, v: u16)
    requires |source| == 4 && |dest| == 4 && |tcp| == 20
    ensures Covered(source, dest, Stored(tcp, 16, v), data) == Stored(Covered(source, dest, tcp, data), 28, v)
  {
  }

  lemma CoveredZeroed(source: seq<byte>, dest: seq<byte>, tcp: seq<byte>, data: seq<byte>)
    requires |source| == 4 && |dest| == 4 && |tcp| == 20 && tcp[16] == 0 && tcp[17] == 0
    ensures Zeroed(Covered(source, dest, tcp, data), 28)
  {
    var pseudo := PseudoHeader(source, dest, ToU16(20 + |data|));
    assert |pseudo| == 12;
    hide PseudoHeader, ToU16, Padded;
    assert (pseudo + tcp)[28] == tcp[16] && (pseudo + tcp)[29] == tcp[17];
  }

  /** The same for a TCP segment with its pseudo-header and padded payload: with the complement of the folded
      total in the check field the total folds to 0xFFFF. */
  lemma TcpSegmentVerifies(source: seq<byte>, dest: seq<byte>, tcp: seq<byte>, data: seq<byte>)
    requires |source| == 4 && |dest| == 4 && |tcp| == 20 && tcp[16] == 0 && tcp[17] == 0
    ensures var check := Complement(Folded(TcpTotal(source, dest, tcp, data)));
      && Folded(TcpTotal(source, dest, Stored(tcp, 16, check), data)) == 0xffff
      && Verifies(Covered(source, dest, Stored(tcp, 16, check), data))
  {
    var all := Covered(source, dest, tcp, data);
    CoveredZeroed(source, dest, tcp, data);
    CoveredEven(source, dest, tcp, data);
    CoveredSum(source, dest, tcp, data);
    StoredInside(source, dest, tcp, data, Internet(all));
    CoveredSum(source, dest, Stored(tcp, 16, Internet(all)), data);
    hide Covered, TcpTotal, Sum, Folded, Complement, Stored, Zeroed;
    AcceptsOnlyChecksum(all, 28, Internet(all));
  }

  function Swapped(v: u16): u16 {
    v % 0x100 * 0x100 + v / 0x100
  }

  lemma EqualBytes(v: u16)
    ensures v / 0x100 == v % 0x100 <==> v % 257 == 0
  {
    var high, low := v / 0x100, v % 0x100;
    assert v == 257 * high + (low - high);
  }

  lemma AddMultiple(x: nat, r: nat)
    ensures (257 * x + r) % 257 == r % 257
  {
  }

  lemma FoldedParts(sum: nat) returns (q: nat)
    requires sum > 0
    ensures sum - 1 == 0xffff * q + (Folded(sum) - 1)
  {
    q := (sum - 1) / 0xffff;
  }

  /** 257 divides 65535, so folding keeps the remainder. */
  lemma FoldedRemainder(sum: nat)
    ensures Folded(sum) % 257 == sum % 257
  {
    if sum > 0 {
      var q := FoldedParts(sum);
      hide Folded;
      AddMultiple(255 * q, Folded(sum));
    }
  }

  lemma ComplementRemainder(x: u16)
    ensures Complement(x) % 257 == 0 <==> x % 257 == 0
  {
  }

  /** Stored in the host order of a little-endian machine, as the client stores it in its IPv4 header,
      the checksum is right exactly when the sum of the header is a multiple of 257. */
  lemma HostOrderVerifies(s: seq<byte>, k: nat)
    requires Zeroed(s, k)
    ensures Verifies(Stored(s, k, Swapped(Internet(s)))) <==> Sum(s) % 257 == 0
  {
    AcceptsOnlyChecksum(s, k, Swapped(Internet(s)));
    EqualBytes(Internet(s));
    FoldedRemainder(Sum(s));
    ComplementRemainder(Folded(Sum(s)));
    hide Folded, Verifies, Stored, Sum;
  }

  /** The IPv4 header that the client builds: five words, time to live 255, TCP; its total length stands
      in host order too. */
  function ClientHeader(length: u16, id: u16, source: seq<byte>, dest: seq<byte>): (r: seq<byte>)
    requires |source| == 4 && |dest| == 4
    ensures |r| == 20
  {
    [0x45, 0, (length % 0x100) as byte, (length / 0x100) as byte, (id / 0x100) as byte, (id % 0x100) as byte,
     0, 0, 255, 6, 0, 0] + source + dest
  }

  lemma ClientHeaderSum(length: u16, id: u16, source: seq<byte>, dest: seq<byte>)
    requires |source| == 4 && |dest| == 4
    ensures Sum(ClientHeader(length, id, source, dest))
         == 0x4500 + Swapped(length) + id + 0xff06 + AddressWords(source) + AddressWords(dest)
  {
    var s := ClientHeader(length, id, source, dest);
    assert SumTo(s, 0) == 0;
    assert SumTo(s, 2) == 0x4500 + Swapped(length);
    assert SumTo(s, 4) == SumTo(s, 2) + id;
    assert SumTo(s, 6) == SumTo(s, 4) + 0xff06;
    assert WordAt(s, 6) == WordAt(source, 0) && WordAt(s, 7) == WordAt(source, 1);
    assert WordAt(s, 8) == WordAt(dest, 0) && WordAt(s, 9) == WordAt(dest, 1);
    assert SumTo(s, 8) == SumTo(s, 6) + AddressWords(source);
    assert SumTo(s, 10) == SumTo(s, 8) + AddressWords(dest);
  }

  lemma RestRemainder(x: nat)
    ensures (0x4500 + 0xff06 + x) % 257 == 0 <==> x % 257 == 61
  {
  }

  /** What the client sends verifies exactly for one remainder of its fields modulo 257. */
  lemma ClientHeaderVerifies(length: u16, id: u16, source: seq<byte>, dest: seq<byte>)
    requires |source| == 4 && |dest| == 4
    ensures var s := ClientHeader(length, id, source, dest);
      Verifies(Stored(s, 10, Swapped(Internet(s))))
      <==> (Swapped(length) + id + AddressWords(source) + AddressWords(dest)) % 257 == 61
  {
    var s := ClientHeader(length, id, source, dest);
    ClientHeaderSum(length, id, source, dest);
    RestRemainder(Swapped(length) + id + AddressWords(source) + AddressWords(dest));
    assert Zeroed(s, 10);
    hide Sum, Verifies, Stored, Internet, AddressWords, ClientHeader, Zeroed, Swapped;
    HostOrderVerifies(s, 10);
  }

  /** The first header of a client on the loopback address, that of its empty SYN segment with identification
      1232, does not verify. */
  lemma ClientHeaderFails()
    ensures var s := ClientHeader(40, 1232, [127, 0, 0, 1], [127, 0, 0, 1]);
      !Verifies(Stored(s, 10, Swapped(Internet(s))))
  {
    ClientHeaderVerifies(40, 1232, [127, 0, 0, 1], [127, 0, 0, 1]);
    assert WordAt([127, 0, 0, 1], 0) == 0x7f00 && WordAt([127, 0, 0, 1], 1) == 1;
  }
}
