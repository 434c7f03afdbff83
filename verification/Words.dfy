/** Fixed-width integers: 32-bit sequence numbers and millisecond clocks that wrap around and are
    compared by signed difference. */
module Words {

  newtype byte = x: int | 0 <= x < 0x100
  type u8 = x: int | 0 <= x < 0x100
  type u16 = x: int | 0 <= x < 0x1_0000
  type u32 = x: int | 0 <= x < 0x1_0000_0000
  type i32 = x: int | -0x8000_0000 <= x < 0x8000_0000

  function Min(a: int, b: int): int {
    if a <= b then a else b
  }

  function Max(a: int, b: int): int {
    if a >= b then a else b
  }

  function Magnitude(x: int): nat {
    if x < 0 then -x else x
  }

  /** `_ibound_`: the minimum with `upper` is taken last. */
  function Bound(lower: int, middle: int, upper: int): int {
    Min(Max(lower, middle), upper)
  }

  /** Truncation of any integer to 16 unsigned bits. */
  function ToU16(x: int): u16 {
    x % 0x1_0000
  }

  /** Truncation of any integer to 32 unsigned bits. */
  function ToU32(x: int): u32 {
    x % 0x1_0000_0000
  }

  /** Reinterpretation of any integer as 32 signed bits. */
  function ToI32(x: int): i32 {
    (x + 0x8000_0000) % 0x1_0000_0000 - 0x8000_0000
  }

  function Add32(a: u32, b: u32): (r: u32)
    ensures r == ToU32(a + b)
  {
    if a + b < 0x1_0000_0000 then a + b else a + b - 0x1_0000_0000
  }

  function Sub32(a: u32, b: u32): (r: u32)
    ensures r == ToU32(a - b)
  {
    if b <= a then a - b else a - b + 0x1_0000_0000
  }

  function Mul32(a: u32, b: u32): u32 {
    ToU32(a * b)
  }

  lemma ProductBound(a: int, b: int, x: int, y: int)
    requires 0 <= a <= x && 0 <= b <= y
    ensures 0 <= a * b <= x * y
  {
    assert a * b <= x * b <= x * y;
  }

  lemma Cancel(i: int, x: int, y: int)
    requires i > 0 && i * x <= i * y
    ensures x <= y
  {
    assert i * (x - y) == i * x - i * y;
    if x > y {
      ProductBound(i, 1, i, x - y);
    }
  }

  lemma QuotientAtMost(a: nat, b: nat)
    requires b > 0
    ensures 0 <= a / b <= a
  {
    ProductBound(1, a, b, a);
    var q, r := a / b, a % b;
    assert a == b * q + r;
    Cancel(b, q, a);
  }

  function Div32(a: u32, b: u32): u32
    requires b > 0
  {
    QuotientAtMost(a, b);
    a / b
  }

  lemma Mul32Exact(a: u32, b: u32)
    requires 0 <= a * b < 0x1_0000_0000
    ensures Mul32(a, b) == a * b
  {
  }

  /** Division rounding toward zero, as C divides. */
  function TruncDiv(a: int, b: int): int
    requires b > 0
  {
    if a >= 0 then a / b else -((-a) / b)
  }

  /** `_itimediff`: the 32-bit difference read as a signed number. */
  function TimeDiff(later: u32, earlier: u32): (r: i32)
    ensures r == ToI32(later - earlier)
  {
    var d := later - earlier;
    if d >= 0x8000_0000 then d - 0x1_0000_0000
    else if d < -0x8000_0000 then d + 0x1_0000_0000
    else d
  }

  /** Inside any window of fewer than 2^31 numbers, wherever it starts and whether or not it wraps,
      the signed difference is the plain difference of the distances from the start of the window. */
  lemma TimeDiffInWindow(base: u32, x: u32, y: u32)
    requires Sub32(x, base) < 0x8000_0000 && Sub32(y, base) < 0x8000_0000
    ensures TimeDiff(x, y) == Sub32(x, base) - Sub32(y, base)
  {
  }

  /** For two numbers taken from an unbounded count, the wrapped comparison is right exactly when
      they are less than half the ring apart. */
  lemma TimeDiffExact(i: nat, j: nat)
    ensures TimeDiff(ToU32(i), ToU32(j)) == i - j <==> -0x8000_0000 <= i - j < 0x8000_0000
  {
  }

  // ---- unbounded counts ----

  /** The count nearest to `n` whose low 32 bits are `sn`. */
  function Index(n: int, sn: u32): int {
    n + TimeDiff(sn, ToU32(n))
  }

  lemma IndexOfNumber(n: int, i: int)
    ensures Index(n, ToU32(i)) == i <==> -0x8000_0000 <= i - n < 0x8000_0000
  {
  }

  lemma NumberOfIndex(n: int, sn: u32)
    ensures ToU32(Index(n, sn)) == sn
  {
  }

  /** The same number seen from another count stands for the same index while it is near both. */
  lemma IndexMoves(n: int, m: int, sn: u32)
    requires -0x8000_0000 <= Index(n, sn) - m < 0x8000_0000
    ensures Index(m, sn) == Index(n, sn)
  {
    NumberOfIndex(n, sn);
    IndexOfNumber(m, Index(n, sn));
  }

  lemma IndexForward(n: int, sn: u32)
    requires Sub32(sn, ToU32(n)) < 0x8000_0000
    ensures Index(n, sn) == n + Sub32(sn, ToU32(n))
  {
  }

  lemma IndexBackward(n: int, sn: u32)
    requires Sub32(ToU32(n), sn) <= 0x8000_0000
    ensures Index(n, sn) == n - Sub32(ToU32(n), sn)
  {
  }

  /** Fewer than 2^32 apart, different indices have different numbers. */
  lemma NumbersDiffer(i: int, j: int)
    requires i != j && -0x1_0000_0000 < i - j < 0x1_0000_0000
    ensures ToU32(i) != ToU32(j)
  {
  }

  /** How far apart two counts are on the ring. */
  lemma RingDistance(u: int, i: int)
    ensures var a := (u - i) % 0x1_0000_0000;
      ToU32(u) - ToU32(i) == a || ToU32(u) - ToU32(i) == a - 0x1_0000_0000
  {
    var q, r, s := u / 0x1_0000_0000, i / 0x1_0000_0000, (u - i) / 0x1_0000_0000;
    var a := (u - i) % 0x1_0000_0000;
    assert u == 0x1_0000_0000 * q + ToU32(u) && i == 0x1_0000_0000 * r + ToU32(i);
    assert u - i == 0x1_0000_0000 * s + a;
    assert ToU32(u) - ToU32(i) - a == 0x1_0000_0000 * (s - q + r);
    hide ToU32;
  }

  lemma AddToU32(x: int, n: u32)
    ensures Add32(ToU32(x), n) == ToU32(x + n)
  {
  }

  lemma AddThenSub(x: u32, n: u32)
    ensures Sub32(Add32(x, n), x) == n
  {
  }

  /** Strictly increasing sequence numbers that lie in the window of `span` numbers from `base`,
      which may wrap. */
  ghost predicate Ascending(base: u32, span: int, sns: seq<u32>) {
    && (forall i :: 0 <= i < |sns| ==> Sub32(sns[i], base) < span)
    && (forall i, j :: 0 <= i < j < |sns| ==> Sub32(sns[i], base) < Sub32(sns[j], base))
  }

  /** The k-th number of an ascending list is at least k past the base, so the list is no longer
      than its window. */
  lemma {:induction false} AscendingLength(base: u32, span: nat, sns: seq<u32>)
    requires Ascending(base, span, sns)
    ensures forall k :: 0 <= k < |sns| ==> k <= Sub32(sns[k], base)
    ensures |sns| <= span
  {
    if |sns| == 0 {
    } else {
      var front := sns[..|sns| - 1];
      AscendingLength(base, span, front);
      assert forall k :: 0 <= k < |front| ==> front[k] == sns[k];
      if |front| > 0 {
        assert front[|front| - 1] == sns[|sns| - 2];
      }
      assert |sns| - 1 <= Sub32(sns[|sns| - 1], base) < span;
    }
  }

  /** An ascending list seen from a later base that is not past its first number. */
  lemma AscendingRebase(base: u32, span: int, sns: seq<u32>, base': u32)
    requires Ascending(base, span, sns) && Sub32(base', base) <= span
    requires sns != [] ==> Sub32(base', base) <= Sub32(sns[0], base)
    ensures Ascending(base', span - Sub32(base', base), sns)
    ensures forall k :: 0 <= k < |sns| ==> Sub32(sns[k], base') == Sub32(sns[k], base) - Sub32(base', base)
  {
    forall k | 0 <= k < |sns|
      ensures Sub32(sns[k], base') == Sub32(sns[k], base) - Sub32(base', base)
    {
      assert Sub32(sns[0], base) <= Sub32(sns[k], base);
    }
  }
}
