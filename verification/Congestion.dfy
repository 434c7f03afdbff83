/** The congestion window: `cwnd` counts segments, `incr` counts the bytes that justify it. */
module Congestion {
  import opened Words

  const THRESH_MIN := 2

  datatype Window = Window(rmt: u16, cwnd: u32, incr: u32, ssthresh: u32)

  /** The growth step of congestion avoidance, in wrapping 32-bit arithmetic. */
  function Avoid(w: Window, mss: u32): Window
    requires mss > 0
  {
    var base := Max(w.incr, mss);
    var incr := Add32(base, Add32(Div32(Mul32(mss, mss), base), mss / 16));
    var cwnd := if Mul32(Add32(w.cwnd, 1), mss) <= incr then Div32(Sub32(Add32(incr, mss), 1), mss) else w.cwnd;
    w.(cwnd := cwnd, incr := incr)
  }

  /** What `ikcp_input` does to the window when `snd_una` has advanced. */
  function Grow(w: Window, mss: u32): Window
    requires mss > 0
  {
    if w.cwnd >= w.rmt then w
    else
      var w' := if w.cwnd < w.ssthresh then w.(cwnd := Add32(w.cwnd, 1), incr := Add32(w.incr, mss))
                else Avoid(w, mss);
      if w'.cwnd > w'.rmt then w'.(cwnd := w.rmt, incr := Mul32(w.rmt, mss)) else w'
  }

  /** What `ikcp_flush` does to the window at its end: fast retransmission first, then loss, then the
      lower bound of one segment. */
  function Adjust(w: Window, mss: u32, fast: bool, lost: bool, inflight: u32, resent: u32, cwnd: u32): Window {
    var w1 :=
      if !fast then w
      else
        var ssthresh := Max(inflight / 2, THRESH_MIN);
        Window(w.rmt, Add32(ssthresh, resent), Mul32(Add32(ssthresh, resent), mss), ssthresh);
    var w2 := if lost then Window(w1.rmt, 1, mss, Max(cwnd / 2, THRESH_MIN)) else w1;
    if w2.cwnd < 1 then w2.(cwnd := 1, incr := mss) else w2
  }

  /** The byte count stays within one segment of the window that it justifies. */
  ghost predicate Balanced(w: Window, mss: u32) {
    && 1 <= w.cwnd && 2 <= w.ssthresh <= 0x7fff
    && (w.cwnd - 1) * mss < w.incr < (w.cwnd + 1) * mss
  }

  lemma QuotientSmall(m: int, i: int, d: int)
    requires 0 < m <= i && 0 <= d && i * d <= m * m
    ensures d <= m
    ensures i >= 2 * m ==> 2 * d <= m
  {
    ProductBound(m, m, i, m);
    Cancel(i, d, m);
    assert i * (2 * d) == 2 * (i * d);
    if i >= 2 * m {
      ProductBound(2 * m, m, i, m);
      Cancel(i, 2 * d, m);
    }
  }

  lemma QuotientMiddle(m: int, i: int, d: int)
    requires 0 < m <= i <= 2 * m && 0 <= d && i * d <= m * m
    ensures 2 * d <= 3 * m - i
  {
    ProductBound(0, 0, i - m, 2 * m - i);
    assert (i - m) * (2 * m - i) == i * (3 * m - i) - 2 * (m * m);
    assert i * (2 * d) == 2 * (i * d);
    Cancel(i, 2 * d, 3 * m - i);
  }

  lemma QuotientBounds(m: int, i: int, d: int)
    requires 0 < m <= i && d == m * m / i
    ensures 0 <= d <= m
    ensures i >= 2 * m ==> 2 * d <= m
    ensures i <= 2 * m ==> 2 * d <= 3 * m - i
  {
    QuotientAtMost(m * m, i);
    assert m * m == i * d + m * m % i;
    QuotientSmall(m, i, d);
    if i <= 2 * m {
      QuotientMiddle(m, i, d);
    }
  }

  lemma CeilBounds(m: int, x: int, c: int)
    requires m > 0 && c == (x + m - 1) / m
    ensures (c - 1) * m < x <= c * m
  {
    assert x + m - 1 == m * c + (x + m - 1) % m;
  }

  /** The step of congestion avoidance without the 32-bit truncations. */
  function AvoidPlain(w: Window, mss: u32): (int, int)
    requires mss > 0
  {
    var base := Max(w.incr, mss);
    var incr := base + mss * mss / base + mss / 16;
    (if (w.cwnd + 1) * mss <= incr then (incr + mss - 1) / mss else w.cwnd, incr)
  }

  lemma AvoidIncrExact(base: u32, mss: u32)
    requires 0 < mss <= 0xffff && mss <= base <= 0xfffe_0001
    ensures Add32(base, Add32(Div32(Mul32(mss, mss), base), mss / 16)) == base + mss * mss / base + mss / 16
    ensures base + mss * mss / base + mss / 16 + mss < 0x1_0000_0000
  {
    ProductBound(mss, mss, 0xffff, 0xffff);
    Mul32Exact(mss, mss);
    QuotientBounds(mss, base, mss * mss / base);
  }

  ghost predicate AvoidsExactly(w: Window, mss: u32)
    requires mss > 0
  {
    var w' := Avoid(w, mss);
    (w'.cwnd, w'.incr) == AvoidPlain(w, mss) && w'.rmt == w.rmt && w'.ssthresh == w.ssthresh
  }

  lemma AvoidExact(w: Window, mss: u32)
    requires 0 < mss <= 0xffff && Balanced(w, mss) && w.cwnd < 0xffff
    ensures AvoidsExactly(w, mss)
  {
    var base := Max(w.incr, mss);
    ProductBound(w.cwnd + 1, mss, 0xffff, 0xffff);
    Mul32Exact(w.cwnd + 1, mss);
    AvoidIncrExact(base, mss);
    QuotientBounds(mss, base, mss * mss / base);
  }

  lemma WrappedSquare(mss: u32)
    requires mss > 0xffff
    ensures Div32(Mul32(mss, mss), mss) < mss
  {
    ProductBound(0x1_0000, 0x1_0000, mss, mss);
    var r := Mul32(mss, mss);
    var q := (mss * mss) / 0x1_0000_0000;
    assert mss * mss == 0x1_0000_0000 * q + r;
    assert r < mss * mss;
    var d := r / mss;
    assert r == mss * d + r % mss;
    if d >= mss {
      ProductBound(mss, mss, mss, d);
    }
  }

  /** The 32-bit step is the exact one for every balanced window below the largest if and only if the
      square of the segment size fits 32 bits. */
  lemma AvoidExactWhenSquareFits(mss: u32)
    requires mss > 0
    ensures (forall w :: Balanced(w, mss) && w.cwnd < 0xffff ==> AvoidsExactly(w, mss)) <==> mss <= 0xffff
  {
    if mss <= 0xffff {
      forall w | Balanced(w, mss) && w.cwnd < 0xffff
        ensures AvoidsExactly(w, mss)
      {
        AvoidExact(w, mss);
      }
    } else {
      var w := Window(0, 1, mss, THRESH_MIN);
      Distribute(1, mss);
      assert Balanced(w, mss);
      WrappedSquare(mss);
      SquareQuotient(mss);
      hide Mul32, Div32, Balanced;
      assert !AvoidsExactly(w, mss);
    }
  }

  lemma SquareQuotient(mss: u32)
    requires mss > 0
    ensures mss * mss / mss == mss
  {
    var q, r := mss * mss / mss, mss * mss % mss;
    assert mss * (mss - q) == r && mss * (q - mss) == -r;
    if q < mss {
      ProductBound(mss, 1, mss, mss - q);
    } else if q > mss {
      ProductBound(mss, 1, mss, q - mss);
    }
  }

  lemma Distribute(c: int, m: int)
    ensures (c + 1) * m == c * m + m && (c + 2) * m == c * m + 2 * m && (c - 1) * m == c * m - m
  {
  }

  lemma SmallFactor(c: int, m: int, k: int)
    requires c >= k && m >= 0
    ensures c * m >= k * m
  {
  }

  /** The step raises the byte count by at most one segment and a half, so never past the second multiple. */
  lemma AvoidIncrBound(c: int, base: int, d: int, m: int)
    requires c >= 1 && m > 0 && m <= base < (c + 1) * m && d == m * m / base
    ensures base <= base + d + m / 16 <= (c + 2) * m
  {
    QuotientBounds(m, base, d);
    Distribute(c, m);
    SmallFactor(c, m, 1);
    if base > c * m && c >= 2 {
      SmallFactor(c, m, 2);
    }
  }

  lemma CeilWithin(c: int, m: int, x: int, c': int)
    requires m > 0 && (c + 1) * m <= x <= (c + 2) * m && c' == (x + m - 1) / m
    ensures c < c' <= c + 2 && (c' - 1) * m < x < (c' + 1) * m
  {
    CeilBounds(m, x, c');
    Distribute(c', m);
    Cancel(m, c + 1, c');
    BelowFactor(c' - 1, c + 2, m);
  }

  lemma BelowFactor(a: int, b: int, m: int)
    requires m > 0 && a * m < b * m
    ensures a < b
  {
    if a >= b {
      SmallFactor(a, m, b);
    }
  }

  lemma AvoidBalanced(w: Window, mss: u32)
    requires 0 < mss <= 0xffff && Balanced(w, mss) && w.cwnd < 0xffff
    ensures var w' := Avoid(w, mss);
      && w.cwnd <= w'.cwnd <= w.cwnd + 2
      && (w'.cwnd - 1) * mss < w'.incr < (w'.cwnd + 1) * mss
  {
    var c, base := w.cwnd, Max(w.incr, mss);
    var d := mss * mss / base;
    var incr := base + d + mss / 16;
    AvoidExact(w, mss);
    Distribute(c, mss);
    SmallFactor(c, mss, 1);
    assert base < (c + 1) * mss;
    AvoidIncrBound(c, base, d, mss);
    var w' := Avoid(w, mss);
    assert w'.incr == incr && w'.cwnd == if (c + 1) * mss <= incr then (incr + mss - 1) / mss else c;
    hide *;
    if (c + 1) * mss <= incr {
      CeilWithin(c, mss, incr, w'.cwnd);
    }
  }

  /** One input call keeps the balance, and raises the window by at most 1 in slow start and at most 2
      in congestion avoidance, never beyond what the peer announced. */
  lemma GrowBalanced(w: Window, mss: u32)
    requires 0 < mss <= 0xffff && Balanced(w, mss)
    ensures var w' := Grow(w, mss);
      && Balanced(w', mss)
      && w.cwnd <= w'.cwnd <= w.cwnd + (if w.cwnd < w.ssthresh then 1 else 2)
      && (w'.cwnd == w.cwnd || w'.cwnd <= w.rmt)
  {
    Distribute(w.rmt, mss);
    ProductBound(w.rmt, mss, 0xffff, 0xffff);
    Mul32Exact(w.rmt, mss);
    if w.cwnd < w.rmt {
      if w.cwnd >= w.ssthresh {
        AvoidBalanced(w, mss);
      } else {
        Distribute(w.cwnd, mss);
        ProductBound(w.cwnd + 1, mss, 0xffff, 0xffff);
      }
    }
  }

  // ---- the largest segment size ----

  /** At a segment size of 2^16 the byte count only takes multiples of 2^12, and so never wraps. */
  ghost predicate Steady(w: Window, mss: u32) {
    Balanced(w, mss) && (mss == 0x1_0000 ==> w.incr % 0x1000 == 0)
  }

  /** There the square of the segment size is 0 in 32 bits: each step adds 2^12. */
  lemma EdgeIncr(base: u32)
    requires 0x1_0000 <= base <= 0xfffe_f000
    ensures Add32(base, Add32(Div32(Mul32(0x1_0000, 0x1_0000), base), 0x1_0000 / 16)) == base + 0x1000
    ensures Sub32(Add32(base + 0x1000, 0x1_0000), 1) == base + 0x1_0fff
  {
    assert Mul32(0x1_0000, 0x1_0000) == 0 && Div32(0, base) == 0;
  }

  lemma EdgeBelow(base: int, c: int)
    requires base % 0x1000 == 0 && base < (c + 1) * 0x1_0000
    ensures base + 0x1000 <= (c + 1) * 0x1_0000
  {
    var b := base / 0x1000;
    assert base == 0x1000 * b && b < 16 * (c + 1);
  }

  lemma EdgeAvoid(w: Window)
    requires Steady(w, 0x1_0000) && w.cwnd < 0xffff
    ensures Steady(Avoid(w, 0x1_0000), 0x1_0000)
    ensures w.cwnd <= Avoid(w, 0x1_0000).cwnd <= w.cwnd + 1
  {
    var c, base := w.cwnd, Max(w.incr, 0x1_0000);
    EdgeBelow(base, c);
    EdgeIncr(base);
    Mul32Exact(c + 1, 0x1_0000);
    assert Avoid(w, 0x1_0000)
        == w.(cwnd := if (c + 1) * 0x1_0000 <= base + 0x1000 then (base + 0x1_0fff) / 0x1_0000 else c,
              incr := base + 0x1000);
    hide Mul32, Add32, Sub32, Div32, Avoid;
  }

  lemma EdgeSlow(w: Window)
    requires Steady(w, 0x1_0000) && w.cwnd < w.ssthresh
    ensures Steady(w.(cwnd := Add32(w.cwnd, 1), incr := Add32(w.incr, 0x1_0000)), 0x1_0000)
    ensures Add32(w.cwnd, 1) == w.cwnd + 1
  {
  }

  lemma EdgeClamp(w: Window)
    requires Steady(w, 0x1_0000) && w.rmt > 0
    ensures Steady(w.(cwnd := w.rmt, incr := Mul32(w.rmt, 0x1_0000)), 0x1_0000)
  {
    Mul32Exact(w.rmt, 0x1_0000);
    hide Mul32;
  }

  lemma EdgeGrow(w: Window)
    requires Steady(w, 0x1_0000)
    ensures var w' := Grow(w, 0x1_0000);
      && Steady(w', 0x1_0000)
      && w.cwnd <= w'.cwnd <= w.cwnd + 1 && (w'.cwnd == w.cwnd || w'.cwnd <= w.rmt)
  {
    assert 1 <= w.cwnd;
    if w.cwnd < w.rmt {
      hide Steady, Avoid, Add32, Mul32;
      var w' := w.(cwnd := Add32(w.cwnd, 1), incr := Add32(w.incr, 0x1_0000));
      if w.cwnd < w.ssthresh {
        EdgeSlow(w);
      } else {
        EdgeAvoid(w);
        w' := Avoid(w, 0x1_0000);
        assert w'.rmt == w.rmt by {
          AvoidKeepsRmt(w, 0x1_0000);
        }
      }
      EdgeClamp(w');
    }
  }

  lemma AvoidKeepsRmt(w: Window, mss: u32)
    requires mss > 0
    ensures Avoid(w, mss).rmt == w.rmt
  {
  }

  /** One input call keeps the balance for every segment size up to 2^16, and raises the window by at
      most 1 in slow start and at most 2 in congestion avoidance, never beyond what the peer announced. */
  lemma GrowSteady(w: Window, mss: u32)
    requires 0 < mss <= 0x1_0000 && Steady(w, mss)
    ensures var w' := Grow(w, mss);
      && Steady(w', mss)
      && w.cwnd <= w'.cwnd <= w.cwnd + (if w.cwnd < w.ssthresh then 1 else 2)
      && (w'.cwnd == w.cwnd || w'.cwnd <= w.rmt)
  {
    if mss <= 0xffff {
      hide Grow, Balanced;
      GrowBalanced(w, mss);
    } else {
      EdgeGrow(w);
    }
  }

  /** What one growth step should do: keep the balance and not shrink the window. */
  ghost predicate GrowsWell(w: Window, mss: u32)
    requires mss > 0
  {
    Balanced(Grow(w, mss), mss) && w.cwnd <= Grow(w, mss).cwnd
  }

  /** For segments of 65538 bytes and more, a window whose byte count is the largest of 32 bits. */
  lemma LargestCount(mss: u32) returns (w: Window)
    requires 0x1_0002 <= mss < 0x8000_0000
    ensures Balanced(w, mss) && 2 <= w.cwnd < 0xffff && w == Window(0xffff, w.cwnd, 0xffff_ffff, THRESH_MIN)
  {
    var c := 0xffff_ffff / mss;
    assert 0xffff_ffff == mss * c + 0xffff_ffff % mss;
    Distribute(c, mss);
    if c <= 1 {
      SmallFactor(1, mss, c);
    }
    if c >= 0xffff {
      ProductBound(0x1_0002, 0xffff, mss, c);
    }
    w := Window(0xffff, c, 0xffff_ffff, THRESH_MIN);
  }

  lemma LargestWraps(w: Window, mss: u32)
    requires 0x1_0002 <= mss < 0x8000_0000 && 2 <= w.cwnd < 0xffff
    requires w == Window(0xffff, w.cwnd, 0xffff_ffff, THRESH_MIN)
    ensures !GrowsWell(w, mss)
  {
    var w1 := Avoid(w, mss);
    assert w1.incr < mss;
    SmallFactor(Grow(w, mss).cwnd - 1, mss, if Grow(w, mss).cwnd >= 2 then 1 else -1);
  }

  lemma EdgeWraps(mss: u32)
    requires mss == 0x1_0000 || mss == 0x1_0001
    ensures var w := Window(0xffff, 0xfffe, if mss == 0x1_0000 then 0xfffe_ffff else 0xffff_fffe, THRESH_MIN);
      Balanced(w, mss) && !GrowsWell(w, mss)
  {
    if mss == 0x1_0000 {
      assert Mul32(mss, mss) == 0;
    } else {
      assert Mul32(mss, mss) == 0x2_0001;
    }
  }

  /** For every segment size that an MTU can give, growth keeps the balance of every balanced window,
      reached or not, if and only if the size is below 2^16. */
  lemma GrowthExact(mss: u32)
    requires 0 < mss < 0x8000_0000
    ensures (forall w :: Balanced(w, mss) ==> GrowsWell(w, mss)) <==> mss <= 0xffff
  {
    if mss <= 0xffff {
      forall w | Balanced(w, mss)
        ensures GrowsWell(w, mss)
      {
        GrowBalanced(w, mss);
      }
    } else if mss < 0x1_0002 {
      EdgeWraps(mss);
    } else {
      var w := LargestCount(mss);
      LargestWraps(w, mss);
    }
  }

  // ---- the end of a flush ----

  /** A window before the first flush. */
  predicate Empty(w: Window) {
    w.cwnd == 0 && 2 <= w.ssthresh <= 0x7fff
  }

  /** The byte count that fast retransmission sets, which a loss in the same flush overrides, fits 32 bits. */
  predicate AdjustFits(mss: u32, fast: bool, lost: bool, inflight: u32, resent: u32) {
    fast && !lost ==> Add32(Max(inflight / 2, THRESH_MIN), resent) * mss < 0x1_0000_0000
  }

  lemma WrappedProduct(n: u32, mss: u32)
    requires 0 < mss && 0x1_0000_0000 <= n * mss
    ensures Mul32(n, mss) <= (n - 1) * mss
  {
    var q := n * mss / 0x1_0000_0000;
    assert n * mss == 0x1_0000_0000 * q + Mul32(n, mss);
    Distribute(n, mss);
  }

  lemma FastBalanced(n: u32, mss: u32, rmt: u16, ssthresh: u32)
    requires mss > 0 && n > 0 && 2 <= ssthresh <= 0x7fff
    ensures Balanced(Window(rmt, n, Mul32(n, mss), ssthresh), mss) <==> n * mss < 0x1_0000_0000
  {
    Distribute(n, mss);
    ProductBound(0, 0, n, mss);
    if n * mss < 0x1_0000_0000 {
      Mul32Exact(n, mss);
    } else {
      WrappedProduct(n, mss);
    }
  }

  /** The end of a flush establishes the balance, from any window that has it or is still empty and for
      every segment size, if and only if that byte count fits. */
  lemma AdjustExact(w: Window, mss: u32, fast: bool, lost: bool, inflight: u32, resent: u32, cwnd: u32)
    requires mss > 0 && inflight <= 0xffff && cwnd <= 0xffff
    requires Balanced(w, mss) || Empty(w)
    ensures Balanced(Adjust(w, mss, fast, lost, inflight, resent, cwnd), mss)
       <==> AdjustFits(mss, fast, lost, inflight, resent)
  {
    var n := Add32(Max(inflight / 2, THRESH_MIN), resent);
    Distribute(1, mss);
    if fast && !lost && n > 0 {
      FastBalanced(n, mss, w.rmt, Max(inflight / 2, THRESH_MIN));
      hide Mul32, Balanced;
    }
  }

  lemma AdjustSteady(w: Window, mss: u32, fast: bool, lost: bool, inflight: u32, resent: u32, cwnd: u32)
    requires 0 < mss <= 0x1_0000 && inflight <= 0xffff && cwnd <= 0xffff
    requires Steady(w, mss) || Empty(w)
    ensures Steady(Adjust(w, mss, fast, lost, inflight, resent, cwnd), mss)
       <==> AdjustFits(mss, fast, lost, inflight, resent)
  {
    AdjustExact(w, mss, fast, lost, inflight, resent, cwnd);
    if mss == 0x1_0000 {
      AdjustAligned(w, fast, lost, inflight, resent, cwnd);
    }
    hide Adjust, Balanced, AdjustFits, Empty;
  }

  lemma AlignedProduct(n: u32)
    ensures Mul32(n, 0x1_0000) % 0x1000 == 0
  {
    var q, r := n * 0x1_0000 / 0x1_0000_0000, Mul32(n, 0x1_0000);
    assert r == n * 0x1_0000 - 0x1_0000_0000 * q;
    assert r == 0x1000 * (16 * n - 0x10_0000 * q);
    hide Mul32;
  }

  lemma AdjustAligned(w: Window, fast: bool, lost: bool, inflight: u32, resent: u32, cwnd: u32)
    requires w.incr % 0x1000 == 0 || w.cwnd == 0
    ensures Adjust(w, 0x1_0000, fast, lost, inflight, resent, cwnd).incr % 0x1000 == 0
  {
    hide Mul32, Add32;
    AlignedProduct(Add32(Max(inflight / 2, THRESH_MIN), resent));
  }

  /** A threshold with which every fast retransmission fits. */
  lemma ThresholdFits(mss: u32, fast: bool, lost: bool, inflight: u32, resent: u32)
    requires inflight <= 0xffff
    requires if resent == 0xffff_ffff then mss <= 0x2_0000 else (0x7fff + resent) * mss < 0x1_0000_0000
    ensures AdjustFits(mss, fast, lost, inflight, resent)
  {
    var ssthresh := Max(inflight / 2, THRESH_MIN);
    var n := Add32(ssthresh, resent);
    if resent == 0xffff_ffff {
      ProductBound(n, mss, 0x7fff, 0x2_0000);
    } else if mss > 0 {
      ProductBound(n, mss, 0x7fff + resent, mss);
    }
  }
}
