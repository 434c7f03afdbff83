/** The round-trip estimator: 32-bit integer form of section 2 of RFC 6298. */
module Estimator {
  import opened Words

  const RTO_MAX := 60000

  datatype Rtt = Rtt(srtt: i32, rttval: i32, rto: u32)

  /** `ikcp_update_ack`. The C expressions are evaluated in their own widths: `3 * rttval` and
      `7 * srtt + rtt` in 32 signed bits, the sum for the timeout in 32 unsigned bits. */
  function Sample(r: Rtt, rtt: i32, interval: u32, minRto: u32): Rtt {
    var (srtt, rttval) :=
      if r.srtt == 0 then (rtt, TruncDiv(rtt, 2))
      else
        var delta := if rtt < r.srtt then r.srtt - rtt else rtt - r.srtt;
        var smooth := TruncDiv(ToI32(ToI32(7 * r.srtt) + rtt), 8);
        (Max(smooth, 1), ToI32(TruncDiv(ToI32(3 * r.rttval) + delta, 4)));
    Rtt(srtt, rttval, Bound(minRto, ToU32(srtt + Max(interval, ToU32(4 * rttval))), RTO_MAX))
  }

  function Samples(r: Rtt, xs: seq<i32>, interval: u32, minRto: u32): Rtt {
    if xs == [] then r
    else Sample(Samples(r, xs[..|xs| - 1], interval, minRto), xs[|xs| - 1], interval, minRto)
  }

  /** A first sample, or an estimate that stands inside the range of the samples. */
  ghost predicate Within(r: Rtt, lo: int, hi: int) {
    && (r.srtt == 0 || lo <= r.srtt <= hi)
    && 0 <= r.rttval <= hi
  }

  lemma ExactI32(x: int)
    requires -0x8000_0000 <= x < 0x8000_0000
    ensures ToI32(x) == x
  {
  }

  lemma ExactU32(x: int)
    requires 0 <= x < 0x1_0000_0000
    ensures ToU32(x) == x
  {
  }

  /** One sample of any length below 2^28, a round trip of 0 included: the first one sets the estimate, a later
      one moves the smoothed value by an eighth, not below 1, and the variance by a quarter; the timeout is
      between the configured minimum and one minute. */
  lemma SampleExact(r: Rtt, rtt: i32, interval: u32, minRto: u32)
    requires 0 <= rtt < 0x1000_0000 && 0 <= r.srtt < 0x1000_0000 && 0 <= r.rttval < 0x1000_0000 && interval <= 5000
    ensures var r' := Sample(r, rtt, interval, minRto);
      && (r.srtt == 0 ==> r'.srtt == rtt && r'.rttval == rtt / 2)
      && (r.srtt > 0 ==> r'.srtt == Max((7 * r.srtt + rtt) / 8, 1))
      && (r.srtt > 0 ==> r'.rttval == (3 * r.rttval + Max(rtt - r.srtt, r.srtt - rtt)) / 4)
      && r'.rto == Min(Max(minRto, r'.srtt + Max(interval, 4 * r'.rttval)), 60000)
  {
    var r' := Sample(r, rtt, interval, minRto);
    if r.srtt != 0 {
      ExactI32(7 * r.srtt);
      ExactI32(7 * r.srtt + rtt);
      ExactI32(3 * r.rttval);
      ExactI32((3 * r.rttval + Max(rtt - r.srtt, r.srtt - rtt)) / 4);
    }
    ExactU32(4 * r'.rttval);
    ExactU32(r'.srtt + Max(interval, 4 * r'.rttval));
    hide ToU32, ToI32;
  }

  /** No 32-bit operation overflows: for samples in `[lo, hi]` the smoothed value stays there, the
      variance stays in `[0, hi]`, and the step is the exact integer recurrence. */
  lemma SampleWithin(r: Rtt, rtt: i32, lo: int, hi: int, interval: u32, minRto: u32)
    requires 1 <= lo <= rtt <= hi < 0x1000_0000 && Within(r, lo, hi)
    ensures var r' := Sample(r, rtt, interval, minRto);
      && lo <= r'.srtt <= hi && 0 <= r'.rttval <= hi
      && (r.srtt != 0 ==> r'.srtt == (7 * r.srtt + rtt) / 8)
      && (r.srtt != 0 ==> r'.rttval == (3 * r.rttval + Max(rtt - r.srtt, r.srtt - rtt)) / 4)
  {
    if r.srtt != 0 {
      var delta := Max(rtt - r.srtt, r.srtt - rtt);
      ExactI32(7 * r.srtt);
      ExactI32(7 * r.srtt + rtt);
      ExactI32(3 * r.rttval);
      ExactI32((3 * r.rttval + delta) / 4);
    }
  }

  /** Nor does the sum for the timeout. */
  lemma SampleTimeout(r: Rtt, rtt: i32, lo: int, hi: int, interval: u32, minRto: u32)
    requires 1 <= lo <= rtt <= hi < 0x1000_0000 && Within(r, lo, hi) && interval <= 5000
    ensures var r' := Sample(r, rtt, interval, minRto);
      r'.rto == Bound(minRto, r'.srtt + Max(interval, 4 * r'.rttval), RTO_MAX)
  {
    SampleWithin(r, rtt, lo, hi, interval, minRto);
    var r' := Sample(r, rtt, interval, minRto);
    hide ToU32, ToI32, TruncDiv, Bound;
    ExactU32(4 * r'.rttval);
    ExactU32(r'.srtt + Max(interval, 4 * r'.rttval));
  }

  /** Over any sequence of samples in `[lo, hi]`, and each computed timeout lies between the
      configured minimum and one minute. */
  lemma {:induction false} SamplesWithin(r: Rtt, xs: seq<i32>, lo: int, hi: int, interval: u32, minRto: u32)
    requires 1 <= lo <= hi < 0x1000_0000 && Within(r, lo, hi) && minRto <= RTO_MAX
    requires forall i :: 0 <= i < |xs| ==> lo <= xs[i] <= hi
    ensures var r' := Samples(r, xs, interval, minRto);
      && Within(r', lo, hi)
      && (xs != [] ==> lo <= r'.srtt <= hi && minRto <= r'.rto <= RTO_MAX)
  {
    if xs == [] {
    } else {
      SamplesWithin(r, xs[..|xs| - 1], lo, hi, interval, minRto);
      SampleWithin(Samples(r, xs[..|xs| - 1], interval, minRto), xs[|xs| - 1], lo, hi, interval, minRto);
    }
  }

  function Constant(rtt: i32, n: nat): seq<i32> {
    seq(n, i => rtt)
  }

  lemma ConstantSnoc(r: Rtt, rtt: i32, n: nat, interval: u32, minRto: u32)
    ensures Samples(r, Constant(rtt, n + 1), interval, minRto)
         == Sample(Samples(r, Constant(rtt, n), interval, minRto), rtt, interval, minRto)
  {
    assert Constant(rtt, n + 1)[..n] == Constant(rtt, n);
  }

  /** An estimate after at least one sample, far from overflow. */
  predicate Running(r: Rtt) {
    1 <= r.srtt < 0x1000_0000 && 0 <= r.rttval < 0x1000_0000
  }

  /** Where a constant round trip leaves the smoothed value: the division rounds down, so from below it
      stops up to 7 short, from above and from nothing it arrives. */
  function Shortfall(r: Rtt, rtt: i32): nat {
    if r.srtt == 0 || r.srtt >= rtt then 0 else Min(rtt - r.srtt, 7)
  }

  /** How far a running estimate is from a constant round trip. */
  function Distance(r: Rtt, rtt: i32): nat {
    Magnitude(r.srtt - rtt)
  }

  /** What one sample of a constant round trip does: the smoothed value comes at least one nearer until it
      stands at its shortfall, on the same side; then the variance comes at least one nearer to that. */
  ghost predicate OneNearer(r: Rtt, r': Rtt, rtt: i32) {
    var d := Shortfall(r, rtt);
    && Running(r') && Shortfall(r', rtt) == d && (r'.srtt >= rtt <==> r.srtt >= rtt)
    && d <= Distance(r', rtt) <= Max(d, Distance(r, rtt) - 1)
    && r'.rttval <= Max(r.rttval, Distance(r, rtt)) && (r.rttval >= d ==> r'.rttval >= d)
    && (Distance(r, rtt) == d ==> Min(d - 3, r.rttval + 1) <= r'.rttval <= Max(d, r.rttval - 1))
  }

  lemma ConstantStep(r: Rtt, rtt: i32, interval: u32, minRto: u32)
    requires Running(r) && 1 <= rtt < 0x1000_0000
    ensures OneNearer(r, Sample(r, rtt, interval, minRto), rtt)
  {
    SampleWithin(r, rtt, 1, 0x0fff_ffff, interval, minRto);
    hide Sample;
  }

  /** What `n` of them do. */
  ghost predicate Nearer(r: Rtt, r': Rtt, rtt: i32, n: nat) {
    var d, g := Shortfall(r, rtt), Distance(r, rtt);
    && Running(r') && Shortfall(r', rtt) == d && (r'.srtt >= rtt <==> r.srtt >= rtt)
    && d <= Distance(r', rtt) <= Max(d, g - n)
    && r'.rttval <= Max(r.rttval, g) && (r.rttval >= d ==> r'.rttval >= d)
    && (n >= g ==> Min(d - 3, n - g) <= r'.rttval <= Max(d, Max(r.rttval, g) - (n - g)))
  }

  lemma NearerNext(r: Rtt, before: Rtt, r': Rtt, rtt: i32, n: nat)
    requires Running(r) && Nearer(r, before, rtt, n) && OneNearer(before, r', rtt)
    ensures Nearer(r, r', rtt, n + 1)
  {
    ShortfallBelow(r, rtt);
    hide Shortfall;
  }

  lemma ShortfallBelow(r: Rtt, rtt: i32)
    requires Running(r)
    ensures Shortfall(r, rtt) <= Distance(r, rtt)
  {
  }

  lemma NearerStart(r: Rtt, rtt: i32)
    requires Running(r) && rtt >= 1
    ensures Nearer(r, r, rtt, 0)
  {
  }

  /** A constant round trip from any running estimate. */
  lemma {:induction false} ConstantFalls(r: Rtt, rtt: i32, n: nat, interval: u32, minRto: u32)
    requires Running(r) && 1 <= rtt < 0x1000_0000
    ensures Nearer(r, Samples(r, Constant(rtt, n), interval, minRto), rtt, n)
  {
    if n == 0 {
      NoSamples(r, rtt, interval, minRto);
      NearerStart(r, rtt);
    } else {
      hide Sample, Constant, Samples, Shortfall;
      ConstantFalls(r, rtt, n - 1, interval, minRto);
      ConstantSnoc(r, rtt, n - 1, interval, minRto);
      var before := Samples(r, Constant(rtt, n - 1), interval, minRto);
      assert Running(before);
      hide Nearer, OneNearer, Running;
      ConstantStep(before, rtt, interval, minRto);
      NearerNext(r, before, Sample(before, rtt, interval, minRto), rtt, n - 1);
    }
  }

  /** The same samples, the first of them apart. */
  lemma {:induction false} ConstantCons(r: Rtt, rtt: i32, n: nat, interval: u32, minRto: u32)
    ensures Samples(r, Constant(rtt, n + 1), interval, minRto)
         == Samples(Sample(r, rtt, interval, minRto), Constant(rtt, n), interval, minRto)
  {
    ConstantSnoc(r, rtt, n, interval, minRto);
    if n == 0 {
      assert Constant(rtt, 0) == [];
    } else {
      ConstantCons(r, rtt, n - 1, interval, minRto);
      ConstantSnoc(Sample(r, rtt, interval, minRto), rtt, n - 1, interval, minRto);
    }
  }

  /** An estimate that may still wait for its first sample. */
  predicate Started(r: Rtt) {
    r.srtt == 0 || Running(r)
  }

  /** How many samples of a constant round trip settle the estimate. */
  function Settling(r: Rtt, rtt: i32): (n: nat)
    requires rtt >= 1
    ensures n > 0
  {
    if r.srtt == 0 then 1 + rtt / 2 else Distance(r, rtt) + Max(Max(r.rttval, Distance(r, rtt)), 1)
  }

  /** After enough samples of a constant round trip the smoothed value stands exactly at its shortfall
      below it, and the variance between 0 and that shortfall, at most 3 away. */
  lemma ConstantRests(r: Rtt, rtt: i32, n: nat, interval: u32, minRto: u32)
    requires Started(r) && 1 <= rtt < 0x1000_0000 && n >= Settling(r, rtt)
    ensures var r', d := Samples(r, Constant(rtt, n), interval, minRto), Shortfall(r, rtt);
      && Running(r') && r'.srtt == rtt - d && Max(0, d - 3) <= r'.rttval <= d
      && (r.srtt > 0 && r.rttval >= d ==> r'.rttval == d)
  {
    if r.srtt == 0 {
      ConstantCons(r, rtt, n - 1, interval, minRto);
      var first := Sample(r, rtt, interval, minRto);
      FirstSample(r, rtt, interval, minRto);
      ConstantFalls(first, rtt, n - 1, interval, minRto);
    } else {
      ConstantFalls(r, rtt, n, interval, minRto);
    }
  }

  /** A first sample forgets the variance, and with it whatever the estimate was. */
  lemma FirstForgets(r: Rtt, rtt: i32, interval: u32, minRto: u32)
    requires r.srtt == 0
    ensures Sample(r, rtt, interval, minRto) == Sample(r.(rttval := 0), rtt, interval, minRto)
  {
  }

  /** Before the last of `n` constant samples the estimate is in the range of the sample laws. */
  lemma ConstantBefore(r: Rtt, rtt: i32, n: nat, interval: u32, minRto: u32) returns (before: Rtt)
    requires Started(r) && 1 <= rtt < 0x1000_0000 && n > 0
    ensures Within(before, 1, 0x0fff_ffff)
    ensures Samples(r, Constant(rtt, n), interval, minRto) == Sample(before, rtt, interval, minRto)
  {
    hide Sample, Samples, Constant, Shortfall;
    ConstantSnoc(r, rtt, n - 1, interval, minRto);
    before := Samples(r, Constant(rtt, n - 1), interval, minRto);
    if r.srtt != 0 {
      ConstantFalls(r, rtt, n - 1, interval, minRto);
    } else if n == 1 {
      NoSamples(r, rtt, interval, minRto);
      FirstForgets(r, rtt, interval, minRto);
      before := r.(rttval := 0);
    } else {
      ConstantCons(r, rtt, n - 2, interval, minRto);
      FirstSample(r, rtt, interval, minRto);
      ConstantFalls(Sample(r, rtt, interval, minRto), rtt, n - 2, interval, minRto);
    }
  }

  lemma NoSamples(r: Rtt, rtt: i32, interval: u32, minRto: u32)
    ensures Samples(r, Constant(rtt, 0), interval, minRto) == r
  {
    assert Constant(rtt, 0) == [];
  }

  /** The timeout that goes with the estimate after any number of samples of a constant round trip. */
  lemma ConstantTimeout(r: Rtt, rtt: i32, n: nat, interval: u32, minRto: u32)
    requires Started(r) && 1 <= rtt < 0x1000_0000 && n > 0 && interval <= 5000
    ensures var r' := Samples(r, Constant(rtt, n), interval, minRto);
      Running(r') && r'.rto == Bound(minRto, r'.srtt + Max(interval, 4 * r'.rttval), RTO_MAX)
  {
    hide Sample, Samples, Constant, Bound, ToU32, ToI32, TruncDiv;
    var before := ConstantBefore(r, rtt, n, interval, minRto);
    SampleWithin(before, rtt, 1, 0x0fff_ffff, interval, minRto);
    SampleTimeout(before, rtt, 1, 0x0fff_ffff, interval, minRto);
  }

  lemma FirstSample(r: Rtt, rtt: i32, interval: u32, minRto: u32)
    requires r.srtt == 0 && rtt >= 1
    ensures var r' := Sample(r, rtt, interval, minRto); r'.srtt == rtt && r'.rttval == rtt / 2
  {
  }

  /** The estimate that a constant round trip ought to give. */
  function Settled(rtt: i32, interval: u32, minRto: u32): Rtt {
    Rtt(rtt, 0, Bound(minRto, rtt + interval, RTO_MAX))
  }

  /** It is reached and kept from nothing and from above. */
  lemma ConstantSettles(r: Rtt, rtt: i32, n: nat, interval: u32, minRto: u32)
    requires Started(r) && 1 <= rtt < 0x1000_0000 && interval <= 5000
    requires r.srtt == 0 || r.srtt >= rtt
    requires n >= Settling(r, rtt)
    ensures Samples(r, Constant(rtt, n), interval, minRto) == Settled(rtt, interval, minRto)
  {
    ConstantRests(r, rtt, n, interval, minRto);
    ConstantTimeout(r, rtt, n, interval, minRto);
    hide Sample, Samples, Constant, Bound, Settling;
  }

  /** From below it is never reached. */
  lemma ConstantStaysBelow(r: Rtt, rtt: i32, n: nat, interval: u32, minRto: u32)
    requires Running(r) && 1 <= rtt < 0x1000_0000 && r.srtt < rtt
    ensures Samples(r, Constant(rtt, n), interval, minRto).srtt < rtt
  {
    ConstantFalls(r, rtt, n, interval, minRto);
  }

  /** A constant round trip brings the estimate to that round trip, with no variance, if and only if the
      estimate has not started or stands nowhere below it. */
  lemma SettlesExactly(r: Rtt, rtt: i32, interval: u32, minRto: u32)
    requires Started(r) && 1 <= rtt < 0x1000_0000 && interval <= 5000
    ensures (exists n: nat :: Samples(r, Constant(rtt, n), interval, minRto) == Settled(rtt, interval, minRto))
       <==> r.srtt == 0 || r.srtt >= rtt
  {
    if r.srtt == 0 || r.srtt >= rtt {
      ConstantSettles(r, rtt, Settling(r, rtt), interval, minRto);
    } else {
      forall n: nat
        ensures Samples(r, Constant(rtt, n), interval, minRto) != Settled(rtt, interval, minRto)
      {
        ConstantStaysBelow(r, rtt, n, interval, minRto);
      }
    }
  }

  /** From below: one sample of 93 on a created block and then 100 for ever keep the smoothed value at 93
      and the variance at 7 or more, so the timeout never comes down to 110. */
  lemma ConstantFromBelow(n: nat)
    ensures var r' := Samples(Sample(Rtt(0, 0, 200), 93, 10, 30), Constant(100, n), 10, 30);
      r'.srtt == 93 && r'.rttval >= 7 && r'.rto >= 121 && Settled(100, 10, 30).rto == 110
  {
    var first := Sample(Rtt(0, 0, 200), 93, 10, 30);
    assert first == Rtt(93, 46, 277);
    if n == 0 {
      NoSamples(first, 100, 10, 30);
    } else {
      ConstantFalls(first, 100, n, 10, 30);
      ConstantTimeout(first, 100, n, 10, 30);
    }
  }
}
