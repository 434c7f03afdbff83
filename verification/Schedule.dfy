/** When flushes happen: `ikcp_update` decides, `ikcp_check` predicts. Clocks are 32-bit milliseconds
    that wrap. */
module Schedule {
  import opened Words
  import opened Senders
  import opened Control

  const FOREVER: i32 := 0x7fff_ffff

  /** The least positive distance to a retransmission among the first `n` segments. */
  function NearestTo(buf: seq<Segment>, current: u32, n: nat): i32
    requires n <= |buf|
  {
    if n == 0 then FOREVER else Min(NearestTo(buf, current, n - 1), TimeDiff(buf[n - 1].resendts, current))
  }

  predicate DueTo(buf: seq<Segment>, current: u32, n: nat)
    requires n <= |buf|
  {
    exists i :: 0 <= i < n && TimeDiff(buf[i].resendts, current) <= 0
  }

  /** The time of the next flush as `ikcp_check` sees it. */
  function NextFlush(t: Timer, current: u32): u32 {
    var slap := TimeDiff(current, t.flushAt);
    if slap >= 10000 || slap < -10000 then current else t.flushAt
  }

  /** `ikcp_check` */
  function Hint(k: Block, current: u32): u32 {
    var flushAt := NextFlush(k.timer, current);
    if !k.timer.updated || TimeDiff(current, flushAt) >= 0 || DueTo(k.snd.buf, current, |k.snd.buf|) then current
    else
      var wait := Min(NearestTo(k.snd.buf, current, |k.snd.buf|), TimeDiff(flushAt, current));
      NearestBounds(k.snd.buf, current, |k.snd.buf|);
      Add32(current, Min(wait, k.conf.interval))
  }

  lemma {:induction false} NearestBounds(buf: seq<Segment>, current: u32, n: nat)
    requires n <= |buf|
    ensures forall i :: 0 <= i < n ==> NearestTo(buf, current, n) <= TimeDiff(buf[i].resendts, current)
    ensures !DueTo(buf, current, n) ==> NearestTo(buf, current, n) > 0
    ensures NearestTo(buf, current, n) < 0x7fff_ffff ==>
      exists i :: 0 <= i < n && NearestTo(buf, current, n) == TimeDiff(buf[i].resendts, current)
  {
    if n == 0 {
    } else {
      NearestBounds(buf, current, n - 1);
    }
  }

  /** How long the hint says to wait. */
  function Wait(k: Block, current: u32): u32 {
    Sub32(Hint(k, current), current)
  }

  lemma TickCases(t: Timer, interval: u32, current: u32)
    requires t.updated
    ensures Tick(t, interval, current).1 <==> TimeDiff(current, NextFlush(t, current)) >= 0
    ensures !Tick(t, interval, current).1 ==>
      NextFlush(t, current) == t.flushAt && 0 < TimeDiff(t.flushAt, current) <= 10000
  {
  }

  lemma WaitCases(k: Block, current: u32)
    requires k.timer.updated && 0 < k.conf.interval <= 5000
    ensures var n, flushAt := |k.snd.buf|, NextFlush(k.timer, current);
      Wait(k, current)
      == if TimeDiff(current, flushAt) >= 0 || DueTo(k.snd.buf, current, n) then 0
         else Min(Min(NearestTo(k.snd.buf, current, n), TimeDiff(flushAt, current)), k.conf.interval)
  {
    TickCases(k.timer, k.conf.interval, current);
    hide TimeDiff, NextFlush, NearestTo, DueTo, Add32, Sub32, Tick;
    AddThenSub(current, 0);
    AddNothing(current);
    var n, flushAt := |k.snd.buf|, NextFlush(k.timer, current);
    if TimeDiff(current, flushAt) < 0 && !DueTo(k.snd.buf, current, n) {
      NearestBounds(k.snd.buf, current, n);
      AddThenSub(current, Min(Min(NearestTo(k.snd.buf, current, n), TimeDiff(flushAt, current)), k.conf.interval));
    }
  }

  lemma AddNothing(x: u32)
    ensures Add32(x, 0) == x
  {
  }

  /** The hint is now exactly when something is due now: a flush or a retransmission. Otherwise it is the
      first of the next flush, any retransmission, and one interval from now. */
  lemma HintBounds(k: Block, current: u32)
    requires k.timer.updated && 0 < k.conf.interval <= 5000
    ensures Wait(k, current) == 0
       <==> || Tick(k.timer, k.conf.interval, current).1
            || exists i :: 0 <= i < |k.snd.buf| && TimeDiff(k.snd.buf[i].resendts, current) <= 0
    ensures var wait := Wait(k, current); wait > 0 ==>
      && wait <= TimeDiff(k.timer.flushAt, current) <= 10000 && wait <= k.conf.interval
      && (forall i :: 0 <= i < |k.snd.buf| ==> wait <= TimeDiff(k.snd.buf[i].resendts, current))
      && (|| wait == TimeDiff(k.timer.flushAt, current) || wait == k.conf.interval
          || exists i :: 0 <= i < |k.snd.buf| && wait == TimeDiff(k.snd.buf[i].resendts, current))
  {
    NearestBounds(k.snd.buf, current, |k.snd.buf|);
    TickCases(k.timer, k.conf.interval, current);
    WaitCases(k, current);
    hide Wait, Tick, NextFlush, TimeDiff, NearestTo;
  }

  /** Before the first update the hint is now. */
  lemma HintBeforeUpdate(k: Block, current: u32)
    requires !k.timer.updated
    ensures Hint(k, current) == current
  {
  }

  /** The hint agrees with the scheduler: until the hinted time an update never flushes, wherever the
      clock wraps. */
  lemma NoFlushBeforeHint(k: Block, now: u32, d: u32)
    requires k.timer.updated && 0 < k.conf.interval <= 5000
    requires d < Wait(k, now)
    ensures !Tick(k.timer, k.conf.interval, Add32(now, d)).1
    ensures Update(k, Add32(now, d)) == (k.(timer := k.timer.(current := Add32(now, d))), [])
  {
    HintBounds(k, now);
  }

  // ---- the rate of flushes ----

  /** One update at the unbounded time `t`. */
  function UpdateAt(timer: Timer, interval: u32, t: nat): (Timer, bool) {
    Tick(timer, interval, ToU32(t))
  }

  /** Timer and number of flushes after updates at the first `n` of the given times. */
  function After(timer: Timer, interval: u32, times: seq<nat>, n: nat): (Timer, nat)
    requires n <= |times|
  {
    if n == 0 then (timer, 0)
    else
      var (before, count) := After(timer, interval, times, n - 1);
      var (after, flush) := UpdateAt(before, interval, times[n - 1]);
      (after, if flush then count + 1 else count)
  }

  /** The update at the time with this index flushes. */
  predicate FlushAt(timer: Timer, interval: u32, times: seq<nat>, i: nat)
    requires i < |times|
  {
    UpdateAt(After(timer, interval, times, i).0, interval, times[i]).1
  }

  /** The times never go back, and no gap reaches half the ring less one interval. */
  ghost predicate Clock(times: seq<nat>, interval: u32) {
    forall i :: 0 < i < |times| ==> times[i - 1] <= times[i] < times[i - 1] + 0x8000_0000 - interval
  }

  /** The next flush stands at the unbounded time `f`. */
  ghost predicate Pending(timer: Timer, interval: u32, t: int, f: int) {
    && timer.updated && timer.flushAt == ToU32(f)
    && t < f <= t + interval
  }

  /** One update at a later time: a flush happens exactly when its time `f` has come. The next one is then
      due an interval after `f`, or an interval from now if that is past already, reset included. */
  lemma UpdateAdvances(timer: Timer, interval: u32, t: nat, f: int, t': nat) returns (f': int)
    requires 10 <= interval <= 5000 && Pending(timer, interval, t, f) && t <= t' < t + 0x8000_0000 - interval
    ensures var (timer', flush) := UpdateAt(timer, interval, t');
      && Pending(timer', interval, t', f')
      && (flush <==> f <= t')
      && f' == (if !flush then f else if t' < f + interval then f + interval else t' + interval)
  {
    hide ToU32, TimeDiff, Add32;
    TimeDiffExact(t', f);
    TimeDiffExact(t', t' + interval);
    TimeDiffExact(t', f + interval);
    AddToU32(f, interval);
    AddToU32(t', interval);
    f' := if t' < f then f else if t' - f >= 10000 || f + interval <= t' then t' + interval else f + interval;
  }

  /** After a flush at `t'` no update flushes within an interval, if and only if this flush was exactly
      on time or at least an interval late. */
  lemma NextFlushGap(timer: Timer, interval: u32, t: nat, f: nat, t': nat)
    requires 10 <= interval <= 5000 && Pending(timer, interval, t, f) && t <= t' < t + 0x8000_0000 - interval
    requires f <= t'
    ensures var timer' := UpdateAt(timer, interval, t').0;
      (forall u: nat :: t' <= u < t' + interval ==> !UpdateAt(timer', interval, u).1)
      <==> t' == f || t' >= f + interval
  {
    var f' := UpdateAdvances(timer, interval, t, f, t');
    var timer' := UpdateAt(timer, interval, t').0;
    hide UpdateAt, Pending;
    forall u: nat | t' <= u < t' + interval
      ensures UpdateAt(timer', interval, u).1 <==> f' <= u
    {
      var g := UpdateAdvances(timer', interval, t', f', u);
    }
    if f < t' < f + interval {
      assert t' <= f' < t' + interval && UpdateAt(timer', interval, f').1;
    }
  }

  lemma FirstUpdate(timer: Timer, interval: u32, t: nat)
    requires 10 <= interval <= 5000 && !timer.updated
    ensures UpdateAt(timer, interval, t).1 && Pending(UpdateAt(timer, interval, t).0, interval, t, t + interval)
  {
  }

  /** Over any run of updates from the first one, the next flush stands at least `count` intervals
      after the start. */
  lemma {:induction false} RunPending(timer: Timer, interval: u32, times: seq<nat>, n: nat) returns (f: int)
    requires 10 <= interval <= 5000 && !timer.updated && Clock(times, interval) && 0 < n <= |times|
    ensures var (after, count) := After(timer, interval, times, n);
      && Pending(after, interval, times[n - 1], f)
      && count >= 1 && times[0] + count * interval <= f
  {
    hide UpdateAt, ToU32, TimeDiff, Pending;
    if n == 1 {
      FirstUpdate(timer, interval, times[0]);
      f := times[0] + interval;
      assert After(timer, interval, times, 0) == (timer, 0);
    } else {
      var g := RunPending(timer, interval, times, n - 1);
      var (before, count) := After(timer, interval, times, n - 1);
      f := UpdateAdvances(before, interval, times[n - 2], g, times[n - 1]);
      assert (count + 1) * interval == count * interval + interval;
    }
  }

  lemma PendingTimer(timer: Timer, interval: u32, t: nat, f: int)
    requires interval <= 5000 && Pending(timer, interval, t, f)
    ensures 0 < TimeDiff(timer.flushAt, ToU32(t)) <= interval
  {
    TimeDiffExact(f, t);
  }

  /** The rate bound: when the flush numbered `count + 1` happens, at least `count` intervals have
      passed since the first update, and the timer is then set between now and one interval ahead. */
  lemma FlushRate(timer: Timer, interval: u32, times: seq<nat>, n: nat)
    requires 10 <= interval <= 5000 && !timer.updated && Clock(times, interval) && 0 < n <= |times|
    requires FlushAt(timer, interval, times, n - 1)
    ensures times[0] + After(timer, interval, times, n - 1).1 * interval <= times[n - 1]
    ensures 0 < TimeDiff(After(timer, interval, times, n).0.flushAt, ToU32(times[n - 1])) <= interval
  {
    hide UpdateAt, TimeDiff, ToU32;
    var f := RunPending(timer, interval, times, n);
    PendingTimer(After(timer, interval, times, n).0, interval, times[n - 1], f);
    if n > 1 {
      var g := RunPending(timer, interval, times, n - 1);
      var f' := UpdateAdvances(After(timer, interval, times, n - 1).0, interval, times[n - 2], g, times[n - 1]);
    } else {
      assert After(timer, interval, times, 0) == (timer, 0);
    }
  }

  /** Whatever the timer was before, after a flush the next one is pending. */
  lemma FlushSetsPending(timer: Timer, interval: u32, t: nat) returns (f: int)
    requires 10 <= interval <= 5000 && UpdateAt(timer, interval, t).1
    ensures Pending(UpdateAt(timer, interval, t).0, interval, t, f)
  {
    var flushAt := if timer.updated then timer.flushAt else ToU32(t);
    var slap := TimeDiff(ToU32(t), flushAt);
    f := if 0 <= slap < interval then t - slap + interval else t + interval;
    AddToU32(t, interval);
    DueAt(t, flushAt);
    AddToU32(t - slap, interval);
    hide ToU32, Add32;
    TimeDiffNearby(t, f - interval, interval);
  }

  lemma DueAt(t: nat, flushAt: u32)
    ensures flushAt == ToU32(t - TimeDiff(ToU32(t), flushAt))
  {
  }

  lemma TimeDiffNearby(t: int, f: int, interval: u32)
    requires t - 10000 <= f <= t && interval <= 5000
    ensures TimeDiff(ToU32(t), ToU32(f + interval)) == t - f - interval
  {
  }

  /** After a flush at update `i`, the next one stands more than as many intervals later as there have
      been flushes since. */
  lemma {:induction false} SinceFlush(timer: Timer, interval: u32, times: seq<nat>, i: nat, n: nat) returns (f: int)
    requires 10 <= interval <= 5000 && Clock(times, interval) && i < n <= |times|
    requires FlushAt(timer, interval, times, i)
    ensures var (after, count) := After(timer, interval, times, n);
      && Pending(after, interval, times[n - 1], f)
      && count >= After(timer, interval, times, i).1 + 1
      && times[i] + (count - After(timer, interval, times, i).1 - 1) * interval < f
  {
    hide UpdateAt, ToU32, TimeDiff, Pending;
    if n == i + 1 {
      f := FlushSetsPending(After(timer, interval, times, i).0, interval, times[i]);
      PendingAhead(UpdateAt(After(timer, interval, times, i).0, interval, times[i]).0, interval, times[i], f);
    } else {
      var g := SinceFlush(timer, interval, times, i, n - 1);
      var (before, count) := After(timer, interval, times, n - 1);
      f := UpdateAdvances(before, interval, times[n - 2], g, times[n - 1]);
      var m := count - After(timer, interval, times, i).1 - 1;
      assert (m + 1) * interval == m * interval + interval;
    }
  }

  lemma PendingAhead(timer: Timer, interval: u32, t: int, f: int)
    requires Pending(timer, interval, t, f)
    ensures t < f
  {
  }

  /** The rate between any two flushes of any run, whatever the timer was at its start: when `m` flushes
      follow a flush, the last of them comes more than `m - 1` intervals after it. */
  lemma FlushSpacing(timer: Timer, interval: u32, times: seq<nat>, i: nat, j: nat)
    requires 10 <= interval <= 5000 && Clock(times, interval) && i < j < |times|
    requires FlushAt(timer, interval, times, i) && FlushAt(timer, interval, times, j)
    ensures After(timer, interval, times, i).1 < After(timer, interval, times, j).1
    ensures times[i] + (After(timer, interval, times, j).1 - After(timer, interval, times, i).1 - 1) * interval
          < times[j]
  {
    hide UpdateAt, TimeDiff, ToU32, Pending;
    var f := SinceFlush(timer, interval, times, i, j);
    var f' := UpdateAdvances(After(timer, interval, times, j).0, interval, times[j - 1], f, times[j]);
  }

  /** One interval more would be too much: two consecutive flushes can be one millisecond apart. */
  lemma FlushesCanBeClose()
    ensures var t := Timer(0, false, 100);
      && After(t, 100, [0, 199, 200], 1).1 == 1
      && After(t, 100, [0, 199, 200], 2).1 == 2
      && After(t, 100, [0, 199, 200], 3).1 == 3
  {
    var t, times := Timer(0, false, 100), [0, 199, 200];
    assert After(t, 100, times, 0) == (t, 0);
    assert After(t, 100, times, 1) == (Timer(0, true, 100), 1);
    assert After(t, 100, times, 2) == (Timer(199, true, 200), 2);
  }
}
