/**
 The software timers of Application.c, which carry what they overshoot into the
 next period, and the millisecond counter of millis.c that drives them.
 */
module Timers {
  const STOPPED: int := -1

  /** A timer after some time, and whether its callback is due. */
  datatype Tick = Tick(value: int, fires: bool)

  /** What one call of `updateTimers` does to a timer. */
  function Advance(timer: int, interval: nat, elapsed: nat): Tick {
    if timer > elapsed then Tick(timer - elapsed, false)
    else if timer == STOPPED then Tick(STOPPED, false)
    else if interval > 0 then Tick(interval - (elapsed - timer) % interval, true)
    else Tick(STOPPED, true)
  }

  // ----- the phase is kept ----------------------------------------------------------------

  /** The value of a timer that was set to `start`, after the time `t`. */
  function Phase(start: nat, interval: nat, t: nat): int
    requires interval > 0
  {
    if t < start then start - t else interval - (t - start) % interval
  }

  /** A deadline lies after `from` and not after `to`. */
  ghost predicate DeadlineIn(start: nat, interval: nat, from: nat, to: nat) {
    exists k: nat :: from < Deadline(start, interval, k) <= to
  }

  function Deadline(start: nat, interval: nat, k: nat): int { start + k * interval }

  function Sum(es: seq<nat>): nat { if es == [] then 0 else Sum(es[..|es| - 1]) + es[|es| - 1] }

  /** The timer after calls with these elapsed times. */
  function AfterCalls(start: int, interval: nat, es: seq<nat>): int {
    if es == [] then start
    else Advance(AfterCalls(start, interval, es[..|es| - 1]), interval, es[|es| - 1]).value
  }

  /** Division of `a` by `d`, spelled out. */
  lemma DivMod(a: nat, d: nat)
    requires d > 0
    ensures a == (a / d) * d + a % d && 0 <= a % d < d
  {
  }

  lemma DivModUnique(a: nat, d: nat, q: nat, r: nat)
    requires d > 0 && a == q * d + r && r < d
    ensures a % d == r && a / d == q
  {
    var x := a / d - q;
    DivMod(a, d);
    assert x * d == r - a % d;
    if x >= 1 {
      Grows(1, x, d);
    } else if x <= -1 {
      Grows(x, -1, d);
    }
  }

  lemma Grows(a: int, b: int, d: nat)
    requires a <= b
    ensures a * d <= b * d
  {
  }

  /** Time that passes in two steps: the value is that after one step. */
  lemma PhaseStep(start: nat, interval: nat, t: nat, elapsed: nat)
    requires interval > 0 && start > 0
    ensures Advance(Phase(start, interval, t), interval, elapsed).value == Phase(start, interval, t + elapsed)
  {
    if t >= start {
      DivMod(t - start, interval);
      PeriodStep(t - start, interval, elapsed);
    } else if t + elapsed >= start {
      assert t + elapsed - start == elapsed - (start - t);
    }
  }

  /** The same between deadlines, `a` after the first of them. */
  lemma PeriodStep(a: nat, interval: nat, elapsed: nat)
    requires interval > 0
    ensures a % interval < interval
    ensures var v := interval - a % interval;
            (a + elapsed) % interval == if v > elapsed then a % interval + elapsed else (elapsed - v) % interval
  {
    var v := interval - a % interval;
    if v > elapsed {
      DivModAdd(a, interval, elapsed);
    } else {
      DivModAdd(a, interval, v);
      WholePeriods(a + v, interval, elapsed - v);
    }
  }

  /** Time within a period, or up to the end of the next. */
  lemma DivModAdd(a: nat, d: nat, e: nat)
    requires d > 0 && e <= d
    ensures a % d < d
    ensures a % d + e < d ==> (a + e) / d == a / d && (a + e) % d == a % d + e
    ensures a % d + e >= d ==> (a + e) / d == a / d + 1 && (a + e) % d == a % d + e - d
  {
    DivMod(a, d);
    Carry(a, d, e, a / d, a % d);
  }

  lemma Carry(a: nat, d: nat, e: nat, q: nat, r: nat)
    requires d > 0 && e <= d && a == q * d + r && r < d
    ensures r + e < d ==> (a + e) / d == q && (a + e) % d == r + e
    ensures r + e >= d ==> (a + e) / d == q + 1 && (a + e) % d == r + e - d
  {
    if r + e < d {
      DivModUnique(a + e, d, q, r + e);
    } else {
      Distribute(q, 0, d);
      DivModUnique(a + e, d, q + 1, r + e - d);
    }
  }

  lemma WholePeriods(m: nat, d: nat, b: nat)
    requires d > 0 && m % d == 0
    ensures (m + b) % d == b % d
  {
    DivMod(m, d);
    DivMod(b, d);
    var p, q := m / d, b / d;
    assert (p + q) * d == p * d + q * d;
    DivModUnique(m + b, d, p + q, b % d);
  }

  lemma Distribute(p: nat, q: nat, d: nat)
    ensures (p + 1 + q) * d == p * d + d + q * d
  {
  }

  /** The callback is due in exactly the calls in which a deadline passes. */
  lemma FiresAtDeadline(start: nat, interval: nat, t: nat, elapsed: nat)
    requires interval > 0 && start > 0
    ensures Advance(Phase(start, interval, t), interval, elapsed).fires <==> DeadlineIn(start, interval, t, t + elapsed)
  {
    var v := Phase(start, interval, t);
    NextDeadline(start, interval, t);
    var k :| 0 <= k && Deadline(start, interval, k) == t + v && (k > 0 ==> Deadline(start, interval, k - 1) <= t);
    if v <= elapsed {
      assert t < Deadline(start, interval, k) <= t + elapsed;
    } else if DeadlineIn(start, interval, t, t + elapsed) {
      var j: nat :| t < Deadline(start, interval, j) <= t + elapsed;
      if j < k {
        Grows(j, k - 1, interval);
      } else {
        Grows(k, j, interval);
      }
      assert false;
    }
  }

  /** The value of the timer is the time to the next deadline. */
  lemma NextDeadline(start: nat, interval: nat, t: nat)
    requires interval > 0
    ensures Phase(start, interval, t) > 0
    ensures exists k: nat :: Deadline(start, interval, k) == t + Phase(start, interval, t)
                             && (k > 0 ==> Deadline(start, interval, k - 1) <= t)
  {
    if t < start {
      assert Deadline(start, interval, 0) == start;
    } else {
      var a := t - start;
      DivMod(a, interval);
      var k := a / interval + 1;
      assert Deadline(start, interval, k) == t + Phase(start, interval, t);
      assert Deadline(start, interval, k - 1) == start + (a / interval) * interval;
    }
  }

  /** However the time is cut into calls, the timer ends where one call would leave it. */
  lemma {:induction false} SplitIrrelevant(start: nat, interval: nat, es: seq<nat>)
    requires interval > 0 && start > 0
    ensures AfterCalls(start, interval, es) == Phase(start, interval, Sum(es))
  {
    if es != [] {
      var n := |es| - 1;
      SplitIrrelevant(start, interval, es[..n]);
      PhaseStep(start, interval, Sum(es[..n]), es[n]);
    }
  }

  /** How many of these calls find the callback due. */
  function Firings(start: int, interval: nat, es: seq<nat>): nat {
    if es == [] then 0
    else
      var n := |es| - 1;
      var tick := Advance(AfterCalls(start, interval, es[..n]), interval, es[n]);
      Firings(start, interval, es[..n]) + if tick.fires then 1 else 0
  }

  /** How many deadlines there are up to the time `t`. */
  function DeadlinesUpTo(start: nat, interval: nat, t: nat): nat
    requires interval > 0
  {
    if t < start then 0 else (t - start) / interval + 1
  }

  /** Calls that are not further apart than the interval miss no deadline. */
  lemma {:induction false} NoDeadlineMissed(start: nat, interval: nat, es: seq<nat>)
    requires interval > 0 && start > 0 && forall i | 0 <= i < |es| :: es[i] <= interval
    ensures Firings(start, interval, es) == DeadlinesUpTo(start, interval, Sum(es))
  {
    hide Advance, Phase, DeadlinesUpTo;
    if es == [] {
      assert DeadlinesUpTo(start, interval, 0) == 0 by { NoDeadlineYet(start, interval); }
    } else {
      var n := |es| - 1;
      NoDeadlineMissed(start, interval, es[..n]);
      SplitIrrelevant(start, interval, es[..n]);
      OneDeadline(start, interval, Sum(es[..n]), es[n]);
    }
  }

  lemma NoDeadlineYet(start: nat, interval: nat)
    requires interval > 0 && start > 0
    ensures DeadlinesUpTo(start, interval, 0) == 0
  {
  }

  lemma OneDeadline(start: nat, interval: nat, t: nat, elapsed: nat)
    requires interval > 0 && start > 0 && elapsed <= interval
    ensures var tick := Advance(Phase(start, interval, t), interval, elapsed);
            DeadlinesUpTo(start, interval, t + elapsed)
            == DeadlinesUpTo(start, interval, t) + if tick.fires then 1 else 0
  {
    if t >= start {
      var a := t - start;
      DivModAdd(a, interval, elapsed);
    } else if t + elapsed >= start {
      DivModAdd(0, interval, t + elapsed - start);
    }
  }

  /** A timer without an interval counts down once and stops. */
  lemma {:induction false} OneShot(start: nat, es: seq<nat>)
    requires start > 0
    ensures AfterCalls(start, 0, es) == if Sum(es) < start then start - Sum(es) else STOPPED
  {
    if es != [] {
      OneShot(start, es[..|es| - 1]);
    }
  }

  // ----- the millisecond counter ----------------------------------------------------------

  class Millis {
    var MS_Timer: nat
    var time_last_checked: nat
    /** True time, and the true time of the last check. */
    ghost var now: nat
    ghost var lastCheck: nat

    ghost predicate Valid()
      reads this
    {
      MS_Timer == now % 0x1_0000_0000 && time_last_checked == lastCheck % 0x1_0000 && lastCheck <= now
    }

    constructor ()
      ensures Valid() && now == 0 && lastCheck == 0
    {
      MS_Timer, time_last_checked, now, lastCheck := 0, 0, 0, 0;
    }

    /** `SysTick_Handler`. */
    method SysTick()
      requires Valid()
      modifies this`MS_Timer, this`now
      ensures Valid() && now == old(now) + 1
    {
      MS_Timer := (MS_Timer + 1) % 0x1_0000_0000;
      now := now + 1;
    }

    /** `elapsedMS`: the time since the last check, if that is less than 65536 ms; otherwise its low 16 bits. */
    method ElapsedMS() returns (elapsed: nat)
      requires Valid()
      modifies this`time_last_checked, this`lastCheck
      ensures Valid() && lastCheck == now && elapsed == (now - old(lastCheck)) % 0x1_0000
      ensures elapsed == now - old(lastCheck) <==> now - old(lastCheck) < 0x1_0000
    {
      LowBits(now);
      WrappedDifference(now, lastCheck);
      ShortDifference(now - lastCheck);
      var at := MS_Timer % 0x1_0000;
      elapsed := (at + 0x1_0000 - time_last_checked) % 0x1_0000;
      time_last_checked := at;
      lastCheck := now;
    }
  }

  /** The low 16 bits of the 32-bit counter are those of the true time. */
  lemma LowBits(now: nat)
    ensures now % 0x1_0000_0000 % 0x1_0000 == now % 0x1_0000
  {
  }

  /** The 16-bit difference of two 16-bit readings. */
  lemma WrappedDifference(now: nat, last: nat)
    requires last <= now
    ensures (now % 0x1_0000 + 0x1_0000 - last % 0x1_0000) % 0x1_0000 == (now - last) % 0x1_0000
  {
  }

  lemma ShortDifference(d: nat)
    ensures d % 0x1_0000 == d <==> d < 0x1_0000
  {
  }

  /** What `elapsedMS` returns at each of these times but the first. */
  function Readings(times: seq<nat>): seq<nat> {
    var n := |times| - 1;
    if n <= 0 then []
    else Readings(times[..n]) + [(times[n] % 0x1_0000 + 0x1_0000 - times[n - 1] % 0x1_0000) % 0x1_0000]
  }

  /** Each of these times is less than 65536 ms after the one before. */
  predicate Prompt(times: seq<nat>) {
    var n := |times| - 1;
    n > 0 ==> times[n - 1] <= times[n] < times[n - 1] + 0x1_0000 && Prompt(times[..n])
  }

  /** Such checks lose no time. */
  lemma {:induction false} ReadingsSum(times: seq<nat>)
    requires times != [] && Prompt(times)
    ensures times[0] + Sum(Readings(times)) == times[|times| - 1]
  {
    hide Sum;
    var n := |times| - 1;
    if n > 0 {
      ReadingsSum(times[..n]);
      WrappedDifference(times[n], times[n - 1]);
      ShortDifference(times[n] - times[n - 1]);
      SumMore(Readings(times[..n]), times[n] - times[n - 1]);
    } else {
      SumNone();
    }
  }

  lemma SumNone()
    ensures Sum([]) == 0
  {
  }

  lemma SumMore(es: seq<nat>, e: nat)
    ensures Sum(es + [e]) == Sum(es) + e
  {
    assert (es + [e])[..|es|] == es;
  }

  /** A periodic timer that is set when `times` begins shows the true phase after the last check. */
  lemma TimerKeepsTime(start: nat, interval: nat, times: seq<nat>, t: nat)
    requires interval > 0 && start > 0 && times != [] && times[0] + t == times[|times| - 1]
    requires Prompt(times)
    ensures AfterCalls(start, interval, Readings(times)) == Phase(start, interval, t)
  {
    ReadingsSum(times);
    SplitIrrelevant(start, interval, Readings(times));
  }
}
