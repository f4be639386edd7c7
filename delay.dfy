/** Busy-wait delays on the SysTick down-counter (Drivers/System/delay/delay.c).

    SysTick counts down from its 24-bit LOAD value to 0 and then reloads, so
    its period is LOAD + 1 ticks. `Delay_us` samples the counter repeatedly
    and adds the ticks elapsed between successive different samples,
    treating a sample above the previous one as a wrap. The hardware reads
    are modelled as a finite sequence `samples` of the values `SysTick->VAL`
    returns: `samples[0]` is the starting sample and `samples[1..]` the samples
    of the loop, in order. A run whose reads end before the loop would exit
    is reported as not having returned. */
module Delay {
  import opened CTypes

  /** `configTICK_RATE_HZ` (User/FreeRTOSConfig.h). */
  const TICK_RATE_HZ: nat := 1000
  /** SysTick's LOAD and VAL registers are 24 bits wide. */
  const SYSTICK_RANGE: nat := 0x100_0000

  /** `reload = SYSCLK * 1000000 / configTICK_RATE_HZ`: one RTOS tick worth
      of core cycles, for a clock of `sysclk` MHz. */
  function ReloadValue(sysclk: uint8): (r: uint32)
    ensures r as int == sysclk as int * 1000
    ensures r as int < SYSTICK_RANGE
  {
    var cycles := sysclk as int * 1000000;
    assert cycles == (sysclk as int * 1000) * TICK_RATE_HZ;
    (cycles / TICK_RATE_HZ) as uint32
  }

  /** `ticks = us * g_fac_us`, a `uint32_t` product. */
  function Ticks(us: uint32, facUs: uint8): (r: uint32)
    ensures us as int * facUs as int < UINT32_MODULUS ==> r as int == us as int * facUs as int
  {
    Wrap32(us as int * facUs as int)
  }

  /** Within the documented range `us <= 2^24 / g_fac_us` the product does
      not wrap and is at most 2^24. */
  lemma TicksInDocumentedRange(us: uint32, facUs: uint8)
    requires facUs > 0 && us as int <= SYSTICK_RANGE / facUs as int
    ensures Ticks(us, facUs) as int == us as int * facUs as int
    ensures Ticks(us, facUs) as int <= SYSTICK_RANGE
  {
    assert us as int * facUs as int <= (SYSTICK_RANGE / facUs as int) * facUs as int <= SYSTICK_RANGE;
  }

  /** The ticks `Delay_us` adds for a sample `tNow` that differs from the
      previous sample `tOld`:
      `(t_now < t_old) ? (t_old - t_now) : (reload - t_now + t_old)` in
      `uint32_t` arithmetic. */
  function Increment(reload: uint32, tOld: uint32, tNow: uint32): (r: uint32)
    ensures tOld <= reload && tNow <= reload ==> r <= reload
  {
    if tNow < tOld then tOld - tNow else Wrap32(reload as int - tNow as int + tOld as int)
  }

  /** Euclidean remainder of a value less than one modulus away from 0. */
  lemma ModShift(x: int, m: int)
    requires m > 0 && -m <= x < m
    ensures x % m == (if x < 0 then x + m else x)
  {
    var q, r := x / m, x % m;
    assert x == m * q + r;
    if x >= 0 { assert q == 0; } else { assert q == -1; }
  }

  /** For samples in the counter's range, the increment is the distance the
      counter moved down modulo `reload` (samples below `reload`), and one
      tick less than the distance modulo the true period `reload + 1` when
      the sample shows a wrap. */
  lemma IncrementIsModular(reload: uint32, tOld: uint32, tNow: uint32)
    requires tOld <= reload && tNow <= reload && tOld != tNow
    ensures Increment(reload, tOld, tNow) as int + (if tNow > tOld then 1 else 0)
            == (tOld as int - tNow as int) % (reload as int + 1)
    ensures tOld < reload && tNow < reload ==>
              Increment(reload, tOld, tNow) as int == (tOld as int - tNow as int) % reload as int &&
              1 <= Increment(reload, tOld, tNow) < reload
  {
    ModShift(tOld as int - tNow as int, reload as int + 1);
    if tOld < reload && tNow < reload {
      ModShift(tOld as int - tNow as int, reload as int);
    }
  }

  /** `t_cnt` once the loop has taken the samples `samples[1..n]`. */
  function Accumulated(reload: uint32, samples: seq<uint32>, n: nat): (r: uint32)
    requires 1 <= n <= |samples|
    decreases n
  {
    if n == 1 then 0
    else if samples[n - 1] != samples[n - 2] then
      Wrap32(Accumulated(reload, samples, n - 1) as int + Increment(reload, samples[n - 2], samples[n - 1]) as int)
    else
      Accumulated(reload, samples, n - 1)
  }

  /** While the counter reads the same value, `t_cnt` stays 0: only a
      changed sample adds to it. */
  lemma {:induction false} AccumulatedIdle(reload: uint32, samples: seq<uint32>, n: nat)
    requires 1 <= n <= |samples|
    requires forall k :: 1 <= k < n ==> samples[k] == samples[k - 1]
    ensures Accumulated(reload, samples, n) == 0
    decreases n
  {
    if n > 1 {
      assert samples[n - 1] == samples[n - 2];
      AccumulatedIdle(reload, samples, n - 1);
    }
  }

  /** The loop would break at sample `i`: it differs from the previous one
      and brings `t_cnt` to at least `ticks`. */
  predicate ExitsAt(reload: uint32, ticks: uint32, samples: seq<uint32>, i: nat)
    requires 1 <= i < |samples|
  {
    samples[i] != samples[i - 1] && Accumulated(reload, samples, i + 1) >= ticks
  }

  /** Reference: the ticks a counter of period `reload + 1` has counted
      between `samples[0]` and `samples[n - 1]`, when it is sampled at least
      once per period. */
  function Elapsed(reload: uint32, samples: seq<uint32>, n: nat): int
    requires 1 <= n <= |samples|
    decreases n
  {
    if n == 1 then 0
    else Elapsed(reload, samples, n - 1) + (samples[n - 2] as int - samples[n - 1] as int) % (reload as int + 1)
  }

  /** The number of samples among `samples[1..n]` that show a wrap. */
  function Wraps(samples: seq<uint32>, n: nat): nat
    requires 1 <= n <= |samples|
    decreases n
  {
    if n == 1 then 0
    else Wraps(samples, n - 1) + (if samples[n - 1] > samples[n - 2] then 1 else 0)
  }

  predicate InCounterRange(reload: uint32, samples: seq<uint32>) {
    forall k :: 0 <= k < |samples| ==> samples[k] <= reload
  }

  /** Before the loop exits, `t_cnt` is still below `ticks` (or 0, when
      `ticks` is 0). */
  lemma {:induction false} BelowTargetBeforeExit(reload: uint32, ticks: uint32, samples: seq<uint32>, n: nat)
    requires 1 <= n <= |samples|
    requires forall j :: 1 <= j < n ==> !ExitsAt(reload, ticks, samples, j)
    ensures Accumulated(reload, samples, n) < ticks || Accumulated(reload, samples, n) == 0
    decreases n
  {
    if n > 1 {
      assert !ExitsAt(reload, ticks, samples, n - 1);
      if samples[n - 1] == samples[n - 2] {
        BelowTargetBeforeExit(reload, ticks, samples, n - 1);
      }
    }
  }

  /** Until the loop exits, `t_cnt` does not wrap, and it falls short of the
      ticks the counter really counted by exactly one per wrap (the wrap
      branch adds `reload`, the period is `reload + 1`). */
  lemma {:induction false} AccumulatedUndercounts(reload: uint32, ticks: uint32, samples: seq<uint32>, n: nat)
    requires InCounterRange(reload, samples)
    requires ticks as int + reload as int <= UINT32_MODULUS
    requires 1 <= n <= |samples|
    requires forall j :: 1 <= j < n - 1 ==> !ExitsAt(reload, ticks, samples, j)
    ensures Accumulated(reload, samples, n) as int + Wraps(samples, n) == Elapsed(reload, samples, n)
    decreases n
  {
    if n > 1 {
      AccumulatedUndercounts(reload, ticks, samples, n - 1);
      BelowTargetBeforeExit(reload, ticks, samples, n - 1);
      UndercountStep(reload, ticks, Accumulated(reload, samples, n - 1), samples[n - 2], samples[n - 1]);
    }
  }

  /** One sample's step of `AccumulatedUndercounts`: from a `t_cnt` below
      the target, the code's update plus one on a wrap is the distance the
      counter really moved, without 32-bit wrap-around. */
  lemma UndercountStep(reload: uint32, ticks: uint32, before: uint32, prev: uint32, now: uint32)
    requires prev <= reload && now <= reload
    requires ticks as int + reload as int <= UINT32_MODULUS
    requires before < ticks || before == 0
    ensures var next := if now != prev then Wrap32(before as int + Increment(reload, prev, now) as int) else before;
            next as int + (if now > prev then 1 else 0) == before as int + (prev as int - now as int) % (reload as int + 1)
  {
    if now == prev {
      ModShift(0, reload as int + 1);
    } else {
      IncrementIsModular(reload, prev, now);
      assert before as int + Increment(reload, prev, now) as int < UINT32_MODULUS;
    }
  }

  /** Never early: at the first sample where the loop exits, the counter has
      counted at least `ticks`; and at the sample before it, no more than
      `ticks` plus one per wrap seen. */
  lemma ExitBounds(reload: uint32, ticks: uint32, samples: seq<uint32>, i: nat)
    requires InCounterRange(reload, samples)
    requires ticks as int + reload as int <= UINT32_MODULUS
    requires 1 <= i < |samples| && ExitsAt(reload, ticks, samples, i)
    requires forall j :: 1 <= j < i ==> !ExitsAt(reload, ticks, samples, j)
    ensures Elapsed(reload, samples, i + 1) >= ticks as int
    ensures Elapsed(reload, samples, i) <= ticks as int + Wraps(samples, i)
  {
    AccumulatedUndercounts(reload, ticks, samples, i + 1);
    AccumulatedUndercounts(reload, ticks, samples, i);
    BelowTargetBeforeExit(reload, ticks, samples, i);
  }

  /** The index of the sample at which a `Delay_us` loop over `samples`
      breaks, searching from sample `from` on; `None` if no sample does. */
  function FirstExit(reload: uint32, ticks: uint32, samples: seq<uint32>, from: nat): (r: Option<nat>)
    requires 1 <= from
    ensures r.Some? ==> from <= r.value < |samples| && ExitsAt(reload, ticks, samples, r.value)
    ensures r.Some? ==> forall j :: from <= j < r.value ==> !ExitsAt(reload, ticks, samples, j)
    ensures r.None? ==> forall j :: from <= j < |samples| ==> !ExitsAt(reload, ticks, samples, j)
    decreases |samples| - from
  {
    if from >= |samples| then None
    else if ExitsAt(reload, ticks, samples, from) then Some(from)
    else FirstExit(reload, ticks, samples, from + 1)
  }

  /** `Delay_us(0)` breaks exactly at the first sample that differs from its
      predecessor, whatever `g_fac_us` is. */
  lemma ZeroDelayExitsOnFirstChange(reload: uint32, facUs: uint8, samples: seq<uint32>, i: nat)
    ensures FirstExit(reload, Ticks(0, facUs), samples, 1) == Some(i) <==>
              1 <= i < |samples| && samples[i] != samples[i - 1] &&
              forall j :: 1 <= j < i ==> samples[j] == samples[j - 1]
  {
    var ticks := Ticks(0, facUs);
    assert ticks == 0;
    forall j | 1 <= j < |samples|
      ensures ExitsAt(reload, ticks, samples, j) <==> samples[j] != samples[j - 1]
    {
    }
    var f := FirstExit(reload, ticks, samples, 1);
    if 1 <= i < |samples| && samples[i] != samples[i - 1] &&
       forall j :: 1 <= j < i ==> samples[j] == samples[j - 1]
    {
      assert ExitsAt(reload, ticks, samples, i);
      assert f.Some? && f.value == i;
    }
  }

  /** The calls made so far by a `Delay_ms`: `done` of them returned, they
      used the samples `samples[..used]`, and their final `t_cnt` values
      add up to `counted`. */
  datatype MsProgress = MsProgress(done: nat, used: nat, counted: nat)

  /** `calls` successive `Delay_us` runs to `ticks` over one stream of
      samples: each run starts on the sample after the one at which its
      predecessor broke; once a run does not return, nothing further happens. */
  function MsRun(reload: uint32, ticks: uint32, samples: seq<uint32>, calls: nat): (r: MsProgress)
    ensures r.done <= calls && r.used <= |samples|
    decreases calls
  {
    if calls == 0 then MsProgress(0, 0, 0)
    else
      var prev := MsRun(reload, ticks, samples, calls - 1);
      if prev.done < calls - 1 then prev
      else
        match FirstExit(reload, ticks, samples[prev.used..], 1)
        case None => prev
        case Some(e) =>
          MsProgress(prev.done + 1, prev.used + e + 1,
                     prev.counted + Accumulated(reload, samples[prev.used..], e + 1) as int)
  }

  /** One unfolding of `MsRun`, case by case. */
  lemma MsRunCases(reload: uint32, ticks: uint32, samples: seq<uint32>, calls: nat)
    requires calls > 0
    ensures var prev := MsRun(reload, ticks, samples, calls - 1);
            var r := MsRun(reload, ticks, samples, calls);
            var f := FirstExit(reload, ticks, samples[prev.used..], 1);
            (prev.done < calls - 1 || f.None? ==> r == prev) &&
            (prev.done == calls - 1 && f.Some? ==>
               r.done == prev.done + 1 && r.used == prev.used + f.value + 1 &&
               r.counted == prev.counted + Accumulated(reload, samples[prev.used..], f.value + 1) as int)
  {
  }

  /** One more call either changes nothing or returns, using at least two
      more samples and counting at least `ticks` more. */
  lemma MsRunGrows(reload: uint32, ticks: uint32, samples: seq<uint32>, calls: nat)
    requires calls > 0
    ensures var prev := MsRun(reload, ticks, samples, calls - 1);
            var r := MsRun(reload, ticks, samples, calls);
            r == prev ||
            (r.done == prev.done + 1 && r.used >= prev.used + 2 && r.counted >= prev.counted + ticks as int)
  {
    MsRunCases(reload, ticks, samples, calls);
    var prev := MsRun(reload, ticks, samples, calls - 1);
    var rest := samples[prev.used..];
    var f := FirstExit(reload, ticks, rest, 1);
    if prev.done == calls - 1 && f.Some? {
      assert ExitsAt(reload, ticks, rest, f.value);
    }
  }

  /** A step that either changes nothing or adds one call and at least two
      samples keeps two samples per call. */
  lemma UseStep(d0: nat, u0: nat, d1: nat, u1: nat)
    requires 2 * d0 <= u0
    requires (d1 == d0 && u1 == u0) || (d1 == d0 + 1 && u1 >= u0 + 2)
    ensures 2 * d1 <= u1
  {
  }

  /** Every returned call used at least two samples. */
  lemma {:induction false} MsRunUsesTwoPerCall(reload: uint32, ticks: uint32, samples: seq<uint32>, calls: nat)
    ensures 2 * MsRun(reload, ticks, samples, calls).done <= MsRun(reload, ticks, samples, calls).used
    decreases calls
  {
    if calls > 0 {
      MsRunUsesTwoPerCall(reload, ticks, samples, calls - 1);
      MsRunGrows(reload, ticks, samples, calls);
      var prev, r := MsRun(reload, ticks, samples, calls - 1), MsRun(reload, ticks, samples, calls);
      UseStep(prev.done, prev.used, r.done, r.used);
    }
  }

  /** `k * t`, built up one call at a time. */
  function Scaled(k: nat, t: nat): nat {
    if k == 0 then 0 else Scaled(k - 1, t) + t
  }

  /** `Scaled` is multiplication. */
  lemma {:induction false} ScaledIsProduct(k: nat, t: nat)
    ensures Scaled(k, t) == k * t
  {
    if k > 0 {
      ScaledIsProduct(k - 1, t);
      assert k * t == (k - 1) * t + t;
    }
  }

  /** Every returned call counted at least `ticks`. */
  lemma MsRunCountsTicks(reload: uint32, ticks: uint32, samples: seq<uint32>, calls: nat)
    ensures MsRun(reload, ticks, samples, calls).counted >= MsRun(reload, ticks, samples, calls).done * ticks as int
  {
    MsRunCountsScaled(reload, ticks, samples, calls);
    ScaledIsProduct(MsRun(reload, ticks, samples, calls).done, ticks as nat);
  }

  /** A count that covers `t` per call still does after a step that either
      changes nothing or adds one call and at least `t`. */
  lemma CoverStep(d0: nat, c0: int, d1: nat, c1: int, t: nat)
    requires c0 >= Scaled(d0, t)
    requires (d1 == d0 && c1 == c0) || (d1 == d0 + 1 && c1 >= c0 + t)
    ensures c1 >= Scaled(d1, t)
  {
  }

  /** `MsRunCountsTicks` with the product built up call by call. */
  lemma {:induction false} MsRunCountsScaled(reload: uint32, ticks: uint32, samples: seq<uint32>, calls: nat)
    ensures MsRun(reload, ticks, samples, calls).counted >= Scaled(MsRun(reload, ticks, samples, calls).done, ticks as nat)
    decreases calls
  {
    if calls > 0 {
      MsRunCountsScaled(reload, ticks, samples, calls - 1);
      MsRunGrows(reload, ticks, samples, calls);
      var prev, r := MsRun(reload, ticks, samples, calls - 1), MsRun(reload, ticks, samples, calls);
      CoverStep(prev.done, prev.counted, r.done, r.counted, ticks as nat);
    }
  }

  /** Once a call does not return, no sample left over would have broken
      its loop. */
  lemma {:induction false} MsRunStopsForGood(reload: uint32, ticks: uint32, samples: seq<uint32>, calls: nat)
    requires MsRun(reload, ticks, samples, calls).done < calls
    ensures var r := MsRun(reload, ticks, samples, calls);
            forall j :: 1 <= j < |samples| - r.used ==> !ExitsAt(reload, ticks, samples[r.used..], j)
    decreases calls
  {
    MsRunCases(reload, ticks, samples, calls);
    var prev := MsRun(reload, ticks, samples, calls - 1);
    if prev.done < calls - 1 {
      MsRunStopsForGood(reload, ticks, samples, calls - 1);
    } else {
      assert FirstExit(reload, ticks, samples[prev.used..], 1).None?;
    }
  }

  /** The three facts above, for the run a `Delay_ms` makes. */
  lemma MsRunFacts(reload: uint32, ticks: uint32, samples: seq<uint32>, calls: nat, target: int)
    requires ticks as int == target
    ensures var r := MsRun(reload, ticks, samples, calls);
            2 * r.done <= r.used && r.counted >= r.done * target &&
            (r.done < calls ==>
               forall j :: 1 <= j < |samples| - r.used ==> !ExitsAt(reload, ticks, samples[r.used..], j))
  {
    MsRunUsesTwoPerCall(reload, ticks, samples, calls);
    MsRunCountsTicks(reload, ticks, samples, calls);
    if MsRun(reload, ticks, samples, calls).done < calls {
      MsRunStopsForGood(reload, ticks, samples, calls);
    }
  }

  /** Call `k + 1` of `calls` returned `exit`, with final count `tCnt`, on
      the samples left over: either the run stops there for good, or it
      takes that call. */
  lemma MsRunAdvance(reload: uint32, ticks: uint32, samples: seq<uint32>, k: nat, calls: nat,
                     used: nat, counted: nat, exit: Option<nat>, tCnt: uint32)
    requires k < calls
    requires MsRun(reload, ticks, samples, k) == MsProgress(k, used, counted)
    requires used <= |samples|
    requires exit == FirstExit(reload, ticks, samples[used..], 1)
    requires exit.Some? ==> tCnt == Accumulated(reload, samples[used..], exit.value + 1)
    ensures exit.None? ==> MsRun(reload, ticks, samples, calls) == MsProgress(k, used, counted)
    ensures exit.Some? ==>
              MsRun(reload, ticks, samples, k + 1) == MsProgress(k + 1, used + exit.value + 1, counted + tCnt as int)
  {
    MsRunStep(reload, ticks, samples, k, used, counted, exit, tCnt);
    if exit.None? {
      MsRunStuck(reload, ticks, samples, k + 1, calls);
    }
  }

  /** One more call after `k` returned ones, as `MsRun` defines it. */
  lemma MsRunStep(reload: uint32, ticks: uint32, samples: seq<uint32>, k: nat,
                  used: nat, counted: nat, exit: Option<nat>, tCnt: uint32)
    requires MsRun(reload, ticks, samples, k) == MsProgress(k, used, counted)
    requires used <= |samples|
    requires exit == FirstExit(reload, ticks, samples[used..], 1)
    requires exit.Some? ==> tCnt == Accumulated(reload, samples[used..], exit.value + 1)
    ensures exit.None? ==> MsRun(reload, ticks, samples, k + 1) == MsProgress(k, used, counted)
    ensures exit.Some? ==>
              MsRun(reload, ticks, samples, k + 1) == MsProgress(k + 1, used + exit.value + 1, counted + tCnt as int)
  {
    MsRunCases(reload, ticks, samples, k + 1);
  }

  /** Once a run has failed to return, further calls change nothing. */
  lemma {:induction false} MsRunStuck(reload: uint32, ticks: uint32, samples: seq<uint32>, k: nat, m: nat)
    requires k <= m && MsRun(reload, ticks, samples, k).done < k
    ensures MsRun(reload, ticks, samples, m) == MsRun(reload, ticks, samples, k)
    decreases m - k
  {
    if k < m {
      MsRunStuck(reload, ticks, samples, k, m - 1);
      MsRunCases(reload, ticks, samples, m);
    }
  }

  /** When no sample before `i` breaks the loop, the first exit searched
      from sample 1 is the first one searched from `i`. */
  lemma {:induction false} NoEarlierExit(reload: uint32, ticks: uint32, samples: seq<uint32>, i: nat)
    requires 1 <= i <= |samples|
    requires forall j :: 1 <= j < i ==> !ExitsAt(reload, ticks, samples, j)
    ensures FirstExit(reload, ticks, samples, 1) == FirstExit(reload, ticks, samples, i)
    decreases i
  {
    if i > 1 {
      NoEarlierExit(reload, ticks, samples, i - 1);
      assert !ExitsAt(reload, ticks, samples, i - 1);
    }
  }

  /** The delay state of delay.c: the static `g_fac_us` (SysTick ticks per
      microsecond) and the SysTick LOAD register it programs. */
  class SysTickDelay {
    var facUs: uint8
    var load: uint32

    ghost predicate Valid()
      reads this
    {
      load as int < SYSTICK_RANGE
    }

    /** Before `Delay_Init`: `g_fac_us` is 0, LOAD holds whatever was there. */
    constructor (initialLoad: uint32)
      requires initialLoad as int < SYSTICK_RANGE
      ensures Valid() && facUs == 0 && load == initialLoad
    {
      facUs, load := 0, initialLoad;
    }

    /** `Delay_Init(SYSCLK)`: record SYSCLK as ticks per microsecond and
        program LOAD with the reload value. */
    method Init(sysclk: uint8)
      modifies this
      ensures Valid()
      ensures facUs == sysclk && load == ReloadValue(sysclk)
      ensures load as int == sysclk as int * 1000
    {
      facUs := sysclk;
      var reload := ReloadValue(sysclk);
      load := reload;
    }

    /** `Delay_us(us)` over the samples `samples`: `exit` is the index of the
        sample at which the loop breaks, with `tCnt` the final `t_cnt`, or
        `None` when the reads end first. */
    method DelayUs(us: uint32, samples: seq<uint32>) returns (exit: Option<nat>, tCnt: uint32)
      ensures exit.Some? ==> 1 <= exit.value < |samples| && ExitsAt(load, Ticks(us, facUs), samples, exit.value)
      ensures exit.Some? ==> tCnt == Accumulated(load, samples, exit.value + 1) && tCnt >= Ticks(us, facUs)
      ensures exit.Some? ==> forall j :: 1 <= j < exit.value ==> !ExitsAt(load, Ticks(us, facUs), samples, j)
      ensures exit.None? ==> forall j :: 1 <= j < |samples| ==> !ExitsAt(load, Ticks(us, facUs), samples, j)
      ensures exit == FirstExit(load, Ticks(us, facUs), samples, 1)
    {
      if |samples| == 0 {
        return None, 0;
      }
      var reload := load;
      var ticks := Ticks(us, facUs);
      var tOld := samples[0];
      tCnt := 0;
      var i := 1;
      while i < |samples|
        invariant 1 <= i <= |samples|
        invariant tOld == samples[i - 1]
        invariant tCnt == Accumulated(reload, samples, i)
        invariant forall j :: 1 <= j < i ==> !ExitsAt(reload, ticks, samples, j)
      {
        var tNow := samples[i];
        if tNow != tOld {
          tCnt := Wrap32(tCnt as int + Increment(reload, tOld, tNow) as int);
          tOld := tNow;
          assert tCnt == Accumulated(reload, samples, i + 1);
          if tCnt >= ticks {
            assert ExitsAt(reload, ticks, samples, i);
            NoEarlierExit(reload, ticks, samples, i);
            return Some(i), tCnt;
          }
        }
        assert tCnt == Accumulated(reload, samples, i + 1);
        i := i + 1;
      }
      NoEarlierExit(reload, ticks, samples, |samples|);
      return None, tCnt;
    }

    /** `Delay_ms(ms)`: `ms` successive `Delay_us(1000)` calls over one
        stream of samples, each starting on the sample after the one its
        predecessor broke at. `done` calls returned, using `samples[..used]`,
        and their final `t_cnt` values add up to `counted`; if fewer than
        `ms` returned, the next call does not return on the remaining
        samples. */
    method DelayMs(ms: uint16, samples: seq<uint32>) returns (done: nat, used: nat, counted: nat)
      ensures MsProgress(done, used, counted) == MsRun(load, Ticks(1000, facUs), samples, ms as nat)
      ensures done <= ms as int && 2 * done <= used <= |samples|
      ensures done < ms as int ==>
                forall j :: 1 <= j < |samples| - used ==> !ExitsAt(load, Ticks(1000, facUs), samples[used..], j)
      ensures counted >= done * (1000 * facUs as int)
    {
      var perCall := Ticks(1000, facUs);
      var reload := load;
      var n: nat := ms as nat;
      done, used, counted := 0, 0, 0;
      while done < n
        invariant done <= n && used <= |samples|
        invariant MsRun(reload, perCall, samples, done) == MsProgress(done, used, counted)
      {
        var exit, tCnt := DelayUs(1000, samples[used..]);
        MsRunAdvance(reload, perCall, samples, done, n, used, counted, exit, tCnt);
        if exit.None? {
          break;
        }
        counted := counted + tCnt as int;
        used := used + exit.value + 1;
        done := done + 1;
      }
      MsRunFacts(reload, perCall, samples, n, 1000 * facUs as int);
    }
  }
}
