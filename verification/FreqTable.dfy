/** The CPU frequency tables of tegra194_cpufreq.c: frequencies in kHz and clock dividers,
    which the driver turns into each other with 32-bit and 16-bit arithmetic. */
module FreqTable {
  import opened Arith

  const CPUFREQ_TBL_STEP_HZ := 50 * 1000 * 1000
  const CPUFREQ_TABLE_END: nat := 0xFFFF_FFFE

  datatype Option<T> = None | Some(value: T)

  /** The limits the firmware sends for a cluster. */
  datatype Limits = Limits(refClkHz: nat, pdiv: nat, mdiv: nat, ndivMin: nat, ndivMax: nat)

  /** The widths of the fields, and what the driver divides by. */
  predicate Usable(t: Limits) {
    && 1000 <= t.refClkHz < 0x1_0000_0000
    && 0 < t.pdiv < 0x1_0000 && 0 < t.mdiv < 0x1_0000 && Divider(t) < 0x8000_0000
    && t.ndivMin <= t.ndivMax < 0x1_0000
  }

  function U32(x: nat): nat { x % 0x1_0000_0000 }
  function U16(x: nat): nat { x % 0x1_0000 }

  /** The reference clock in kHz, and what divides it. */
  function Ref(t: Limits): nat { t.refClkHz / 1000 }
  function Divider(t: Limits): nat { t.pdiv * t.mdiv }

  function DivRoundUp(n: nat, d: nat): nat
    requires d > 0
  {
    U32(n + d - 1) / d
  }

  /** map_freq_to_ndiv */
  function MapFreqToNdiv(t: Limits, freq: nat): nat
    requires Usable(t)
  {
    U16(DivRoundUp(U32(U32(freq * t.pdiv) * t.mdiv), Ref(t)))
  }

  /** map_ndiv_to_freq */
  function MapNdivToFreq(t: Limits, ndiv: nat): nat
    requires Usable(t)
  {
    DividerPositive(t);
    U32(Ref(t) * ndiv) / Divider(t)
  }

  lemma DividerPositive(t: Limits)
    requires t.pdiv > 0 && t.mdiv > 0
    ensures Divider(t) > 0
  {
    MulMonotone(1, t.pdiv, t.mdiv);
  }

  /** clamp_ndiv */
  function ClampNdiv(t: Limits, ndiv: nat): nat {
    var low := if ndiv == 0 || ndiv < t.ndivMin then t.ndivMin else ndiv;
    if low > t.ndivMax then t.ndivMax else low
  }

  // ---------------------------------------------------------------- rounding

  lemma CeilBelow(x: nat, d: nat, n: nat)
    requires d > 0
    ensures (x + d - 1) / d <= n <==> x <= n * d
  {
    var c := (x + d - 1) / d;
    assert x + d - 1 == c * d + (x + d - 1) % d;
    if c <= n {
      MulMonotone(c, n, d);
    } else {
      MulMonotone(n + 1, c, d);
      assert (n + 1) * d == n * d + d;
    }
  }

  lemma FloorAbove(y: nat, q: nat, f: nat)
    requires q > 0
    ensures f <= y / q <==> f * q <= y
  {
    var c := y / q;
    assert y == c * q + y % q;
    if f <= c {
      MulMonotone(f, c, q);
    } else {
      MulMonotone(c + 1, f, q);
      assert (c + 1) * q == c * q + q;
    }
  }

  /** No 32-bit or 16-bit overflow on the way from this frequency to a divider. */
  predicate FreqFits(t: Limits, freq: nat) {
    freq * Divider(t) + Ref(t) <= 0x1_0000_0000 && freq * Divider(t) <= 0xFFFF * Ref(t)
  }

  predicate NdivFits(t: Limits, ndiv: nat) {
    Ref(t) * ndiv < 0x1_0000_0000
  }

  /** Without overflow a frequency is rounded up to the least divider that reaches it. */
  lemma FreqToNdivIs(t: Limits, freq: nat)
    requires Usable(t) && FreqFits(t, freq)
    ensures MapFreqToNdiv(t, freq) == (freq * Divider(t) + Ref(t) - 1) / Ref(t)
  {
    var x := freq * Divider(t);
    Products(freq, t.pdiv, t.mdiv);
    NoWrap(freq * t.pdiv, t.mdiv);
    CeilBelow(x, Ref(t), 0xFFFF);
    assert MapFreqToNdiv(t, freq) == U16(DivRoundUp(x, Ref(t)));
  }

  lemma NoWrap(a: nat, m: nat)
    requires a * m < 0x1_0000_0000 && a < 0x1_0000_0000
    ensures U32(U32(a) * m) == a * m
  {
  }

  lemma Products(a: nat, b: nat, c: nat)
    requires c > 0
    ensures a * b * c == a * (b * c) && a * b <= a * (b * c)
  {
    Associate(a, b, c);
    MulMonotone(1, c, a * b);
    assert c * (a * b) == a * b * c;
  }

  lemma Associate(a: nat, b: nat, c: nat)
    ensures a * b * c == a * (b * c)
  {
  }

  /** The two maps are a Galois connection: a frequency needs at most divider n exactly when
      divider n reaches it. */
  lemma FreqNdivGalois(t: Limits, freq: nat, ndiv: nat)
    requires Usable(t) && FreqFits(t, freq) && NdivFits(t, ndiv)
    ensures MapFreqToNdiv(t, freq) <= ndiv <==> freq <= MapNdivToFreq(t, ndiv)
  {
    FreqToNdivIs(t, freq);
    NdivToFreqIs(t, ndiv);
    DividerPositive(t);
    Galois(freq, Divider(t), Ref(t), ndiv);
  }

  lemma Galois(f: nat, q: nat, d: nat, n: nat)
    requires q > 0 && d > 0
    ensures (f * q + d - 1) / d <= n <==> f <= d * n / q
  {
    CeilBelow(f * q, d, n);
    FloorAbove(d * n, q, f);
    assert d * n == n * d;
  }

  lemma NdivToFreqIs(t: Limits, ndiv: nat)
    requires Usable(t) && NdivFits(t, ndiv)
    ensures Divider(t) > 0 && MapNdivToFreq(t, ndiv) == Ref(t) * ndiv / Divider(t)
  {
    DividerPositive(t);
  }

  /** Going to a frequency and back gives the divider less what the rounding down lost, in
      whole reference clocks; so it gives the divider exactly when less than one was lost. */
  lemma NdivRoundTrip(t: Limits, ndiv: nat)
    requires Usable(t) && ndiv < 0x1_0000 && Ref(t) * (ndiv + 1) <= 0x1_0000_0000
    ensures var lost := Ref(t) * ndiv % Divider(t);
      MapFreqToNdiv(t, MapNdivToFreq(t, ndiv)) == ndiv - lost / Ref(t)
    ensures MapFreqToNdiv(t, MapNdivToFreq(t, ndiv)) == ndiv <==> Ref(t) * ndiv % Divider(t) < Ref(t)
    ensures Divider(t) <= Ref(t) ==> MapFreqToNdiv(t, MapNdivToFreq(t, ndiv)) == ndiv
  {
    var d, q := Ref(t), Divider(t);
    DividerPositive(t);
    var y := d * ndiv;
    assert d * (ndiv + 1) == y + d;
    var f, lost := y / q, y % q;
    assert y == f * q + lost;
    assert MapNdivToFreq(t, ndiv) == f;
    assert 0xFFFF * d >= y by { MulMonotone(ndiv, 0xFFFF, d); }
    FreqToNdivIs(t, f);
    LostClocks(ndiv, d, lost);
  }

  lemma LostClocks(ndiv: nat, d: nat, lost: nat)
    requires d > 0 && lost <= ndiv * d
    ensures (ndiv * d - lost + d - 1) / d == ndiv - lost / d
    ensures lost / d <= ndiv && (lost / d == 0 <==> lost < d)
  {
    var k, r := lost / d, lost % d;
    assert lost == k * d + r;
    if k > ndiv { MulGap(ndiv, k, d); }
    assert (ndiv - k) * d == ndiv * d - k * d;
    DivUnique(ndiv * d - lost + d - 1, d, ndiv - k, d - 1 - r);
    if k > 0 { MulMonotone(1, k, d); }
  }

  /** Selecting a frequency of the table programs the divider it was built from, exactly when
      rounding it down lost less than a reference clock. */
  lemma SelectProgramsEntry(t: Limits, ndiv: nat)
    requires Usable(t) && t.ndivMin <= ndiv <= t.ndivMax && Ref(t) * (ndiv + 1) <= 0x1_0000_0000
    ensures ClampNdiv(t, MapFreqToNdiv(t, MapNdivToFreq(t, ndiv))) == ndiv
      <==> Ref(t) * ndiv % Divider(t) < Ref(t) || ndiv == t.ndivMin
  {
    NdivRoundTrip(t, ndiv);
  }

  /** The least divider of the cluster that reaches a rate, or the greatest if none does. */
  ghost predicate LeastReaching(t: Limits, rate: nat, ndiv: nat)
    requires Usable(t)
  {
    && t.ndivMin <= ndiv <= t.ndivMax
    && (rate <= MapNdivToFreq(t, ndiv) || ndiv == t.ndivMax)
    && forall n :: t.ndivMin <= n < ndiv ==> MapNdivToFreq(t, n) < rate
  }

  /** tegra_update_cpu_speed: what is written to the divider request register, if anything.
      It is always a divider of the cluster, and without overflow the least one that reaches
      the rate. */
  method UpdateCpuSpeed(t: Limits, rate: nat) returns (request: Option<nat>)
    requires t.refClkHz != 0 ==> Usable(t)
    ensures request.None? <==> t.refClkHz == 0
    ensures request.Some? ==> t.ndivMin <= request.value <= t.ndivMax
    ensures request.Some? ==> request.value == ClampNdiv(t, MapFreqToNdiv(t, rate))
    ensures request.Some? && FreqFits(t, rate) && NdivFits(t, t.ndivMax) ==> LeastReaching(t, rate, request.value)
  {
    if t.refClkHz == 0 {
      return None;
    }
    var ndiv := MapFreqToNdiv(t, rate);
    if FreqFits(t, rate) && NdivFits(t, t.ndivMax) { ClampedReaches(t, rate); }
    ndiv := ClampNdiv(t, ndiv);
    request := Some(ndiv);
  }

  lemma ClampedReaches(t: Limits, rate: nat)
    requires Usable(t) && FreqFits(t, rate) && NdivFits(t, t.ndivMax)
    ensures LeastReaching(t, rate, ClampNdiv(t, MapFreqToNdiv(t, rate)))
  {
    var ndiv := ClampNdiv(t, MapFreqToNdiv(t, rate));
    forall n | t.ndivMin <= n < ndiv ensures MapNdivToFreq(t, n) < rate {
      SmallerFits(t, n);
      FreqNdivGalois(t, rate, n);
    }
    FreqNdivGalois(t, rate, t.ndivMax);
    SmallerFits(t, ndiv);
    FreqNdivGalois(t, rate, ndiv);
  }

  // ---------------------------------------------------------------- the table

  /** The table's step in dividers: 50 MHz, or what the device tree asks for, in multiples of
      mdiv. */
  function StepSize(t: Limits, dtStep: nat): nat
    requires t.refClkHz > 0 && t.mdiv > 0
  {
    if dtStep != 0 then U16(t.mdiv * DivRoundUp(dtStep, t.mdiv))
    else U16(t.mdiv * DivRoundUp(CPUFREQ_TBL_STEP_HZ, t.refClkHz))
  }

  /** A quotient rounded up, without any overflow. */
  function Ceil(n: nat, d: nat): nat
    requires d > 0
  {
    (n + d - 1) / d
  }

  /** A step from the device tree becomes the least multiple of mdiv that is not smaller, if
      and only if that is a 16-bit number; at 2^16 it becomes 0. */
  lemma StepIsLeastMultiple(t: Limits, dtStep: nat)
    requires t.refClkHz > 0 && 0 < t.mdiv < 0x1_0000 && 0 < dtStep < 0x1_0000
    ensures var step, m := StepSize(t, dtStep), t.mdiv * Ceil(dtStep, t.mdiv);
      && dtStep <= m < dtStep + t.mdiv
      && (step % t.mdiv == 0 && dtStep <= step < dtStep + t.mdiv <==> m < 0x1_0000)
      && (step == 0 <==> m == 0x1_0000)
  {
    var m := t.mdiv;
    var c := Ceil(dtStep, m);
    assert dtStep + m - 1 == c * m + (dtStep + m - 1) % m;
    assert m * c == c * m;
    DivUnique(c * m, m, c, 0);
  }

  /** Without one it becomes mdiv times the least number of reference clocks that make 50 MHz,
      if and only if neither the 32-bit sum nor the 16-bit product wraps. */
  lemma DefaultStep(t: Limits, n: nat)
    requires Usable(t)
    ensures var c := Ceil(CPUFREQ_TBL_STEP_HZ, t.refClkHz);
      && (c <= n <==> CPUFREQ_TBL_STEP_HZ <= n * t.refClkHz)
      && (StepSize(t, 0) == t.mdiv * c <==> SumFits(t) && t.mdiv * c < 0x1_0000)
      && (StepSize(t, 0) == 0 <==> !SumFits(t) || t.mdiv * c % 0x1_0000 == 0)
  {
    var c := Ceil(CPUFREQ_TBL_STEP_HZ, t.refClkHz);
    CeilBelow(CPUFREQ_TBL_STEP_HZ, t.refClkHz, n);
    CeilBelow(CPUFREQ_TBL_STEP_HZ, t.refClkHz, 0);
    if SumFits(t) {
      assert StepSize(t, 0) == U16(t.mdiv * c);
    } else {
      SumWraps(t.refClkHz);
      assert StepSize(t, 0) == U16(t.mdiv * 0) == 0;
      MulMonotone(1, c, t.mdiv);
      assert c * t.mdiv == t.mdiv * c;
    }
  }

  /** The rounding's 32-bit sum does not wrap. */
  predicate SumFits(t: Limits) {
    CPUFREQ_TBL_STEP_HZ + t.refClkHz <= 0x1_0000_0000
  }

  lemma SumWraps(clock: nat)
    requires CPUFREQ_TBL_STEP_HZ + clock > 0x1_0000_0000 > clock
    ensures DivRoundUp(CPUFREQ_TBL_STEP_HZ, clock) == 0
  {
    DivUnique(CPUFREQ_TBL_STEP_HZ + clock - 1 - 0x1_0000_0000, clock, 0,
              CPUFREQ_TBL_STEP_HZ + clock - 1 - 0x1_0000_0000);
  }

  /** Two clusters whose step is 0: 16384 at a clock of 12.5 MHz, and 32768 with a step of
      32769 from the device tree. */
  lemma StepVanishes(t: Limits, u: Limits)
    requires Usable(t) && t.mdiv == 0x4000 && t.refClkHz == 12_500_000
    requires Usable(u) && u.mdiv == 0x8000
    ensures StepSize(t, 0) == 0 && StepSize(u, 0x8001) == 0
  {
  }

  /** How often the loop runs: the number of steps below the maximum. */
  function StepsBelow(low: nat, high: nat, step: nat): nat
    requires step > 0
    decreases high - low
  {
    if low >= high then 0 else 1 + StepsBelow(low + step, high, step)
  }

  /** The i-th divider from `low` on. */
  function Nth(low: nat, step: nat, i: nat): nat {
    if i == 0 then low else Nth(low, step, i - 1) + step
  }

  lemma {:induction false} NthIs(low: nat, step: nat, i: nat)
    ensures Nth(low, step, i) == low + i * step
  {
    if i > 0 {
      NthIs(low, step, i - 1);
      assert i * step == (i - 1) * step + step;
    }
  }

  lemma {:induction false} NthShift(low: nat, step: nat, i: nat)
    ensures Nth(low + step, step, i) == Nth(low, step, i + 1)
  {
    if i > 0 { NthShift(low, step, i - 1); }
  }

  lemma {:induction false} NthAscends(low: nat, step: nat, i: nat, j: nat)
    requires i <= j
    ensures low <= Nth(low, step, i) <= Nth(low, step, j)
    ensures step > 0 && i < j ==> Nth(low, step, i) < Nth(low, step, j)
    decreases j
  {
    if i < j {
      NthAscends(low, step, i, j - 1);
    } else if i > 0 {
      NthAscends(low, step, i - 1, j - 1);
    }
  }

  /** The divider an entry is built from. */
  function EntryNdiv(t: Limits, step: nat, i: nat): nat
    requires step > 0
  {
    if i < StepsBelow(t.ndivMin, t.ndivMax, step) then Nth(t.ndivMin, step, i) else t.ndivMax
  }

  /** max_freq_steps as the driver computes it, in 16 bits. */
  function MaxFreqSteps(t: Limits, step: nat): nat
    requires step > 0 && t.ndivMin <= t.ndivMax
  {
    var delta := t.ndivMax - t.ndivMin;
    U16((if delta == 0 then 1 else delta / step + 1) + (if delta % step != 0 then 1 else 0))
  }

  /** It is the number of entries the loop and the last assignment write. */
  lemma {:induction false} StepsCount(low: nat, high: nat, step: nat)
    requires step > 0 && low <= high
    ensures StepsBelow(low, high, step) == (high - low) / step + if (high - low) % step != 0 then 1 else 0
    decreases high - low
  {
    var delta := high - low;
    if delta == 0 {
    } else if delta < step {
      DivUnique(delta, step, 0, delta);
    } else {
      StepsCount(low + step, high, step);
      OneStepMore(delta, step);
    }
  }

  lemma MaxStepsIs(t: Limits, step: nat)
    requires step > 0 && t.ndivMin <= t.ndivMax
    ensures MaxFreqSteps(t, step) == U16(StepsBelow(t.ndivMin, t.ndivMax, step) + 1)
  {
    StepsCount(t.ndivMin, t.ndivMax, step);
    if t.ndivMax == t.ndivMin { DivUnique(0, step, 0, 0); }
  }

  lemma OneStepMore(delta: nat, step: nat)
    requires 0 < step <= delta
    ensures delta / step == (delta - step) / step + 1 && delta % step == (delta - step) % step
  {
    var q, r := (delta - step) / step, (delta - step) % step;
    assert delta - step == q * step + r;
    assert (q + 1) * step == q * step + step;
    DivUnique(delta, step, q + 1, r);
  }

  lemma {:induction false} StepsReach(low: nat, high: nat, step: nat, i: nat)
    requires step > 0
    ensures i < StepsBelow(low, high, step) <==> Nth(low, step, i) < high
    decreases i
  {
    if i > 0 && low < high {
      StepsReach(low + step, high, step, i - 1);
      NthShift(low, step, i - 1);
    } else {
      NthAscends(low, step, 0, i);
    }
  }

  /** What the finished table is: one entry a step from the minimum on, the maximum, and the
      end mark in the last place that was allocated. */
  ghost predicate IsTable(t: Limits, step: nat, table: seq<nat>)
    requires Usable(t) && step > 0
  {
    var n := StepsBelow(t.ndivMin, t.ndivMax, step);
    && |table| == n + 2 && table[n + 1] == CPUFREQ_TABLE_END
    && forall i :: 0 <= i <= n ==> table[i] == MapNdivToFreq(t, EntryNdiv(t, step, i))
  }

  /** The loop's last divider, the first that is not below the maximum, is a 16-bit number. */
  predicate StepFits(t: Limits, step: nat)
    requires step > 0
  {
    Nth(t.ndivMin, step, StepsBelow(t.ndivMin, t.ndivMax, step)) < 0x1_0000
  }

  /** The loop's divider after `i` turns, in 16 bits. */
  function LoopNdiv(t: Limits, step: nat, i: nat): nat {
    if i == 0 then t.ndivMin else U16(LoopNdiv(t, step, i - 1) + step)
  }

  /** Below the maximum nothing wraps. */
  lemma {:induction false} LoopBelow(t: Limits, step: nat, i: nat)
    requires Usable(t) && 0 < step && i < StepsBelow(t.ndivMin, t.ndivMax, step)
    ensures LoopNdiv(t, step, i) == Nth(t.ndivMin, step, i) < t.ndivMax
    decreases i
  {
    StepsReach(t.ndivMin, t.ndivMax, step, i);
    if i > 0 { LoopBelow(t, step, i - 1); }
  }

  /** After as many turns as there are steps below the maximum the loop stops, if and only if
      its divider has not wrapped; else it starts again from below. */
  lemma LoopStops(t: Limits, step: nat)
    requires Usable(t) && 0 < step < 0x1_0000
    ensures LoopNdiv(t, step, StepsBelow(t.ndivMin, t.ndivMax, step)) >= t.ndivMax <==> StepFits(t, step)
  {
    var n := StepsBelow(t.ndivMin, t.ndivMax, step);
    StepsReach(t.ndivMin, t.ndivMax, step, n);
    if n > 0 {
      LoopBelow(t, step, n - 1);
      LastStep(LoopNdiv(t, step, n - 1), step, t.ndivMax);
    }
  }

  lemma LastStep(ndiv: nat, step: nat, max: nat)
    requires ndiv < max < 0x1_0000 && step < 0x1_0000 && max <= ndiv + step
    ensures U16(ndiv + step) >= max <==> ndiv + step < 0x1_0000
  {
  }

  /** Steps of two from 0 to 65535: the divider comes to 65536, which is 0 again. */
  lemma LoopWraps(t: Limits)
    requires Usable(t) && t.ndivMin == 0 && t.ndivMax == 0xFFFF
    ensures !StepFits(t, 2) && StepsBelow(0, 0xFFFF, 2) == 0x8000 && LoopNdiv(t, 2, 0x8000) == 0
  {
    StepsCount(0, 0xFFFF, 2);
    NthIs(0, 2, 0x8000);
    LoopBelow(t, 2, 0x7FFF);
    NthIs(0, 2, 0x7FFF);
  }

  /** The number of entries is a 16-bit number. */
  predicate CountFits(t: Limits, step: nat)
    requires step > 0
  {
    StepsBelow(t.ndivMin, t.ndivMax, step) + 1 < 0x1_0000
  }

  /** There is one range too wide for that: every divider from 0 to 65535. No entries are
      counted, and only the end mark has a place. */
  lemma CountWraps(t: Limits, step: nat)
    requires Usable(t) && step > 0
    ensures !CountFits(t, step) <==> step == 1 && t.ndivMin == 0 && t.ndivMax == 0xFFFF
    ensures !CountFits(t, step) ==> MaxFreqSteps(t, step) == 0
  {
    var delta := t.ndivMax - t.ndivMin;
    StepsCount(t.ndivMin, t.ndivMax, step);
    MaxStepsIs(t, step);
    if step == 1 {
      DivUnique(delta, 1, delta, 0);
    } else {
      MulMonotone(2, step, delta / step);
      assert delta / step * step + delta % step == delta;
    }
  }

  /** How the table of a cluster comes out: filled, written behind its end, or not at all,
      because the driver divides by a step of 0. */
  datatype Outcome = Filled | BehindEnd | DividedByZero

  /** init_freqtbls for one cluster: it divides by zero exactly if the step has vanished, and
      otherwise is through with a table filled exactly if and only if neither the divider nor
      the number of entries wraps. The loop is run as long as it writes into the table. */
  method InitFreqTable(t: Limits, dtStep: nat) returns (ftbl: array?<nat>, outcome: Outcome)
    requires Usable(t)
    ensures ftbl == null <==> outcome == DividedByZero
    ensures outcome == DividedByZero <==> StepSize(t, dtStep) == 0
    ensures ftbl != null ==>
      var step := StepSize(t, dtStep);
      && fresh(ftbl) && ftbl.Length == MaxFreqSteps(t, step) + 1
      && (outcome == Filled <==> StepFits(t, step) && CountFits(t, step))
      && (outcome == Filled ==> IsTable(t, step, ftbl[..]))
  {
    var step := StepSize(t, dtStep);
    if step == 0 {
      return null, DividedByZero;
    }
    var inside: bool;
    ftbl, inside := FillTable(t, step);
    outcome := if inside then Filled else BehindEnd;
  }

  /** The table for a step. */
  method FillTable(t: Limits, step: nat) returns (ftbl: array<nat>, inside: bool)
    requires Usable(t) && 0 < step < 0x1_0000
    ensures fresh(ftbl) && ftbl.Length == MaxFreqSteps(t, step) + 1
    ensures inside <==> StepFits(t, step) && CountFits(t, step)
    ensures inside ==> IsTable(t, step, ftbl[..])
  {
    var maxFreqSteps := MaxFreqSteps(t, step);
    ftbl := new nat[maxFreqSteps + 1];
    MaxStepsIs(t, step);
    CountWraps(t, step);
    var index := FillEntries(t, step, ftbl);
    if index + 1 >= ftbl.Length {
      return ftbl, false;
    }
    ftbl[index] := MapNdivToFreq(t, t.ndivMax);
    index := index + 1;
    ftbl[index] := CPUFREQ_TABLE_END;
    inside := true;
  }

  predicate EntryIs(t: Limits, step: nat, i: nat, frequency: nat)
    requires Usable(t)
  {
    frequency == MapNdivToFreq(t, Nth(t.ndivMin, step, i))
  }

  /** The loop over the dividers below the maximum, as far as the table goes. */
  method FillEntries(t: Limits, step: nat, ftbl: array<nat>) returns (index: nat)
    requires Usable(t) && 0 < step < 0x1_0000
    requires ftbl.Length <= StepsBelow(t.ndivMin, t.ndivMax, step) + 2
    modifies ftbl
    ensures var n := StepsBelow(t.ndivMin, t.ndivMax, step);
      && index <= ftbl.Length && (index >= n || index == ftbl.Length)
      && (ftbl.Length == n + 2 ==> (index == n <==> StepFits(t, step)))
    ensures forall i :: 0 <= i < StepsBelow(t.ndivMin, t.ndivMax, step) && i < ftbl.Length ==>
      EntryIs(t, step, i, ftbl[i])
  {
    ghost var n := StepsBelow(t.ndivMin, t.ndivMax, step);
    var ndiv;
    index, ndiv := 0, t.ndivMin;
    while ndiv < t.ndivMax && index < ftbl.Length
      invariant index <= ftbl.Length && ndiv == LoopNdiv(t, step, index)
      invariant index > n ==> LoopNdiv(t, step, n) < t.ndivMax
      invariant forall i :: 0 <= i < index && i < n ==> EntryIs(t, step, i, ftbl[i])
      decreases ftbl.Length - index
    {
      if index < n { LoopBelow(t, step, index); }
      var frequency := MapNdivToFreq(t, ndiv);
      assert index < n ==> EntryIs(t, step, index, frequency);
      ftbl[index] := frequency;
      index, ndiv := index + 1, U16(ndiv + step);
    }
    if index < n { LoopBelow(t, step, index); }
    LoopStops(t, step);
  }

  /** The table ascends; strictly, if a divider step is at least one kHz. */
  lemma TableAscends(t: Limits, step: nat, table: seq<nat>, i: nat, j: nat)
    requires Usable(t) && step > 0 && IsTable(t, step, table) && NdivFits(t, t.ndivMax)
    requires i < j < |table| - 1
    ensures table[i] <= table[j]
    ensures Divider(t) <= Ref(t) ==> table[i] < table[j]
  {
    EntriesAscend(t, step, i, j);
    var a, b := EntryNdiv(t, step, i), EntryNdiv(t, step, j);
    SmallerFits(t, b);
    FreqAscends(t, a, b);
  }

  lemma SmallerFits(t: Limits, ndiv: nat)
    requires ndiv <= t.ndivMax && NdivFits(t, t.ndivMax)
    ensures NdivFits(t, ndiv)
  {
    MulMonotone(ndiv, t.ndivMax, Ref(t));
    assert ndiv * Ref(t) == Ref(t) * ndiv && t.ndivMax * Ref(t) == Ref(t) * t.ndivMax;
  }

  lemma EntriesAscend(t: Limits, step: nat, i: nat, j: nat)
    requires step > 0 && i < j <= StepsBelow(t.ndivMin, t.ndivMax, step)
    ensures t.ndivMin <= EntryNdiv(t, step, i) < EntryNdiv(t, step, j) <= t.ndivMax
  {
    StepsReach(t.ndivMin, t.ndivMax, step, i);
    StepsReach(t.ndivMin, t.ndivMax, step, j);
    NthAscends(t.ndivMin, step, i, j);
  }

  lemma FreqAscends(t: Limits, a: nat, b: nat)
    requires Usable(t) && a < b && NdivFits(t, b)
    ensures MapNdivToFreq(t, a) <= MapNdivToFreq(t, b)
    ensures Divider(t) <= Ref(t) ==> MapNdivToFreq(t, a) < MapNdivToFreq(t, b)
  {
    DividerPositive(t);
    MulGap(a, b, Ref(t));
    assert Ref(t) * a == a * Ref(t) && Ref(t) * b == b * Ref(t);
    QuotientsAscend(Ref(t) * a, Ref(t) * b, Ref(t), Divider(t));
  }

  lemma QuotientsAscend(x: nat, y: nat, d: nat, q: nat)
    requires q > 0 && x + d <= y
    ensures x / q <= y / q
    ensures q <= d ==> x / q < y / q
  {
    var f := x / q;
    assert x == f * q + x % q;
    FloorAbove(y, q, f);
    FloorAbove(y, q, f + 1);
    assert (f + 1) * q == f * q + q;
  }

  /** Every table entry can be selected: it programs the divider it stands for, if nothing
      overflows and a divider step is at least one kHz. */
  lemma EverySelectionIsExact(t: Limits, step: nat, table: seq<nat>, i: nat)
    requires Usable(t) && step > 0 && IsTable(t, step, table) && i < |table| - 1
    requires Divider(t) <= Ref(t) && Ref(t) * (t.ndivMax + 1) <= 0x1_0000_0000
    ensures ClampNdiv(t, MapFreqToNdiv(t, table[i])) == EntryNdiv(t, step, i)
  {
    var n := EntryNdiv(t, step, i);
    StepsReach(t.ndivMin, t.ndivMax, step, i);
    NthAscends(t.ndivMin, step, 0, i);
    MulMonotone(n + 1, t.ndivMax + 1, Ref(t));
    assert (n + 1) * Ref(t) == Ref(t) * (n + 1) && (t.ndivMax + 1) * Ref(t) == Ref(t) * (t.ndivMax + 1);
    DividerPositive(t);
    assert Ref(t) * n % Divider(t) < Divider(t);
    SelectProgramsEntry(t, n);
  }
}
