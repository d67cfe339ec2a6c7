/** The sampling plan and sampling loop of a run without DMA streaming. */
module RunPlan {
  import opened Arithmetic

  const MAX_SAMPLES: nat := 16384
  const NUM_CHANNELS: nat := 8 // also the padding behind the sample buffer

  // sleep per sample, number of samples, time left over (all times in microseconds)
  datatype Plan = Plan(sleep: nat, samples: nat, left: nat)

  function PeriodOf(optime: nat, sampling: nat): (period: nat) {
    var total := optime / MAX_SAMPLES;
    (if total < sampling then 0 else total - sampling) + sampling
  }

  /** The source divides by this; it is zero exactly when sampling takes no time, as without channels,
      and the run is shorter than the largest number of samples. */
  lemma PeriodIsZero(optime: nat, sampling: nat)
    ensures PeriodOf(optime, sampling) == 0 <==> sampling == 0 && optime < MAX_SAMPLES
  {
  }

  // Number of samples before the clamp.
  function Wanted(optime: nat, sampling: nat): nat
    requires PeriodOf(optime, sampling) > 0
  {
    optime / PeriodOf(optime, sampling)
  }

  function MakePlan(optime: nat, sampling: nat): Plan
    requires PeriodOf(optime, sampling) > 0
  {
    var total := optime / MAX_SAMPLES;
    var sleep := if total < sampling then 0 else total - sampling;
    var period := sleep + sampling;
    var wanted := optime / period;
    Plan(sleep, if wanted > MAX_SAMPLES then MAX_SAMPLES else wanted, optime % period)
  }

  // How long the plan takes: every sample costs its acquisition and its sleep.
  function PlannedTime(p: Plan, sampling: nat): nat {
    p.samples * (p.sleep + sampling) + p.left
  }

  /** Exactly when the clamp acts: the sampling is fast enough to be slowed down to 16384 samples,
      and the remainder of that division holds at least one more period. */
  lemma ClampActs(optime: nat, sampling: nat)
    requires PeriodOf(optime, sampling) > 0
    ensures Wanted(optime, sampling) > MAX_SAMPLES <==>
            sampling <= optime / MAX_SAMPLES <= optime % MAX_SAMPLES
  {
    var total, rest, period := optime / MAX_SAMPLES, optime % MAX_SAMPLES, PeriodOf(optime, sampling);
    var wanted := optime / period;
    DivMod(optime, MAX_SAMPLES);
    DivMod(optime, period);
    if total < sampling {
      // at least total + 1 per sample
      assert period == sampling;
      if wanted > MAX_SAMPLES { Apart(MAX_SAMPLES, wanted, period); }
      assert wanted <= MAX_SAMPLES by {
        assert wanted > MAX_SAMPLES ==> wanted * period >= MAX_SAMPLES * period + period;
        assert MAX_SAMPLES * period + period >= MAX_SAMPLES * (total + 1);
      }
    } else {
      assert period == total;
      if wanted > MAX_SAMPLES {
        Apart(MAX_SAMPLES, wanted, total);
      } else {
        assert wanted * total <= MAX_SAMPLES * total by {
          if wanted < MAX_SAMPLES { Apart(wanted, MAX_SAMPLES, total); }
        }
      }
    }
  }

  /** The plan never takes longer than asked for, never more than 16384 samples, and falls short by
      less than 16384 microseconds; it is exact unless the clamp acts. */
  lemma PlanIsAccurate(optime: nat, sampling: nat)
    requires PeriodOf(optime, sampling) > 0
    ensures var p := MakePlan(optime, sampling);
            && p.samples <= MAX_SAMPLES
            && optime - MAX_SAMPLES < PlannedTime(p, sampling) <= optime
            && (PlannedTime(p, sampling) == optime <==> Wanted(optime, sampling) <= MAX_SAMPLES)
  {
    var total, period, wanted := optime / MAX_SAMPLES, PeriodOf(optime, sampling), Wanted(optime, sampling);
    DivMod(optime, period);
    if wanted > MAX_SAMPLES {
      ClampActs(optime, sampling);
      DivMod(optime, MAX_SAMPLES);
      assert period == total;
      Apart(MAX_SAMPLES, wanted, period);
      assert PlannedTime(MakePlan(optime, sampling), sampling) == MAX_SAMPLES * total + optime % total;
    }
  }

  /** The plan samples as often as 16384 samples allow: every sample sleeps for the longest time with
      which 16384 of them still fit, or not at all if they do not fit even so; there are 16384 samples
      or one more would not fit; and what is left over is less than one period. */
  lemma PlanIsDense(optime: nat, sampling: nat)
    requires PeriodOf(optime, sampling) > 0
    ensures var p := MakePlan(optime, sampling); var period := p.sleep + sampling;
            && (p.sleep > 0 ==> 16384 * period <= optime) && 16384 * (period + 1) > optime
            && p.samples * period <= optime && p.left < period
            && (p.samples == 16384 || (p.samples < 16384 && (p.samples + 1) * period > optime))
            && (p.samples < 16384 ==> p.samples * period + p.left == optime)
  {
    var total, period, wanted := optime / MAX_SAMPLES, PeriodOf(optime, sampling), Wanted(optime, sampling);
    DivMod(optime, MAX_SAMPLES);
    DivMod(optime, period);
    assert wanted * period <= optime < wanted * period + period == (wanted + 1) * period;
    if wanted > MAX_SAMPLES { Apart(MAX_SAMPLES, wanted, period); }
  }

  // ---------------------------------------------------------------- the sampling loop

  // One acquisition always writes all eight channels.
  method SampleRaw(buffer: array<bv16>, at: nat, conversion: seq<bv16>)
    requires at + NUM_CHANNELS <= buffer.Length && |conversion| == NUM_CHANNELS
    modifies buffer
    ensures forall i | 0 <= i < buffer.Length ::
              buffer[i] == if at <= i < at + NUM_CHANNELS then conversion[i - at] else old(buffer[i])
  {
    forall i | at <= i < at + NUM_CHANNELS { buffer[i] := conversion[i - at]; }
  }

  // Position of channel k of sample s when c channels are kept.
  function EntryAt(s: nat, k: nat, c: nat): nat { s * c + k }

  lemma EntryOrder(s: nat, t: nat, k: nat, c: nat)
    ensures EntryAt(s, k, c) == EntryAt(s, 0, c) + k
    ensures s < t && k < c ==> EntryAt(s, k, c) < EntryAt(t, 0, c)
    ensures s <= t ==> EntryAt(s, 0, c) <= EntryAt(t, 0, c)
  {
    if s < t { Apart(s, t, c); }
  }

  /** Each acquisition overwrites the surplus of the one before and spills into its successor's
      place or the padding; in the end entry s * c + k is channel k of sample s. */
  method TakeSamples(conversions: seq<seq<bv16>>, channels: nat) returns (buffer: array<bv16>)
    requires channels <= NUM_CHANNELS && forall v | v in conversions :: |v| == NUM_CHANNELS
    ensures buffer.Length == |conversions| * channels + 8
    ensures forall s, k | 0 <= s < |conversions| && 0 <= k < channels ::
              EntryAt(s, k, channels) < buffer.Length && buffer[EntryAt(s, k, channels)] == conversions[s][k]
  {
    hide EntryAt;
    var n := |conversions|;
    buffer := new bv16[n * channels + NUM_CHANNELS](i => 0);
    EndOfEntries(n, channels);
    var sample := 0;
    while sample < n
      invariant 0 <= sample <= n && fresh(buffer) && buffer.Length == EntryAt(n, 0, channels) + NUM_CHANNELS
      invariant forall s, k | 0 <= s < sample && 0 <= k < channels ::
                  EntryAt(s, k, channels) < buffer.Length && buffer[EntryAt(s, k, channels)] == conversions[s][k]
    {
      var at := sample * channels;
      EndOfEntries(sample, channels);
      EntryOrder(sample, n, 0, channels);
      SampleRaw(buffer, at, conversions[sample]);
      forall s, k | 0 <= s < sample + 1 && 0 <= k < channels
        ensures EntryAt(s, k, channels) < buffer.Length && buffer[EntryAt(s, k, channels)] == conversions[s][k]
      {
        EntryOrder(s, sample, k, channels);
        EntryOrder(s, n, k, channels);
      }
      sample := sample + 1;
    }
  }

  lemma EndOfEntries(n: nat, c: nat)
    ensures EntryAt(n, 0, c) == n * c
  {
  }
}
