/** Thresholds and intervals, scaled from the radio's data rate. Rates are positive reals. */
module Policies {
  const BASE_DATA_KBPS: real := 3.52

  /** Nearest integer, halves away from zero, for what is never negative here. */
  function Round(x: real): int {
    (x + 0.5).Floor
  }

  function Max(x: real, y: real): real {
    if x < y then y else x
  }

  function QueueScale(kbps: real): real {
    kbps / BASE_DATA_KBPS
  }

  function RateScale(kbps: real): real
    requires kbps > 0.0
  {
    BASE_DATA_KBPS / kbps
  }

  datatype OutgoingPolicy = OutgoingPolicy(txRateLimitMsec: int, outgoingQueueMax: int)
  datatype SyncPolicy = SyncPolicy(refillThresh: int, pauseThresh: int, noteIdleSecs: int, reconcileIdleSecs: int)

  function OutgoingPolicyFor(kbps: real): OutgoingPolicy
    requires kbps > 0.0
  {
    OutgoingPolicy(
      Round(Max(10_000.0 * RateScale(kbps), 1.0)),
      Round(Max(100.0 * QueueScale(kbps), 1.0)))
  }

  function SyncPolicyFor(kbps: real): SyncPolicy
    requires kbps > 0.0
  {
    var refill := Round(Max(10.0 * QueueScale(kbps), 1.0));
    var pause := Round(Max(50.0 * QueueScale(kbps), (refill + 1) as real));
    SyncPolicy(
      refill, pause,
      Round(Max(60.0 * RateScale(kbps), 1.0)),
      Round(Max(120.0 * RateScale(kbps), 1.0)))
  }

  lemma RoundAtLeast(x: real, n: int)
    requires x >= n as real
    ensures Round(x) >= n
  {
    assert x + 0.5 >= n as real;
  }

  /** What every positive data rate gives: a paced radio, and a refill threshold strictly below the pause threshold. */
  lemma ThresholdsOrdered(kbps: real)
    requires kbps > 0.0
    ensures OutgoingPolicyFor(kbps).txRateLimitMsec >= 1 && OutgoingPolicyFor(kbps).outgoingQueueMax >= 1
    ensures 1 <= SyncPolicyFor(kbps).refillThresh < SyncPolicyFor(kbps).pauseThresh
    ensures SyncPolicyFor(kbps).noteIdleSecs >= 1 && SyncPolicyFor(kbps).reconcileIdleSecs >= 1
  {
    var q, r := QueueScale(kbps), RateScale(kbps);
    RoundAtLeast(Max(10_000.0 * r, 1.0), 1);
    RoundAtLeast(Max(100.0 * q, 1.0), 1);
    RoundAtLeast(Max(10.0 * q, 1.0), 1);
    var refill := Round(Max(10.0 * q, 1.0));
    RoundAtLeast(Max(50.0 * q, (refill + 1) as real), refill + 1);
    RoundAtLeast(Max(60.0 * r, 1.0), 1);
    RoundAtLeast(Max(120.0 * r, 1.0), 1);
  }

  /** One queue alone can fill up to the pause threshold exactly when the rate is at least 0.0528 kbps. */
  lemma PauseFitsQueueIff(kbps: real)
    requires kbps > 0.0
    ensures SyncPolicyFor(kbps).pauseThresh <= OutgoingPolicyFor(kbps).outgoingQueueMax <==> kbps >= 0.0528
  {
    var q := QueueScale(kbps);
    assert q * BASE_DATA_KBPS == kbps;
    ThresholdsByScale(q);
  }

  /** Since a queue can hold one frame more than its maximum, one queue alone can trigger a pause at every rate. */
  lemma PauseAlwaysReachable(kbps: real)
    requires kbps > 0.0
    ensures SyncPolicyFor(kbps).pauseThresh <= OutgoingPolicyFor(kbps).outgoingQueueMax + 1
  {
    var q := QueueScale(kbps);
    ThresholdsByScale(q);
    if q < 0.015 {
      assert Round(Max(10.0 * q, 1.0)) == 1;
      assert Round(Max(50.0 * q, 2.0)) == 2;
      RoundAtLeast(Max(100.0 * q, 1.0), 1);
    }
  }

  lemma ThresholdsByScale(q: real)
    requires q > 0.0
    ensures var refill := Round(Max(10.0 * q, 1.0));
      Round(Max(50.0 * q, (refill + 1) as real)) <= Round(Max(100.0 * q, 1.0)) <==> q >= 0.015
  {
    var refill := Round(Max(10.0 * q, 1.0));
    if q >= 0.015 {
      if q < 0.15 {
        assert refill == 1;
        RoundMonotone(Max(50.0 * q, 2.0), Max(100.0 * q, 2.0));
      } else {
        assert (refill + 1) as real <= 10.0 * q + 1.5;
        RoundMonotone(Max(50.0 * q, (refill + 1) as real), 100.0 * q);
      }
    } else {
      assert refill == 1;
      RoundAtLeast(Max(50.0 * q, 2.0), 2);
      assert Round(Max(100.0 * q, 1.0)) == 1;
    }
  }

  lemma RoundMonotone(x: real, y: real)
    requires x <= y
    ensures Round(x) <= Round(y)
  {
  }

  // ---- the radio presets ----

  datatype ModemPreset =
    | VeryLongSlow | LongSlow | LongModerate | LongFast
    | MediumSlow | MediumFast | ShortSlow | ShortFast | ShortTurbo

  function DataKbps(preset: ModemPreset): real {
    match preset
    case VeryLongSlow => 0.09
    case LongSlow => 0.18
    case LongModerate => 0.34
    case LongFast => 1.07
    case MediumSlow => 1.95
    case MediumFast => 3.52
    case ShortSlow => 6.25
    case ShortFast => 10.94
    case ShortTurbo => 21.88
  }

  /** On every preset the thresholds are ordered and one full queue is enough to pause. */
  lemma PresetsAreSafe(preset: ModemPreset)
    ensures var kbps := DataKbps(preset);
      && 1 <= SyncPolicyFor(kbps).refillThresh < SyncPolicyFor(kbps).pauseThresh
      && SyncPolicyFor(kbps).pauseThresh <= OutgoingPolicyFor(kbps).outgoingQueueMax
      && OutgoingPolicyFor(kbps).txRateLimitMsec >= 1
  {
    ThresholdsOrdered(DataKbps(preset));
    PauseFitsQueueIff(DataKbps(preset));
  }

  /** The slowest preset and the baseline one, in numbers; and pauses and queue sizes of the others. */
  lemma PresetNumbers()
    ensures SyncPolicyFor(DataKbps(VeryLongSlow)) == SyncPolicy(1, 2, 2347, 4693)
    ensures OutgoingPolicyFor(DataKbps(VeryLongSlow)) == OutgoingPolicy(391_111, 3)
    ensures SyncPolicyFor(DataKbps(MediumFast)) == SyncPolicy(10, 50, 60, 120)
    ensures OutgoingPolicyFor(DataKbps(MediumFast)) == OutgoingPolicy(10_000, 100)
    ensures OutgoingPolicyFor(DataKbps(LongSlow)) == OutgoingPolicy(195_556, 5)
    ensures OutgoingPolicyFor(DataKbps(LongModerate)) == OutgoingPolicy(103_529, 10)
    ensures OutgoingPolicyFor(DataKbps(LongFast)) == OutgoingPolicy(32_897, 30)
    ensures OutgoingPolicyFor(DataKbps(MediumSlow)) == OutgoingPolicy(18_051, 55)
    ensures OutgoingPolicyFor(DataKbps(ShortSlow)) == OutgoingPolicy(5_632, 178)
    ensures OutgoingPolicyFor(DataKbps(ShortFast)) == OutgoingPolicy(3_218, 311)
    ensures OutgoingPolicyFor(DataKbps(ShortTurbo)) == OutgoingPolicy(1_609, 622)
  {
  }
}
