/**
 * Inferring the power of a challenge from the size of its accumulator:
 * an ascending scan of the supported powers that returns the first whose
 * predicted size matches exactly.
 */
module PowerDetector {
  import opened Wrappers
  import opened Layout

  /** The scan from power p upwards; None when no power in p..=MaxPower matches. */
  function DetectFrom(size: nat, p: nat): (r: Option<nat>)
    requires MinPower <= p <= MaxPower + 1
    ensures r.Some? ==> p <= r.value <= MaxPower && ExpectedSize(r.value) == size
    ensures r.Some? ==> forall q :: p <= q < r.value ==> ExpectedSize(q) != size
    ensures r.None? <==> forall q :: p <= q <= MaxPower ==> ExpectedSize(q) != size
    decreases MaxPower + 1 - p
  {
    if p > MaxPower then None
    else if ExpectedSize(p) == size then Some(p)
    else DetectFrom(size, p + 1)
  }

  /** The power detect_power_from_size returns, or None where it panics. */
  function Detect(size: nat): Option<nat>
  {
    DetectFrom(size, MinPower)
  }

  /** Round trip: the size of a challenge at any supported power is detected as that power. */
  lemma {:induction false} DetectExpectedSize(p: nat)
    requires MinPower <= p <= MaxPower
    ensures Detect(ExpectedSize(p)) == Some(p)
  {
    var r := Detect(ExpectedSize(p));
    assert r.Some?;
    ExpectedSizeInjective(r.value, p);
  }

  /** detect_power_from_size: the loop over 10..=27 with its early return. */
  method DetectPowerFromSize(accumulatorSize: nat) returns (r: Option<nat>)
    ensures r == Detect(accumulatorSize)
    ensures r.Some? ==> MinPower <= r.value <= MaxPower && ExpectedSize(r.value) == accumulatorSize
    ensures r.None? <==> forall q :: MinPower <= q <= MaxPower ==> ExpectedSize(q) != accumulatorSize
  {
    for power := MinPower to MaxPower + 1
      invariant Detect(accumulatorSize) == DetectFrom(accumulatorSize, power)
    {
      var tauPowersLength := Pow2(power);
      var tauPowersG1Length := 2 * tauPowersLength - 1;
      var expectedSize := tauPowersG1Length * G1Width + tauPowersLength * G2Width
        + tauPowersLength * G1Width + tauPowersLength * G1Width + G2Width;
      if expectedSize == accumulatorSize {
        return Some(power);
      }
    }
    return None;
  }
}
