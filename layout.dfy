/**
 * The byte layout of a Powers-of-Tau challenge file as a function of its
 * power p: a 64-byte hash header followed by five point sections whose
 * lengths are derived from tau_length(p) = 2^p.
 */
module Layout {
  import opened Arithmetic

  /** The opaque hash that precedes the accumulator in every challenge file. */
  const HeaderSize: nat := 64

  /** The supported range of ceremony powers (the scan range of the detector). */
  const MinPower: nat := 10
  const MaxPower: nat := 27

  /**
   * Encoded widths of an uncompressed BLS12-381 G1 and G2 point, supplied by
   * the curve library (G1_UNCOMPRESSED_BYTE_SIZE, G2_UNCOMPRESSED_BYTE_SIZE).
   */
  const G1Width: nat := 96
  const G2Width: nat := 192

  /** tau_powers_g1, tau_powers_g2, alpha_tau_powers_g1, beta_tau_powers_g1, beta_g2. */
  const SectionCount: nat := 5

  /** Largest value of a 64-bit usize, plus one. */
  const WordLimit: nat := 0x1_0000_0000_0000_0000

  datatype Kind = G1 | G2

  function Width(k: Kind): (w: nat)
    ensures w > 0
  {
    match k
    case G1 => G1Width
    case G2 => G2Width
  }

  /** `1 << p`, with unbounded integers. */
  function Pow2(p: nat): (r: nat)
    ensures r >= 1
  {
    if p == 0 then 1 else 2 * Pow2(p - 1)
  }

  lemma {:induction false} Pow2Grows(p: nat, q: nat)
    requires p < q
    ensures 2 * Pow2(p) <= Pow2(q)
  {
    if p + 1 < q {
      Pow2Grows(p, q - 1);
    }
  }

  /** tau_powers_length: the number of points of the three shorter-indexed sections. */
  function TauLength(p: nat): nat
  {
    Pow2(p)
  }

  /** tau_powers_g1_length: `(tau_length << 1) - 1`. */
  function TauG1Length(p: nat): (r: nat)
    ensures TauLength(p) <= r < 2 * TauLength(p)
  {
    2 * Pow2(p) - 1
  }

  /**
   * The accumulator size a power predicts, for point widths w1 (G1) and w2 (G2),
   * summed in the order the detector writes it.
   */
  function LayoutSize(p: nat, w1: nat, w2: nat): nat
  {
    TauG1Length(p) * w1 + TauLength(p) * w2 + TauLength(p) * w1 + TauLength(p) * w1 + w2
  }

  /** The accumulator size (file size minus the header) of a challenge at power p. */
  function ExpectedSize(p: nat): nat
  {
    LayoutSize(p, G1Width, G2Width)
  }

  /** The accumulator size of a file: everything after the hash header. */
  function AccumulatorSize(fileSize: nat): nat
    requires HeaderSize <= fileSize
  {
    fileSize - HeaderSize
  }

  lemma LayoutSizeClosedForm(p: nat, w1: nat, w2: nat)
    ensures LayoutSize(p, w1, w2) + w1 == TauLength(p) * (4 * w1 + w2) + w2
  {
    var t := TauLength(p);
    calc {
      LayoutSize(p, w1, w2) + w1;
      (2 * t - 1) * w1 + t * w2 + t * w1 + t * w1 + w2 + w1;
      { assert (2 * t - 1) * w1 == 2 * t * w1 - w1; }
      t * (4 * w1 + w2) + w2;
    }
  }

  /** For any positive widths the predicted size strictly increases with the power. */
  lemma {:induction false} LayoutSizeStrictlyIncreasing(p: nat, q: nat, w1: nat, w2: nat)
    requires 0 < w1 && 0 < w2
    requires p < q
    ensures LayoutSize(p, w1, w2) < LayoutSize(q, w1, w2)
  {
    Pow2Grows(p, q);
    LayoutSizeClosedForm(p, w1, w2);
    LayoutSizeClosedForm(q, w1, w2);
    var c := 4 * w1 + w2;
    assert TauLength(p) * c < TauLength(q) * c by {
      assert TauLength(p) < TauLength(q);
      MulStrictlyMonotone(TauLength(p), TauLength(q), c);
    }
  }

  /** With the BLS12-381 widths, so power detection by size is unambiguous. */
  lemma {:induction false} ExpectedSizeStrictlyIncreasing(p: nat, q: nat)
    requires p < q
    ensures ExpectedSize(p) < ExpectedSize(q)
  {
    LayoutSizeStrictlyIncreasing(p, q, G1Width, G2Width);
  }

  lemma ExpectedSizeInjective(p: nat, q: nat)
    requires ExpectedSize(p) == ExpectedSize(q)
    ensures p == q
  {
    if p < q {
      ExpectedSizeStrictlyIncreasing(p, q);
    } else if q < p {
      ExpectedSizeStrictlyIncreasing(q, p);
    }
  }

  /** The counts at the ceiling power, evaluated. */
  lemma AtMaxPower()
    ensures TauLength(MaxPower) == 0x800_0000
    ensures ExpectedSize(MaxPower) == 0x800_0000 * 576 + 96
  {
    assert Pow2(9) == 512;
    assert Pow2(18) == 262144;
    assert Pow2(27) == 0x800_0000;
  }

  /**
   * For every power up to the ceiling, the counts and the predicted size fit a
   * 64-bit usize, so modelling them with unbounded integers loses nothing.
   */
  lemma {:induction false} ExpectedSizeFitsWord(p: nat)
    requires p <= MaxPower
    ensures TauG1Length(p) < WordLimit
    ensures ExpectedSize(p) < WordLimit
  {
    AtMaxPower();
    if p < MaxPower {
      Pow2Grows(p, MaxPower);
      ExpectedSizeStrictlyIncreasing(p, MaxPower);
    }
  }

  // The five sections of the accumulator, in file order.

  function SectionKind(s: nat): Kind
    requires s < SectionCount
  {
    if s == 1 || s == 4 then G2 else G1
  }

  /** Number of points of section s at power p; beta_g2 always holds one point. */
  function SectionLength(p: nat, s: nat): nat
    requires s < SectionCount
  {
    if s == 0 then TauG1Length(p)
    else if s == 4 then 1
    else TauLength(p)
  }

  /** Byte size of section s at power p, written per section so that every width is a constant factor. */
  function SectionBytes(p: nat, s: nat): nat
    requires s < SectionCount
  {
    if s == 0 then TauG1Length(p) * G1Width
    else if s == 1 then TauLength(p) * G2Width
    else if s == 4 then G2Width
    else TauLength(p) * G1Width
  }

  lemma SectionBytesProduct(p: nat, s: nat)
    requires s < SectionCount
    ensures SectionBytes(p, s) == SectionLength(p, s) * Width(SectionKind(s))
  {
  }

  /** Byte offset of section s from the start of the accumulator. */
  function SectionOffset(p: nat, s: nat): nat
    requires s <= SectionCount
  {
    if s == 0 then 0 else SectionOffset(p, s - 1) + SectionBytes(p, s - 1)
  }

  /** Byte offset of section s in a challenge file of power p, past the hash. */
  function FileOffset(p: nat, s: nat): nat
    requires s <= SectionCount
  {
    HeaderSize + SectionOffset(p, s)
  }

  /** Section s ends where section s + 1 begins. */
  lemma FileOffsetNext(p: nat, s: nat)
    requires s < SectionCount
    ensures FileOffset(p, s + 1) == FileOffset(p, s) + SectionBytes(p, s)
    ensures FileOffset(p, s + 1) == FileOffset(p, s) + SectionLength(p, s) * Width(SectionKind(s))
  {
    SectionBytesProduct(p, s);
  }

  /** The five sections tile exactly the size the detector predicts. */
  lemma SectionsTileExpectedSize(p: nat)
    ensures SectionOffset(p, SectionCount) == ExpectedSize(p)
  {
    assert SectionOffset(p, 1) == TauG1Length(p) * G1Width;
    assert SectionOffset(p, 2) == SectionOffset(p, 1) + TauLength(p) * G2Width;
    assert SectionOffset(p, 3) == SectionOffset(p, 2) + TauLength(p) * G1Width;
    assert SectionOffset(p, 4) == SectionOffset(p, 3) + TauLength(p) * G1Width;
  }

  /** Section counts do not decrease with the power: the skip counts are natural numbers. */
  lemma {:induction false} SectionLengthMonotone(t: nat, c: nat, s: nat)
    requires t <= c && s < SectionCount
    ensures SectionLength(t, s) <= SectionLength(c, s)
    ensures SectionBytes(t, s) <= SectionBytes(c, s)
  {
    if t < c {
      Pow2Grows(t, c);
    }
    MulMonotone(SectionLength(t, s), SectionLength(c, s), Width(SectionKind(s)));
    SectionBytesProduct(t, s);
    SectionBytesProduct(c, s);
  }

  lemma {:induction false} SectionOffsetMonotone(p: nat, s: nat, s': nat)
    requires s <= s' <= SectionCount
    ensures SectionOffset(p, s) <= SectionOffset(p, s')
    decreases s' - s
  {
    if s < s' {
      SectionOffsetMonotone(p, s, s' - 1);
    }
  }

  /**
   * Section s at a power t no larger than c is no longer than at c, and lies
   * inside the accumulator at either power.
   */
  lemma SectionFits(t: nat, c: nat, s: nat)
    requires t <= c && s < SectionCount
    ensures SectionBytes(t, s) <= SectionBytes(c, s)
    ensures SectionOffset(t, s) + SectionBytes(t, s) <= ExpectedSize(t)
    ensures SectionOffset(c, s) + SectionBytes(c, s) <= ExpectedSize(c)
  {
    SectionLengthMonotone(t, c, s);
    SectionInBounds(t, s);
    SectionInBounds(c, s);
  }

  /** Every section lies inside the accumulator. */
  lemma SectionInBounds(p: nat, s: nat)
    requires s < SectionCount
    ensures SectionOffset(p, s) + SectionBytes(p, s) <= ExpectedSize(p)
  {
    SectionOffsetMonotone(p, s + 1, SectionCount);
    SectionsTileExpectedSize(p);
  }
}
