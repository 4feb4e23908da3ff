/** Facts about products of naturals that the solver does not find on its own. */
module Arithmetic {

  lemma MulStrictlyMonotone(a: nat, b: nat, c: nat)
    requires a < b && 0 < c
    ensures a * c < b * c
  {
  }

  lemma MulMonotone(a: nat, b: nat, c: nat)
    requires a <= b
    ensures a * c <= b * c
  {
  }

  /** i whole points fit in `rem` bytes and the next does not: i is the floor of rem / w. */
  lemma FloorDivision(i: nat, w: nat, rem: nat)
    requires 0 < w && i * w <= rem < i * w + w
    ensures rem / w == i
  {
    var q := rem / w;
    assert q * w <= rem < q * w + w;
    if q < i {
      MulMonotone(q + 1, i, w);
    } else if i < q {
      MulMonotone(i + 1, q, w);
    }
  }

  lemma PointsPastRemaining(i: nat, count: nat, w: nat, rem: nat)
    requires i < count && rem < i * w + w
    ensures rem < count * w
  {
    assert i * w + w == (i + 1) * w;
    assert (i + 1) * w <= count * w;
  }

  /** Point j of a run of len points of width w ends inside the run. */
  lemma PointInRun(j: nat, len: nat, w: nat)
    requires j < len
    ensures j * w + w <= len * w
  {
    MulMonotone(j + 1, len, w);
  }
}
