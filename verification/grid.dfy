/** Shape of the Hough accumulator: 180 one-degree angle buckets, each holding
    `rMax` radius buckets, stored angle-major in one flat buffer. */
module Grid {

  /** Number of angle buckets of the accumulator (0..179 degrees). */
  const Angles: nat := 180

  /** Number of trial slopes tried for every edge pixel (-90..90 degrees). */
  const AngleTrials: nat := 181

  /** Single-precision machine epsilon (2^-23): pixels at or below it are not edges. */
  const FltEpsilon: real := 0.00000011920928955078125

  /** Flat position of cell (angle, radius) in a buffer with `rMax` radii per angle. */
  function FlatIndex(angle: nat, radius: nat, rMax: nat): (i: nat)
    ensures angle < Angles && radius < rMax ==> i < Angles * rMax
  {
    RowStartBound(angle, rMax);
    RowStart(angle, rMax) + radius
  }

  /** First flat position of angle row `angle`: `angle` rows of `rMax` cells
      come before it, i.e. `angle * rMax` (RowStartIsProduct), written as a
      sum so that facts about it need only linear arithmetic. */
  function RowStart(angle: nat, rMax: nat): nat
  {
    if angle == 0 then 0 else RowStart(angle - 1, rMax) + rMax
  }

  lemma {:induction false} RowStartIsProduct(angle: nat, rMax: nat)
    ensures RowStart(angle, rMax) == angle * rMax
  {
    if angle > 0 {
      RowStartIsProduct(angle - 1, rMax);
      assert (angle - 1) * rMax + rMax == angle * rMax;
    }
  }

  /** A row of the grid ends inside the `Angles * rMax` buffer. */
  lemma RowStartBound(angle: nat, rMax: nat)
    ensures angle < Angles ==> RowStart(angle, rMax) + rMax <= Angles * rMax
  {
    if angle < Angles {
      RowStartIsProduct(angle, rMax);
      MulMonotone(angle + 1, Angles, rMax);
    }
  }

  /** A later row starts after the end of an earlier one. */
  lemma {:induction false} RowStartMonotone(a1: nat, a2: nat, rMax: nat)
    requires a1 < a2
    ensures RowStart(a1, rMax) + rMax <= RowStart(a2, rMax)
  {
    if a1 < a2 - 1 {
      RowStartMonotone(a1, a2 - 1, rMax);
    }
  }

  /** Multiplication by a natural number preserves order. */
  lemma {:induction false} MulMonotone(a: nat, b: nat, m: nat)
    requires a <= b
    ensures a * m <= b * m
    ensures (a + 1) * m == a * m + m
  {
    if a < b {
      MulMonotone(a, b - 1, m);
      assert (b - 1) * m + m == b * m;
    }
  }

  /** Two cells with in-range radii share a flat position only if they are the same cell. */
  lemma FlatIndexInjective(a1: nat, r1: nat, a2: nat, r2: nat, rMax: nat)
    requires r1 < rMax && r2 < rMax
    ensures FlatIndex(a1, r1, rMax) == FlatIndex(a2, r2, rMax) <==> a1 == a2 && r1 == r2
  {
    if a1 < a2 {
      RowStartMonotone(a1, a2, rMax);
    } else if a2 < a1 {
      RowStartMonotone(a2, a1, rMax);
    }
  }

  /** Every position of the flat buffer is the position of some cell. */
  lemma FlatIndexOnto(c: nat, rMax: nat)
    requires c < Angles * rMax
    ensures exists a: nat, r: nat :: a < Angles && r < rMax && c == FlatIndex(a, r, rMax)
  {
    var a: nat, r: nat := c / rMax, c % rMax;
    assert c == a * rMax + r;
    if a >= Angles {
      MulMonotone(Angles, a, rMax);
    }
    RowStartIsProduct(a, rMax);
    assert c == FlatIndex(a, r, rMax);
  }
}
