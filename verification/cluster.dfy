/** The peak extractor of `hough_cluster`: a `find`-style scan of the
    thresholded accumulator that lists every cell holding more than one
    vote, and the cluster count read off the labels of the density
    clustering routine (which is not part of this model and enters as a
    label sequence). */
module HoughCluster {
  import opened Grid

  /** One accumulator hit as the scan stores it: angle bucket + 1, radius
      bucket + 1 and the vote count of the cell. */
  datatype Peak = Peak(x: nat, y: nat, z: nat)

  /** `p` comes strictly before `q` in angle-major, radius-minor order. */
  predicate ScanBefore(p: Peak, q: Peak)
  {
    p.x < q.x || (p.x == q.x && p.y < q.y)
  }

  /** The peaks of angle row `a` among radii 0..j-1. */
  function RowPeaks(acc: seq<nat>, rMax: nat, a: nat, j: nat): seq<Peak>
    requires |acc| == Angles * rMax && a < Angles && j <= rMax
  {
    if j == 0 then []
    else
      var v := acc[FlatIndex(a, j - 1, rMax)];
      RowPeaks(acc, rMax, a, j - 1) + (if v > 1 then [Peak(a + 1, j, v)] else [])
  }

  /** The peaks of the angle rows 0..a-1, in scan order. */
  function PeaksBefore(acc: seq<nat>, rMax: nat, a: nat): seq<Peak>
    requires |acc| == Angles * rMax && a <= Angles
  {
    if a == 0 then [] else PeaksBefore(acc, rMax, a - 1) + RowPeaks(acc, rMax, a - 1, rMax)
  }

  /** The full peak list of an accumulator: every entry records a cell with
      more than one vote. */
  function PeakList(acc: seq<nat>, rMax: nat): (ps: seq<Peak>)
    requires |acc| == Angles * rMax
    ensures forall k :: 0 <= k < |ps| ==> IsPeakOf(acc, rMax, ps[k])
  {
    PeaksBeforeExact(acc, rMax, Angles);
    PeaksBefore(acc, rMax, Angles)
  }

  /** Peak `pk` is the record of a cell of the grid with more than one vote. */
  predicate IsPeakOf(acc: seq<nat>, rMax: nat, pk: Peak)
    requires |acc| == Angles * rMax
  {
    && 1 <= pk.x <= Angles && 1 <= pk.y <= rMax
    && pk.z > 1
    && pk.z == acc[FlatIndex(pk.x - 1, pk.y - 1, rMax)]
  }

  /** Strictly increasing in scan order (hence also free of repeats). */
  predicate InScanOrder(ps: seq<Peak>)
  {
    forall k1, k2 :: 0 <= k1 < k2 < |ps| ==> ScanBefore(ps[k1], ps[k2])
  }

  /** One row: each entry is a hit of row `a` below radius j. */
  lemma {:induction false} RowPeaksSound(acc: seq<nat>, rMax: nat, a: nat, j: nat)
    requires |acc| == Angles * rMax && a < Angles && j <= rMax
    ensures forall k :: 0 <= k < |RowPeaks(acc, rMax, a, j)| ==>
              var pk := RowPeaks(acc, rMax, a, j)[k];
              IsPeakOf(acc, rMax, pk) && pk.x == a + 1 && pk.y <= j
  {
    if j > 0 {
      RowPeaksSound(acc, rMax, a, j - 1);
    }
  }

  /** One row: every entry lies in row `a`, at a radius below j. This is the
      coordinate part of RowPeaksSound, stated apart so that the ordering
      proofs do not see the vote counts. */
  lemma RowPeaksShape(acc: seq<nat>, rMax: nat, a: nat, j: nat)
    requires |acc| == Angles * rMax && a < Angles && j <= rMax
    ensures forall k :: 0 <= k < |RowPeaks(acc, rMax, a, j)| ==>
              RowPeaks(acc, rMax, a, j)[k].x == a + 1 && RowPeaks(acc, rMax, a, j)[k].y <= j
  {
    RowPeaksSound(acc, rMax, a, j);
  }

  /** One row: entries come in increasing radius. */
  lemma {:induction false} RowPeaksOrdered(acc: seq<nat>, rMax: nat, a: nat, j: nat)
    requires |acc| == Angles * rMax && a < Angles && j <= rMax
    ensures InScanOrder(RowPeaks(acc, rMax, a, j))
  {
    if j > 0 {
      RowPeaksOrdered(acc, rMax, a, j - 1);
      RowPeaksShape(acc, rMax, a, j - 1);
    }
  }

  /** One more radius keeps the earlier entries of the row. */
  lemma RowPeaksKeeps(acc: seq<nat>, rMax: nat, a: nat, j: nat, pk: Peak)
    requires |acc| == Angles * rMax && a < Angles && 0 < j <= rMax
    requires pk in RowPeaks(acc, rMax, a, j - 1)
    ensures pk in RowPeaks(acc, rMax, a, j)
  {
  }

  /** One more radius adds the new cell when it holds more than one vote. */
  lemma RowPeaksAdds(acc: seq<nat>, rMax: nat, a: nat, j: nat)
    requires |acc| == Angles * rMax && a < Angles && 0 < j <= rMax
    requires acc[FlatIndex(a, j - 1, rMax)] > 1
    ensures Peak(a + 1, j, acc[FlatIndex(a, j - 1, rMax)]) in RowPeaks(acc, rMax, a, j)
  {
  }

  /** One row: a hit of row `a` below radius j is listed. */
  lemma {:induction false} RowPeaksComplete(acc: seq<nat>, rMax: nat, a: nat, j: nat, r: nat)
    requires |acc| == Angles * rMax && a < Angles && r < j <= rMax
    requires acc[FlatIndex(a, r, rMax)] > 1
    ensures Peak(a + 1, r + 1, acc[FlatIndex(a, r, rMax)]) in RowPeaks(acc, rMax, a, j)
  {
    if r < j - 1 {
      RowPeaksComplete(acc, rMax, a, j - 1, r);
      RowPeaksKeeps(acc, rMax, a, j, Peak(a + 1, r + 1, acc[FlatIndex(a, r, rMax)]));
    } else {
      RowPeaksAdds(acc, rMax, a, j);
    }
  }

  /** Several rows: every entry lies in one of the rows 0..a-1. This is the
      coordinate part of PeaksBeforeSound, stated apart so that the ordering
      proofs do not see the vote counts. */
  lemma PeaksBeforeShape(acc: seq<nat>, rMax: nat, a: nat)
    requires |acc| == Angles * rMax && a <= Angles
    ensures forall k :: 0 <= k < |PeaksBefore(acc, rMax, a)| ==> PeaksBefore(acc, rMax, a)[k].x <= a
  {
    PeaksBeforeSound(acc, rMax, a);
  }

  /** Several rows: every entry is a hit of rows 0..a-1. */
  lemma {:induction false} PeaksBeforeSound(acc: seq<nat>, rMax: nat, a: nat)
    requires |acc| == Angles * rMax && a <= Angles
    ensures forall k :: 0 <= k < |PeaksBefore(acc, rMax, a)| ==>
              IsPeakOf(acc, rMax, PeaksBefore(acc, rMax, a)[k]) && PeaksBefore(acc, rMax, a)[k].x <= a
  {
    if a > 0 {
      PeaksBeforeSound(acc, rMax, a - 1);
      RowPeaksSound(acc, rMax, a - 1, rMax);
      var front, row := PeaksBefore(acc, rMax, a - 1), RowPeaks(acc, rMax, a - 1, rMax);
      forall k | 0 <= k < |front + row|
        ensures IsPeakOf(acc, rMax, (front + row)[k]) && (front + row)[k].x <= a
      {
        if k < |front| {
          assert (front + row)[k] == front[k];
        } else {
          assert (front + row)[k] == row[k - |front|];
        }
      }
    }
  }

  /** Several rows: the entries are in scan order. */
  lemma {:induction false} PeaksBeforeOrdered(acc: seq<nat>, rMax: nat, a: nat)
    requires |acc| == Angles * rMax && a <= Angles
    ensures InScanOrder(PeaksBefore(acc, rMax, a))
  {
    if a > 0 {
      PeaksBeforeOrdered(acc, rMax, a - 1);
      AppendRowOrdered(acc, rMax, a);
    }
  }

  /** Appending row `a - 1` to the ordered rows before it keeps scan order. */
  lemma AppendRowOrdered(acc: seq<nat>, rMax: nat, a: nat)
    requires |acc| == Angles * rMax && 0 < a <= Angles
    requires InScanOrder(PeaksBefore(acc, rMax, a - 1))
    ensures InScanOrder(PeaksBefore(acc, rMax, a))
  {
    var front: seq<Peak>, row: seq<Peak> := PeaksBefore(acc, rMax, a - 1), RowPeaks(acc, rMax, a - 1, rMax);
    PeaksBeforeShape(acc, rMax, a - 1);
    RowPeaksShape(acc, rMax, a - 1, rMax);
    RowPeaksOrdered(acc, rMax, a - 1, rMax);
    ConcatInScanOrder(front, row, a);
  }

  /** One more row keeps the earlier entries and adds the entries of row `a - 1`. */
  lemma PeaksBeforeGrow(acc: seq<nat>, rMax: nat, a: nat)
    requires |acc| == Angles * rMax && 0 < a <= Angles
    ensures forall pk :: pk in PeaksBefore(acc, rMax, a - 1) ==> pk in PeaksBefore(acc, rMax, a)
    ensures forall pk :: pk in RowPeaks(acc, rMax, a - 1, rMax) ==> pk in PeaksBefore(acc, rMax, a)
  {
  }

  /** Several rows: a hit of rows 0..a-1 is listed. */
  lemma {:induction false} PeaksBeforeComplete(acc: seq<nat>, rMax: nat, a: nat, b: nat, r: nat)
    requires |acc| == Angles * rMax && b < a <= Angles && r < rMax
    requires acc[FlatIndex(b, r, rMax)] > 1
    ensures Peak(b + 1, r + 1, acc[FlatIndex(b, r, rMax)]) in PeaksBefore(acc, rMax, a)
  {
    PeaksBeforeGrow(acc, rMax, a);
    if b < a - 1 {
      PeaksBeforeComplete(acc, rMax, a - 1, b, r);
    } else {
      RowPeaksComplete(acc, rMax, b, rMax, r);
    }
  }

  /** Several rows: the same three facts for rows 0..a-1. */
  lemma PeaksBeforeExact(acc: seq<nat>, rMax: nat, a: nat)
    requires |acc| == Angles * rMax && a <= Angles
    ensures forall k :: 0 <= k < |PeaksBefore(acc, rMax, a)| ==>
              IsPeakOf(acc, rMax, PeaksBefore(acc, rMax, a)[k]) && PeaksBefore(acc, rMax, a)[k].x <= a
    ensures InScanOrder(PeaksBefore(acc, rMax, a))
    ensures forall b, r :: 0 <= b < a && 0 <= r < rMax && acc[FlatIndex(b, r, rMax)] > 1 ==>
              Peak(b + 1, r + 1, acc[FlatIndex(b, r, rMax)]) in PeaksBefore(acc, rMax, a)
  {
    PeaksBeforeSound(acc, rMax, a);
    PeaksBeforeOrdered(acc, rMax, a);
    forall b, r | 0 <= b < a && 0 <= r < rMax && acc[FlatIndex(b, r, rMax)] > 1
      ensures Peak(b + 1, r + 1, acc[FlatIndex(b, r, rMax)]) in PeaksBefore(acc, rMax, a)
    {
      PeaksBeforeComplete(acc, rMax, a, b, r);
    }
  }

  /** Earlier rows followed by row `a - 1` stay in scan order. */
  lemma ConcatInScanOrder(front: seq<Peak>, row: seq<Peak>, a: nat)
    requires InScanOrder(front) && InScanOrder(row)
    requires forall k :: 0 <= k < |front| ==> front[k].x < a
    requires forall k :: 0 <= k < |row| ==> row[k].x == a
    ensures InScanOrder(front + row)
  {
    var all := front + row;
    forall k1, k2 | 0 <= k1 < k2 < |all|
      ensures ScanBefore(all[k1], all[k2])
    {
      if k2 < |front| {
        assert all[k1] == front[k1] && all[k2] == front[k2];
      } else if k1 < |front| {
        assert all[k1] == front[k1] && all[k2] == row[k2 - |front|];
      } else {
        assert all[k1] == row[k1 - |front|] && all[k2] == row[k2 - |front|];
      }
    }
  }

  /** The peak list holds exactly the cells with more than one vote, each as
      (angle + 1, radius + 1, votes), in angle-major then radius-minor order. */
  lemma PeakListExact(acc: seq<nat>, rMax: nat)
    requires |acc| == Angles * rMax
    ensures InScanOrder(PeakList(acc, rMax))
    ensures forall a, r :: 0 <= a < Angles && 0 <= r < rMax && acc[FlatIndex(a, r, rMax)] > 1 ==>
              Peak(a + 1, r + 1, acc[FlatIndex(a, r, rMax)]) in PeakList(acc, rMax)
  {
    PeaksBeforeExact(acc, rMax, Angles);
  }

  /** No peak at all exactly when no cell holds more than one vote. */
  lemma PeakListEmpty(acc: seq<nat>, rMax: nat)
    requires |acc| == Angles * rMax
    ensures |PeakList(acc, rMax)| == 0 <==> forall c :: 0 <= c < |acc| ==> acc[c] <= 1
  {
    var ps := PeakList(acc, rMax);
    if |ps| > 0 {
      var pk := ps[0];
      assert IsPeakOf(acc, rMax, pk);
      assert acc[FlatIndex(pk.x - 1, pk.y - 1, rMax)] > 1;
    }
    if exists c :: 0 <= c < |acc| && acc[c] > 1 {
      var c :| 0 <= c < |acc| && acc[c] > 1;
      FlatIndexOnto(c, rMax);
      var a: nat, r: nat :| a < Angles && r < rMax && c == FlatIndex(a, r, rMax);
      PeaksBeforeComplete(acc, rMax, Angles, a, r);
      assert Peak(a + 1, r + 1, acc[c]) in ps;
    }
  }

  /** The double loop over angle rows and radius columns, appending a peak
      for every cell whose vote count exceeds 1. */
  method ScanPeaks(acc: seq<nat>, rMax: nat) returns (peaks: seq<Peak>)
    requires |acc| == Angles * rMax
    ensures peaks == PeakList(acc, rMax)
    ensures forall k :: 0 <= k < |peaks| ==> IsPeakOf(acc, rMax, peaks[k])
    ensures InScanOrder(peaks)
  {
    peaks := [];
    var i := 0;
    while i < Angles
      invariant i <= Angles
      invariant peaks == PeaksBefore(acc, rMax, i)
    {
      var j := 0;
      while j < rMax
        invariant j <= rMax
        invariant peaks == PeaksBefore(acc, rMax, i) + RowPeaks(acc, rMax, i, j)
      {
        var v := acc[FlatIndex(i, j, rMax)];
        if v > 1 {
          peaks := peaks + [Peak(i + 1, j + 1, v)];
        }
        j := j + 1;
      }
      i := i + 1;
    }
    PeakListExact(acc, rMax);
  }

  /** The coordinate table handed to the clustering routine: one
      (angle + 1, radius + 1) row per peak. */
  function Coordinates(peaks: seq<Peak>): (pts: seq<(nat, nat)>)
    ensures |pts| == |peaks|
    ensures forall k :: 0 <= k < |peaks| ==> pts[k].0 == peaks[k].x && pts[k].1 == peaks[k].y
  {
    seq(|peaks|, k requires 0 <= k < |peaks| => (peaks[k].x, peaks[k].y))
  }

  /** The rows handed to the clustering routine for a scanned grid are
      distinct points with 1 <= x <= 180 and 1 <= y <= rMax. */
  lemma CoordinatesOfPeakList(acc: seq<nat>, rMax: nat)
    requires |acc| == Angles * rMax
    ensures forall k :: 0 <= k < |PeakList(acc, rMax)| ==>
              var pt := Coordinates(PeakList(acc, rMax))[k];
              1 <= pt.0 <= Angles && 1 <= pt.1 <= rMax
    ensures forall k1, k2 :: 0 <= k1 < k2 < |PeakList(acc, rMax)| ==>
              Coordinates(PeakList(acc, rMax))[k1] != Coordinates(PeakList(acc, rMax))[k2]
  {
    var ps := PeakList(acc, rMax);
    var pts := Coordinates(ps);
    PeakListExact(acc, rMax);
    forall k1, k2 | 0 <= k1 < k2 < |ps|
      ensures pts[k1] != pts[k2]
    {
      assert ScanBefore(ps[k1], ps[k2]);
    }
  }

  /** The cluster count as the source computes it: the largest label,
      seeded from the first label, so at least one label must exist. */
  method MaxLabel(labels: seq<nat>) returns (n: nat)
    requires |labels| >= 1
    ensures forall i :: 0 <= i < |labels| ==> labels[i] <= n
    ensures exists i :: 0 <= i < |labels| && labels[i] == n
  {
    n := labels[0];
    var i := 0;
    while i < |labels|
      invariant i <= |labels|
      invariant forall e :: 0 <= e < i ==> labels[e] <= n
      invariant exists e :: 0 <= e < |labels| && labels[e] == n
    {
      if labels[i] > n {
        n := labels[i];
      }
      i := i + 1;
    }
  }

  /** The cluster count with the empty case defined: no labels means no
      clusters; otherwise the largest label. */
  method ClusterCount(labels: seq<nat>) returns (n: nat)
    ensures forall i :: 0 <= i < |labels| ==> labels[i] <= n
    ensures |labels| == 0 ==> n == 0
    ensures |labels| >= 1 ==> exists i :: 0 <= i < |labels| && labels[i] == n
  {
    if |labels| == 0 {
      n := 0;
    } else {
      n := MaxLabel(labels);
    }
  }
}
