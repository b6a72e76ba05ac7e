/** The entry point `hough`: build the thresholded vote grid, list its
    peaks, cluster them, and report one line per cluster. */
module Hough {
  import opened Grid
  import opened HoughScores
  import opened HoughCluster
  import opened HoughLines

  /** The detected lines: the cluster count and one line per cluster. */
  datatype Detection = Detection(n: nat, lines: seq<LineParams>)

  /** The thresholded accumulator of an image, as a value. */
  function ScoresOf(pixels: seq<Pixel>, p: real, rMax: nat): (scores: seq<nat>)
    requires rMax > 0
    ensures |scores| == Angles * rMax
  {
    Thresholded(AccumulatorOf(pixels, rMax), p)
  }

  /** The whole pipeline. `dbscan` is the density clustering routine with its
      radius and minimum point count already applied; it returns one label
      per coordinate row, 0 for noise. The lines are read off the same peak
      list that was clustered, so the peak count handed on is the scan's. */
  method Hough(pixels: seq<Pixel>, p: real, rMax: nat, dbscan: seq<(nat, nat)> -> seq<nat>)
    returns (result: Detection)
    requires rMax > 0
    requires forall pts :: |dbscan(pts)| == |pts|
    ensures var peaks := PeakList(ScoresOf(pixels, p, rMax), rMax);
            var labels := dbscan(Coordinates(peaks));
            && (forall i :: 0 <= i < |labels| ==> labels[i] <= result.n)
            && (|peaks| >= 1 ==> exists i :: 0 <= i < |labels| && labels[i] == result.n)
            && (|peaks| == 0 ==> result.n == 0)
            && |result.lines| == result.n
            && forall i :: 0 <= i < result.n ==> IsClusterLine(peaks, labels, i + 1, result.lines[i])
  {
    var scores := Scores(pixels, p, rMax);
    assert scores == ScoresOf(pixels, p, rMax);
    var peaks := ScanPeaks(scores, rMax);
    var labels := dbscan(Coordinates(peaks));
    var n := ClusterCount(labels);
    var lines := ExtractLines(peaks, labels, n);
    result := Detection(n, lines);
  }

  /** Pixels none of which is an edge give no vote to any cell. */
  lemma {:induction false} NoEdgesNoSupport(pixels: seq<Pixel>, rMax: nat, c: int)
    requires forall t :: 0 <= t < |pixels| ==> !IsEdge(pixels[t])
    ensures Support(pixels, rMax, c) == 0
  {
    if |pixels| > 0 {
      NoEdgesNoSupport(pixels[..|pixels| - 1], rMax, c);
    }
  }

  /** An image without edge pixels leaves no peak, hence no label: the source
      then seeds its cluster count from the first entry of an empty label
      buffer. */
  lemma NoEdgesNoPeaks(pixels: seq<Pixel>, p: real, rMax: nat)
    requires rMax > 0
    requires forall t :: 0 <= t < |pixels| ==> !IsEdge(pixels[t])
    ensures forall c :: 0 <= c < Angles * rMax ==> ScoresOf(pixels, p, rMax)[c] == 0
    ensures |PeakList(ScoresOf(pixels, p, rMax), rMax)| == 0
  {
    var acc := AccumulatorOf(pixels, rMax);
    forall c | 0 <= c < Angles * rMax
      ensures acc[c] == 0
    {
      NoEdgesNoSupport(pixels, rMax, c);
    }
    PeakListEmpty(ScoresOf(pixels, p, rMax), rMax);
  }

  /** With no edge pixel the clustering routine receives no row and returns
      no label, so the seed read of the source has nothing to read. */
  lemma NoEdgesEmptyLabels(pixels: seq<Pixel>, p: real, rMax: nat, dbscan: seq<(nat, nat)> -> seq<nat>)
    requires rMax > 0
    requires forall pts :: |dbscan(pts)| == |pts|
    requires forall t :: 0 <= t < |pixels| ==> !IsEdge(pixels[t])
    ensures var peaks := PeakList(ScoresOf(pixels, p, rMax), rMax);
            |dbscan(Coordinates(peaks))| == 0
  {
    NoEdgesNoPeaks(pixels, p, rMax);
  }
}
