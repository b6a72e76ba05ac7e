/** The line parameter extractor of `hough_lines`: for each cluster label
    1..N a running-maximum search picks one representative peak, whose
    offsets are undone to give the angle bucket and radius of the line.
    The trigonometry that turns these into slope and intercept is not part
    of this model. */
module HoughLines {
  import opened HoughCluster

  /** The nudge the source adds to an angle lying within it of 90 degrees. */
  const VerticalNudge: real := 0.00001

  /** A detected line before trigonometry: its angle in degrees (after the
      vertical nudge) and its distance from the origin. */
  datatype LineParams = LineParams(angle: real, radius: nat)

  function Abs(v: real): real
  {
    if v < 0.0 then -v else v
  }

  /** `m` is the index the running-maximum search for label `c` stops at,
      among the first `n` peaks. The search is seeded with entry 0 whatever
      its label, only entries 1..n-1 carrying label `c` can replace it, and
      an entry replaces the current best when its votes are at least as
      large, so among equals the latest wins. */
  predicate IsRepresentativeUpTo(peaks: seq<Peak>, labels: seq<nat>, c: nat, n: nat, m: nat)
    requires |labels| == |peaks| && 1 <= n <= |peaks|
  {
    && m < n
    && (m == 0 ==>
          forall j :: 1 <= j < n && labels[j] == c ==> peaks[j].z < peaks[0].z)
    && (m != 0 ==>
          && labels[m] == c
          && peaks[m].z >= peaks[0].z
          && (forall j :: 1 <= j < n && labels[j] == c ==> peaks[j].z <= peaks[m].z)
          && (forall j :: m < j < n && labels[j] == c ==> peaks[j].z < peaks[m].z))
  }

  predicate IsRepresentative(peaks: seq<Peak>, labels: seq<nat>, c: nat, m: nat)
    requires |labels| == |peaks| && 1 <= |peaks|
  {
    IsRepresentativeUpTo(peaks, labels, c, |peaks|, m)
  }

  /** The representative of a label is determined uniquely. */
  lemma RepresentativeUnique(peaks: seq<Peak>, labels: seq<nat>, c: nat, m1: nat, m2: nat)
    requires |labels| == |peaks| && 1 <= |peaks|
    requires IsRepresentative(peaks, labels, c, m1) && IsRepresentative(peaks, labels, c, m2)
    ensures m1 == m2
  {
  }

  /** When some entry other than the first carries label `c`, the
      representative holds the largest vote count of that label or of entry
      0, whichever is larger. */
  lemma RepresentativeIsMax(peaks: seq<Peak>, labels: seq<nat>, c: nat, m: nat)
    requires |labels| == |peaks| && 1 <= |peaks|
    requires IsRepresentative(peaks, labels, c, m)
    ensures forall j :: 1 <= j < |peaks| && labels[j] == c ==> peaks[j].z <= peaks[m].z
    ensures peaks[0].z <= peaks[m].z
    ensures m == 0 || labels[m] == c
  {
  }

  /** The seed is not checked against the label: with votes 5 and 3 and
      labels 1 and 2, cluster 2 is represented by entry 0 of cluster 1. */
  lemma SeedFromAnotherCluster()
    ensures IsRepresentative([Peak(1, 1, 5), Peak(2, 1, 3)], [1, 2], 2, 0)
    ensures !IsRepresentative([Peak(1, 1, 5), Peak(2, 1, 3)], [1, 2], 2, 1)
  {
  }

  /** The inner search loop for label `c`: seed with entry 0, then let every
      later entry with label `c` and at least as many votes take over. */
  method SelectRepresentative(peaks: seq<Peak>, labels: seq<nat>, c: nat) returns (m: nat)
    requires |labels| == |peaks| && 1 <= |peaks|
    ensures IsRepresentative(peaks, labels, c, m)
  {
    var maxValue := peaks[0].z;
    m := 0;
    var j := 1;
    while j < |peaks|
      invariant 1 <= j <= |peaks|
      invariant IsRepresentativeUpTo(peaks, labels, c, j, m)
      invariant maxValue == peaks[m].z
    {
      if c == labels[j] {
        var value := peaks[j].z;
        if value >= maxValue {
          maxValue := value;
          m := j;
        }
      }
      j := j + 1;
    }
  }

  /** Undo the scan offsets of a peak and apply the vertical-line guard. */
  function LineOf(pk: Peak): LineParams
    requires pk.x >= 1 && pk.y >= 1
  {
    var angle := (pk.x - 1) as real;
    var r := pk.y - 1;
    LineParams(if Abs(90.0 - angle) < VerticalNudge then angle + VerticalNudge else angle, r)
  }

  /** The recovered line is the scanned cell: its radius is the radius
      bucket, its angle the angle bucket, except that bucket 90 is nudged
      off the vertical, so the angle is never exactly 90 degrees. */
  lemma LineOfRecoversCell(pk: Peak)
    requires pk.x >= 1 && pk.y >= 1
    ensures LineOf(pk).radius + 1 == pk.y
    ensures pk.x - 1 != 90 ==> LineOf(pk).angle == (pk.x - 1) as real
    ensures pk.x - 1 == 90 ==> LineOf(pk).angle == 90.0 + VerticalNudge
    ensures LineOf(pk).angle != 90.0
  {
    var angle := (pk.x - 1) as real;
    if pk.x - 1 < 90 {
      assert 90.0 - angle >= 1.0;
    } else if pk.x - 1 > 90 {
      assert angle - 90.0 >= 1.0;
    }
  }

  /** `l` is the line the source reports for cluster label `c`: the line of
      that label's representative peak. */
  predicate IsClusterLine(peaks: seq<Peak>, labels: seq<nat>, c: nat, l: LineParams)
    requires |labels| == |peaks|
    requires forall k :: 0 <= k < |peaks| ==> peaks[k].x >= 1 && peaks[k].y >= 1
  {
    exists m :: 0 <= m < |peaks| && IsRepresentative(peaks, labels, c, m) && l == LineOf(peaks[m])
  }

  /** The outer loop: one line per cluster label 1..n, taken from that
      label's representative peak. */
  method ExtractLines(peaks: seq<Peak>, labels: seq<nat>, n: nat) returns (lines: seq<LineParams>)
    requires |labels| == |peaks|
    requires n == 0 || 1 <= |peaks|
    requires forall k :: 0 <= k < |peaks| ==> peaks[k].x >= 1 && peaks[k].y >= 1
    ensures |lines| == n
    ensures forall i :: 0 <= i < n ==> IsClusterLine(peaks, labels, i + 1, lines[i])
  {
    lines := [];
    var i := 1;
    while i <= n
      invariant 1 <= i <= n + 1
      invariant |lines| == i - 1
      invariant forall e :: 0 <= e < i - 1 ==> IsClusterLine(peaks, labels, e + 1, lines[e])
    {
      var m := SelectRepresentative(peaks, labels, i);
      lines := lines + [LineOf(peaks[m])];
      assert IsClusterLine(peaks, labels, i, lines[i - 1]);
      i := i + 1;
    }
  }
}
