/** The accumulator builder of `hough_scores`: every edge pixel votes once for
    each distinct (angle, radius) cell its trial slopes map it to, and the
    resulting vote grid is cut at a fraction of its maximum. The mapping of a
    pixel to cells (slope table, foot of the perpendicular, rounding) is taken
    as given: each pixel carries its candidate cells. */
module HoughScores {
  import opened Grid

  /** The (angle bucket, rounded radius) pair one trial slope yields for a pixel. */
  datatype Candidate = Candidate(angle: nat, radius: nat)

  /** One image pixel, in row-major visiting order: its intensity and the
      candidate cells of its trial slopes, in trial order. */
  datatype Pixel = Pixel(value: real, candidates: seq<Candidate>)

  predicate IsEdge(px: Pixel)
  {
    px.value > FltEpsilon
  }

  /** A candidate addresses a cell of the grid: one of the 180 angle
      buckets and a radius below `rMax`. */
  predicate InGrid(c: Candidate, rMax: nat)
  {
    c.angle < Angles && c.radius < rMax
  }

  /** The flat indices the source records for one pixel: the candidates with
      radius below `rMax`, in trial order, repeats included. The angle is not
      checked, so a bucket-180 candidate yields an index past the buffer. */
  function RecordedAsWritten(raw: seq<Candidate>, rMax: nat): seq<nat>
  {
    if |raw| == 0 then []
    else
      var c := raw[|raw| - 1];
      RecordedAsWritten(raw[..|raw| - 1], rMax) + (if c.radius < rMax then [FlatIndex(c.angle, c.radius, rMax)] else [])
  }

  /** The flat indices recorded for one pixel with the angle checked as well:
      the in-grid candidates, in trial order, repeats included. */
  function Recorded(raw: seq<Candidate>, rMax: nat): seq<nat>
  {
    if |raw| == 0 then []
    else
      var c := raw[|raw| - 1];
      Recorded(raw[..|raw| - 1], rMax) + (if InGrid(c, rMax) then [FlatIndex(c.angle, c.radius, rMax)] else [])
  }

  /** The 45-degree trial of a pixel on the diagonal lands in angle bucket 180
      at radius 0: the source records index `180 * rMax`, one past the
      accumulator, where the checked recording records nothing. */
  lemma DiagonalTrialPastBuffer(rMax: nat)
    requires rMax > 0
    ensures RecordedAsWritten([Candidate(Angles, 0)], rMax) == [Angles * rMax]
    ensures Recorded([Candidate(Angles, 0)], rMax) == []
  {
    assert [Candidate(Angles, 0)][..0] == [];
    RowStartIsProduct(Angles, rMax);
  }

  /** Where every in-range candidate has an angle below 180 the angle check
      changes nothing: both recordings agree. */
  lemma {:induction false} RecordedAgrees(raw: seq<Candidate>, rMax: nat)
    requires forall k :: 0 <= k < |raw| && raw[k].radius < rMax ==> raw[k].angle < Angles
    ensures RecordedAsWritten(raw, rMax) == Recorded(raw, rMax)
  {
    if |raw| > 0 {
      RecordedAgrees(raw[..|raw| - 1], rMax);
    }
  }

  /** What gets recorded: at most one index per trial, and an index is
      recorded exactly when some in-grid candidate flattens to it. */
  lemma {:induction false} RecordedMembership(raw: seq<Candidate>, rMax: nat)
    ensures |Recorded(raw, rMax)| <= |raw|
    ensures forall x :: x in Recorded(raw, rMax) <==>
              exists c :: c in raw && InGrid(c, rMax) && x == FlatIndex(c.angle, c.radius, rMax)
  {
    if |raw| > 0 {
      var init := raw[..|raw| - 1];
      var c := raw[|raw| - 1];
      RecordedMembership(init, rMax);
      assert raw == init + [c];
      forall x
        ensures x in Recorded(raw, rMax) <==>
                exists c' :: c' in raw && InGrid(c', rMax) && x == FlatIndex(c'.angle, c'.radius, rMax)
      {
        if x in Recorded(raw, rMax) && x !in Recorded(init, rMax) {
          assert c in raw && InGrid(c, rMax) && x == FlatIndex(c.angle, c.radius, rMax);
        }
        if exists c' :: c' in raw && InGrid(c', rMax) && x == FlatIndex(c'.angle, c'.radius, rMax) {
          var c' :| c' in raw && InGrid(c', rMax) && x == FlatIndex(c'.angle, c'.radius, rMax);
          if c' != c {
            assert c' in init;
          }
        }
      }
    }
  }

  /** Cell (a, r) with r in range is recorded for a pixel exactly when it is
      a cell of the grid and that very pair is among its candidates:
      deduplicating flat indices is deduplicating cells. */
  lemma RecordedCell(raw: seq<Candidate>, rMax: nat, a: nat, r: nat)
    requires r < rMax
    ensures FlatIndex(a, r, rMax) in Recorded(raw, rMax) <==> a < Angles && Candidate(a, r) in raw
  {
    RecordedMembership(raw, rMax);
    if FlatIndex(a, r, rMax) in Recorded(raw, rMax) {
      var c :| c in raw && InGrid(c, rMax) && FlatIndex(a, r, rMax) == FlatIndex(c.angle, c.radius, rMax);
      FlatIndexInjective(a, r, c.angle, c.radius, rMax);
    }
    if a < Angles && Candidate(a, r) in raw {
      assert InGrid(Candidate(a, r), rMax);
    }
  }

  /** Every recorded index addresses the accumulator, and no more indices than
      trials are recorded, so the 181-entry index buffer suffices. */
  lemma RecordedInRange(raw: seq<Candidate>, rMax: nat)
    ensures |Recorded(raw, rMax)| <= |raw|
    ensures forall k :: 0 <= k < |Recorded(raw, rMax)| ==> Recorded(raw, rMax)[k] < Angles * rMax
  {
    RecordedMembership(raw, rMax);
    forall k | 0 <= k < |Recorded(raw, rMax)|
      ensures Recorded(raw, rMax)[k] < Angles * rMax
    {
      var x := Recorded(raw, rMax)[k];
      assert x in Recorded(raw, rMax);
      var c :| c in raw && InGrid(c, rMax) && x == FlatIndex(c.angle, c.radius, rMax);
    }
  }

  /** The candidate loop of one pixel: keep the index of every candidate
      whose radius is below `rMax` and, unlike the source, whose angle bucket
      is below 180. */
  method RecordCandidates(raw: seq<Candidate>, rMax: nat) returns (indexes: seq<nat>)
    ensures indexes == Recorded(raw, rMax)
    ensures |indexes| <= |raw|
  {
    indexes := [];
    var k := 0;
    while k < |raw|
      invariant k <= |raw|
      invariant indexes == Recorded(raw[..k], rMax)
    {
      assert raw[..k + 1][..k] == raw[..k];
      var c := raw[k];
      if c.angle < Angles && c.radius < rMax {
        indexes := indexes + [FlatIndex(c.angle, c.radius, rMax)];
      }
      k := k + 1;
    }
    assert raw[..|raw|] == raw;
    RecordedMembership(raw, rMax);
  }

  /** The duplicate check of one pixel: walk the recorded indices and add a
      vote at an index only if no earlier entry holds the same index. */
  method VotePixel(acc: seq<nat>, indexes: seq<nat>) returns (acc': seq<nat>)
    requires forall k :: 0 <= k < |indexes| ==> indexes[k] < |acc|
    ensures |acc'| == |acc|
    ensures forall x :: 0 <= x < |acc| ==> acc'[x] == acc[x] + (if x in indexes then 1 else 0)
  {
    acc' := acc;
    var k := 0;
    while k < |indexes|
      invariant k <= |indexes|
      invariant |acc'| == |acc|
      invariant forall x :: 0 <= x < |acc| ==> acc'[x] == acc[x] + (if x in indexes[..k] then 1 else 0)
    {
      var d := 0;
      while d < k
        invariant d <= k
        invariant forall e :: 0 <= e < d ==> indexes[e] != indexes[k]
      {
        if indexes[k] == indexes[d] {
          break;
        }
        d := d + 1;
      }
      assert indexes[..k + 1] == indexes[..k] + [indexes[k]];
      if d == k {
        acc' := acc'[indexes[d] := acc'[indexes[d]] + 1];
      } else {
        assert indexes[k] in indexes[..k];
      }
      k := k + 1;
    }
    assert indexes[..|indexes|] == indexes;
  }

  /** Pixel `px` casts a vote for flat cell `c`. */
  predicate VotesFor(px: Pixel, rMax: nat, c: int)
  {
    IsEdge(px) && c in Recorded(px.candidates, rMax)
  }

  /** The number of pixels of `pixels` that vote for flat cell `c`. */
  function Support(pixels: seq<Pixel>, rMax: nat, c: int): nat
  {
    if |pixels| == 0 then 0
    else Support(pixels[..|pixels| - 1], rMax, c) + (if VotesFor(pixels[|pixels| - 1], rMax, c) then 1 else 0)
  }

  /** The vote grid the whole image produces: each cell holds its support. */
  function AccumulatorOf(pixels: seq<Pixel>, rMax: nat): (acc: seq<nat>)
    ensures |acc| == Angles * rMax
  {
    seq(Angles * rMax, c => Support(pixels, rMax, c))
  }

  /** The pixel sweep: every edge pixel records its candidates and votes
      once per distinct recorded cell; other pixels are skipped. */
  method Accumulate(pixels: seq<Pixel>, rMax: nat) returns (acc: seq<nat>)
    ensures |acc| == Angles * rMax
    ensures forall c :: 0 <= c < |acc| ==> acc[c] == Support(pixels, rMax, c)
  {
    acc := seq(Angles * rMax, _ => 0);
    var t := 0;
    while t < |pixels|
      invariant t <= |pixels|
      invariant |acc| == Angles * rMax
      invariant forall c :: 0 <= c < |acc| ==> acc[c] == Support(pixels[..t], rMax, c)
    {
      assert pixels[..t + 1][..t] == pixels[..t];
      var px := pixels[t];
      if px.value > FltEpsilon {
        var indexes := RecordCandidates(px.candidates, rMax);
        RecordedInRange(px.candidates, rMax);
        acc := VotePixel(acc, indexes);
      }
      t := t + 1;
    }
    assert pixels[..|pixels|] == pixels;
  }

  /** Support adds up over a split of the pixel sequence. */
  lemma {:induction false} SupportAppend(a: seq<Pixel>, b: seq<Pixel>, rMax: nat, c: int)
    ensures Support(a + b, rMax, c) == Support(a, rMax, c) + Support(b, rMax, c)
  {
    if |b| > 0 {
      var b' := b[..|b| - 1];
      assert (a + b)[..|a + b| - 1] == a + b';
      SupportAppend(a, b', rMax, c);
    } else {
      assert a + b == a;
    }
  }

  /** Taking out entry `i` removes exactly its vote. */
  lemma SupportRemove(qs: seq<Pixel>, i: nat, rMax: nat, c: int)
    requires i < |qs|
    ensures Support(qs, rMax, c) ==
            Support(qs[..i] + qs[i + 1..], rMax, c) + (if VotesFor(qs[i], rMax, c) then 1 else 0)
  {
    assert qs == qs[..i] + [qs[i]] + qs[i + 1..];
    SupportAppend(qs[..i] + [qs[i]], qs[i + 1..], rMax, c);
    SupportAppend(qs[..i], [qs[i]], rMax, c);
    SupportAppend(qs[..i], qs[i + 1..], rMax, c);
    assert [qs[i]][..0] == [];
  }

  /** Removing the last pixel of `ps` and a matching entry of `qs` keeps the
      two sequences rearrangements of each other. */
  lemma MultisetRemove(ps: seq<Pixel>, qs: seq<Pixel>, i: nat)
    requires multiset(ps) == multiset(qs) && |ps| > 0
    requires i < |qs| && qs[i] == ps[|ps| - 1]
    ensures multiset(ps[..|ps| - 1]) == multiset(qs[..i] + qs[i + 1..])
  {
    var n := |ps| - 1;
    var x := ps[n];
    var rest := qs[..i] + qs[i + 1..];
    assert ps == ps[..n] + [x];
    assert qs == qs[..i] + [x] + qs[i + 1..];
    assert multiset(qs) == multiset(qs[..i]) + multiset([x]) + multiset(qs[i + 1..]);
    assert multiset(rest) == multiset(qs[..i]) + multiset(qs[i + 1..]);
    assert multiset(ps) == multiset(ps[..n]) + multiset([x]);
    forall y
      ensures multiset(ps[..n])[y] == multiset(rest)[y]
    {
      assert multiset(ps)[y] == multiset(qs)[y];
    }
  }

  /** Vote counts do not depend on the order in which pixels are visited:
      any rearrangement of the pixels yields the same support everywhere. */
  lemma {:induction false} SupportOrderIndependent(ps: seq<Pixel>, qs: seq<Pixel>, rMax: nat, c: int)
    requires multiset(ps) == multiset(qs)
    ensures Support(ps, rMax, c) == Support(qs, rMax, c)
    decreases |ps|
  {
    if |ps| == 0 {
      assert |qs| == |multiset(qs)| == 0;
    } else {
      var n := |ps| - 1;
      assert ps[n] in multiset(qs);
      var i :| 0 <= i < |qs| && qs[i] == ps[n];
      MultisetRemove(ps, qs, i);
      SupportOrderIndependent(ps[..n], qs[..i] + qs[i + 1..], rMax, c);
      SupportRemove(qs, i, rMax, c);
    }
  }

  /** The whole accumulator is independent of the pixel visiting order. */
  lemma AccumulatorOrderIndependent(ps: seq<Pixel>, qs: seq<Pixel>, rMax: nat)
    requires multiset(ps) == multiset(qs)
    ensures AccumulatorOf(ps, rMax) == AccumulatorOf(qs, rMax)
  {
    forall c | 0 <= c < Angles * rMax
      ensures AccumulatorOf(ps, rMax)[c] == AccumulatorOf(qs, rMax)[c]
    {
      SupportOrderIndependent(ps, qs, rMax, c);
    }
  }

  /** The positions of the edge pixels having Candidate(a, r) among their candidates. */
  function Voters(pixels: seq<Pixel>, a: nat, r: nat): set<int>
  {
    set t | 0 <= t < |pixels| && IsEdge(pixels[t]) && Candidate(a, r) in pixels[t].candidates
  }

  /** Appending one pixel adds its position to the voters exactly when it votes. */
  lemma VotersStep(pixels: seq<Pixel>, a: nat, r: nat)
    requires |pixels| > 0
    ensures var n := |pixels| - 1;
            Voters(pixels, a, r) ==
            Voters(pixels[..n], a, r) +
            (if IsEdge(pixels[n]) && Candidate(a, r) in pixels[n].candidates then {n} else {})
  {
  }

  /** In cell terms: the votes of cell (a, r) count the edge pixels having
      Candidate(a, r) among their candidates, once per pixel however many
      trial slopes produce it, and a pixel at or below epsilon never votes;
      a position past the 180 angle rows gets no vote at all. */
  lemma {:induction false} SupportOfCell(pixels: seq<Pixel>, rMax: nat, a: nat, r: nat)
    requires r < rMax
    ensures a < Angles ==> Support(pixels, rMax, FlatIndex(a, r, rMax)) == |Voters(pixels, a, r)|
    ensures a >= Angles ==> Support(pixels, rMax, FlatIndex(a, r, rMax)) == 0
  {
    if |pixels| > 0 {
      var n := |pixels| - 1;
      SupportOfCell(pixels[..n], rMax, a, r);
      RecordedCell(pixels[n].candidates, rMax, a, r);
      VotersStep(pixels, a, r);
      assert n !in Voters(pixels[..n], a, r);
    } else {
      assert Voters(pixels, a, r) == {};
    }
  }

  /** The largest vote count of a non-empty grid. */
  function Max(s: seq<nat>): (m: nat)
    requires |s| > 0
    ensures forall i :: 0 <= i < |s| ==> s[i] <= m
    ensures exists i :: 0 <= i < |s| && s[i] == m
  {
    if |s| == 1 then s[0]
    else
      var m' := Max(s[..|s| - 1]);
      if s[|s| - 1] > m' then s[|s| - 1] else m'
  }

  /** `m` copies of `p` added up: the product `m * p` (ScaleIsProduct),
      written as a sum so that facts about it need only linear arithmetic. */
  function Scale(m: nat, p: real): real
  {
    if m == 0 then 0.0 else Scale(m - 1, p) + p
  }

  lemma {:induction false} ScaleIsProduct(m: nat, p: real)
    ensures Scale(m, p) == m as real * p
  {
    if m > 0 {
      ScaleIsProduct(m - 1, p);
      assert (m - 1) as real * p + p == m as real * p;
    }
  }

  /** Scaling by a fraction at most 1 does not enlarge. */
  lemma {:induction false} ScaleAtMostOne(m: nat, p: real)
    requires p <= 1.0
    ensures Scale(m, p) <= m as real
  {
    if m > 0 {
      ScaleAtMostOne(m - 1, p);
    }
  }

  /** Scaling a positive amount by a factor above 1 enlarges it. */
  lemma {:induction false} ScaleAboveOne(m: nat, p: real)
    requires m > 0 && p > 1.0
    ensures m as real < Scale(m, p)
  {
    if m > 1 {
      ScaleAboveOne(m - 1, p);
    }
  }

  /** Scaling is monotone in the factor. */
  lemma {:induction false} ScaleMonotone(m: nat, p1: real, p2: real)
    requires p1 <= p2
    ensures Scale(m, p1) <= Scale(m, p2)
  {
    if m > 0 {
      ScaleMonotone(m - 1, p1, p2);
    }
  }

  /** The relative cut-off: the fraction `p` of the largest vote count. */
  function Cutoff(acc: seq<nat>, p: real): real
    requires |acc| > 0
  {
    Scale(Max(acc), p)
  }

  /** The cut-off is the product `max * p` the source computes. */
  lemma CutoffIsProduct(acc: seq<nat>, p: real)
    requires |acc| > 0
    ensures Cutoff(acc, p) == Max(acc) as real * p
  {
    var m := Max(acc);
    assert Cutoff(acc, p) == Scale(m, p);
    ScaleIsProduct(m, p);
  }

  /** The grid with every cell strictly below `t` zeroed. */
  function CutAt(acc: seq<nat>, t: real): (out: seq<nat>)
    ensures |out| == |acc|
  {
    seq(|acc|, c requires 0 <= c < |acc| => if (acc[c] as real) < t then 0 else acc[c])
  }

  /** The grid after zeroing every cell strictly below the cut-off. */
  function Thresholded(acc: seq<nat>, p: real): (out: seq<nat>)
    requires |acc| > 0
    ensures |out| == |acc|
  {
    CutAt(acc, Cutoff(acc, p))
  }

  /** The threshold loop: cells strictly below `Max * p` become 0, the
      others keep their votes. */
  method Threshold(acc: seq<nat>, p: real) returns (out: seq<nat>)
    requires |acc| > 0
    ensures out == Thresholded(acc, p)
    ensures forall c :: 0 <= c < |out| ==> out[c] == 0 || out[c] as real >= Cutoff(acc, p)
    ensures forall c :: 0 <= c < |out| && acc[c] as real >= Cutoff(acc, p) ==> out[c] == acc[c]
  {
    var threshold := Cutoff(acc, p);
    out := acc;
    var i := 0;
    while i < |acc|
      invariant i <= |acc|
      invariant |out| == |acc|
      invariant forall c :: 0 <= c < i ==> out[c] == Thresholded(acc, p)[c]
      invariant forall c :: i <= c < |acc| ==> out[c] == acc[c]
    {
      if (out[i] as real) < threshold {
        out := out[i := 0];
      }
      i := i + 1;
    }
  }

  /** A cut no higher than the maximum keeps a maximal cell, and the maximum. */
  lemma CutAtKeepsMax(acc: seq<nat>, t: real)
    requires |acc| > 0 && t <= Max(acc) as real
    ensures exists c :: 0 <= c < |acc| && acc[c] == Max(acc) && CutAt(acc, t)[c] == Max(acc)
    ensures Max(CutAt(acc, t)) == Max(acc)
  {
    var m := Max(acc);
    var out := CutAt(acc, t);
    var c :| 0 <= c < |acc| && acc[c] == m;
    assert out[c] == m;
    var j :| 0 <= j < |out| && out[j] == Max(out);
    assert out[j] <= acc[j] <= m;
    assert m <= Max(out);
  }

  /** A cut above the maximum clears every cell. */
  lemma CutAtAboveMaxClears(acc: seq<nat>, t: real)
    requires |acc| > 0 && Max(acc) as real < t
    ensures forall c :: 0 <= c < |acc| ==> CutAt(acc, t)[c] == 0
  {
    var out := CutAt(acc, t);
    forall c | 0 <= c < |acc|
      ensures out[c] == 0
    {
      assert acc[c] <= Max(acc);
    }
  }

  /** A higher cut keeps only cells a lower cut keeps. */
  lemma CutAtMonotone(acc: seq<nat>, t1: real, t2: real)
    requires t1 <= t2
    ensures forall c :: 0 <= c < |acc| && CutAt(acc, t2)[c] != 0 ==> CutAt(acc, t1)[c] == CutAt(acc, t2)[c]
  {
  }

  /** Cutting a cut grid again at the same height changes nothing. */
  lemma CutAtTwice(acc: seq<nat>, t: real)
    ensures CutAt(CutAt(acc, t), t) == CutAt(acc, t)
  {
    var out := CutAt(acc, t);
    var again := CutAt(out, t);
    forall c | 0 <= c < |acc|
      ensures again[c] == out[c]
    {
    }
  }

  /** For p at most 1 the cut-off does not exceed the maximum. */
  lemma CutoffAtMostMax(acc: seq<nat>, p: real)
    requires |acc| > 0 && p <= 1.0
    ensures Cutoff(acc, p) <= Max(acc) as real
  {
    ScaleAtMostOne(Max(acc), p);
  }

  /** For p above 1 and a positive maximum the cut-off exceeds the maximum. */
  lemma CutoffAboveMax(acc: seq<nat>, p: real)
    requires |acc| > 0 && p > 1.0 && Max(acc) > 0
    ensures Max(acc) as real < Cutoff(acc, p)
  {
    ScaleAboveOne(Max(acc), p);
  }

  /** The cut-off grows with the fraction. */
  lemma CutoffMonotone(acc: seq<nat>, p1: real, p2: real)
    requires |acc| > 0 && p1 <= p2
    ensures Cutoff(acc, p1) <= Cutoff(acc, p2)
  {
    ScaleMonotone(Max(acc), p1, p2);
  }

  /** Grids with the same maximum have the same cut-off. */
  lemma SameMaxSameCutoff(a: seq<nat>, b: seq<nat>, p: real)
    requires |a| > 0 && |b| > 0 && Max(a) == Max(b)
    ensures Cutoff(a, p) == Cutoff(b, p)
  {
  }

  /** With p at most 1 a cell holding the maximum survives, so the maximum is kept. */
  lemma ThresholdKeepsMax(acc: seq<nat>, p: real)
    requires |acc| > 0 && p <= 1.0
    ensures exists c :: 0 <= c < |acc| && acc[c] == Max(acc) && Thresholded(acc, p)[c] == Max(acc)
    ensures Max(Thresholded(acc, p)) == Max(acc)
  {
    var t := Cutoff(acc, p);
    CutoffAtMostMax(acc, p);
    CutAtKeepsMax(acc, t);
    assert Thresholded(acc, p) == CutAt(acc, t);
  }

  /** The source does not clamp p: above 1 a grid with any vote is wiped out. */
  lemma ThresholdAboveOneClears(acc: seq<nat>, p: real)
    requires |acc| > 0 && p > 1.0 && Max(acc) > 0
    ensures forall c :: 0 <= c < |acc| ==> Thresholded(acc, p)[c] == 0
  {
    var t := Cutoff(acc, p);
    CutoffAboveMax(acc, p);
    CutAtAboveMaxClears(acc, t);
    assert Thresholded(acc, p) == CutAt(acc, t);
  }

  /** A higher fraction keeps a subset of the surviving cells, unchanged. */
  lemma ThresholdMonotone(acc: seq<nat>, p1: real, p2: real)
    requires |acc| > 0 && p1 <= p2
    ensures forall c :: 0 <= c < |acc| && Thresholded(acc, p2)[c] != 0 ==>
              Thresholded(acc, p1)[c] == Thresholded(acc, p2)[c]
  {
    var t1, t2 := Cutoff(acc, p1), Cutoff(acc, p2);
    CutoffMonotone(acc, p1, p2);
    CutAtMonotone(acc, t1, t2);
    assert Thresholded(acc, p1) == CutAt(acc, t1);
    assert Thresholded(acc, p2) == CutAt(acc, t2);
  }

  /** An all-zero grid stays all zero whatever the fraction. */
  lemma ThresholdZeroGrid(acc: seq<nat>, p: real)
    requires |acc| > 0
    requires forall c :: 0 <= c < |acc| ==> acc[c] == 0
    ensures Thresholded(acc, p) == acc
  {
    var out := Thresholded(acc, p);
    forall c | 0 <= c < |acc|
      ensures out[c] == acc[c]
    {
    }
  }

  /** Cutting a second time at the same fraction changes nothing. */
  lemma ThresholdIdempotent(acc: seq<nat>, p: real)
    requires |acc| > 0
    ensures Thresholded(Thresholded(acc, p), p) == Thresholded(acc, p)
  {
    var out := Thresholded(acc, p);
    if p <= 1.0 {
      var t := Cutoff(acc, p);
      ThresholdKeepsMax(acc, p);
      SameMaxSameCutoff(out, acc, p);
      CutAtTwice(acc, t);
      assert out == CutAt(acc, t);
      assert Thresholded(out, p) == CutAt(out, t);
    } else if Max(acc) > 0 {
      ThresholdAboveOneClears(acc, p);
      ThresholdZeroGrid(out, p);
    } else {
      assert forall c :: 0 <= c < |acc| ==> acc[c] == 0;
      ThresholdZeroGrid(acc, p);
      ThresholdZeroGrid(out, p);
    }
  }

  /** The whole of `hough_scores`: accumulate the votes of every pixel, then
      threshold the grid at the fraction `p` of its maximum. */
  method Scores(pixels: seq<Pixel>, p: real, rMax: nat) returns (scores: seq<nat>)
    requires rMax > 0
    ensures |scores| == Angles * rMax
    ensures scores == Thresholded(AccumulatorOf(pixels, rMax), p)
  {
    var acc := Accumulate(pixels, rMax);
    assert acc == AccumulatorOf(pixels, rMax);
    scores := Threshold(acc, p);
  }
}
