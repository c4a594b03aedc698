/**
 * One pass of the segmentation pipeline on the receptor side: the rows are
 * labelled, the labels smoothed, the smoothed codes collapsed into stretches,
 * and the stretch lengths summed along one genome's coordinates.
 */
module Pipeline {
  import opened SnpTypes
  import opened ParentAssigner
  import opened RunSmoother
  import opened SnpCounter
  import opened IntervalBuilder
  import opened Aggregator

  /**
   * Lengths of stretches laid end to end, each starting one base after the
   * previous one ends, add up to the distance from the first start to the last
   * end less one base per junction.
   */
  lemma {:induction false} Telescope(starts: seq<int>, ends: seq<int>, n: nat)
    requires 1 <= n <= |starts| && n <= |ends|
    requires forall k :: 0 <= k < n - 1 ==> starts[k + 1] == ends[k] + 1
    ensures TotalLen(starts, ends, n) == ends[n - 1] - starts[0] - (n - 1)
  {
    if n > 1 {
      Telescope(starts, ends, n - 1);
    }
  }

  /**
   * The stretches of two or more SNPs cover the scanned region: along any of
   * the three genomes their lengths add up to the distance from the first SNP
   * to the last, less one base for each junction between stretches.
   */
  lemma StretchesTile(c: seq<int>, p1: seq<int>, p2: seq<int>, r: seq<int>, donor: int, a: Axis)
    requires |c| >= 2 && Covers(c, p1, p2, r)
    ensures var b := IntervalsOf(c, p1, p2, r, donor);
      TotalLen(Project(b.starts, a), Project(b.ends, a), |b.labels|) ==
        Coord(At(p1, p2, r, |c| - 1), a) - Coord(At(p1, p2, r, 0), a) - (|b.labels| - 1)
  {
    var b := IntervalsOf(c, p1, p2, r, donor);
    var starts, ends := Project(b.starts, a), Project(b.ends, a);
    forall k | 0 <= k < |b.labels| - 1
      ensures starts[k + 1] == ends[k] + 1
    {
      Contiguous(c, p1, p2, r, donor, k);
    }
    Telescope(starts, ends, |b.labels|);
  }

  /**
   * One receptor-side pass over a table of rows: SNP_parent, SNP_chaine with
   * the receptor as base, compteur_snp, chaine_borne with the donor, and the
   * receptor sums along axis a with the default bound of 1000. The SNP counts
   * add up to one less than the number of retained rows. The sums fail
   * exactly when a single row is retained, where the stretch list has a start
   * but no end. With no retained row every total and count is zero and P1 is
   * named. With two or more, the P1 and P2 stretches number one more than the
   * junctions between them, and their totals add up to the distance along
   * axis a between the first and last retained SNPs less one base per
   * junction.
   */
  method ReceptorPass(patterns: seq<string>, posP1: seq<int>, posP2: seq<int>, posR: seq<int>,
                      receptor: int, minP1: int, minP2: int, donor: int, a: Axis)
    returns (sizes: seq<int>, res: Option<ReceptorReport>)
    requires WellFormed(patterns, posP1, posP2, posR)
    ensures var rows := Retained(patterns, posP1, posP2, |patterns|);
      && (|rows| < 2 ==> sizes == [])
      && (|rows| >= 2 ==> Sum(sizes) == |rows| - 1)
      && (res.None? <==> |rows| == 1)
      && (|rows| == 0 ==> res == Some(ReceptorReport(0, 0, P1, 0, 0, 0, 0)))
      && (res.Some? && |rows| >= 2 ==>
            var first := Pos(posP1[rows[0]], posP2[rows[0]], posR[rows[0]]);
            var last := Pos(posP1[rows[|rows| - 1]], posP2[rows[|rows| - 1]], posR[rows[|rows| - 1]]);
            res.value.sumP1 + res.value.sumP2 ==
              Coord(last, a) - Coord(first, a) - (res.value.countP1 + res.value.countP2 - 1))
  {
    var labels, outP1, outP2, outR := AssignParents(patterns, posP1, posP2, posR);
    var chaine := SmoothLabels(labels, receptor, minP1, minP2);
    sizes := CountSnps(chaine);
    if |chaine| >= 2 {
      CountsCoverAllButLast(chaine);
    }
    var b := BuildIntervals(chaine, outP1, outP2, outR, donor);
    var starts, ends := Project(b.starts, a), Project(b.ends, a);
    if |chaine| == 1 {
      res := None;
    } else {
      var rep := ReceptorSums(b.labels, starts, ends, DefaultBound);
      res := Some(rep);
      if |chaine| >= 2 {
        StretchLabelsAreCodes(chaine, outP1, outP2, outR, donor);
        CountsPartition(b.labels, |b.labels|);
        SumsPartition(b.labels, starts, ends, |b.labels|);
        StretchesTile(chaine, outP1, outP2, outR, donor, a);
      }
    }
  }

  /**
   * compteur_snp counts a change of code between the first two SNPs, while
   * chaine_borne does not act on it: for 1 2 2 1 1 1 there are three counts
   * but two stretches, so the two lists need not be of the same length.
   */
  lemma CountsOutnumberStretches(p1: seq<int>, p2: seq<int>, r: seq<int>)
    requires Covers([1, 2, 2, 1, 1, 1], p1, p2, r)
    ensures SnpCounts([1, 2, 2, 1, 1, 1]) == [1, 2, 2]
    ensures |SnpCounts([1, 2, 2, 1, 1, 1])| == |IntervalsOf([1, 2, 2, 1, 1, 1], p1, p2, r, 2).labels| + 1
  {
    var c := [1, 2, 2, 1, 1, 1];
    FirstChangeIgnored(p1, p2, r);
    assert CountsUpTo(c, 3) == [1, 2];
    assert CountsUpTo(c, 5) == [1, 2, 2];
  }
}
