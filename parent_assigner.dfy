/**
 * Parent assignment (SNP_parent): each SNP row of the input table carries a
 * three-letter pattern (P1 allele, P2 allele, R allele) and its position in the
 * three genomes. A row is labelled P1 or P2 from its pattern, or dropped, and
 * the retained rows' positions are copied to three lists aligned with the labels.
 */
module ParentAssigner {
  import opened SnpTypes

  /** ASCII lower-casing of an allele letter. */
  function Lower(ch: char): char
  {
    if 'A' <= ch <= 'Z' then (ch as int + 32) as char else ch
  }

  /** Two allele letters are the same base, ignoring case. */
  predicate SameAllele(a: char, b: char)
  {
    Lower(a) == Lower(b)
  }

  /** The missing-data symbol 'n' or 'N'. */
  predicate IsMissing(ch: char)
  {
    Lower(ch) == 'n'
  }

  predicate HasMissing(pattern: string)
    requires |pattern| >= 3
  {
    IsMissing(pattern[2]) || IsMissing(pattern[1]) || IsMissing(pattern[0])
  }

  /**
   * The label given to one row, or None when the row is dropped. The R
   * position plays no part: only the P1 and P2 positions are looked at.
   */
  function Classify(pattern: string, posP1: int, posP2: int): Option<Label>
    requires |pattern| >= 3
  {
    if HasMissing(pattern) then None
    else if SameAllele(pattern[2], pattern[0]) then
      (if posP1 != 0 && posP2 != 0 then Some(P1) else None)
    else if SameAllele(pattern[2], pattern[1]) then
      (if posP1 != 0 && posP2 != 0 then Some(P2) else None)
    else None
  }

  /** The input table: a pattern column and three position columns of one length. */
  predicate WellFormed(patterns: seq<string>, posP1: seq<int>, posP2: seq<int>, posR: seq<int>)
  {
    && |posP1| == |patterns| && |posP2| == |patterns| && |posR| == |patterns|
    && forall i :: 0 <= i < |patterns| ==> |patterns[i]| >= 3
  }

  /** The indices, in input order, of the rows among the first n that are kept. */
  function Retained(patterns: seq<string>, posP1: seq<int>, posP2: seq<int>, n: nat): (rows: seq<nat>)
    requires n <= |patterns| && |posP1| == |patterns| && |posP2| == |patterns|
    requires forall i :: 0 <= i < |patterns| ==> |patterns[i]| >= 3
    ensures |rows| <= n
    ensures forall k :: 0 <= k < |rows| ==> rows[k] < n
  {
    if n == 0 then []
    else
      var before := Retained(patterns, posP1, posP2, n - 1);
      if Classify(patterns[n - 1], posP1[n - 1], posP2[n - 1]).Some? then before + [n - 1] else before
  }

  /** Every row listed in rows is below n and gets a label. */
  predicate RowsLabelled(patterns: seq<string>, posP1: seq<int>, posP2: seq<int>, rows: seq<nat>, n: nat)
    requires n <= |patterns| && |posP1| == |patterns| && |posP2| == |patterns|
    requires forall i :: 0 <= i < |patterns| ==> |patterns[i]| >= 3
  {
    forall k :: 0 <= k < |rows| ==> rows[k] < n && Classify(patterns[rows[k]], posP1[rows[k]], posP2[rows[k]]).Some?
  }

  /** Every row below n that gets a label is listed in rows. */
  predicate RowsComplete(patterns: seq<string>, posP1: seq<int>, posP2: seq<int>, rows: seq<nat>, n: nat)
    requires n <= |patterns| && |posP1| == |patterns| && |posP2| == |patterns|
    requires forall i :: 0 <= i < |patterns| ==> |patterns[i]| >= 3
  {
    forall i :: 0 <= i < n && Classify(patterns[i], posP1[i], posP2[i]).Some? ==> i in rows
  }

  /** Every retained row gets a label. */
  lemma {:induction false} RetainedLabelled(patterns: seq<string>, posP1: seq<int>, posP2: seq<int>, n: nat)
    requires n <= |patterns| && |posP1| == |patterns| && |posP2| == |patterns|
    requires forall i :: 0 <= i < |patterns| ==> |patterns[i]| >= 3
    ensures RowsLabelled(patterns, posP1, posP2, Retained(patterns, posP1, posP2, n), n)
  {
    if n > 0 {
      RetainedLabelled(patterns, posP1, posP2, n - 1);
      var before := Retained(patterns, posP1, posP2, n - 1);
      var rows := Retained(patterns, posP1, posP2, n);
      if Classify(patterns[n - 1], posP1[n - 1], posP2[n - 1]).Some? {
        assert rows == before + [n - 1];
        forall k | 0 <= k < |rows|
          ensures rows[k] < n && Classify(patterns[rows[k]], posP1[rows[k]], posP2[rows[k]]).Some?
        {
          if k < |before| {
            assert rows[k] == before[k];
          }
        }
      } else {
        assert rows == before;
      }
    }
  }

  /** The retained rows are in input order, each once. */
  lemma {:induction false} RetainedIncreasing(patterns: seq<string>, posP1: seq<int>, posP2: seq<int>, n: nat)
    requires n <= |patterns| && |posP1| == |patterns| && |posP2| == |patterns|
    requires forall i :: 0 <= i < |patterns| ==> |patterns[i]| >= 3
    ensures Increasing(Retained(patterns, posP1, posP2, n))
  {
    if n > 0 {
      RetainedIncreasing(patterns, posP1, posP2, n - 1);
      var before := Retained(patterns, posP1, posP2, n - 1);
      var rows := Retained(patterns, posP1, posP2, n);
      if Classify(patterns[n - 1], posP1[n - 1], posP2[n - 1]).Some? {
        assert rows == before + [n - 1];
        forall k, l | 0 <= k < l < |rows|
          ensures rows[k] < rows[l]
        {
          assert rows[k] == before[k] && before[k] < n - 1;
          if l < |before| {
            assert rows[l] == before[l];
          }
        }
      } else {
        assert rows == before;
      }
    }
  }

  /** Every row below n that gets a label is retained. */
  lemma {:induction false} RetainedComplete(patterns: seq<string>, posP1: seq<int>, posP2: seq<int>, n: nat)
    requires n <= |patterns| && |posP1| == |patterns| && |posP2| == |patterns|
    requires forall i :: 0 <= i < |patterns| ==> |patterns[i]| >= 3
    ensures RowsComplete(patterns, posP1, posP2, Retained(patterns, posP1, posP2, n), n)
  {
    if n > 0 {
      RetainedComplete(patterns, posP1, posP2, n - 1);
      var before := Retained(patterns, posP1, posP2, n - 1);
      var rows := Retained(patterns, posP1, posP2, n);
      if Classify(patterns[n - 1], posP1[n - 1], posP2[n - 1]).Some? {
        assert rows == before + [n - 1];
      } else {
        assert rows == before;
      }
    }
  }

  /** The retained rows are exactly the rows that get a label, each once and in input order. */
  lemma {:induction false} RetainedExact(patterns: seq<string>, posP1: seq<int>, posP2: seq<int>, n: nat)
    requires n <= |patterns| && |posP1| == |patterns| && |posP2| == |patterns|
    requires forall i :: 0 <= i < |patterns| ==> |patterns[i]| >= 3
    ensures var rows := Retained(patterns, posP1, posP2, n);
      && RowsLabelled(patterns, posP1, posP2, rows, n) && Increasing(rows)
      && RowsComplete(patterns, posP1, posP2, rows, n)
  {
    RetainedLabelled(patterns, posP1, posP2, n);
    RetainedIncreasing(patterns, posP1, posP2, n);
    RetainedComplete(patterns, posP1, posP2, n);
  }

  /**
   * The four result lists have one entry per row listed in rows, and entry k
   * holds the label and the three positions of row rows[k].
   */
  predicate Aligned(patterns: seq<string>, posP1: seq<int>, posP2: seq<int>, posR: seq<int>, rows: seq<nat>,
                    labels: seq<Label>, outP1: seq<int>, outP2: seq<int>, outR: seq<int>)
    requires WellFormed(patterns, posP1, posP2, posR)
  {
    && |labels| == |rows| && |outP1| == |rows| && |outP2| == |rows| && |outR| == |rows|
    && forall k :: 0 <= k < |rows| ==>
         && rows[k] < |patterns|
         && Classify(patterns[rows[k]], posP1[rows[k]], posP2[rows[k]]) == Some(labels[k])
         && outP1[k] == posP1[rows[k]] && outP2[k] == posP2[rows[k]] && outR[k] == posR[rows[k]]
  }

  /** Appending one retained row keeps the lists aligned with the row indices. */
  lemma AlignedExtend(patterns: seq<string>, posP1: seq<int>, posP2: seq<int>, posR: seq<int>, rows: seq<nat>,
                      labels: seq<Label>, outP1: seq<int>, outP2: seq<int>, outR: seq<int>, i: nat, l: Label)
    requires WellFormed(patterns, posP1, posP2, posR)
    requires Aligned(patterns, posP1, posP2, posR, rows, labels, outP1, outP2, outR)
    requires i < |patterns| && Classify(patterns[i], posP1[i], posP2[i]) == Some(l)
    ensures Aligned(patterns, posP1, posP2, posR, rows + [i],
                    labels + [l], outP1 + [posP1[i]], outP2 + [posP2[i]], outR + [posR[i]])
  {
  }

  /**
   * The classification loop of SNP_parent. The four result lists have one
   * entry per retained row, in input order, and entry k holds the label and the
   * three positions of the k-th retained row.
   */
  method AssignParents(patterns: seq<string>, posP1: seq<int>, posP2: seq<int>, posR: seq<int>)
    returns (labels: seq<Label>, outP1: seq<int>, outP2: seq<int>, outR: seq<int>)
    requires WellFormed(patterns, posP1, posP2, posR)
    ensures Aligned(patterns, posP1, posP2, posR, Retained(patterns, posP1, posP2, |patterns|),
                    labels, outP1, outP2, outR)
  {
    labels, outP1, outP2, outR := [], [], [], [];
    // compt is the row counter the source keeps beside its loop over the patterns
    var compt := 0;
    for idx := 0 to |patterns|
      invariant compt == idx
      invariant Aligned(patterns, posP1, posP2, posR, Retained(patterns, posP1, posP2, idx),
                        labels, outP1, outP2, outR)
    {
      ghost var rows := Retained(patterns, posP1, posP2, idx);
      var snp := patterns[idx];
      if Lower(snp[2]) == 'n' || Lower(snp[1]) == 'n' || Lower(snp[0]) == 'n' {
        compt := compt + 1;
      } else if Lower(snp[2]) == Lower(snp[0]) {
        if posP1[compt] != 0 && posP2[compt] != 0 {
          AlignedExtend(patterns, posP1, posP2, posR, rows, labels, outP1, outP2, outR, idx, P1);
          labels := labels + [P1];
          outP1 := outP1 + [posP1[compt]];
          outP2 := outP2 + [posP2[compt]];
          outR := outR + [posR[compt]];
        }
        compt := compt + 1;
      } else if Lower(snp[2]) == Lower(snp[1]) {
        if posP1[compt] != 0 && posP2[compt] != 0 {
          AlignedExtend(patterns, posP1, posP2, posR, rows, labels, outP1, outP2, outR, idx, P2);
          labels := labels + [P2];
          outP1 := outP1 + [posP1[compt]];
          outP2 := outP2 + [posP2[compt]];
          outR := outR + [posR[compt]];
        }
        compt := compt + 1;
      } else {
        compt := compt + 1;
      }
    }
  }

  /** A row is labelled P1 exactly when it has no 'n', its R allele is its P1 allele and both parental positions are set. */
  lemma ClassifyP1Rule(pattern: string, posP1: int, posP2: int)
    requires |pattern| >= 3
    ensures Classify(pattern, posP1, posP2) == Some(P1) <==>
      !HasMissing(pattern) && SameAllele(pattern[2], pattern[0]) && posP1 != 0 && posP2 != 0
  {
  }

  /**
   * A row is labelled P2 exactly when it has no 'n', its R allele is not its
   * P1 allele but is its P2 allele, and both parental positions are set.
   */
  lemma ClassifyP2Rule(pattern: string, posP1: int, posP2: int)
    requires |pattern| >= 3
    ensures Classify(pattern, posP1, posP2) == Some(P2) <==>
      && !HasMissing(pattern) && !SameAllele(pattern[2], pattern[0])
      && SameAllele(pattern[2], pattern[1]) && posP1 != 0 && posP2 != 0
  {
  }

  /** A row whose R allele is its P1 allele is never labelled P2, even when its P1 label is refused for a zero position. */
  lemma NeverRetriedAsP2(pattern: string, posP1: int, posP2: int)
    requires |pattern| >= 3 && SameAllele(pattern[2], pattern[0])
    ensures Classify(pattern, posP1, posP2) != Some(P2)
    ensures posP1 == 0 || posP2 == 0 ==> Classify(pattern, posP1, posP2) == None
  {
  }

  /**
   * A pattern whose three alleles are one and the same base (not 'n') is
   * labelled P1 when both parental positions are nonzero; otherwise it is
   * dropped and never labelled P2 (see NeverRetriedAsP2).
   */
  lemma IdenticalAllelesAreP1(pattern: string, posP1: int, posP2: int)
    requires |pattern| >= 3 && !IsMissing(pattern[0])
    requires SameAllele(pattern[0], pattern[1]) && SameAllele(pattern[1], pattern[2])
    requires posP1 != 0 && posP2 != 0
    ensures Classify(pattern, posP1, posP2) == Some(P1)
  {
  }

  /** No row that has 'n' or 'N' among its three alleles is ever retained. */
  lemma MissingRowsDropped(patterns: seq<string>, posP1: seq<int>, posP2: seq<int>, i: nat)
    requires |posP1| == |patterns| && |posP2| == |patterns|
    requires forall j :: 0 <= j < |patterns| ==> |patterns[j]| >= 3
    requires i < |patterns| && HasMissing(patterns[i])
    ensures i !in Retained(patterns, posP1, posP2, |patterns|)
  {
    RetainedExact(patterns, posP1, posP2, |patterns|);
  }
}
