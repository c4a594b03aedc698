/**
 * SNP counting per segment (compteur_snp): scans the smoothed code sequence
 * and emits the number of SNPs of each segment, closing a segment at each
 * change of code. The scan stops one SNP early: the last count is emitted at
 * the next-to-last SNP and does not include the last SNP.
 */
module SnpCounter {
  import opened SnpTypes

  /** The length of the run of equal codes that ends at index i. */
  function RunLen(c: seq<int>, i: nat): (n: nat)
    requires i < |c|
    ensures 1 <= n <= i + 1
  {
    if i == 0 || c[i] != c[i - 1] then 1 else RunLen(c, i - 1) + 1
  }

  /** A count is emitted at index i: at the next-to-last SNP, and at each change of code before it. */
  predicate EmitsAt(c: seq<int>, i: nat)
  {
    i + 2 == |c| || (i + 2 < |c| && c[i] != c[i + 1])
  }

  /** The counts emitted while scanning the indices below k. */
  function CountsUpTo(c: seq<int>, k: nat): (r: seq<int>)
    requires k < |c|
    ensures forall j :: 0 <= j < |r| ==> r[j] >= 1
  {
    if k == 0 then []
    else CountsUpTo(c, k - 1) + (if EmitsAt(c, k - 1) then [RunLen(c, k - 1)] else [])
  }

  /** The per-segment SNP counts of a code sequence. */
  function SnpCounts(c: seq<int>): seq<int>
  {
    if |c| < 2 then [] else CountsUpTo(c, |c| - 1)
  }

  function Sum(s: seq<int>): int
  {
    if s == [] then 0 else Sum(s[..|s| - 1]) + s[|s| - 1]
  }

  /**
   * compteur_snp. For a sequence of codes 1 and 2 the result is SnpCounts;
   * on any input it is empty below two SNPs and holds only positive counts.
   */
  method CountSnps(chaine: seq<int>) returns (sizes: seq<int>)
    ensures |chaine| < 2 ==> sizes == []
    ensures forall j :: 0 <= j < |sizes| ==> sizes[j] >= 1
    ensures IsCodes(chaine) ==> sizes == SnpCounts(chaine)
  {
    var comptP1: nat := 0;
    var comptP2: nat := 0;
    sizes := [];
    var i := 0;
    while i < |chaine| - 1
      invariant |chaine| >= 1 ==> 0 <= i <= |chaine| - 1
      invariant |chaine| < 2 ==> sizes == []
      invariant forall j :: 0 <= j < |sizes| ==> sizes[j] >= 1
      invariant IsCodes(chaine) && |chaine| >= 2 ==> sizes == CountsUpTo(chaine, i)
      invariant IsCodes(chaine) && i < |chaine| - 1 ==>
        if chaine[i] == 1 then comptP1 == RunLen(chaine, i) - 1 && comptP2 == 0
        else comptP2 == RunLen(chaine, i) - 1 && comptP1 == 0
    {
      if i + 1 == |chaine| - 1 {
        if comptP1 != 0 {
          comptP1 := comptP1 + 1;
          sizes := sizes + [comptP1];
        } else {
          comptP2 := comptP2 + 1;
          sizes := sizes + [comptP2];
        }
      } else if chaine[i] == 2 && chaine[i + 1] == 1 {
        comptP2 := comptP2 + 1;
        sizes := sizes + [comptP2];
        comptP2 := 0;
      } else if chaine[i] == 1 && chaine[i + 1] == 2 {
        comptP1 := comptP1 + 1;
        sizes := sizes + [comptP1];
        comptP1 := 0;
      } else if chaine[i] == 1 {
        comptP1 := comptP1 + 1;
      } else if chaine[i] == 2 {
        comptP2 := comptP2 + 1;
      }
      i := i + 1;
    }
  }

  lemma SumSnoc(s: seq<int>, x: int)
    ensures Sum(s + [x]) == Sum(s) + x
  {
    assert (s + [x])[..|s|] == s;
  }

  /** Up to the next-to-last SNP, the counts emitted so far plus the open run account for every SNP scanned. */
  lemma {:induction false} CountsUpToSum(c: seq<int>, k: nat)
    requires k + 2 <= |c|
    ensures Sum(CountsUpTo(c, k)) + RunLen(c, k) - 1 == k
  {
    if k > 0 {
      CountsUpToSum(c, k - 1);
      if EmitsAt(c, k - 1) {
        SumSnoc(CountsUpTo(c, k - 1), RunLen(c, k - 1));
      } else {
        assert CountsUpTo(c, k) == CountsUpTo(c, k - 1);
      }
    }
  }

  /**
   * The counts add up to one less than the number of SNPs: every SNP is
   * counted once except the last one.
   */
  lemma CountsCoverAllButLast(c: seq<int>)
    requires |c| >= 2
    ensures Sum(SnpCounts(c)) == |c| - 1
  {
    var k := |c| - 2;
    CountsUpToSum(c, k);
    assert EmitsAt(c, k);
    SumSnoc(CountsUpTo(c, k), RunLen(c, k));
  }

  /** RunLen(c, e) is the length of the maximal run that starts at s and reaches e. */
  lemma {:induction false} RunLenMeasuresRun(c: seq<int>, s: nat, e: nat)
    requires s <= e < |c|
    requires forall k :: s <= k <= e ==> c[k] == c[e]
    requires s == 0 || c[s - 1] != c[s]
    ensures RunLen(c, e) == e - s + 1
  {
    if e > s {
      RunLenMeasuresRun(c, s, e - 1);
    }
  }

  /** The counts emitted below k are a prefix of those emitted below any later m. */
  lemma {:induction false} CountsUpToPrefix(c: seq<int>, k: nat, m: nat)
    requires k <= m < |c|
    ensures |CountsUpTo(c, k)| <= |CountsUpTo(c, m)|
    ensures CountsUpTo(c, m)[..|CountsUpTo(c, k)|] == CountsUpTo(c, k)
  {
    if k < m {
      CountsUpToPrefix(c, k, m - 1);
    }
  }

  /** The number of changes of code between SNPs i and i + 1 for the indices i below k. */
  function ChangesBelow(c: seq<int>, k: nat): nat
    requires k < |c|
  {
    if k == 0 then 0 else ChangesBelow(c, k - 1) + (if c[k - 1] != c[k] then 1 else 0)
  }

  /**
   * Before the next-to-last SNP a count is emitted exactly at each change of
   * code, so the counts emitted below k number the changes below k.
   */
  lemma {:induction false} CountsUpToLength(c: seq<int>, k: nat)
    requires k + 2 <= |c|
    ensures |CountsUpTo(c, k)| == ChangesBelow(c, k)
  {
    if k > 0 {
      CountsUpToLength(c, k - 1);
      assert EmitsAt(c, k - 1) <==> c[k - 1] != c[k];
    }
  }

  /**
   * A maximal run [s, e] of equal codes that ends at a change of code before
   * the next-to-last SNP gets a count equal to its length. Its count comes
   * after one count per earlier change of code, that is, after the counts of
   * the earlier segments.
   */
  lemma ClosedRunCount(c: seq<int>, s: nat, e: nat)
    requires s <= e && e + 2 < |c| && c[e] != c[e + 1]
    requires forall k :: s <= k <= e ==> c[k] == c[e]
    requires s == 0 || c[s - 1] != c[s]
    ensures ChangesBelow(c, e) < |SnpCounts(c)|
    ensures SnpCounts(c)[ChangesBelow(c, e)] == e - s + 1
  {
    CountsUpToLength(c, e);
    RunLenMeasuresRun(c, s, e);
    var before, upTo, all := CountsUpTo(c, e), CountsUpTo(c, e + 1), CountsUpTo(c, |c| - 1);
    assert EmitsAt(c, e);
    assert upTo == before + [RunLen(c, e)];
    CountsUpToPrefix(c, e + 1, |c| - 1);
    assert all[..|upTo|] == upTo;
    assert all[|before|] == upTo[|before|];
  }

  /**
   * The last count is the length of the run that holds the next-to-last SNP,
   * counted up to that SNP: the last SNP is never counted, whether it extends
   * that run or starts a new one.
   */
  lemma LastCount(c: seq<int>, s: nat)
    requires 2 <= |c| && s <= |c| - 2
    requires forall k :: s <= k <= |c| - 2 ==> c[k] == c[|c| - 2]
    requires s == 0 || c[s - 1] != c[s]
    ensures |SnpCounts(c)| >= 1
    ensures SnpCounts(c)[|SnpCounts(c)| - 1] == |c| - 1 - s
  {
    RunLenMeasuresRun(c, s, |c| - 2);
    assert EmitsAt(c, |c| - 2);
  }
}
