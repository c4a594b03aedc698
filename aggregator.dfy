/**
 * Length sums over the stretches (calcul_des_sommes_rapport_recombinant and
 * calcul_des_sommes_rapport_donneur). A stretch's length is its end minus its
 * start in one coordinate system; the lengths are summed per code (1 for P1,
 * 2 for P2), stretches with any other code being skipped. On the receptor side
 * the stretches of each code are also counted, the code with the smaller total
 * is named, and the stretches of that code longer than a bound are summed and
 * counted.
 */
module Aggregator {
  import opened SnpTypes

  /** Start and end columns reach at least as far as the label column. */
  predicate Spans(labels: seq<int>, starts: seq<int>, ends: seq<int>)
  {
    |starts| >= |labels| && |ends| >= |labels|
  }

  /** The sum of the lengths of the stretches below n that carry the code. */
  function SumLen(labels: seq<int>, starts: seq<int>, ends: seq<int>, code: int, n: nat): int
    requires n <= |labels| && Spans(labels, starts, ends)
  {
    if n == 0 then 0
    else SumLen(labels, starts, ends, code, n - 1) + (if labels[n - 1] == code then ends[n - 1] - starts[n - 1] else 0)
  }

  /** The number of stretches below n that carry the code. */
  function CountCode(labels: seq<int>, code: int, n: nat): nat
    requires n <= |labels|
  {
    if n == 0 then 0
    else CountCode(labels, code, n - 1) + (if labels[n - 1] == code then 1 else 0)
  }

  /** A stretch carries the code and is longer than the bound. */
  predicate LongOf(labels: seq<int>, starts: seq<int>, ends: seq<int>, code: int, bound: int, i: nat)
    requires i < |labels| && Spans(labels, starts, ends)
  {
    labels[i] == code && ends[i] - starts[i] > bound
  }

  /** The sum of the lengths of the stretches below n that carry the code and are longer than the bound. */
  function SumAbove(labels: seq<int>, starts: seq<int>, ends: seq<int>, code: int, bound: int, n: nat): int
    requires n <= |labels| && Spans(labels, starts, ends)
  {
    if n == 0 then 0
    else
      var long := LongOf(labels, starts, ends, code, bound, n - 1);
      SumAbove(labels, starts, ends, code, bound, n - 1) + (if long then ends[n - 1] - starts[n - 1] else 0)
  }

  /** The number of stretches below n that carry the code and are longer than the bound. */
  function CountAbove(labels: seq<int>, starts: seq<int>, ends: seq<int>, code: int, bound: int, n: nat): nat
    requires n <= |labels| && Spans(labels, starts, ends)
  {
    if n == 0 then 0
    else
      var long := LongOf(labels, starts, ends, code, bound, n - 1);
      CountAbove(labels, starts, ends, code, bound, n - 1) + (if long then 1 else 0)
  }

  /** The sum of the lengths of all stretches below n, whatever their code. */
  function TotalLen(starts: seq<int>, ends: seq<int>, n: nat): int
    requires n <= |starts| && n <= |ends|
  {
    if n == 0 then 0 else TotalLen(starts, ends, n - 1) + (ends[n - 1] - starts[n - 1])
  }

  /** The seven results of the receptor-side summary, each a single value. */
  datatype ReceptorReport = ReceptorReport(
    sumP1: int, sumP2: int, minLabel: Label, sumSup: int, countSup: nat, countP1: nat, countP2: nat)

  /** The default bound on stretch length for the long-stretch sums. */
  const DefaultBound: int := 1000

  /**
   * calcul_des_sommes_rapport_recombinant. The totals and counts per code are
   * those of SumLen and CountCode; P1 is named when its total is at most that
   * of P2, otherwise P2; the long-stretch sum and count are taken over the
   * named code.
   */
  method ReceptorSums(labels: seq<int>, starts: seq<int>, ends: seq<int>, bound: int) returns (rep: ReceptorReport)
    requires Spans(labels, starts, ends)
    ensures rep.sumP1 == SumLen(labels, starts, ends, 1, |labels|)
    ensures rep.sumP2 == SumLen(labels, starts, ends, 2, |labels|)
    ensures rep.countP1 == CountCode(labels, 1, |labels|) && rep.countP2 == CountCode(labels, 2, |labels|)
    ensures rep.minLabel == P1 <==> rep.sumP1 <= rep.sumP2
    ensures rep.sumSup == SumAbove(labels, starts, ends, Code(rep.minLabel), bound, |labels|)
    ensures rep.countSup == CountAbove(labels, starts, ends, Code(rep.minLabel), bound, |labels|)
  {
    var sumP1, sumP2, sumSup := 0, 0, 0;
    var countP1, countP2, count: nat := 0, 0, 0;
    for i := 0 to |labels|
      invariant sumP1 == SumLen(labels, starts, ends, 1, i) && sumP2 == SumLen(labels, starts, ends, 2, i)
      invariant countP1 == CountCode(labels, 1, i) && countP2 == CountCode(labels, 2, i)
    {
      if labels[i] == 1 {
        countP1 := countP1 + 1;
        sumP1 := sumP1 + (ends[i] - starts[i]);
      } else if labels[i] == 2 {
        countP2 := countP2 + 1;
        sumP2 := sumP2 + (ends[i] - starts[i]);
      }
    }
    // the first of two equal totals is the minimum
    var least := if sumP1 <= sumP2 then sumP1 else sumP2;
    var minLabel: Label;
    if least == sumP1 {
      minLabel := P1;
      for i := 0 to |labels|
        invariant sumSup == SumAbove(labels, starts, ends, 1, bound, i)
        invariant count == CountAbove(labels, starts, ends, 1, bound, i)
      {
        if labels[i] == 1 && ends[i] - starts[i] > bound {
          count := count + 1;
          sumSup := sumSup + (ends[i] - starts[i]);
        }
      }
    } else {
      // the second test of the source, that the minimum is the P2 total, always holds here
      assert least == sumP2;
      minLabel := P2;
      for i := 0 to |labels|
        invariant sumSup == SumAbove(labels, starts, ends, 2, bound, i)
        invariant count == CountAbove(labels, starts, ends, 2, bound, i)
      {
        if labels[i] == 2 && ends[i] - starts[i] > bound {
          sumSup := sumSup + (ends[i] - starts[i]);
          count := count + 1;
        }
      }
    }
    rep := ReceptorReport(sumP1, sumP2, minLabel, sumSup, count, countP1, countP2);
  }

  /** calcul_des_sommes_rapport_donneur: the totals of the stretch lengths per code. */
  method DonorSums(labels: seq<int>, starts: seq<int>, ends: seq<int>) returns (sumP1: int, sumP2: int)
    requires Spans(labels, starts, ends)
    ensures sumP1 == SumLen(labels, starts, ends, 1, |labels|)
    ensures sumP2 == SumLen(labels, starts, ends, 2, |labels|)
  {
    sumP1, sumP2 := 0, 0;
    for i := 0 to |labels|
      invariant sumP1 == SumLen(labels, starts, ends, 1, i) && sumP2 == SumLen(labels, starts, ends, 2, i)
    {
      if labels[i] == 1 {
        sumP1 := sumP1 + (ends[i] - starts[i]);
      } else if labels[i] == 2 {
        sumP2 := sumP2 + (ends[i] - starts[i]);
      }
    }
  }

  /** When every label is 1 or 2, the P1 and P2 counts add up to the number of stretches. */
  lemma {:induction false} CountsPartition(labels: seq<int>, n: nat)
    requires n <= |labels| && IsCodes(labels)
    ensures CountCode(labels, 1, n) + CountCode(labels, 2, n) == n
  {
    if n > 0 {
      CountsPartition(labels, n - 1);
      assert IsCode(labels[n - 1]);
    }
  }

  /** When every label is 1 or 2, the P1 and P2 totals add up to the total length of all stretches. */
  lemma {:induction false} SumsPartition(labels: seq<int>, starts: seq<int>, ends: seq<int>, n: nat)
    requires n <= |labels| && Spans(labels, starts, ends) && IsCodes(labels)
    ensures SumLen(labels, starts, ends, 1, n) + SumLen(labels, starts, ends, 2, n) == TotalLen(starts, ends, n)
  {
    if n > 0 {
      SumsPartition(labels, starts, ends, n - 1);
      assert IsCode(labels[n - 1]);
    }
  }

  /** The long stretches of a code are among the stretches of that code. */
  lemma {:induction false} CountAboveAtMostCount(labels: seq<int>, starts: seq<int>, ends: seq<int>, code: int, bound: int, n: nat)
    requires n <= |labels| && Spans(labels, starts, ends)
    ensures CountAbove(labels, starts, ends, code, bound, n) <= CountCode(labels, code, n)
  {
    if n > 0 {
      CountAboveAtMostCount(labels, starts, ends, code, bound, n - 1);
    }
  }

  /** Each long stretch is at least one base longer than the bound, so their sum is at least countSup * (bound + 1). */
  lemma {:induction false} SumAboveExceedsBound(labels: seq<int>, starts: seq<int>, ends: seq<int>, code: int, bound: int, n: nat)
    requires n <= |labels| && Spans(labels, starts, ends)
    ensures SumAbove(labels, starts, ends, code, bound, n) >= CountAbove(labels, starts, ends, code, bound, n) * (bound + 1)
  {
    if n > 0 {
      SumAboveExceedsBound(labels, starts, ends, code, bound, n - 1);
    }
  }

  /**
   * With a non-negative bound, the long stretches of a code make up at most
   * the total length of that code, provided no stretch of that code has a
   * negative length.
   */
  lemma {:induction false} SumAboveAtMostSum(labels: seq<int>, starts: seq<int>, ends: seq<int>, code: int, bound: int, n: nat)
    requires n <= |labels| && Spans(labels, starts, ends) && bound >= 0
    requires forall i :: 0 <= i < n && labels[i] == code ==> starts[i] <= ends[i]
    ensures SumAbove(labels, starts, ends, code, bound, n) <= SumLen(labels, starts, ends, code, n)
  {
    if n > 0 {
      SumAboveAtMostSum(labels, starts, ends, code, bound, n - 1);
    }
  }
}
