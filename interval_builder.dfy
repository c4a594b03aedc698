/**
 * Interval building (chaine_borne): collapses the smoothed code sequence into
 * stretches, each with a label and start and end positions in the P1, P2 and
 * R genomes. At a change of code between SNP i and SNP i + 1 the boundary
 * follows the donor rule: a donor stretch ends at SNP i and the next starts one
 * base after it; a receptor stretch keeps the bases up to the SNP before SNP
 * i + 1 and the next stretch starts at SNP i + 1. Changes between the first two
 * and between the last two SNPs are not acted on.
 */
module IntervalBuilder {
  import opened SnpTypes

  /** The seven parallel lists of the source: labels, start positions and end positions (each a P1, P2, R triple). */
  datatype Bounds = Bounds(labels: seq<int>, starts: seq<Pos>, ends: seq<Pos>)

  /** The three position lists reach at least as far as the code sequence. */
  predicate Covers(c: seq<int>, p1: seq<int>, p2: seq<int>, r: seq<int>)
  {
    |p1| >= |c| && |p2| >= |c| && |r| >= |c|
  }

  function At(p1: seq<int>, p2: seq<int>, r: seq<int>, i: nat): Pos
    requires i < |p1| && i < |p2| && i < |r|
  {
    Pos(p1[i], p2[i], r[i])
  }

  /** A change of code that the scan acts on: between SNPs i and i + 1, with 1 <= i <= |c| - 3. */
  predicate IsTransition(c: seq<int>, i: nat)
  {
    1 <= i && i + 2 < |c| && c[i] != c[i + 1]
  }

  /** Every index of t is a SNP followed by another one. */
  predicate Inside(c: seq<int>, t: seq<nat>)
  {
    forall j :: 0 <= j < |t| ==> t[j] + 1 < |c|
  }

  /** The transitions below k, in increasing order. */
  function Transitions(c: seq<int>, k: nat): (t: seq<nat>)
    ensures |t| <= k
    ensures forall j :: 0 <= j < |t| ==> t[j] + 1 < |c|
  {
    if k == 0 then []
    else
      var before := Transitions(c, k - 1);
      if IsTransition(c, k - 1) then before + [k - 1] else before
  }

  /** Every index listed in t is a transition below k. */
  predicate AllTransitions(c: seq<int>, t: seq<nat>, k: nat)
  {
    forall j :: 0 <= j < |t| ==> t[j] < k && IsTransition(c, t[j])
  }

  /** Every transition below k is listed in t. */
  predicate HasAllTransitions(c: seq<int>, t: seq<nat>, k: nat)
  {
    forall i :: 0 <= i < k && IsTransition(c, i) ==> i in t
  }

  lemma {:induction false} TransitionsValid(c: seq<int>, k: nat)
    ensures AllTransitions(c, Transitions(c, k), k)
  {
    if k > 0 {
      TransitionsValid(c, k - 1);
      var before, t := Transitions(c, k - 1), Transitions(c, k);
      if IsTransition(c, k - 1) {
        assert t == before + [k - 1];
        forall j | 0 <= j < |t|
          ensures t[j] < k && IsTransition(c, t[j])
        {
          if j < |before| {
            assert t[j] == before[j];
          }
        }
      } else {
        assert t == before;
      }
    }
  }

  lemma {:induction false} TransitionsIncreasing(c: seq<int>, k: nat)
    ensures Increasing(Transitions(c, k))
  {
    if k > 0 {
      TransitionsIncreasing(c, k - 1);
      TransitionsValid(c, k - 1);
      var before, t := Transitions(c, k - 1), Transitions(c, k);
      if IsTransition(c, k - 1) {
        assert t == before + [k - 1];
        forall j, l | 0 <= j < l < |t|
          ensures t[j] < t[l]
        {
          assert t[j] == before[j] && before[j] < k - 1;
          if l < |before| {
            assert t[l] == before[l];
          }
        }
      } else {
        assert t == before;
      }
    }
  }

  lemma {:induction false} TransitionsComplete(c: seq<int>, k: nat)
    ensures HasAllTransitions(c, Transitions(c, k), k)
  {
    if k > 0 {
      TransitionsComplete(c, k - 1);
      var before, t := Transitions(c, k - 1), Transitions(c, k);
      if IsTransition(c, k - 1) {
        assert t == before + [k - 1];
      } else {
        assert t == before;
      }
    }
  }

  /** Transitions(c, k) lists exactly the transitions below k, each once, in increasing order. */
  lemma {:induction false} TransitionsExact(c: seq<int>, k: nat)
    ensures var t := Transitions(c, k);
      AllTransitions(c, t, k) && Increasing(t) && HasAllTransitions(c, t, k)
  {
    TransitionsValid(c, k);
    TransitionsIncreasing(c, k);
    TransitionsComplete(c, k);
  }

  /** The end of the stretch closed at transition t. */
  function CloseAt(c: seq<int>, p1: seq<int>, p2: seq<int>, r: seq<int>, donor: int, t: nat): Pos
    requires t + 1 < |c| && Covers(c, p1, p2, r)
  {
    if c[t] == donor then At(p1, p2, r, t) else At(p1, p2, r, t + 1).Shift(-1)
  }

  /** The start of the stretch opened at transition t. */
  function OpenAfter(c: seq<int>, p1: seq<int>, p2: seq<int>, r: seq<int>, donor: int, t: nat): Pos
    requires t + 1 < |c| && Covers(c, p1, p2, r)
  {
    if c[t] == donor then At(p1, p2, r, t).Shift(1) else At(p1, p2, r, t + 1)
  }

  /** The labels of the stretches opened at the transitions t. */
  function NextLabels(c: seq<int>, t: seq<nat>): (ls: seq<int>)
    requires Inside(c, t)
    ensures |ls| == |t|
  {
    if t == [] then [] else NextLabels(c, t[..|t| - 1]) + [c[t[|t| - 1] + 1]]
  }

  /** The starts of the stretches opened at the transitions t. */
  function Opens(c: seq<int>, p1: seq<int>, p2: seq<int>, r: seq<int>, donor: int, t: seq<nat>): (ps: seq<Pos>)
    requires Inside(c, t) && Covers(c, p1, p2, r)
    ensures |ps| == |t|
  {
    if t == [] then []
    else Opens(c, p1, p2, r, donor, t[..|t| - 1]) + [OpenAfter(c, p1, p2, r, donor, t[|t| - 1])]
  }

  /** The ends of the stretches closed at the transitions t. */
  function Closes(c: seq<int>, p1: seq<int>, p2: seq<int>, r: seq<int>, donor: int, t: seq<nat>): (ps: seq<Pos>)
    requires Inside(c, t) && Covers(c, p1, p2, r)
    ensures |ps| == |t|
  {
    if t == [] then []
    else Closes(c, p1, p2, r, donor, t[..|t| - 1]) + [CloseAt(c, p1, p2, r, donor, t[|t| - 1])]
  }

  /**
   * The stretches found after scanning the SNPs below i: the first stretch
   * opens at SNP 0, each transition closes one stretch and opens the next,
   * and the last SNP closes the last stretch.
   */
  function Partial(c: seq<int>, p1: seq<int>, p2: seq<int>, r: seq<int>, donor: int, i: nat): Bounds
    requires i <= |c| && Covers(c, p1, p2, r)
  {
    if i == 0 then Bounds([], [], [])
    else
      var t := Transitions(c, i);
      Bounds([c[0]] + NextLabels(c, t),
             [At(p1, p2, r, 0)] + Opens(c, p1, p2, r, donor, t),
             Closes(c, p1, p2, r, donor, t) + (if i == |c| && |c| >= 2 then [At(p1, p2, r, |c| - 1)] else []))
  }

  /**
   * The stretches of a code sequence. Two or more SNPs give one stretch per
   * transition plus one, opening at SNP 0 with its code and closing at the last
   * SNP; a single SNP gives a label and a start but no end; none gives nothing.
   */
  function IntervalsOf(c: seq<int>, p1: seq<int>, p2: seq<int>, r: seq<int>, donor: int): (b: Bounds)
    requires Covers(c, p1, p2, r)
    ensures |c| == 0 ==> b == Bounds([], [], [])
    ensures |c| == 1 ==> b == Bounds([c[0]], [At(p1, p2, r, 0)], [])
    ensures |c| >= 2 ==>
      && |b.labels| == |Transitions(c, |c|)| + 1 && |b.starts| == |b.labels| && |b.ends| == |b.labels|
      && b.labels[0] == c[0] && b.starts[0] == At(p1, p2, r, 0)
      && b.ends[|b.ends| - 1] == At(p1, p2, r, |c| - 1)
  {
    Partial(c, p1, p2, r, donor, |c|)
  }

  /** Scanning SNP 0 opens the first stretch. */
  lemma PartialFirst(c: seq<int>, p1: seq<int>, p2: seq<int>, r: seq<int>, donor: int)
    requires 0 < |c| && Covers(c, p1, p2, r)
    ensures Partial(c, p1, p2, r, donor, 1) == Bounds([c[0]], [At(p1, p2, r, 0)], [])
  {
    assert Transitions(c, 1) == [];
  }

  /** Scanning the last SNP closes the last stretch. */
  lemma PartialLast(c: seq<int>, p1: seq<int>, p2: seq<int>, r: seq<int>, donor: int)
    requires 2 <= |c| && Covers(c, p1, p2, r)
    ensures var b := Partial(c, p1, p2, r, donor, |c| - 1);
      Partial(c, p1, p2, r, donor, |c|) == Bounds(b.labels, b.starts, b.ends + [At(p1, p2, r, |c| - 1)])
  {
    assert Transitions(c, |c|) == Transitions(c, |c| - 1);
  }

  /** Scanning a transition closes one stretch and opens the next. */
  lemma PartialTransition(c: seq<int>, p1: seq<int>, p2: seq<int>, r: seq<int>, donor: int, i: nat)
    requires IsTransition(c, i) && Covers(c, p1, p2, r)
    ensures var b := Partial(c, p1, p2, r, donor, i);
      Partial(c, p1, p2, r, donor, i + 1) ==
        Bounds(b.labels + [c[i + 1]], b.starts + [OpenAfter(c, p1, p2, r, donor, i)],
               b.ends + [CloseAt(c, p1, p2, r, donor, i)])
  {
    var t := Transitions(c, i);
    var t' := Transitions(c, i + 1);
    assert t' == t + [i];
    assert t'[..|t'| - 1] == t;
  }

  /** A transition out of a donor stretch: the stretch ends at SNP i, the next one starts one base later. */
  lemma PartialDonorExit(c: seq<int>, p1: seq<int>, p2: seq<int>, r: seq<int>, donor: int, i: nat,
                         labels: seq<int>, starts: seq<Pos>, ends: seq<Pos>)
    requires IsTransition(c, i) && Covers(c, p1, p2, r) && c[i] == donor
    requires Bounds(labels, starts, ends) == Partial(c, p1, p2, r, donor, i)
    ensures Partial(c, p1, p2, r, donor, i + 1) ==
      Bounds(labels + [c[i + 1]], starts + [Pos(p1[i] + 1, p2[i] + 1, r[i] + 1)], ends + [Pos(p1[i], p2[i], r[i])])
  {
    PartialTransition(c, p1, p2, r, donor, i);
  }

  /** A transition out of a receptor stretch: the stretch ends one base before SNP i + 1, where the next one starts. */
  lemma PartialReceptorExit(c: seq<int>, p1: seq<int>, p2: seq<int>, r: seq<int>, donor: int, i: nat,
                            labels: seq<int>, starts: seq<Pos>, ends: seq<Pos>)
    requires IsTransition(c, i) && Covers(c, p1, p2, r) && c[i] != donor
    requires Bounds(labels, starts, ends) == Partial(c, p1, p2, r, donor, i)
    ensures Partial(c, p1, p2, r, donor, i + 1) ==
      Bounds(labels + [c[i + 1]], starts + [Pos(p1[i + 1], p2[i + 1], r[i + 1])],
             ends + [Pos(p1[i + 1] - 1, p2[i + 1] - 1, r[i + 1] - 1)])
  {
    PartialTransition(c, p1, p2, r, donor, i);
  }

  /** Scanning any other SNP changes nothing. */
  lemma PartialSkip(c: seq<int>, p1: seq<int>, p2: seq<int>, r: seq<int>, donor: int, i: nat)
    requires 0 < i < |c| - 1 && !IsTransition(c, i) && Covers(c, p1, p2, r)
    ensures Partial(c, p1, p2, r, donor, i + 1) == Partial(c, p1, p2, r, donor, i)
  {
    assert Transitions(c, i + 1) == Transitions(c, i);
  }

  /** chaine_borne. */
  method BuildIntervals(chaine: seq<int>, p1: seq<int>, p2: seq<int>, r: seq<int>, donor: int) returns (b: Bounds)
    requires Covers(chaine, p1, p2, r)
    ensures b == IntervalsOf(chaine, p1, p2, r, donor)
  {
    var labels: seq<int> := [];
    var starts: seq<Pos> := [];
    var ends: seq<Pos> := [];
    var i := 0;
    while i <= |chaine| - 1
      invariant 0 <= i <= |chaine|
      invariant Bounds(labels, starts, ends) == Partial(chaine, p1, p2, r, donor, i)
    {
      if i == 0 {
        PartialFirst(chaine, p1, p2, r, donor);
        labels := labels + [chaine[i]];
        starts := starts + [Pos(p1[i], p2[i], r[i])];
      } else if i == |chaine| - 1 {
        PartialLast(chaine, p1, p2, r, donor);
        ends := ends + [Pos(p1[i], p2[i], r[i])];
      } else if chaine[i] != chaine[i + 1] && i + 1 != |chaine| - 1 {
        if chaine[i] == donor {
          PartialDonorExit(chaine, p1, p2, r, donor, i, labels, starts, ends);
          ends := ends + [Pos(p1[i], p2[i], r[i])];
          labels := labels + [chaine[i + 1]];
          starts := starts + [Pos(p1[i] + 1, p2[i] + 1, r[i] + 1)];
        } else {
          PartialReceptorExit(chaine, p1, p2, r, donor, i, labels, starts, ends);
          ends := ends + [Pos(p1[i + 1] - 1, p2[i + 1] - 1, r[i + 1] - 1)];
          labels := labels + [chaine[i + 1]];
          starts := starts + [Pos(p1[i + 1], p2[i + 1], r[i + 1])];
        }
      } else {
        PartialSkip(chaine, p1, p2, r, donor, i);
      }
      i := i + 1;
    }
    b := Bounds(labels, starts, ends);
  }

  lemma {:induction false} NextLabelsAt(c: seq<int>, t: seq<nat>, k: nat)
    requires Inside(c, t) && k < |t|
    ensures NextLabels(c, t)[k] == c[t[k] + 1]
  {
    if k < |t| - 1 {
      NextLabelsAt(c, t[..|t| - 1], k);
    }
  }

  lemma {:induction false} OpensAt(c: seq<int>, p1: seq<int>, p2: seq<int>, r: seq<int>, donor: int, t: seq<nat>, k: nat)
    requires Inside(c, t) && Covers(c, p1, p2, r) && k < |t|
    ensures Opens(c, p1, p2, r, donor, t)[k] == OpenAfter(c, p1, p2, r, donor, t[k])
  {
    if k < |t| - 1 {
      OpensAt(c, p1, p2, r, donor, t[..|t| - 1], k);
    }
  }

  lemma {:induction false} ClosesAt(c: seq<int>, p1: seq<int>, p2: seq<int>, r: seq<int>, donor: int, t: seq<nat>, k: nat)
    requires Inside(c, t) && Covers(c, p1, p2, r) && k < |t|
    ensures Closes(c, p1, p2, r, donor, t)[k] == CloseAt(c, p1, p2, r, donor, t[k])
  {
    if k < |t| - 1 {
      ClosesAt(c, p1, p2, r, donor, t[..|t| - 1], k);
    }
  }

  /**
   * The boundary rule. For two or more SNPs, the k-th transition i (the k-th
   * change of code between SNPs i and i + 1 with 1 <= i <= |c| - 3) closes
   * stretch k and opens stretch k + 1 with the code of SNP i + 1. When SNP i
   * belongs to the donor, stretch k ends at SNP i and stretch k + 1 starts one
   * base after it; otherwise stretch k + 1 starts at SNP i + 1 and stretch k
   * ends one base before it.
   */
  lemma BoundaryRule(c: seq<int>, p1: seq<int>, p2: seq<int>, r: seq<int>, donor: int, k: nat)
    requires |c| >= 2 && Covers(c, p1, p2, r) && k < |Transitions(c, |c|)|
    ensures var i := Transitions(c, |c|)[k];
      var b := IntervalsOf(c, p1, p2, r, donor);
      && IsTransition(c, i)
      && b.labels[k + 1] == c[i + 1]
      && (c[i] == donor ==> b.ends[k] == At(p1, p2, r, i) && b.starts[k + 1] == At(p1, p2, r, i).Shift(1))
      && (c[i] != donor ==> b.starts[k + 1] == At(p1, p2, r, i + 1) && b.ends[k] == At(p1, p2, r, i + 1).Shift(-1))
  {
    var t := Transitions(c, |c|);
    TransitionsExact(c, |c|);
    NextLabelsAt(c, t, k);
    OpensAt(c, p1, p2, r, donor, t, k);
    ClosesAt(c, p1, p2, r, donor, t, k);
  }

  /**
   * The stretches tile the scanned region: each stretch after the first starts
   * one base after the previous one ends, in each of the three genomes.
   */
  lemma Contiguous(c: seq<int>, p1: seq<int>, p2: seq<int>, r: seq<int>, donor: int, k: nat)
    requires |c| >= 2 && Covers(c, p1, p2, r)
    requires k + 1 < |IntervalsOf(c, p1, p2, r, donor).starts|
    ensures var b := IntervalsOf(c, p1, p2, r, donor);
      b.starts[k + 1] == b.ends[k].Shift(1)
  {
    var t := Transitions(c, |c|);
    OpensAt(c, p1, p2, r, donor, t, k);
    ClosesAt(c, p1, p2, r, donor, t, k);
  }

  /** With no transition from a to b, the codes at a and b agree. */
  lemma {:induction false} ConstantBetween(c: seq<int>, a: nat, b: nat)
    requires 1 <= a <= b && b + 2 < |c|
    requires forall i :: a <= i < b ==> !IsTransition(c, i)
    ensures c[a] == c[b]
  {
    if a < b {
      ConstantBetween(c, a, b - 1);
      assert !IsTransition(c, b - 1);
    }
  }

  /** No transition lies strictly between two consecutive entries of a complete increasing list of transitions. */
  lemma GapHasNoTransition(c: seq<int>, t: seq<nat>, k: nat, i: nat)
    requires 0 < k < |t| && Increasing(t) && HasAllTransitions(c, t, |c|)
    requires t[k - 1] < i < t[k] && i < |c|
    ensures !IsTransition(c, i)
  {
    forall m | 0 <= m < |t|
      ensures t[m] != i
    {
      if m < k - 1 {
        assert t[m] < t[k - 1];
      } else if m > k {
        assert t[k] < t[m];
      }
    }
  }

  /** The stretches opened at two consecutive transitions carry different codes. */
  lemma NextLabelsAlternate(c: seq<int>, k: nat)
    requires 0 < k < |Transitions(c, |c|)|
    ensures var t := Transitions(c, |c|);
      NextLabels(c, t)[k - 1] != NextLabels(c, t)[k]
  {
    var t := Transitions(c, |c|);
    TransitionsExact(c, |c|);
    NextLabelsAt(c, t, k - 1);
    NextLabelsAt(c, t, k);
    var a, e := t[k - 1] + 1, t[k];
    forall i | a <= i < e
      ensures !IsTransition(c, i)
    {
      GapHasNoTransition(c, t, k, i);
    }
    ConstantBetween(c, a, e);
  }

  /**
   * Every stretch after the second has a code different from the one before
   * it. The first two may share their code: a change between the first two
   * SNPs does not open a stretch.
   */
  lemma LaterLabelsAlternate(c: seq<int>, p1: seq<int>, p2: seq<int>, r: seq<int>, donor: int, k: nat)
    requires |c| >= 2 && Covers(c, p1, p2, r)
    requires 1 <= k && k + 1 < |IntervalsOf(c, p1, p2, r, donor).labels|
    ensures var b := IntervalsOf(c, p1, p2, r, donor);
      b.labels[k] != b.labels[k + 1]
  {
    NextLabelsAlternate(c, k);
  }

  /** When the codes do not change between SNP 1 and SNP |c| - 2, the whole sequence is a single stretch. */
  lemma OneStretchWithoutInnerChange(c: seq<int>, p1: seq<int>, p2: seq<int>, r: seq<int>, donor: int)
    requires |c| >= 2 && Covers(c, p1, p2, r)
    requires forall i :: 1 <= i && i + 2 < |c| ==> c[i] == c[i + 1]
    ensures IntervalsOf(c, p1, p2, r, donor) == Bounds([c[0]], [At(p1, p2, r, 0)], [At(p1, p2, r, |c| - 1)])
  {
    var t := Transitions(c, |c|);
    TransitionsExact(c, |c|);
  }

  /**
   * A change between the first two SNPs opens no stretch: in 1 2 2 1 1 1 the
   * only transition is between SNPs 2 and 3, and both stretches carry code 1.
   */
  lemma FirstChangeIgnored(p1: seq<int>, p2: seq<int>, r: seq<int>)
    requires Covers([1, 2, 2, 1, 1, 1], p1, p2, r)
    ensures IntervalsOf([1, 2, 2, 1, 1, 1], p1, p2, r, 2).labels == [1, 1]
  {
    var c := [1, 2, 2, 1, 1, 1];
    assert Transitions(c, 6) == [2] by {
      assert Transitions(c, 3) == [2];
      assert Transitions(c, 6) == Transitions(c, 3);
    }
  }

  /** Every stretch label is the code of some SNP, so codes 1 and 2 in give labels 1 and 2 out. */
  lemma StretchLabelsAreCodes(c: seq<int>, p1: seq<int>, p2: seq<int>, r: seq<int>, donor: int)
    requires Covers(c, p1, p2, r) && IsCodes(c)
    ensures IsCodes(IntervalsOf(c, p1, p2, r, donor).labels)
  {
    if |c| >= 2 {
      var t := Transitions(c, |c|);
      var ls := IntervalsOf(c, p1, p2, r, donor).labels;
      forall k | 0 <= k < |ls|
        ensures IsCode(ls[k])
      {
        if k > 0 {
          NextLabelsAt(c, t, k - 1);
        }
      }
    }
  }
}
