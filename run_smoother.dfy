/**
 * Run smoothing (SNP_chaine): a hysteresis scan over the per-SNP labels that
 * emits one code per SNP (1 for P1, 2 for P2). The scan is locked on one label
 * and emits its code; once a run of the opposite label reaches that label's
 * minimum run length, the codes just emitted for the run are rewritten to the
 * opposite code and the lock flips. Shorter runs are absorbed into the lock.
 */
module RunSmoother {
  import opened SnpTypes

  /** The scanner's state: the codes emitted so far, the lock label, and the length of the current run of the opposite label. */
  datatype Scan = Scan(out: seq<int>, lock: Label, run: nat)

  /** The opposite run never counts more SNPs than have been emitted, so a rewrite never reaches before the start of the output. */
  predicate Valid(s: Scan)
  {
    s.run <= |s.out|
  }

  /** The minimum run length that a run of label l must reach to break the lock. */
  function Threshold(l: Label, minP1: int, minP2: int): int
  {
    if l == P1 then minP1 else minP2
  }

  /** A base of 1 starts locked on P2; any other base starts locked on P1. */
  function InitialLock(base: int): Label
  {
    if base == 1 then P2 else P1
  }

  /** The last n entries of out replaced by code. */
  function Rewrite(out: seq<int>, n: nat, code: int): seq<int>
    requires n <= |out|
  {
    out[..|out| - n] + seq(n, _ => code)
  }

  /** One iteration of the scan on the next raw label. */
  function Step(s: Scan, raw: Label, minP1: int, minP2: int): (r: Scan)
    requires Valid(s)
    ensures Valid(r) && |r.out| == |s.out| + 1
    ensures IsCodes(s.out) ==> IsCodes(r.out)
  {
    var opp := Opposite(s.lock);
    var run := if raw == opp then s.run + 1 else 0;
    var out := s.out + [Code(s.lock)];
    if run == Threshold(opp, minP1, minP2) then Scan(Rewrite(out, run, Code(opp)), opp, 0)
    else Scan(out, s.lock, run)
  }

  /** The state after scanning all of labels. */
  function Run(labels: seq<Label>, base: int, minP1: int, minP2: int): (r: Scan)
    ensures Valid(r) && |r.out| == |labels| && IsCodes(r.out)
  {
    if labels == [] then Scan([], InitialLock(base), 0)
    else Step(Run(labels[..|labels| - 1], base, minP1, minP2), labels[|labels| - 1], minP1, minP2)
  }

  /** The smoothed code sequence. */
  function Smoothed(labels: seq<Label>, base: int, minP1: int, minP2: int): seq<int>
  {
    Run(labels, base, minP1, minP2).out
  }

  /** Scanning one more label is one more Step. */
  lemma RunSnoc(labels: seq<Label>, i: nat, base: int, minP1: int, minP2: int)
    requires i < |labels|
    ensures Run(labels[..i + 1], base, minP1, minP2)
         == Step(Run(labels[..i], base, minP1, minP2), labels[i], minP1, minP2)
  {
    assert labels[..i + 1][..i] == labels[..i];
  }

  /** When the opposite run reaches its label's minimum length, a step rewrites the run to the opposite code and flips the lock. */
  lemma StepFlips(s: Scan, raw: Label, minP1: int, minP2: int)
    requires Valid(s)
    requires (if raw == Opposite(s.lock) then s.run + 1 else 0) == Threshold(Opposite(s.lock), minP1, minP2)
    ensures var n := Threshold(Opposite(s.lock), minP1, minP2);
      n >= 0 && Step(s, raw, minP1, minP2) == Scan(Rewrite(s.out + [Code(s.lock)], n, Code(Opposite(s.lock))), Opposite(s.lock), 0)
  {
  }

  /** Otherwise a step appends the lock's code and counts or resets the opposite run. */
  lemma StepKeeps(s: Scan, raw: Label, minP1: int, minP2: int)
    requires Valid(s)
    requires (if raw == Opposite(s.lock) then s.run + 1 else 0) != Threshold(Opposite(s.lock), minP1, minP2)
    ensures Step(s, raw, minP1, minP2) == Scan(s.out + [Code(s.lock)], s.lock, if raw == Opposite(s.lock) then s.run + 1 else 0)
  {
  }

  /** The in-place rewrite of the last n codes, newest first. */
  method RewriteTail(chaine: seq<int>, n: nat, code: int) returns (r: seq<int>)
    requires n <= |chaine|
    ensures r == Rewrite(chaine, n, code)
  {
    r := chaine;
    var len := |chaine|;
    for k := 0 to n
      invariant |r| == len
      invariant r == chaine[..len - k] + seq(k, _ => code)
    {
      assert chaine[..len - k] == chaine[..len - k - 1] + [chaine[len - k - 1]];
      r := r[len - k - 1 := code];
      assert r == chaine[..len - (k + 1)] + seq(k + 1, _ => code);
    }
  }

  /**
   * SNP_chaine. Every label is P1 or P2 by its type, so each iteration emits
   * one code and advances by one SNP.
   */
  method SmoothLabels(labels: seq<Label>, base: int, minP1: int, minP2: int) returns (chaine: seq<int>)
    ensures chaine == Smoothed(labels, base, minP1, minP2)
    ensures |chaine| == |labels| && IsCodes(chaine)
  {
    chaine := [];
    var i := 0;
    var run: nat := 0;
    var lock := InitialLock(base);
    while i < |labels|
      invariant 0 <= i <= |labels|
      invariant |chaine| == i && run <= i
      invariant Run(labels[..i], base, minP1, minP2) == Scan(chaine, lock, run)
    {
      ghost var before := Scan(chaine, lock, run);
      ghost var raw := labels[i];
      RunSnoc(labels, i, base, minP1, minP2);
      var opp := Opposite(lock);
      if labels[i] == opp {
        run := run + 1;
        chaine := chaine + [Code(lock)];
        i := i + 1;
      } else if labels[i] == lock {
        run := 0;
        chaine := chaine + [Code(lock)];
        i := i + 1;
      }
      assert chaine == before.out + [Code(before.lock)] && |chaine| == i;
      assert run == if raw == opp then before.run + 1 else 0;
      if run == Threshold(opp, minP1, minP2) {
        // the run reaches the opposite label's threshold: rewrite it and flip the lock
        chaine := RewriteTail(chaine, run, Code(opp));
        run := 0;
        lock := opp;
        StepFlips(before, raw, minP1, minP2);
      } else {
        StepKeeps(before, raw, minP1, minP2);
      }
    }
    assert labels[..|labels|] == labels;
  }

  /** The minimum run length for the label a code stands for: code 1 stands for P1, any other code for P2. */
  function CodeThreshold(c: int, minP1: int, minP2: int): int
  {
    Threshold(if c == 1 then P1 else P2, minP1, minP2)
  }

  /** out[j .. j + n] lies inside out and holds n copies of out[j]. */
  predicate Block(out: seq<int>, j: nat, n: int)
  {
    j + n <= |out| && forall k :: j <= k < j + n ==> out[k] == out[j]
  }

  /**
   * Every maximal run of out except the first is at least as long as the
   * minimum run length of its label: each index where the code changes opens
   * a block of that many equal codes.
   */
  predicate RunsOk(out: seq<int>, minP1: int, minP2: int)
  {
    forall j :: 0 < j < |out| && out[j] != out[j - 1] ==> Block(out, j, CodeThreshold(out[j], minP1, minP2))
  }

  /**
   * The invariant behind RunsOk: the codes of the pending opposite run are the
   * lock's code, the last code is the lock's code, and every change of code
   * opens a full block that lies before the pending run.
   */
  predicate Settled(s: Scan, minP1: int, minP2: int)
  {
    && Valid(s)
    && (forall k :: |s.out| - s.run <= k < |s.out| ==> s.out[k] == Code(s.lock))
    && (|s.out| > 0 ==> s.out[|s.out| - 1] == Code(s.lock))
    && forall j :: 0 < j < |s.out| && s.out[j] != s.out[j - 1] ==>
         && j + CodeThreshold(s.out[j], minP1, minP2) <= |s.out| - s.run
         && Block(s.out, j, CodeThreshold(s.out[j], minP1, minP2))
  }

  /**
   * A change of code that lies before the pending run keeps its full block in
   * any output that leaves the codes before the pending run unchanged.
   */
  lemma EarlierChangeKept(s: Scan, out: seq<int>, j: nat, minP1: int, minP2: int)
    requires Settled(s, minP1, minP2)
    requires |s.out| - s.run <= |out| && out[..|s.out| - s.run] == s.out[..|s.out| - s.run]
    requires 0 < j < |s.out| - s.run && out[j] != out[j - 1]
    ensures j + CodeThreshold(out[j], minP1, minP2) <= |s.out| - s.run
    ensures Block(out, j, CodeThreshold(out[j], minP1, minP2))
  {
    var P := |s.out| - s.run;
    assert out[j] == out[..P][j] == s.out[j];
    assert out[j - 1] == out[..P][j - 1] == s.out[j - 1];
    var n := CodeThreshold(s.out[j], minP1, minP2);
    forall k | j <= k < j + n
      ensures out[k] == out[j]
    {
      assert out[k] == out[..P][k] == s.out[k];
    }
  }

  /** A step that flips the lock keeps the scan settled: the rewritten run is a full block of the new code. */
  lemma FlipSettled(s: Scan, raw: Label, minP1: int, minP2: int)
    requires minP1 >= 1 && minP2 >= 1 && Settled(s, minP1, minP2)
    requires raw == Opposite(s.lock) && s.run + 1 == Threshold(Opposite(s.lock), minP1, minP2)
    ensures Settled(Step(s, raw, minP1, minP2), minP1, minP2)
  {
    var c := Code(Opposite(s.lock));
    var run := s.run + 1;
    var P := |s.out| - s.run;
    var r := Step(s, raw, minP1, minP2);
    assert CodeThreshold(c, minP1, minP2) == run;
    assert r.out == s.out[..P] + seq(run, _ => c);
    assert r.out[..P] == s.out[..P];
    forall j | 0 < j < |r.out| && r.out[j] != r.out[j - 1]
      ensures j + CodeThreshold(r.out[j], minP1, minP2) <= |r.out| - r.run
      ensures Block(r.out, j, CodeThreshold(r.out[j], minP1, minP2))
    {
      if j < P {
        EarlierChangeKept(s, r.out, j, minP1, minP2);
      } else {
        assert j == P && r.out[j] == c;
      }
    }
  }

  /** A step that keeps the lock keeps the scan settled: it appends the lock's code. */
  lemma KeepSettled(s: Scan, raw: Label, minP1: int, minP2: int)
    requires minP1 >= 1 && minP2 >= 1 && Settled(s, minP1, minP2)
    requires (if raw == Opposite(s.lock) then s.run + 1 else 0) != Threshold(Opposite(s.lock), minP1, minP2)
    ensures Settled(Step(s, raw, minP1, minP2), minP1, minP2)
  {
    var r := Step(s, raw, minP1, minP2);
    assert r.out == s.out + [Code(s.lock)];
    forall j | 0 < j < |r.out| && r.out[j] != r.out[j - 1]
      ensures j + CodeThreshold(r.out[j], minP1, minP2) <= |r.out| - r.run
      ensures Block(r.out, j, CodeThreshold(r.out[j], minP1, minP2))
    {
      if j < |s.out| {
        assert r.out[j] == s.out[j] && r.out[j - 1] == s.out[j - 1];
        var n := CodeThreshold(s.out[j], minP1, minP2);
        forall k | j <= k < j + n
          ensures r.out[k] == r.out[j]
        {
          assert r.out[k] == s.out[k];
        }
      }
    }
  }

  /** One step keeps the scan settled. */
  lemma StepSettled(s: Scan, raw: Label, minP1: int, minP2: int)
    requires minP1 >= 1 && minP2 >= 1 && Settled(s, minP1, minP2)
    ensures Settled(Step(s, raw, minP1, minP2), minP1, minP2)
  {
    var opp := Opposite(s.lock);
    if (if raw == opp then s.run + 1 else 0) == Threshold(opp, minP1, minP2) {
      FlipSettled(s, raw, minP1, minP2);
    } else {
      KeepSettled(s, raw, minP1, minP2);
    }
  }

  lemma {:induction false} RunSettled(labels: seq<Label>, base: int, minP1: int, minP2: int)
    requires minP1 >= 1 && minP2 >= 1
    ensures Settled(Run(labels, base, minP1, minP2), minP1, minP2)
  {
    if labels != [] {
      RunSettled(labels[..|labels| - 1], base, minP1, minP2);
      StepSettled(Run(labels[..|labels| - 1], base, minP1, minP2), labels[|labels| - 1], minP1, minP2);
    }
  }

  /**
   * With minimum run lengths of at least 1, every run of the smoothed output
   * after the first has at least its label's minimum length, the last run
   * included.
   */
  lemma SmoothedRunsAreLongEnough(labels: seq<Label>, base: int, minP1: int, minP2: int)
    requires minP1 >= 1 && minP2 >= 1
    ensures RunsOk(Smoothed(labels, base, minP1, minP2), minP1, minP2)
  {
    RunSettled(labels, base, minP1, minP2);
  }

  /**
   * Every change of code in out is backed by the input: the block of its
   * label's minimum length that it opens consists of labels carrying that code.
   */
  predicate FollowsLabels(labels: seq<Label>, out: seq<int>, minP1: int, minP2: int)
    requires |labels| == |out|
  {
    forall j :: 0 < j < |out| && out[j] != out[j - 1] ==> Backed(labels, out, j, minP1, minP2)
  }

  /** The block of the minimum length for the code at j lies inside out and its labels all carry that code. */
  predicate Backed(labels: seq<Label>, out: seq<int>, j: nat, minP1: int, minP2: int)
    requires |labels| == |out| && j < |out|
  {
    && j + CodeThreshold(out[j], minP1, minP2) <= |out|
    && forall k :: j <= k < j + CodeThreshold(out[j], minP1, minP2) ==> Code(labels[k]) == out[j]
  }

  /** The labels scanned during the pending run are all the label opposite the lock. */
  predicate PendingOpposite(labels: seq<Label>, s: Scan)
  {
    && |labels| == |s.out| && s.run <= |s.out|
    && forall k :: |s.out| - s.run <= k < |s.out| ==> labels[k] == Opposite(s.lock)
  }

  /**
   * A change of code before the pending run keeps its backing labels in any
   * output and any labels that agree with the old ones before the pending run.
   */
  lemma EarlierChangeFollows(labels: seq<Label>, s: Scan, more: seq<Label>, out: seq<int>, j: nat, minP1: int, minP2: int)
    requires Settled(s, minP1, minP2) && |labels| == |s.out| && FollowsLabels(labels, s.out, minP1, minP2)
    requires |labels + more| == |out| && |s.out| - s.run <= |out|
    requires out[..|s.out| - s.run] == s.out[..|s.out| - s.run]
    requires 0 < j < |s.out| - s.run && out[j] != out[j - 1]
    ensures j + CodeThreshold(out[j], minP1, minP2) <= |s.out| - s.run
    ensures Backed(labels + more, out, j, minP1, minP2)
  {
    var P := |s.out| - s.run;
    assert out[j] == out[..P][j] == s.out[j];
    assert out[j - 1] == out[..P][j - 1] == s.out[j - 1];
    forall k | j <= k < j + CodeThreshold(out[j], minP1, minP2)
      ensures Code((labels + more)[k]) == out[j]
    {
      assert (labels + more)[k] == labels[k];
    }
  }

  /** A step that flips the lock keeps every change of code backed by the labels. */
  lemma FlipFollows(labels: seq<Label>, s: Scan, raw: Label, minP1: int, minP2: int)
    requires minP1 >= 1 && minP2 >= 1 && Settled(s, minP1, minP2)
    requires PendingOpposite(labels, s) && FollowsLabels(labels, s.out, minP1, minP2)
    requires raw == Opposite(s.lock) && s.run + 1 == Threshold(Opposite(s.lock), minP1, minP2)
    ensures PendingOpposite(labels + [raw], Step(s, raw, minP1, minP2))
    ensures FollowsLabels(labels + [raw], Step(s, raw, minP1, minP2).out, minP1, minP2)
  {
    var c := Code(raw);
    var P := |s.out| - s.run;
    var r := Step(s, raw, minP1, minP2);
    var ls := labels + [raw];
    assert CodeThreshold(c, minP1, minP2) == s.run + 1;
    assert r.out == s.out[..P] + seq(s.run + 1, _ => c);
    assert r.out[..P] == s.out[..P];
    forall j | 0 < j < |r.out| && r.out[j] != r.out[j - 1]
      ensures Backed(ls, r.out, j, minP1, minP2)
    {
      if j < P {
        EarlierChangeFollows(labels, s, [raw], r.out, j, minP1, minP2);
      } else {
        assert j == P && r.out[j] == c;
        forall k | j <= k < j + CodeThreshold(c, minP1, minP2)
          ensures Code(ls[k]) == c
        {
          assert ls[k] == raw;
        }
      }
    }
  }

  /** A step that keeps the lock keeps every change of code backed by the labels, and extends or resets the pending run. */
  lemma KeepFollows(labels: seq<Label>, s: Scan, raw: Label, minP1: int, minP2: int)
    requires minP1 >= 1 && minP2 >= 1 && Settled(s, minP1, minP2)
    requires PendingOpposite(labels, s) && FollowsLabels(labels, s.out, minP1, minP2)
    requires (if raw == Opposite(s.lock) then s.run + 1 else 0) != Threshold(Opposite(s.lock), minP1, minP2)
    ensures PendingOpposite(labels + [raw], Step(s, raw, minP1, minP2))
    ensures FollowsLabels(labels + [raw], Step(s, raw, minP1, minP2).out, minP1, minP2)
  {
    var r := Step(s, raw, minP1, minP2);
    var ls := labels + [raw];
    assert r.out == s.out + [Code(s.lock)];
    assert r.out[..|s.out| - s.run] == s.out[..|s.out| - s.run];
    forall k | |r.out| - r.run <= k < |r.out|
      ensures ls[k] == Opposite(r.lock)
    {
      if k < |labels| {
        assert ls[k] == labels[k];
      }
    }
    forall j | 0 < j < |r.out| && r.out[j] != r.out[j - 1]
      ensures Backed(ls, r.out, j, minP1, minP2)
    {
      if j < |s.out| - s.run {
        EarlierChangeFollows(labels, s, [raw], r.out, j, minP1, minP2);
      } else {
        // no change of code lies in the pending run, nor at the code just appended
        assert false;
      }
    }
  }

  /** Scanning any labels leaves every change of code backed by the labels scanned. */
  lemma {:induction false} RunFollows(labels: seq<Label>, base: int, minP1: int, minP2: int)
    requires minP1 >= 1 && minP2 >= 1
    ensures Settled(Run(labels, base, minP1, minP2), minP1, minP2)
    ensures PendingOpposite(labels, Run(labels, base, minP1, minP2))
    ensures FollowsLabels(labels, Run(labels, base, minP1, minP2).out, minP1, minP2)
  {
    if labels != [] {
      var prefix := labels[..|labels| - 1];
      var raw := labels[|labels| - 1];
      RunFollows(prefix, base, minP1, minP2);
      var s := Run(prefix, base, minP1, minP2);
      StepSettled(s, raw, minP1, minP2);
      assert prefix + [raw] == labels;
      if (if raw == Opposite(s.lock) then s.run + 1 else 0) == Threshold(Opposite(s.lock), minP1, minP2) {
        FlipFollows(prefix, s, raw, minP1, minP2);
      } else {
        KeepFollows(prefix, s, raw, minP1, minP2);
      }
    }
  }

  /**
   * With minimum run lengths of at least 1, a change of code in the smoothed
   * output only ever comes from a real run of the input: the SNPs of the block
   * it opens, as long as its label's minimum run length, all carry that label.
   */
  lemma SmoothedRunsFollowLabels(labels: seq<Label>, base: int, minP1: int, minP2: int)
    requires minP1 >= 1 && minP2 >= 1
    ensures FollowsLabels(labels, Smoothed(labels, base, minP1, minP2), minP1, minP2)
  {
    RunFollows(labels, base, minP1, minP2);
  }

  /**
   * The scan inside an input run of label l that began at s, after m labels:
   * either the lock is l and the run's SNPs so far carry Code(l), or the lock
   * is the other label and the run so far is the pending run, still short of
   * l's minimum run length.
   */
  predicate InsideRun(t: Scan, l: Label, s: nat, m: nat, minP1: int, minP2: int)
  {
    && |t.out| == m && s <= m
    && if t.lock == l then
         && (m > s ==> t.run == 0)
         && forall k :: s <= k < m ==> t.out[k] == Code(l)
       else
         t.run == m - s < Threshold(l, minP1, minP2)
  }

  /** An input run that begins at s, at the start or after a different label, finds the scan InsideRun. */
  lemma RunStart(labels: seq<Label>, l: Label, s: nat, base: int, minP1: int, minP2: int)
    requires minP1 >= 1 && minP2 >= 1
    requires s <= |labels| && (s == 0 || labels[s - 1] != l)
    ensures InsideRun(Run(labels[..s], base, minP1, minP2), l, s, s, minP1, minP2)
  {
    if s > 0 {
      RunSnoc(labels, s - 1, base, minP1, minP2);
    }
  }

  /** One more label l inside the run keeps the scan InsideRun; at l's minimum length the lock flips to l. */
  lemma RunGrows(labels: seq<Label>, l: Label, s: nat, m: nat, base: int, minP1: int, minP2: int)
    requires minP1 >= 1 && minP2 >= 1
    requires s <= m < |labels| && labels[m] == l
    requires InsideRun(Run(labels[..m], base, minP1, minP2), l, s, m, minP1, minP2)
    ensures InsideRun(Run(labels[..m + 1], base, minP1, minP2), l, s, m + 1, minP1, minP2)
  {
    RunSnoc(labels, m, base, minP1, minP2);
    var t := Run(labels[..m], base, minP1, minP2);
    var out := t.out + [Code(t.lock)];
    if t.lock != l && t.run + 1 == Threshold(l, minP1, minP2) {
      var r := Rewrite(out, m + 1 - s, Code(l));
      assert Run(labels[..m + 1], base, minP1, minP2) == Scan(r, l, 0);
      forall k | s <= k < m + 1
        ensures r[k] == Code(l)
      {
        assert r[k] == seq(m + 1 - s, _ => Code(l))[k - s];
      }
    } else if t.lock == l {
      assert Run(labels[..m + 1], base, minP1, minP2) == Scan(out, l, 0);
    }
  }

  /** The scan stays InsideRun through every label of an input run of l. */
  lemma {:induction false} InsideRunUpTo(labels: seq<Label>, l: Label, s: nat, m: nat, base: int, minP1: int, minP2: int)
    requires minP1 >= 1 && minP2 >= 1
    requires s <= m <= |labels| && (s == 0 || labels[s - 1] != l)
    requires forall k :: s <= k < m ==> labels[k] == l
    ensures InsideRun(Run(labels[..m], base, minP1, minP2), l, s, m, minP1, minP2)
  {
    if m == s {
      RunStart(labels, l, s, base, minP1, minP2);
    } else {
      InsideRunUpTo(labels, l, s, m - 1, base, minP1, minP2);
      RunGrows(labels, l, s, m - 1, base, minP1, minP2);
    }
  }

  /**
   * With minimum run lengths of at least 1, an input run of label l that is
   * at least l's minimum run length long is kept: every one of its SNPs gets
   * Code(l) in the smoothed output, whatever follows it.
   */
  lemma LongRunsKept(labels: seq<Label>, l: Label, s: nat, e: nat, base: int, minP1: int, minP2: int)
    requires minP1 >= 1 && minP2 >= 1
    requires s <= e < |labels| && (s == 0 || labels[s - 1] != l)
    requires forall k :: s <= k <= e ==> labels[k] == l
    requires e - s + 1 >= Threshold(l, minP1, minP2)
    ensures forall k :: s <= k <= e ==> Smoothed(labels, base, minP1, minP2)[k] == Code(l)
  {
    InsideRunUpTo(labels, l, s, e + 1, base, minP1, minP2);
    var t := Run(labels[..e + 1], base, minP1, minP2);
    assert t.lock == l;
    SettledPrefixIsFinal(labels, e + 1, base, minP1, minP2);
    var out := Smoothed(labels, base, minP1, minP2);
    forall k | s <= k <= e
      ensures out[k] == Code(l)
    {
      assert out[k] == out[..e + 1][k];
    }
  }

  /** Once a scan has no pending run, the codes emitted so far are the final codes of those SNPs. */
  lemma SettledPrefixIsFinal(labels: seq<Label>, m: nat, base: int, minP1: int, minP2: int)
    requires m <= |labels| && Run(labels[..m], base, minP1, minP2).run == 0
    ensures |Smoothed(labels, base, minP1, minP2)| >= m
    ensures Smoothed(labels, base, minP1, minP2)[..m] == Run(labels[..m], base, minP1, minP2).out
  {
    CommittedCodesAreFinal(labels[..m], labels[m..], base, minP1, minP2);
    assert labels[..m] + labels[m..] == labels;
  }

  /** With minimum run lengths of 1 every change of label is taken at once: the output is the raw codes. */
  lemma {:induction false} UnitThresholdsKeepRawCodes(labels: seq<Label>, base: int)
    ensures Run(labels, base, 1, 1).run == 0
    ensures Smoothed(labels, base, 1, 1) == Codes(labels)
  {
    if labels != [] {
      var prefix := labels[..|labels| - 1];
      var raw := labels[|labels| - 1];
      UnitThresholdsKeepRawCodes(prefix, base);
      var s := Run(prefix, base, 1, 1);
      assert Codes(labels) == Codes(prefix) + [Code(raw)];
      if raw == Opposite(s.lock) {
        assert Rewrite(s.out + [Code(s.lock)], 1, Code(raw)) == s.out + [Code(raw)];
      }
    }
  }

  /**
   * The codes emitted before the pending opposite run are final: one more
   * step never rewrites them, and it never moves the start of the pending run
   * backwards.
   */
  lemma StepKeepsCommitted(s: Scan, raw: Label, minP1: int, minP2: int)
    requires Valid(s)
    ensures var r := Step(s, raw, minP1, minP2);
      && |r.out| - r.run >= |s.out| - s.run
      && r.out[..|s.out| - s.run] == s.out[..|s.out| - s.run]
  {
    var P := |s.out| - s.run;
    var r := Step(s, raw, minP1, minP2);
    assert (s.out + [Code(s.lock)])[..P] == s.out[..P];
  }

  /**
   * Scanning further labels leaves the committed codes of a scan unchanged:
   * only the last run count entries can ever be rewritten.
   */
  lemma {:induction false} CommittedCodesAreFinal(labels: seq<Label>, more: seq<Label>, base: int, minP1: int, minP2: int)
    ensures var s := Run(labels, base, minP1, minP2);
            var t := Run(labels + more, base, minP1, minP2);
      && |t.out| - t.run >= |s.out| - s.run
      && t.out[..|s.out| - s.run] == s.out[..|s.out| - s.run]
  {
    if more != [] {
      var fewer := more[..|more| - 1];
      CommittedCodesAreFinal(labels, fewer, base, minP1, minP2);
      var all := labels + more;
      assert all[..|all| - 1] == labels + fewer;
      StepKeepsCommitted(Run(labels + fewer, base, minP1, minP2), more[|more| - 1], minP1, minP2);
    } else {
      assert labels + more == labels;
    }
  }

  /**
   * The scan starts locked on the label that is not the base: with minimum
   * runs of 2 or more a single SNP gets the code of that label, whatever its
   * own label is.
   */
  lemma LoneSnpTakesLockCode(l: Label, base: int, minP1: int, minP2: int)
    requires minP1 >= 2 && minP2 >= 2
    ensures Smoothed([l], base, minP1, minP2) == [if base == 1 then 2 else 1]
  {
    RunSnoc([l], 0, base, minP1, minP2);
    assert [l][..1] == [l] && [l][..0] == [];
  }

  /**
   * A lone P2 among P1s is absorbed while a run of three P2s is kept:
   * [P1,P1,P2,P1,P1,P1,P2,P2,P2] with base 1 and minimum runs of 2 smooths to
   * [1,1,1,1,1,1,2,2,2].
   */
  lemma AbsorbsLoneSnp()
    ensures Smoothed([P1, P1, P2, P1, P1, P1, P2, P2, P2], 1, 2, 2) == [1, 1, 1, 1, 1, 1, 2, 2, 2]
  {
    var ls := [P1, P1, P2, P1, P1, P1, P2, P2, P2];
    LoneSnpPrefix();
    assert ls[..5] == [P1, P1, P2, P1, P1];
    RunSnoc(ls, 5, 1, 2, 2);
    assert Run(ls[..6], 1, 2, 2) == Scan([1, 1, 1, 1, 1, 1], P1, 0);
    RunSnoc(ls, 6, 1, 2, 2);
    assert Run(ls[..7], 1, 2, 2) == Scan([1, 1, 1, 1, 1, 1, 1], P1, 1);
    RunSnoc(ls, 7, 1, 2, 2);
    assert Rewrite([1, 1, 1, 1, 1, 1, 1, 1], 2, 2) == [1, 1, 1, 1, 1, 1, 2, 2];
    assert Run(ls[..8], 1, 2, 2) == Scan([1, 1, 1, 1, 1, 1, 2, 2], P2, 0);
    RunSnoc(ls, 8, 1, 2, 2);
    assert ls[..9] == ls;
  }

  /** The first five labels of the example: the P1 run of two breaks the initial P2 lock, and the lone P2 is absorbed. */
  lemma LoneSnpPrefix()
    ensures Run([P1, P1, P2, P1, P1], 1, 2, 2) == Scan([1, 1, 1, 1, 1], P1, 0)
  {
    var ls := [P1, P1, P2, P1, P1];
    assert ls[..0] == [];
    RunSnoc(ls, 0, 1, 2, 2);
    assert Run(ls[..1], 1, 2, 2) == Scan([2], P2, 1);
    RunSnoc(ls, 1, 1, 2, 2);
    assert Rewrite([2, 2], 2, 1) == [1, 1];
    assert Run(ls[..2], 1, 2, 2) == Scan([1, 1], P1, 0);
    RunSnoc(ls, 2, 1, 2, 2);
    assert Run(ls[..3], 1, 2, 2) == Scan([1, 1, 1], P1, 1);
    RunSnoc(ls, 3, 1, 2, 2);
    assert Run(ls[..4], 1, 2, 2) == Scan([1, 1, 1, 1], P1, 0);
    RunSnoc(ls, 4, 1, 2, 2);
    assert ls[..5] == ls;
  }
}
