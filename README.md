# SNP segmentation of a recombinant genome, in Dafny

This project models the segmentation pipeline of `SNP.py`. The pipeline attributes the chromosomal
regions of a recombinant (R) to one of its two parents (P1, P2). It has six stages:

- **SNP_parent**. Each SNP row carries a three-letter allele pattern (P1, P2, R) and its positions
  in the three genomes. The row is labelled P1 or P2, or dropped. The retained rows' positions go
  to three lists aligned with the labels. The model is module `ParentAssigner`.
- **SNP_chaine**. A hysteresis scan over the labels. It emits code 1 or 2 per SNP while locked
  on one label. When a run of the opposite label reaches that label's minimum run length, the
  codes of the run are rewritten and the lock flips. The model is module `RunSmoother`.
- **compteur_snp**. Counts the SNPs of each segment of the code sequence. The model is module
  `SnpCounter`.
- **chaine_borne**. Collapses the code sequence into stretches, each with a label and start and
  end positions in P1, P2 and R. At a change of code, a donor/receptor rule decides which side
  owns the boundary. The model is module `IntervalBuilder`.
- **calcul_des_sommes_rapport_recombinant** and **calcul_des_sommes_rapport_donneur**. These
  sum the stretch lengths (end minus start) per code. The receptor side also counts the stretches
  of each code and names the code with the smaller total. It then sums and counts that code's
  stretches that are longer than a bound. The model is module `Aggregator`.

Module `Pipeline` composes one receptor-side pass of the stages: SNP_parent, SNP_chaine,
compteur_snp, chaine_borne and the receptor sums.

Every loop of the source is a Dafny method with a loop over sequences. Each method is tied to a
specification function:
- SmoothLabels, BuildIntervals, ReceptorSums and DonorSums are proved equal to recursive
  functions (Smoothed, IntervalsOf, SumLen, CountCode, SumAbove, CountAbove).
- RewriteTail is proved equal to the non-recursive `Rewrite`.
- AssignParents is proved aligned with the recursive `Retained`: one entry per retained row,
  carrying that row's label and positions.
- CountSnps is proved equal to `SnpCounts` when the codes are 1 and 2.
The properties of the source are lemmas about those functions.

The quirks of the source are kept as written:
- a pattern whose three alleles are the same base is labelled P1 when both parental positions
  are nonzero, and dropped (never P2) otherwise;
- the smoothing scan starts locked on the non-base label;
- `chaine_borne` does not act on a change of code between the first two SNPs or between the
  last two;
- the last count of `compteur_snp` leaves out the last SNP, so the counts add up to one less
  than the number of SNPs;
- `compteur_snp` closes a segment at a change of code between the first two SNPs, while
  `chaine_borne` does not, so the two can give lists of different lengths.

## Model

| member | source | states |
|---|---|---|
| ParentAssigner.RetainedExact | SNP.py:60-83 | the retained row indices are strictly increasing and below n, and they are exactly the rows whose pattern and positions give a label |
| ParentAssigner.AssignParents | SNP.py:49-85 | the four result lists have one entry per retained row, in input order; entry k holds the label of the k-th retained row and that row's own P1, P2 and R positions |
| ParentAssigner.ClassifyP1Rule | SNP.py:62-72 | a row is labelled P1 iff it has no 'n'/'N', its R allele equals its P1 allele ignoring case, and its P1 and P2 positions are both nonzero; the R position plays no part |
| ParentAssigner.ClassifyP2Rule | SNP.py:62-80 | a row is labelled P2 iff it has no 'n'/'N', its R allele differs from its P1 allele, equals its P2 allele, and both parental positions are nonzero |
| ParentAssigner.NeverRetriedAsP2 | SNP.py:65-72 | a row whose R allele matches its P1 allele is never labelled P2, and it is dropped when a parental position is zero |
| ParentAssigner.IdenticalAllelesAreP1 | SNP.py:62-72 | a pattern of three equal bases other than 'n' is labelled P1 when both parental positions are nonzero (and dropped, never P2, otherwise, by NeverRetriedAsP2) |
| ParentAssigner.MissingRowsDropped | SNP.py:62-63 | no row with 'n' or 'N' among its three alleles is retained |
| RunSmoother.Step | SNP.py:123-155 | one iteration appends exactly one code and keeps the pending run within the emitted codes, so a rewrite never reaches before index 0 |
| RunSmoother.Run | SNP.py:115-155 | scanning n labels emits n codes, every one 1 or 2 |
| RunSmoother.RewriteTail | SNP.py:134-138 | the rewrite loop replaces exactly the last n codes with the new code and leaves the others |
| RunSmoother.SmoothLabels | SNP.py:109-157 | SNP_chaine returns the smoothed sequence of the scan: one code per label, each 1 or 2 |
| RunSmoother.LoneSnpTakesLockCode | SNP.py:115-131 | base 1 starts locked on P2 and any other base on P1: with minimum runs of 2 or more a single SNP gets the lock's code |
| RunSmoother.StepSettled | SNP.py:122-155 | one iteration keeps the invariant that every change of code opens a complete run of its label's minimum length before the pending run |
| RunSmoother.SmoothedRunsAreLongEnough | SNP.py:134-155 | with minimum run lengths of at least 1, every run of the output after the first is at least its label's minimum length |
| RunSmoother.SmoothedRunsFollowLabels | SNP.py:125-155 | with minimum run lengths of at least 1, every change of code in the output opens a block of its label's minimum length whose SNPs all carry that label in the input: short runs are absorbed, never invented |
| RunSmoother.LongRunsKept | SNP.py:125-155 | with minimum run lengths of at least 1, an input run of label L that starts at the beginning or after another label and is at least L's minimum length gets L's code at every one of its SNPs |
| RunSmoother.UnitThresholdsKeepRawCodes | SNP.py:122-155 | with minimum runs of 1 the output is exactly the raw codes of the labels |
| RunSmoother.StepKeepsCommitted | SNP.py:134-138 | one iteration rewrites only the pending run: the codes before it are unchanged |
| RunSmoother.CommittedCodesAreFinal | SNP.py:122-155 | scanning further labels never changes a code emitted before the pending run |
| RunSmoother.AbsorbsLoneSnp | SNP.py:115-155 | [P1,P1,P2,P1,P1,P1,P2,P2,P2] with base 1 and minimum runs of 2 gives [1,1,1,1,1,1,2,2,2] |
| SnpCounter.CountSnps | SNP.py:169-196 | the result is empty below two SNPs and holds only positive counts; for codes 1 and 2 it is the count sequence of the segments |
| SnpCounter.CountsCoverAllButLast | SNP.py:173-181 | the counts add up to the number of SNPs minus one: the last SNP is never counted |
| SnpCounter.CountsUpToLength | SNP.py:173-190 | before the next-to-last SNP a count is emitted exactly at each change of code: the counts emitted below k number the changes below k |
| SnpCounter.ClosedRunCount | SNP.py:183-190 | a maximal run that ends at a change of code before the next-to-last SNP gets a count equal to its length, at the index equal to the number of earlier changes of code: the k-th count is the k-th segment's length |
| SnpCounter.LastCount | SNP.py:175-181 | the last count is the length of the run holding the next-to-last SNP, counted up to that SNP |
| IntervalBuilder.TransitionsExact | SNP.py:265 | the transitions acted on are exactly the changes of code between SNPs i and i + 1 with 1 <= i <= n - 3, in increasing order |
| IntervalBuilder.IntervalsOf | SNP.py:248-289 | no SNPs give no stretch; one SNP gives a label and a start but no end; two or more give one stretch per transition plus one, of equal list lengths, the first opening at SNP 0 with its code and the last closing at the last SNP |
| IntervalBuilder.PartialFirst | SNP.py:250-255 | scanning SNP 0 opens the first stretch with its code and positions |
| IntervalBuilder.PartialLast | SNP.py:258-262 | scanning the last SNP closes the last stretch at its positions |
| IntervalBuilder.PartialTransition | SNP.py:265-286 | scanning a transition closes one stretch and opens the next with the code of the following SNP |
| IntervalBuilder.PartialDonorExit | SNP.py:266-275 | leaving a donor stretch: it ends at SNP i and the next one starts one base after it |
| IntervalBuilder.PartialReceptorExit | SNP.py:276-284 | leaving a receptor stretch: it ends one base before SNP i + 1, where the next one starts |
| IntervalBuilder.PartialSkip | SNP.py:288-289 | any other SNP changes nothing |
| IntervalBuilder.BuildIntervals | SNP.py:237-293 | chaine_borne returns the stretches of the code sequence |
| IntervalBuilder.BoundaryRule | SNP.py:265-285 | the k-th transition i closes stretch k and opens stretch k + 1 labelled with the code of SNP i + 1; the donor side owns SNP i, the receptor side gives the boundary to SNP i + 1 |
| IntervalBuilder.Contiguous | SNP.py:265-285 | each stretch after the first starts one base after the previous one ends, in each of P1, P2 and R |
| IntervalBuilder.LaterLabelsAlternate | SNP.py:265-286 | every stretch after the second has a code different from the one before it |
| IntervalBuilder.OneStretchWithoutInnerChange | SNP.py:248-289 | with no change of code between SNP 1 and SNP n - 2, the result is one stretch from SNP 0 to the last SNP |
| IntervalBuilder.FirstChangeIgnored | SNP.py:265 | in 1 2 2 1 1 1 the change between the first two SNPs is not acted on, and both stretches carry code 1 |
| IntervalBuilder.StretchLabelsAreCodes | SNP.py:251-281 | every stretch label is the code of some SNP, so codes 1 and 2 give labels 1 and 2 |
| Aggregator.ReceptorSums | SNP.py:327-369 | the per-code totals and counts are those of the stretches; P1 is named exactly when its total is at most that of P2 (ties go to P1); the long-stretch sum and count cover only the named code's stretches longer than the bound |
| Aggregator.DonorSums | SNP.py:391-405 | the per-code totals are those of the stretches, the same totals the receptor summary gives on the same columns |
| Aggregator.CountsPartition | SNP.py:340-347 | for labels 1 and 2 the P1 and P2 counts add up to the number of stretches |
| Aggregator.SumsPartition | SNP.py:340-347 | for labels 1 and 2 the P1 and P2 totals add up to the total length of all stretches |
| Aggregator.CountAboveAtMostCount | SNP.py:353-364 | the long stretches of a code are no more than the stretches of that code |
| Aggregator.SumAboveExceedsBound | SNP.py:353-364 | the long-stretch sum is at least the long-stretch count times the bound plus one |
| Aggregator.SumAboveAtMostSum | SNP.py:353-364 | with a non-negative bound and no negative length, the long-stretch sum is at most the code's total |
| Pipeline.StretchesTile | SNP.py:265-285 | along any genome, the stretch lengths add up to the distance from the first SNP to the last, less one base per junction |
| Pipeline.ReceptorPass | Main.py:48-52 | one receptor pass, with the long-stretch bound of 1000, gives SNP counts that add up to one less than the number of retained rows (none below two rows); its sums fail exactly when one row is retained; with no retained row every total and count is zero and P1 is named; with two or more the P1 and P2 totals add up to the span between the first and last retained SNPs, less one base per junction between stretches |
| Pipeline.CountsOutnumberStretches | SNP.py:183-190 | for 1 2 2 1 1 1 compteur_snp gives [1, 2, 2], one count more than chaine_borne gives stretches, because only compteur_snp closes a segment at the change between the first two SNPs |

## Left out

- Reading the spreadsheet (`pd.read_excel` and the column extraction, SNP.py:42-47) and the
  `str()` conversion of the patterns (SNP.py:57-58). These are I/O. The patterns arrive as
  strings and the positions as integer sequences.
- `creer_excel` (SNP.py:408-490). It only writes the spreadsheet output, with a file name that
  carries the date.
- Main.py beyond one receptor pass. Not modelled: the second pass with the roles swapped, the
  choice of donor from the named minimum label, the donor-side pass on the other sorting, and
  `print`. These are orchestration around file I/O.
- The non-termination of SNP_chaine on a label other than "P1" or "P2". Labels are the datatype
  `Label`, which has only those two values.
- Patterns shorter than three characters, which raise IndexError. `WellFormed` requires at least
  three characters. It also requires the position columns to be as long as the pattern column.
- `str.lower()` is reduced to ASCII upper-to-lower case. Non-ASCII letters are not folded.
- ReceptorSums, DonorSums: the source returns each result as a one-element list. The model
  returns the value itself.
- BuildIntervals: position lists shorter than the code list raise IndexError in the source
  (SNP.py:252-284). They are excluded by `Covers`. SNP_parent always gives the four lists the
  same length, so the pipeline never passes such lists.
- ReceptorSums, DonorSums: stretch columns shorter than the label column raise IndexError in the
  source. They are excluded by `Spans`. That happens when the code sequence has exactly one SNP,
  since chaine_borne then gives a start but no end. `Pipeline.ReceptorPass` returns `None` in
  that case.
- CountSnps: for sequences holding codes other than 1 and 2 the contract only bounds the result
  (empty below two SNPs, positive counts). It is tied to the segment counts only for codes 1
  and 2, which is what SNP_chaine produces.
- In SNP_parent, the row counter `compt` always equals the loop index. The model keeps it as a
  separate counter and proves the two equal.
