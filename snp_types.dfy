/** Values shared by every stage of the SNP segmentation pipeline. */
module SnpTypes {

  datatype Option<T> = None | Some(value: T)

  /** The parent a SNP, or a stretch of SNPs, is attributed to. */
  datatype Label = P1 | P2

  /** The integer code the smoothing stage and later stages use for a label (1 for P1, 2 for P2). */
  function Code(l: Label): int
  {
    if l == P1 then 1 else 2
  }

  function Opposite(l: Label): Label
  {
    if l == P1 then P2 else P1
  }

  predicate IsCode(x: int)
  {
    x == 1 || x == 2
  }

  predicate IsCodes(s: seq<int>)
  {
    forall i :: 0 <= i < |s| ==> IsCode(s[i])
  }

  /** The raw codes of a label sequence, entry by entry. */
  function Codes(ls: seq<Label>): seq<int>
  {
    seq(|ls|, i requires 0 <= i < |ls| => Code(ls[i]))
  }

  /** The indices of s are strictly increasing: each index occurs once, in order. */
  predicate Increasing(s: seq<nat>)
  {
    forall k, l :: 0 <= k < l < |s| ==> s[k] < s[l]
  }

  /** The position of one SNP in the P1, P2 and recombinant (R) genomes. */
  datatype Pos = Pos(p1: int, p2: int, r: int)
  {
    /** The same SNP moved by d bases in each of the three genomes. */
    function Shift(d: int): Pos
    {
      Pos(p1 + d, p2 + d, r + d)
    }
  }

  /** One of the three coordinate systems. */
  datatype Axis = AxisP1 | AxisP2 | AxisR

  function Coord(p: Pos, a: Axis): int
  {
    match a
    case AxisP1 => p.p1
    case AxisP2 => p.p2
    case AxisR => p.r
  }

  /** The column of one coordinate system in a list of positions. */
  function Project(ps: seq<Pos>, a: Axis): seq<int>
  {
    seq(|ps|, k requires 0 <= k < |ps| => Coord(ps[k], a))
  }
}
