/** Records, ranges and integer helpers shared by the coverage and loop engines. */
module Genome {

  /** A chromosome name, compared as a plain string. */
  type Chrom = string

  /** A `(chrom, start, end)` triple: a query window, or a single-range
      subset, which is inclusive of both ends. */
  datatype GenomeRange = GenomeRange(chrom: Chrom, start: int, end: int)

  /** The number of base pairs a window spans, `end - start`. */
  function Width(gr: GenomeRange): int
  {
    gr.end - gr.start
  }

  /** One BedGraph row: the interval `[start, stop)` carrying one value. */
  datatype Rec = Rec(chrom: Chrom, start: int, stop: int, value: real)

  /** One BedPe row: a loop joining anchor `[start1, end1)` on `chrom1`
      to anchor `[start2, end2)` on `chrom2`, with one value. */
  datatype Loop = Loop(chrom1: Chrom, start1: int, end1: int,
                       chrom2: Chrom, start2: int, end2: int, value: real)

  /** `b ** e` on unbounded integers. */
  function Pow(b: int, e: nat): int
  {
    if e == 0 then 1 else b * Pow(b, e - 1)
  }

  /** Every power of a base of at least one is at least one. */
  lemma {:induction false} PowAtLeastOne(b: int, e: nat)
    requires b >= 1
    ensures Pow(b, e) >= 1
  {
    if e > 0 {
      PowAtLeastOne(b, e - 1);
    }
  }

  /** Powers of a base of at least one grow with the exponent. */
  lemma {:induction false} PowMonotone(b: int, e1: nat, e2: nat)
    requires b >= 1
    requires e1 <= e2
    ensures Pow(b, e1) <= Pow(b, e2)
  {
    if e1 < e2 {
      PowMonotone(b, e1, e2 - 1);
      PowAtLeastOne(b, e2 - 1);
    }
  }

  /** Python's `a // d` for a positive divisor: the floor of `a / d`.
      (Dafny's `/` is Euclidean, which agrees with the floor when `d > 0`.) */
  function FloorDiv(a: int, d: int): int
    requires d > 0
  {
    a / d
  }

  /** `FloorDiv(a, d)` is the largest `q` with `d * q <= a`. */
  lemma FloorDivIsFloor(a: int, d: int)
    requires d > 0
    ensures d * FloorDiv(a, d) <= a < d * (FloorDiv(a, d) + 1)
  {
  }
}
