/** The subset filtering of `BedgraphData.profile` and `BedPeData.profile`:
    the rows a query returned, narrowed to a subset a viewer selected. */
module Subsets {
  import opened Results
  import opened Genome
  import Seqs
  import Pyramid
  import LoopQuery

  /** The subset states `profile` distinguishes. `RangeSubset` is
      `GenomicRangeSubsetState`, inclusive of both endpoints;
      `MultiRangeSubset` is `GenomicMulitRangeSubsetState` with its three
      parallel lists; `OtherSubset` is every other glue subset state. */
  datatype SubsetState =
    | NoSubset
    | RangeSubset(range: GenomeRange)
    | MultiRangeSubset(chroms: seq<Chrom>, starts: seq<int>, ends: seq<int>)
    | OtherSubset

  /** The chromosome name the multi-range mask is seeded with. */
  const Junk: Chrom := "junk"

  /** `zip(chroms, starts, ends)`: as many ranges as the shortest list. */
  function Zip3(cs: seq<Chrom>, ss: seq<int>, es: seq<int>): (r: seq<GenomeRange>)
    ensures |r| <= |cs| && |r| <= |ss| && |r| <= |es|
    ensures |r| == |cs| || |r| == |ss| || |r| == |es|
    ensures forall i :: 0 <= i < |r| ==> r[i] == GenomeRange(cs[i], ss[i], es[i])
  {
    if cs == [] || ss == [] || es == [] then []
    else [GenomeRange(cs[0], ss[0], es[0])] + Zip3(cs[1..], ss[1..], es[1..])
  }

  /** An interval on `chrom` lies inside `g`, endpoints included. */
  predicate Inside(g: GenomeRange, chrom: Chrom, start: int, stop: int)
  {
    chrom == g.chrom && start >= g.start && stop <= g.end
  }

  /** A coverage record lies inside `g`. */
  predicate RecIn(x: Rec, g: GenomeRange)
  {
    Inside(g, x.chrom, x.start, x.stop)
  }

  /** A loop has at least one anchor inside `g`. */
  predicate LoopIn(x: Loop, g: GenomeRange)
  {
    Inside(g, x.chrom1, x.start1, x.end1) || Inside(g, x.chrom2, x.start2, x.end2)
  }

  /** A range the multi-range loop skips: on another chromosome than the
      query window, or disjoint from it. */
  predicate Skipped(g: GenomeRange, window: GenomeRange)
  {
    g.chrom != window.chrom || g.start > window.end || g.end < window.start
  }

  /** Some range of `ranges` satisfies `hit`. */
  predicate AnyRange(ranges: seq<GenomeRange>, hit: GenomeRange -> bool)
  {
    exists i :: 0 <= i < |ranges| && hit(ranges[i])
  }

  /** The `mask |= ...` accumulation over the ranges the loop does not skip. */
  function AnyUnskipped(ranges: seq<GenomeRange>, window: GenomeRange, hit: GenomeRange -> bool): (b: bool)
    ensures b <==> exists i :: 0 <= i < |ranges| && !Skipped(ranges[i], window) && hit(ranges[i])
  {
    if ranges == [] then false
    else
      var rest := AnyUnskipped(ranges[1..], window, hit);
      assert forall i :: 1 <= i < |ranges| ==> ranges[i] == ranges[1..][i - 1];
      (!Skipped(ranges[0], window) && hit(ranges[0])) || rest
  }

  /** The window `profile` queries: `GenomeRange(f'chr{chr}', start, end)`. */
  function QueryWindow(chr: string, start: int, end: int): (w: GenomeRange)
    ensures |w.chrom| == |chr| + 3 && w.chrom[..3] == "chr" && w.chrom[3..] == chr
    ensures w.start == start && w.end == end
  {
    GenomeRange("chr" + chr, start, end)
  }

  /** A query chromosome is never the mask's seed name. */
  lemma QueryChromIsNotJunk(chr: string, start: int, end: int)
    ensures QueryWindow(chr, start, end).chrom != Junk
  {
    assert QueryWindow(chr, start, end).chrom[1] == 'h';
  }

  // ---------------------------------------------------------------------
  // Coverage

  /** The multi-range mask on one coverage record: seeded with
      `chrom == "junk"`, then or-ed with every unskipped range. */
  predicate CoverageMask(x: Rec, ranges: seq<GenomeRange>, window: GenomeRange)
  {
    x.chrom == Junk || AnyUnskipped(ranges, window, g => RecIn(x, g))
  }

  /** The mask of a range subset over coverage records. */
  function RecRangeMask(g: GenomeRange): Rec -> bool
  {
    (x: Rec) => RecIn(x, g)
  }

  /** The mask of a multi-range subset over coverage records. */
  function RecListMask(ranges: seq<GenomeRange>, window: GenomeRange): Rec -> bool
  {
    (x: Rec) => CoverageMask(x, ranges, window)
  }

  /** The filtering half of `BedgraphData.profile`: `rows` is what the query
      of `window` returned. Every record kept passes the subset's test;
      `CoverageFilterMembers` adds that every record passing it is kept. */
  function CoverageFilter(rows: seq<Rec>, subset: SubsetState, window: GenomeRange): (r: seq<Rec>)
    ensures Seqs.IsSubseq(r, rows)
    ensures subset.NoSubset? ==> r == rows
    ensures subset.OtherSubset? ==> r == []
    ensures subset.RangeSubset? ==> forall k :: 0 <= k < |r| ==> RecIn(r[k], subset.range)
    ensures subset.MultiRangeSubset? ==>
              var z := Zip3(subset.chroms, subset.starts, subset.ends);
              forall k :: 0 <= k < |r| ==>
                r[k].chrom == Junk || exists i :: 0 <= i < |z| && !Skipped(z[i], window) && RecIn(r[k], z[i])
  {
    match subset
    case NoSubset => Seqs.SubseqRefl(rows); rows
    case RangeSubset(g) => Seqs.Filter(rows, RecRangeMask(g))
    case MultiRangeSubset(cs, ss, es) =>
      var z := Zip3(cs, ss, es);
      assert z == Zip3(subset.chroms, subset.starts, subset.ends);
      var r := Seqs.Filter(rows, RecListMask(z, window));
      assert forall k :: 0 <= k < |r| ==>
               r[k].chrom == Junk || exists i :: 0 <= i < |z| && !Skipped(z[i], window) && RecIn(r[k], z[i]) by {
        forall k | 0 <= k < |r|
          ensures r[k].chrom == Junk || exists i :: 0 <= i < |z| && !Skipped(z[i], window) && RecIn(r[k], z[i])
        {
          assert RecListMask(z, window)(r[k]);
          assert CoverageMask(r[k], z, window);
        }
      }
      r
    case OtherSubset => []
  }

  /** A range subset keeps exactly the records inside the range; a
      multi-range subset keeps exactly the "junk" records and the records
      inside some range the window check does not skip. */
  lemma CoverageFilterMembers(rows: seq<Rec>, subset: SubsetState, window: GenomeRange)
    ensures subset.RangeSubset? ==>
              forall x :: x in CoverageFilter(rows, subset, window) <==> x in rows && RecIn(x, subset.range)
    ensures subset.MultiRangeSubset? ==>
              var z := Zip3(subset.chroms, subset.starts, subset.ends);
              forall x :: x in CoverageFilter(rows, subset, window) <==>
                x in rows && (x.chrom == Junk || exists i :: 0 <= i < |z| && !Skipped(z[i], window) && RecIn(x, z[i]))
  {
    match subset
    case RangeSubset(g) => Seqs.FilterMembership(rows, RecRangeMask(g));
    case MultiRangeSubset(cs, ss, es) =>
      var z := Zip3(cs, ss, es);
      assert z == Zip3(subset.chroms, subset.starts, subset.ends);
      Seqs.FilterMembership(rows, RecListMask(z, window));
      forall x
        ensures x in CoverageFilter(rows, subset, window) <==>
                x in rows && (x.chrom == Junk || exists i :: 0 <= i < |z| && !Skipped(z[i], window) && RecIn(x, z[i]))
      {
        assert RecListMask(z, window)(x) == CoverageMask(x, z, window);
      }
    case _ =>
  }

  /** Neither the window check nor the "junk" seed matters to what the
      query returns: when every record returned for the profile window is
      on its chromosome and overlaps it, the multi-range filter keeps
      exactly the records inside some range, skipped or not. */
  lemma {:induction false} CoverageSkipIsHarmless(rows: seq<Rec>, cs: seq<Chrom>, ss: seq<int>, es: seq<int>,
                                                  chr: string, start: int, end: int)
    requires forall i :: 0 <= i < |rows| ==>
               rows[i].chrom == QueryWindow(chr, start, end).chrom && rows[i].start <= end && rows[i].stop >= start
    ensures CoverageFilter(rows, MultiRangeSubset(cs, ss, es), QueryWindow(chr, start, end))
            == Seqs.Filter(rows, (x: Rec) => AnyRange(Zip3(cs, ss, es), g => RecIn(x, g)))
  {
    var window := QueryWindow(chr, start, end);
    var z := Zip3(cs, ss, es);
    var p := RecListMask(z, window);
    var q := (x: Rec) => AnyRange(z, g => RecIn(x, g));
    QueryChromIsNotJunk(chr, start, end);
    forall i | 0 <= i < |rows|
      ensures p(rows[i]) == q(rows[i])
    {
      var x := rows[i];
      assert x.chrom != Junk;
      if AnyRange(z, g => RecIn(x, g)) {
        var k :| 0 <= k < |z| && RecIn(x, z[k]);
        assert !Skipped(z[k], window);
      }
    }
    Seqs.FilterCongruent(rows, p, q);
  }

  // ---------------------------------------------------------------------
  // Loops

  /** The multi-range mask on one loop, seeded with `chrom1 == "junk"`. */
  predicate LoopMask(x: Loop, ranges: seq<GenomeRange>, window: GenomeRange)
  {
    x.chrom1 == Junk || AnyUnskipped(ranges, window, g => LoopIn(x, g))
  }

  /** The mask of a range subset over loops. */
  function LoopRangeMask(g: GenomeRange): Loop -> bool
  {
    (x: Loop) => LoopIn(x, g)
  }

  /** The mask of a multi-range subset over loops. */
  function LoopListMask(ranges: seq<GenomeRange>, window: GenomeRange): Loop -> bool
  {
    (x: Loop) => LoopMask(x, ranges, window)
  }

  /** The filtering half of `BedPeData.profile`, with the multi-range
      branch's window check reading the query window (see
      `LoopFilterAsWritten` for the branch as the source has it). Every
      loop kept passes the subset's test; `LoopFilterMembers` adds that
      every loop passing it is kept. */
  function LoopFilter(rows: seq<Loop>, subset: SubsetState, window: GenomeRange): (r: seq<Loop>)
    ensures Seqs.IsSubseq(r, rows)
    ensures subset.NoSubset? ==> r == rows
    ensures subset.OtherSubset? ==> r == []
    ensures subset.RangeSubset? ==> forall k :: 0 <= k < |r| ==> LoopIn(r[k], subset.range)
    ensures subset.MultiRangeSubset? ==>
              var z := Zip3(subset.chroms, subset.starts, subset.ends);
              forall k :: 0 <= k < |r| ==>
                r[k].chrom1 == Junk || exists i :: 0 <= i < |z| && !Skipped(z[i], window) && LoopIn(r[k], z[i])
  {
    match subset
    case NoSubset => Seqs.SubseqRefl(rows); rows
    case RangeSubset(g) => Seqs.Filter(rows, LoopRangeMask(g))
    case MultiRangeSubset(cs, ss, es) =>
      var z := Zip3(cs, ss, es);
      assert z == Zip3(subset.chroms, subset.starts, subset.ends);
      var r := Seqs.Filter(rows, LoopListMask(z, window));
      assert forall k :: 0 <= k < |r| ==>
               r[k].chrom1 == Junk || exists i :: 0 <= i < |z| && !Skipped(z[i], window) && LoopIn(r[k], z[i]) by {
        forall k | 0 <= k < |r|
          ensures r[k].chrom1 == Junk || exists i :: 0 <= i < |z| && !Skipped(z[i], window) && LoopIn(r[k], z[i])
        {
          assert LoopListMask(z, window)(r[k]);
          assert LoopMask(r[k], z, window);
        }
      }
      r
    case OtherSubset => []
  }

  /** A range subset keeps exactly the loops with an anchor inside the
      range; a multi-range subset keeps exactly the loops whose first
      chromosome is "junk" and the loops with an anchor inside some range
      the window check does not skip. */
  lemma LoopFilterMembers(rows: seq<Loop>, subset: SubsetState, window: GenomeRange)
    ensures subset.RangeSubset? ==>
              forall x :: x in LoopFilter(rows, subset, window) <==> x in rows && LoopIn(x, subset.range)
    ensures subset.MultiRangeSubset? ==>
              var z := Zip3(subset.chroms, subset.starts, subset.ends);
              forall x :: x in LoopFilter(rows, subset, window) <==>
                x in rows && (x.chrom1 == Junk || exists i :: 0 <= i < |z| && !Skipped(z[i], window) && LoopIn(x, z[i]))
  {
    match subset
    case RangeSubset(g) => Seqs.FilterMembership(rows, LoopRangeMask(g));
    case MultiRangeSubset(cs, ss, es) =>
      var z := Zip3(cs, ss, es);
      assert z == Zip3(subset.chroms, subset.starts, subset.ends);
      Seqs.FilterMembership(rows, LoopListMask(z, window));
      forall x
        ensures x in LoopFilter(rows, subset, window) <==>
                x in rows && (x.chrom1 == Junk || exists i :: 0 <= i < |z| && !Skipped(z[i], window) && LoopIn(x, z[i]))
      {
        assert LoopListMask(z, window)(x) == LoopMask(x, z, window);
      }
    case _ =>
  }

  /** When both anchors of every loop returned for the profile window are
      on its chromosome and overlap it, neither the window check nor the
      "junk" seed changes what the corrected filter keeps. */
  lemma {:induction false} LoopSkipIsHarmless(rows: seq<Loop>, cs: seq<Chrom>, ss: seq<int>, es: seq<int>,
                                              chr: string, start: int, end: int)
    requires forall i :: 0 <= i < |rows| ==>
               rows[i].chrom1 == QueryWindow(chr, start, end).chrom && rows[i].start1 <= end && rows[i].end1 >= start &&
               rows[i].chrom2 == QueryWindow(chr, start, end).chrom && rows[i].start2 <= end && rows[i].end2 >= start
    ensures LoopFilter(rows, MultiRangeSubset(cs, ss, es), QueryWindow(chr, start, end))
            == Seqs.Filter(rows, (x: Loop) => AnyRange(Zip3(cs, ss, es), g => LoopIn(x, g)))
  {
    var window := QueryWindow(chr, start, end);
    var z := Zip3(cs, ss, es);
    var p := LoopListMask(z, window);
    var q := (x: Loop) => AnyRange(z, g => LoopIn(x, g));
    QueryChromIsNotJunk(chr, start, end);
    forall i | 0 <= i < |rows|
      ensures p(rows[i]) == q(rows[i])
    {
      var x := rows[i];
      assert x.chrom1 != Junk;
      if AnyRange(z, g => LoopIn(x, g)) {
        var k :| 0 <= k < |z| && LoopIn(x, z[k]);
        assert !Skipped(z[k], window);
      }
    }
    Seqs.FilterCongruent(rows, p, q);
  }

  /** The multi-range branch of `BedPeData.profile` reads `query_chrom`,
      which that method never assigns. */
  datatype ProfileError = NameError

  /** `BedPeData.profile`'s filtering as the source has it: the multi-range
      branch raises as soon as the zipped list has a range to test, and with
      no range it keeps only the loops whose first chromosome is "junk". */
  function LoopFilterAsWritten(rows: seq<Loop>, subset: SubsetState): (r: Result<seq<Loop>, ProfileError>)
    ensures r.Failure? <==> subset.MultiRangeSubset? && |Zip3(subset.chroms, subset.starts, subset.ends)| > 0
    ensures r.Success? ==> Seqs.IsSubseq(r.value, rows)
    ensures subset.MultiRangeSubset? && r.Success? ==>
              forall x :: x in r.value <==> x in rows && x.chrom1 == Junk
  {
    match subset
    case MultiRangeSubset(cs, ss, es) =>
      if |Zip3(cs, ss, es)| > 0 then Failure(NameError)
      else
        var p := (x: Loop) => x.chrom1 == Junk;
        Seqs.FilterMembership(rows, p);
        Success(Seqs.Filter(rows, p))
    case NoSubset => Seqs.SubseqRefl(rows); Success(rows)
    case RangeSubset(g) => Success(Seqs.Filter(rows, LoopRangeMask(g)))
    case OtherSubset => Success([])
  }

  /** Wherever the source's filtering returns, it returns what the corrected
      filtering returns, whatever the query window. */
  lemma LoopFilterAsWrittenAgrees(rows: seq<Loop>, subset: SubsetState, window: GenomeRange)
    requires LoopFilterAsWritten(rows, subset).Success?
    ensures LoopFilterAsWritten(rows, subset).value == LoopFilter(rows, subset, window)
  {
    match subset
    case MultiRangeSubset(cs, ss, es) =>
      var z := Zip3(cs, ss, es);
      assert z == Zip3(subset.chroms, subset.starts, subset.ends);
      assert z == [];
      Seqs.FilterCongruent(rows, (x: Loop) => x.chrom1 == Junk, LoopListMask(z, window));
    case _ =>
  }

  /** One range, one loop inside it: the source raises where the corrected
      filter keeps the loop. */
  lemma AsWrittenRaises()
    ensures var l := Loop("chr1", 10, 20, "chr1", 50, 60, 1.0);
            var s := MultiRangeSubset(["chr1"], [0], [100]);
            LoopFilterAsWritten([l], s) == Failure(NameError) &&
            LoopFilter([l], s, QueryWindow("1", 0, 100)) == [l]
  {
    var l := Loop("chr1", 10, 20, "chr1", 50, 60, 1.0);
    var z := Zip3(["chr1"], [0], [100]);
    assert z[0] == GenomeRange("chr1", 0, 100);
    assert LoopIn(l, z[0]);
    assert !Skipped(z[0], QueryWindow("1", 0, 100));
    assert LoopMask(l, z, QueryWindow("1", 0, 100));
  }

  // ---------------------------------------------------------------------
  // profile

  /** `BedgraphData.profile(chr, start, end, subset_state)`. `store(path,
      window)` stands for the tabix read of `window` from the compressed
      file at `path`; the query reads the file of the level selected for
      1000 samples. */
  function CoverageProfile(store: (string, GenomeRange) -> seq<Rec>, p: Pyramid.FilePath,
                           chr: string, start: int, end: int, subset: SubsetState): (r: seq<Rec>)
    ensures var w := QueryWindow(chr, start, end);
            Seqs.IsSubseq(r, store(Pyramid.QueryPath(p, w, Pyramid.DefaultSamples, Pyramid.DownsampleFactor,
                                                     Pyramid.CoverageDepth), w))
  {
    var w := QueryWindow(chr, start, end);
    var rows := store(Pyramid.QueryPath(p, w, Pyramid.DefaultSamples, Pyramid.DownsampleFactor,
                                        Pyramid.CoverageDepth), w);
    CoverageFilter(rows, subset, w)
  }

  /** A range subset narrows the unfiltered profile to the records inside
      the range; any other kind of subset state yields nothing. */
  lemma CoverageProfileSubsets(store: (string, GenomeRange) -> seq<Rec>, p: Pyramid.FilePath,
                               chr: string, start: int, end: int, g: GenomeRange)
    ensures var all := CoverageProfile(store, p, chr, start, end, NoSubset);
            forall x :: x in CoverageProfile(store, p, chr, start, end, RangeSubset(g)) <==> x in all && RecIn(x, g)
    ensures CoverageProfile(store, p, chr, start, end, OtherSubset) == []
  {
    var w := QueryWindow(chr, start, end);
    var rows := store(Pyramid.QueryPath(p, w, Pyramid.DefaultSamples, Pyramid.DownsampleFactor,
                                        Pyramid.CoverageDepth), w);
    CoverageFilterMembers(rows, RangeSubset(g), w);
  }

  /** The rows `BedPe.query` returns for `window` with no explicit level:
      `LoopQuery.Query` returns these at depth 7. */
  function LoopRows(store: (string, GenomeRange) -> seq<Loop>, p: Pyramid.FilePath,
                    window: GenomeRange, target: int): (r: seq<Loop>)
    ensures var rows := (l: int) => store(Pyramid.LevelPath(p, Pyramid.DownsampleFactor, Some(l)) + ".bgz", window);
            exists l :: 0 <= l < Pyramid.LoopDepth && r == rows(l) &&
                        (|r| <= target || l == Pyramid.LoopDepth - 1)
  {
    var rows := (l: int) => store(Pyramid.LevelPath(p, Pyramid.DownsampleFactor, Some(l)) + ".bgz", window);
    var l := LoopQuery.BudgetLevel(rows, target, Pyramid.LoopDepth);
    rows(l)
  }

  /** `BedPeData.profile(chr, start, end, subset_state, target)`, with the
      multi-range branch corrected. */
  function LoopProfile(store: (string, GenomeRange) -> seq<Loop>, p: Pyramid.FilePath,
                       chr: string, start: int, end: int, subset: SubsetState, target: int): (r: seq<Loop>)
    ensures Seqs.IsSubseq(r, LoopRows(store, p, QueryWindow(chr, start, end), target))
  {
    var w := QueryWindow(chr, start, end);
    LoopFilter(LoopRows(store, p, w, target), subset, w)
  }

  /** `BedPeData.profile` as the source has it: it raises `NameError` for a
      range list with a range in it, and otherwise returns what the
      corrected profile returns. */
  function LoopProfileAsWritten(store: (string, GenomeRange) -> seq<Loop>, p: Pyramid.FilePath,
                                chr: string, start: int, end: int, subset: SubsetState, target: int)
    : (r: Result<seq<Loop>, ProfileError>)
    ensures r.Failure? <==> subset.MultiRangeSubset? && |Zip3(subset.chroms, subset.starts, subset.ends)| > 0
    ensures r.Success? ==> r.value == LoopProfile(store, p, chr, start, end, subset, target)
  {
    var w := QueryWindow(chr, start, end);
    var rows := LoopRows(store, p, w, target);
    var r := LoopFilterAsWritten(rows, subset);
    if r.Success? then LoopFilterAsWrittenAgrees(rows, subset, w); r else r
  }

  /** A range subset narrows the unfiltered loop profile to the loops with
      an anchor inside the range; any other kind of subset state yields
      nothing. */
  lemma LoopProfileSubsets(store: (string, GenomeRange) -> seq<Loop>, p: Pyramid.FilePath,
                           chr: string, start: int, end: int, g: GenomeRange, target: int)
    ensures var all := LoopProfile(store, p, chr, start, end, NoSubset, target);
            forall x :: x in LoopProfile(store, p, chr, start, end, RangeSubset(g), target) <==> x in all && LoopIn(x, g)
    ensures LoopProfile(store, p, chr, start, end, OtherSubset, target) == []
  {
    var w := QueryWindow(chr, start, end);
    LoopFilterMembers(LoopRows(store, p, w, target), RangeSubset(g), w);
  }
}
