/** The coverage pyramid: which level a query reads (`BedGraph.query`),
    where each level lives (`_level_path`, shared by `BedGraph` and
    `BedPe`), and how the levels are built from one another
    (`BedGraph.index`). */
module Pyramid {
  import opened Results
  import opened Genome
  import Decimal
  import Coverage

  /** The class attributes of `BedGraph` and `BedPe`. */
  const DownsampleFactor: int := 10
  const CoverageDepth: nat := 5
  const LoopDepth: nat := 7
  /** The `samples` default of `BedGraph.query`, the only value `profile` uses. */
  const DefaultSamples: int := 1000

  /** The downsample factor of level `i`: `factor ** (i + 1)`. */
  function LevelFactor(factor: int, i: nat): (f: int)
    requires factor >= 1
    ensures f >= 1
    ensures f == Pow(factor, i + 1)
  {
    PowAtLeastOne(factor, i + 1);
    Pow(factor, i + 1)
  }

  // ---------------------------------------------------------------------
  // Level selection

  /** `(end - start) / (samples * 2)`: base pairs per half pixel, as the
      source computes it with true division. */
  function Resolution(width: int, samples: int): real
    requires samples != 0
  {
    width as real / (samples * 2) as real
  }

  /** Level `i` is coarse enough for a window `width` wide, stated in exact
      integer form: `factor ** (i + 1) * 2 * samples <= width`. */
  predicate Fits(width: int, samples: int, factor: int, i: nat)
  {
    Pow(factor, i + 1) * 2 * samples <= width
  }

  /** The integer form agrees with the source's comparison against the
      real-valued resolution. */
  lemma FitsIsResolutionTest(width: int, samples: int, factor: int, i: nat)
    requires samples > 0
    ensures Fits(width, samples, factor, i) <==> Pow(factor, i + 1) as real <= Resolution(width, samples)
  {
    var p := Pow(factor, i + 1) as real;
    var d := (samples * 2) as real;
    assert d > 0.0;
    assert (p * d) / d == p;
    assert (p * d <= width as real) <==> (p <= width as real / d);
  }

  /** If level `i` fits, every finer level fits too. */
  lemma FitsDownwardClosed(width: int, samples: int, factor: int, i: nat, j: nat)
    requires samples > 0 && factor >= 1
    requires j <= i && Fits(width, samples, factor, i)
    ensures Fits(width, samples, factor, j)
  {
    PowMonotone(factor, j + 1, i + 1);
    assert Pow(factor, j + 1) * (2 * samples) <= Pow(factor, i + 1) * (2 * samples);
  }

  /** The largest level below `k` that fits, if any. */
  function LargestFitting(width: int, samples: int, factor: int, k: nat): (r: Option<nat>)
    ensures r.Some? ==> r.value < k && Fits(width, samples, factor, r.value)
    ensures r.Some? ==> forall j :: r.value < j < k ==> !Fits(width, samples, factor, j)
    ensures r.None? <==> forall j :: 0 <= j < k ==> !Fits(width, samples, factor, j)
  {
    if k == 0 then None
    else if Fits(width, samples, factor, k - 1) then Some(k - 1)
    else LargestFitting(width, samples, factor, k - 1)
  }

  /** The level `BedGraph.query` reads: the largest `i < depth` whose factor
      fits the window, or `None` (the raw data) when none does. The levels
      that fit are exactly those up to the selected one. */
  function SelectLevel(gr: GenomeRange, samples: int, factor: int, depth: nat): (r: Option<nat>)
    requires samples > 0 && factor >= 1
    ensures r.Some? ==> r.value < depth
    ensures r.Some? ==> forall j :: 0 <= j < depth ==> (Fits(Width(gr), samples, factor, j) <==> j <= r.value)
    ensures r.None? <==> forall j :: 0 <= j < depth ==> !Fits(Width(gr), samples, factor, j)
  {
    var r := LargestFitting(Width(gr), samples, factor, depth);
    if r.Some? then
      assert forall j :: 0 <= j <= r.value ==> Fits(Width(gr), samples, factor, j) by {
        forall j | 0 <= j <= r.value
          ensures Fits(Width(gr), samples, factor, j)
        {
          FitsDownwardClosed(Width(gr), samples, factor, r.value, j);
        }
      }
      r
    else r
  }

  /** A 20000-bp window at 1000 samples has resolution 10: with factor 10
      level 0 (10 <= 10) is read, not level 1 (100 > 10); one base pair
      less and no level fits. */
  lemma SelectorExample()
    ensures SelectLevel(GenomeRange("chr1", 0, 20000), 1000, 10, CoverageDepth) == Some(0)
    ensures SelectLevel(GenomeRange("chr1", 0, 19999), 1000, 10, CoverageDepth) == None
  {
    assert Pow(10, 1) == 10;
    assert Pow(10, 2) == 100;
    assert Pow(10, 3) == 1000;
    assert Pow(10, 4) == 10000;
    assert Pow(10, 5) == 100000;
  }

  // ---------------------------------------------------------------------
  // Level addressing

  /** A file path already split by `os.path.split` into directory and base name. */
  datatype FilePath = FilePath(dir: string, base: string)

  /** `os.path.join(a, b)` on POSIX. */
  function Join(a: string, b: string): (r: string)
    ensures |b| > 0 && b[0] == '/' ==> r == b
    ensures !(|b| > 0 && b[0] == '/') ==> |r| >= |a| + |b| && r[..|a|] == a && r[|r| - |b|..] == b
    ensures !(|b| > 0 && b[0] == '/') ==>
              |r| == |a| + |b| + (if a == [] || a[|a| - 1] == '/' then 0 else 1)
              && (|r| > |a| + |b| ==> r[|a|] == '/')
  {
    if |b| > 0 && b[0] == '/' then b
    else if a == [] || a[|a| - 1] == '/' then a + b
    else a + "/" + b
  }

  /** The directory, beside the original file, that holds every level. */
  const IndexDir: string := ".glue_index"

  /** `b` for the raw data, `'%s.dec_%i_%i' % (b, factor, level)` for a level. */
  function LevelName(base: string, factor: int, level: Option<int>): string
  {
    match level
    case None => base
    case Some(l) => base + ".dec_" + Decimal.IntToString(factor) + "_" + Decimal.IntToString(l)
  }

  /** `_level_path(level)`: the path of a level's file without the `.bgz`
      suffix, `<dir>/.glue_index/<base>` for the raw data and
      `<dir>/.glue_index/<base>.dec_<factor>_<level>` for a level. An
      absolute base name, which `os.path.split` never yields, replaces the
      directory. */
  function LevelPath(p: FilePath, factor: int, level: Option<int>): (r: string)
    ensures !(|p.base| > 0 && p.base[0] == '/') ==>
              r == Join(p.dir, IndexDir) + "/" +
                   (match level
                    case None => p.base
                    case Some(l) => p.base + ".dec_" + Decimal.IntToString(factor) + "_" + Decimal.IntToString(l))
    ensures |p.base| > 0 && p.base[0] == '/' ==> r == LevelName(p.base, factor, level)
  {
    IndexDirPathShape(p.dir);
    Join(Join(p.dir, IndexDir), LevelName(p.base, factor, level))
  }

  /** Joining onto the same non-empty directory that does not end in `/`
      is injective among names that agree on a leading `/`. */
  lemma JoinCancel(a: string, n1: string, n2: string)
    requires a != [] && a[|a| - 1] != '/'
    requires (|n1| > 0 && n1[0] == '/') <==> (|n2| > 0 && n2[0] == '/')
    requires Join(a, n1) == Join(a, n2)
    ensures n1 == n2
  {
    if !(|n1| > 0 && n1[0] == '/') {
      assert Join(a, n1)[|a| + 1..] == n1;
      assert Join(a, n2)[|a| + 1..] == n2;
    }
  }

  /** The index directory path ends in its last letter, never in `/`. */
  lemma IndexDirPathShape(dir: string)
    ensures var x := Join(dir, IndexDir); x != [] && x[|x| - 1] == 'x'
  {
    var x := Join(dir, IndexDir);
    assert x[|x| - |IndexDir|..] == IndexDir;
  }

  /** Distinct levels, and the raw data, live in distinct files. */
  lemma LevelPathsDistinct(p: FilePath, factor: int, l1: Option<int>, l2: Option<int>)
    requires LevelPath(p, factor, l1) == LevelPath(p, factor, l2)
    ensures l1 == l2
  {
    var x := Join(p.dir, IndexDir);
    IndexDirPathShape(p.dir);
    var n1 := LevelName(p.base, factor, l1);
    var n2 := LevelName(p.base, factor, l2);
    if p.base != [] {
      assert n1[0] == p.base[0] && n2[0] == p.base[0];
    } else {
      assert l1.Some? ==> n1[0] == '.';
      assert l2.Some? ==> n2[0] == '.';
    }
    JoinCancel(x, n1, n2);
    if l1.Some? && l2.Some? {
      var prefix := p.base + ".dec_" + Decimal.IntToString(factor) + "_";
      assert n1 == prefix + Decimal.IntToString(l1.value);
      assert n2 == prefix + Decimal.IntToString(l2.value);
      assert n1[|prefix|..] == Decimal.IntToString(l1.value);
      assert n2[|prefix|..] == Decimal.IntToString(l2.value);
      Decimal.IntToStringInjective(l1.value, l2.value);
    }
  }

  /** Two paths with the `.bgz` suffix are equal only if the paths are. */
  lemma BgzCancel(x: string, y: string)
    requires x + ".bgz" == y + ".bgz"
    ensures x == y
  {
    assert x == (x + ".bgz")[..|x|];
    assert y == (y + ".bgz")[..|y|];
  }

  /** The compressed file `BedGraph.query` reads: the raw data's exactly
      when no level fits the window, and level `i`'s exactly when `i` fits
      and no coarser level below `depth` does. */
  function QueryPath(p: FilePath, gr: GenomeRange, samples: int, factor: int, depth: nat): (r: string)
    requires samples > 0 && factor >= 1
    ensures r == LevelPath(p, factor, None) + ".bgz"
            <==> forall j :: 0 <= j < depth ==> !Fits(Width(gr), samples, factor, j)
    ensures forall i :: 0 <= i < depth ==>
              (r == LevelPath(p, factor, Some(i)) + ".bgz"
               <==> Fits(Width(gr), samples, factor, i) && forall j :: i < j < depth ==> !Fits(Width(gr), samples, factor, j))
  {
    var sel := SelectLevel(gr, samples, factor, depth);
    var level: Option<int> := match sel
      case None => None
      case Some(i) => Some(i);
    var path := LevelPath(p, factor, level) + ".bgz";
    assert path == LevelPath(p, factor, None) + ".bgz" ==> level == None by {
      if path == LevelPath(p, factor, None) + ".bgz" {
        BgzCancel(LevelPath(p, factor, level), LevelPath(p, factor, None));
        LevelPathsDistinct(p, factor, level, None);
      }
    }
    assert forall i :: 0 <= i < depth ==>
             (path == LevelPath(p, factor, Some(i)) + ".bgz"
              <==> Fits(Width(gr), samples, factor, i) && forall j :: i < j < depth ==> !Fits(Width(gr), samples, factor, j)) by {
      forall i | 0 <= i < depth
        ensures path == LevelPath(p, factor, Some(i)) + ".bgz"
                <==> Fits(Width(gr), samples, factor, i) && forall j :: i < j < depth ==> !Fits(Width(gr), samples, factor, j)
      {
        if path == LevelPath(p, factor, Some(i)) + ".bgz" {
          BgzCancel(LevelPath(p, factor, level), LevelPath(p, factor, Some(i)));
          LevelPathsDistinct(p, factor, level, Some(i));
          assert sel == Some(i);
        }
        if Fits(Width(gr), samples, factor, i) && forall j :: i < j < depth ==> !Fits(Width(gr), samples, factor, j) {
          assert sel.Some?;
          assert sel.value == i;
        }
      }
    }
    path
  }

  // ---------------------------------------------------------------------
  // Building a pyramid

  /** The level loop both `index` methods share: starting from the raw
      rows, level `i` is `next` applied to the previous level (the raw rows
      for level 0) and the level number. */
  method BuildChain<T>(raw: T, next: (T, nat) -> T, depth: nat) returns (levels: seq<T>)
    ensures |levels| == depth
    ensures depth > 0 ==> levels[0] == next(raw, 0)
    ensures forall i :: 0 < i < depth ==> levels[i] == next(levels[i - 1], i)
  {
    levels := [];
    var df := raw;
    var i := 0;
    while i < depth
      invariant 0 <= i <= depth
      invariant |levels| == i
      invariant df == if i == 0 then raw else levels[i - 1]
      invariant i > 0 ==> levels[0] == next(raw, 0)
      invariant forall j :: 0 < j < i ==> levels[j] == next(levels[j - 1], j)
    {
      df := next(df, i);
      levels := levels + [df];
      i := i + 1;
    }
  }

  /** Every decimation drops at least the first record, so along a chain
      of decimations level `i` has at most `|raw| - (i + 1)` records. */
  lemma {:induction false} CoverageChainShrinks(raw: seq<Rec>, levels: seq<seq<Rec>>, factor: int, i: nat)
    requires factor >= 1 && i < |levels|
    requires levels[0] == Coverage.Decimate(raw, LevelFactor(factor, 0))
    requires forall j :: 0 < j < |levels| ==> levels[j] == Coverage.Decimate(levels[j - 1], LevelFactor(factor, j))
    ensures |levels[i]| <= if |raw| > i then |raw| - i - 1 else 0
  {
    if i == 0 {
      Coverage.DecimateShrinks(raw, LevelFactor(factor, 0));
    } else {
      CoverageChainShrinks(raw, levels, factor, i - 1);
      Coverage.DecimateShrinks(levels[i - 1], LevelFactor(factor, i));
    }
  }

  /** `BedGraph.index` without the file I/O: level 0 decimates the raw
      records with step `factor`, and level `i` decimates level `i - 1` with
      step `factor ** (i + 1)`; level `i` has at most `|raw| - (i + 1)`
      records. */
  method BuildCoverageLevels(raw: seq<Rec>, factor: int, depth: nat) returns (levels: seq<seq<Rec>>)
    requires factor >= 1
    ensures |levels| == depth
    ensures depth > 0 ==> levels[0] == Coverage.Decimate(raw, LevelFactor(factor, 0))
    ensures forall i :: 0 < i < depth ==> levels[i] == Coverage.Decimate(levels[i - 1], LevelFactor(factor, i))
    ensures forall i :: 0 <= i < depth ==> |levels[i]| <= if |raw| > i then |raw| - i - 1 else 0
  {
    levels := BuildChain(raw, (df: seq<Rec>, i: nat) => Coverage.Decimate(df, LevelFactor(factor, i)), depth);
    forall i | 0 <= i < depth
      ensures |levels[i]| <= if |raw| > i then |raw| - i - 1 else 0
    {
      CoverageChainShrinks(raw, levels, factor, i);
    }
  }
}
