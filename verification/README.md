# glue-genomics-viewers data core in Dafny

This project models the data layer of glue-genomics-viewers, the
`glue_genomics_viewers/data.py` module, and proves properties of the model.
That layer turns two kinds of genomics files into a multi-resolution
pyramid, then serves range queries from the level that suits the request.

- **Coverage (bedGraph).** `BedGraph.decimate` merges coverage records into
  buckets of `step` positions in one streaming pass. `BedGraph.index`
  builds five levels: level 0 decimates the raw records with step 10, and
  level `i` decimates level `i - 1` with step `10 ** (i + 1)`.
  `BedGraph.query` reads the coarsest level whose factor is at most the
  window's resolution `(end - start) / (samples * 2)`. When no level
  qualifies it reads the raw data.
- **Loops (BEDPE).** `BedPe.decimate_loops` works at one resolution. It
  drops loops shorter than the resolution. It merges the loops whose anchor
  midpoints fall into the same pair of resolution cells into the first
  loop of that cell, carrying the summed value. Then it sorts by
  `(chrom1, chrom2, start1, start2)`. `BedPe.index` sorts the loops and
  checks that each is intra-chromosomal with non-overlapping anchors. It
  then builds seven levels the same way. `BedPe.query` searches the levels
  from the coarsest towards level 0 under a row-count budget.
- **Level files.** Every level lives in `.glue_index/<name>.dec_<factor>_<level>`
  beside the original file (`_level_path`).
- **Profiles.** `BedgraphData.profile` and `BedPeData.profile` query the
  window `chr<chr>:start-end`. They then narrow the rows to the viewer's
  subset state:
  - no subset: every row;
  - a genomic range: the rows inside it, endpoints included; a loop needs
    only one anchor inside;
  - a list of ranges: for coverage, the rows inside any range that is on
    the query chromosome and overlaps the window; for loops, the code
    raises `NameError` as soon as the list holds a range (see "## Findings"),
    and the model's `LoopProfile` applies the coverage window check instead;
  - anything else: no rows.

Modules:

- `Results`: the `Option` and `Result` types.
- `Genome`: ranges, records, loops, powers and floor division.
- `Seqs`: order-preserving mask selection, the shape of a pandas `.loc[mask]`.
- `Decimal`: the `%i` formatting in level names.
- `Coverage`: `BedGraph.decimate`.
- `Pyramid`: level selection, level paths and the coverage level chain.
- `Loops`: `decimate_loops`, the row order, and `BedPe.index`.
- `LoopQuery`: `BedPe.query`.
- `Subsets`: the two `profile` methods.

Some quirks of `BedGraph.decimate` are kept as the code has them, and
lemmas state each one:

- The first record only initialises the loop and is otherwise dropped.
- The running maximum is not reset when one bucket is flushed and the next
  opens, so a small bucket can report an earlier bucket's larger maximum.
- A mid-stream flush carries the incoming record's chromosome.
- Every mid-stream emission carries a maximum, but the final flush carries
  the maximum divided by the bucket width.

Some of the code's behaviour is easy to misread. The model follows the
code:

- When no loop level exceeds the budget, `BedPe.query` returns level 0's
  rows, not the raw data (lines 205-214).
- `BedPe.index` sorts the loops itself (line 167). The assertion commented
  "all loops are sorted" (line 169) checks `start2 >= end1` within each
  loop, not the order of the rows.
- For row counts 5, 40, 150 and 900 at levels 3, 2, 1 and 0, and a budget
  of 100, the search returns the 40 rows of level 2.
- `GenomicMulitRangeSubsetState` is imported by `data.py` but not defined
  in `subsets.py`. Its three parallel lists `chroms`, `starts` and `ends`
  are taken from how `data.py` uses it.
- The multi-range mask is seeded with `chrom == "junk"`, so rows on a
  chromosome named `junk` always pass. The query window's chromosome always
  starts with `chr`, so it never meets such a row.

## Model

| member | source | states |
|---|---|---|
| Coverage.MaxWith | glue_genomics_viewers/data.py:106-126 | Python's `max` against a running maximum that starts at `-inf` is an upper bound of both arguments and equals one of them |
| Coverage.Step | glue_genomics_viewers/data.py:108-140 | One loop iteration keeps the generator's invariant: an open bucket is exactly `step` wide, and positive mass implies an open bucket with a finite maximum. The new state carries the record's chromosome, the iteration yields at most two records, and each yielded interval is non-empty |
| Coverage.Decimate | glue_genomics_viewers/data.py:94-144 | An empty or single-record input yields nothing. Otherwise the output is everything yielded inside the loop, followed by the tail flush |
| Coverage.RunSnoc | glue_genomics_viewers/data.py:108-140 | Reading one more record appends exactly what one loop iteration yields and moves the state by that iteration: the generator streams |
| Coverage.Feed | glue_genomics_viewers/data.py:108-140 | The same step-by-step streaming equation, stated for whole inputs |
| Coverage.EmittedIsPrefixStable | glue_genomics_viewers/data.py:108-140 | Output already yielded is never retracted: the yield of a prefix is a prefix of the yield of the whole |
| Coverage.StateAfterChrom | glue_genomics_viewers/data.py:108-144 | The chromosome the tail flush carries is the last record's |
| Coverage.PassThrough | glue_genomics_viewers/data.py:111-121 | A record that starts a new interval and spans more than `step` does three things. It flushes the pending bucket, as its maximum, only if its sum is positive. It is yielded unchanged. It closes the bucket with maximum `-inf` |
| Coverage.OpensBucket | glue_genomics_viewers/data.py:111-126 | A record that starts a new interval and spans at most `step` flushes the pending bucket the same way. It then opens `[start, start + step)` holding its own mass, and the maximum becomes the larger of the old maximum and its value |
| Coverage.Straddles | glue_genomics_viewers/data.py:129-135 | A record that starts inside the open bucket and ends past it yields `[lo, stop)` with the larger of the maximum and its value, and closes the bucket |
| Coverage.Contained | glue_genomics_viewers/data.py:138-140 | A record inside the open bucket yields nothing and adds its mass and value to the bucket |
| Coverage.TailFlush | glue_genomics_viewers/data.py:142-144 | After the loop, the pending bucket is yielded only if its sum is positive. It carries the last record's chromosome, spans `[lo, lo + step)` and has value maximum / `step` |
| Coverage.FirstRecordIgnored | glue_genomics_viewers/data.py:96-106 | The first record only initialises the loop: replacing it never changes the output |
| Coverage.DecimateShrinks | glue_genomics_viewers/data.py:94-144 | Decimation yields at most one record fewer than it reads |
| Coverage.DecimateWellFormed | glue_genomics_viewers/data.py:94-144 | Every yielded record has `start < stop` |
| Coverage.DecimateSorted | glue_genomics_viewers/data.py:94-144 | Records with non-negative starts in non-decreasing order yield records whose starts are non-decreasing too |
| Coverage.StaleMaxExample | glue_genomics_viewers/data.py:111-126 | A worked input on which the second bucket reports the first bucket's maximum, 10, instead of its own |
| Decimal.ParseNatToString | glue_genomics_viewers/data.py:92 | The decimal rendering `%i` of a natural number parses back to it |
| Decimal.NatToStringInjective | glue_genomics_viewers/data.py:92 | Distinct natural numbers render to distinct decimal strings |
| Decimal.IntToStringInjective | glue_genomics_viewers/data.py:92 | Distinct integers render to distinct decimal strings |
| Pyramid.LevelFactor | glue_genomics_viewers/data.py:58 | The factor of level `i` is `factor ** (i + 1)`, at least 1 |
| Pyramid.FitsIsResolutionTest | glue_genomics_viewers/data.py:79-81 | The exact integer test `factor ** (i + 1) * 2 * samples <= width` agrees with the source's comparison against the real-valued resolution |
| Pyramid.FitsDownwardClosed | glue_genomics_viewers/data.py:80-81 | If a level qualifies for a window, every finer level does too |
| Pyramid.SelectLevel | glue_genomics_viewers/data.py:77-81 | The selected level is below `depth`. The qualifying levels are exactly those up to it. No level is selected exactly when none qualifies |
| Pyramid.SelectorExample | glue_genomics_viewers/data.py:79-81 | A 20000-bp window at 1000 samples reads level 0. A 19999-bp window reads the raw data |
| Pyramid.Join | glue_genomics_viewers/data.py:86-92 | POSIX `os.path.join`: an absolute second part replaces the first. Otherwise the result is the first part, one `/` unless the first part is empty or already ends in `/`, then the second part |
| Pyramid.LevelPath | glue_genomics_viewers/data.py:86-92 | The raw data lives at `<dir>/.glue_index/<base>` and level `l` at `<dir>/.glue_index/<base>.dec_<factor>_<l>`, with `%i` renderings of `factor` and `l` |
| Pyramid.LevelPathsDistinct | glue_genomics_viewers/data.py:86-92 | Two levels, or a level and the raw data, never share a file path |
| Pyramid.QueryPath | glue_genomics_viewers/data.py:77-82 | The query reads the raw data's compressed file exactly when no level qualifies for the window. It reads level `i`'s file exactly when level `i` qualifies and no coarser level does |
| Pyramid.BuildChain | glue_genomics_viewers/data.py:58-63 | The level loop of both index methods: level 0 is the raw data transformed with step index 0, and level `i` is level `i - 1` transformed with step index `i` |
| Pyramid.BuildCoverageLevels | glue_genomics_viewers/data.py:58-63 | Level 0 is the raw records decimated with step `factor`. Level `i` is level `i - 1` decimated with step `factor ** (i + 1)`. Level `i` has at most `n - i - 1` records, where `n` is the number of raw records |
| Loops.KeyLeTotal | glue_genomics_viewers/data.py:236 | Any two loops are comparable under the `(chrom1, chrom2, start1, start2)` order |
| Loops.KeyLeTransitive | glue_genomics_viewers/data.py:236 | That order is transitive |
| Loops.SortedPairwise | glue_genomics_viewers/data.py:236 | Order between neighbours gives order between any two rows |
| Loops.SortLoops | glue_genomics_viewers/data.py:167 | `sort_values` returns a rearrangement of the rows, in key order |
| Loops.SortLoopsMembers | glue_genomics_viewers/data.py:167 | Sorting neither adds nor loses a row |
| Loops.SortSum | glue_genomics_viewers/data.py:236 | Sorting keeps the total value |
| Loops.Kept | glue_genomics_viewers/data.py:226-229 | Exactly the loops whose extent `end2 - start1` reaches the resolution are kept, in their order |
| Loops.KeptCounts | glue_genomics_viewers/data.py:226-229 | Every copy of a long enough loop is kept, and no copy of a shorter one |
| Loops.BinIsCell | glue_genomics_viewers/data.py:232-233 | The group key `(a, b)` is the resolution cell of each anchor's floor-halved midpoint: `res * a <= (end1 + start1) // 2 < res * (a + 1)`, and likewise for `b` |
| Loops.FirstInGroupFindsGroup | glue_genomics_viewers/data.py:234 | A group has a first row exactly when some row carries its key |
| Loops.DropGroupMembers | glue_genomics_viewers/data.py:234 | The rows outside group `k` are exactly the input rows whose key is not `k` |
| Loops.DropGroupKeepsOtherGroups | glue_genomics_viewers/data.py:234 | Removing one group leaves every other group's first row and summed value unchanged |
| Loops.MergeGroups | glue_genomics_viewers/data.py:234 | Grouping yields one row per key. Each row is its group's first row, carrying the group's summed value |
| Loops.MergeGroupsCoversKeys | glue_genomics_viewers/data.py:234 | Every group of the input has a row in the output |
| Loops.MergeGroupsConservesValue | glue_genomics_viewers/data.py:234 | The total value is conserved by merging |
| Loops.SortKeepsDistinctKeys | glue_genomics_viewers/data.py:234-236 | Sorting the merged rows keeps one row per key |
| Loops.DecimateLoops | glue_genomics_viewers/data.py:225-236 | The output is sorted and no longer than the input. It holds one row per midpoint bin of the kept loops, each being the bin's first kept loop with the bin's summed value. Every bin is represented. The total value equals that of the kept loops |
| Loops.MergeExample | glue_genomics_viewers/data.py:225-236 | A worked input: a short loop is dropped and two loops in one bin merge into the first, with value 3.5 |
| Loops.PrepareLoops | glue_genomics_viewers/data.py:166-170 | Validation succeeds exactly when every loop has `start2 >= end1` and `chrom1 == chrom2`. On success the result is the input's rows in key order |
| Loops.BuildLoopLevels | glue_genomics_viewers/data.py:166-179 | The build fails exactly when some loop is malformed. Otherwise level 0 decimates the sorted loops at resolution `factor`, level `i` decimates level `i - 1` at `factor ** (i + 1)`, and no level is larger than the one before |
| LoopQuery.BudgetLevel | glue_genomics_viewers/data.py:205-214 | The level the budget search settles on is characterised uniquely. Every coarser level is within budget. The level itself is within budget unless it is the first one scanned. The next finer level is over budget whenever the level is within budget and not level 0. The level is 0 when no level is over budget |
| LoopQuery.Query | glue_genomics_viewers/data.py:196-214 | An explicit level returns that level's rows. Otherwise the descending scan returns the rows of the budget level. With depth 0 it fails on the unbound `df` |
| LoopQuery.BudgetExample | glue_genomics_viewers/data.py:205-214 | Row counts 900, 150, 40 and 5 with budget 100 return the 40 rows of level 2 |
| Seqs.Filter | glue_genomics_viewers/data.py:289 | `.loc[mask]` returns a subsequence of the rows, and the mask holds of every row it returns |
| Seqs.FilterCounts | glue_genomics_viewers/data.py:289 | `.loc[mask]` keeps every copy of a masked row and no copy of any other row |
| Seqs.FilterMembership | glue_genomics_viewers/data.py:289 | A row is in the masked result exactly when it is in the input and the mask holds for it |
| Seqs.FilterCongruent | glue_genomics_viewers/data.py:289 | Masks that agree on every row select the same rows |
| Subsets.Zip3 | glue_genomics_viewers/data.py:284 | `zip` of the three lists has the shortest list's length, and entry `i` is the `i`th of each list |
| Subsets.AnyUnskipped | glue_genomics_viewers/data.py:283-288 | The or-accumulated mask holds exactly when some range not skipped by the window check contains the row |
| Subsets.QueryWindow | glue_genomics_viewers/data.py:267-271 | The query chromosome is `chr` followed by the caller's name |
| Subsets.QueryChromIsNotJunk | glue_genomics_viewers/data.py:267-283 | No query window's chromosome equals the mask's seed name `junk` |
| Subsets.CoverageFilter | glue_genomics_viewers/data.py:272-292 | No subset returns every row, and an unknown subset returns none. A range keeps only records inside it, endpoints included. A range list keeps only the `junk` records and the records inside an unskipped range. The result is always a subsequence of the query result |
| Subsets.CoverageFilterMembers | glue_genomics_viewers/data.py:275-289 | A record is kept by a range exactly when it is inside the range, and by a range list exactly when it is a `junk` record or inside an unskipped range |
| Subsets.CoverageSkipIsHarmless | glue_genomics_viewers/data.py:283-289 | When every returned record lies on the query window's chromosome and overlaps it, the multi-range filter keeps exactly the records inside some range: neither the skipped ranges nor the `junk` seed change the result |
| Subsets.LoopFilter | glue_genomics_viewers/data.py:303-337 | The same four cases for loops, where a loop counts as inside a range when either anchor is inside it; this is the corrected multi-range branch |
| Subsets.LoopFilterMembers | glue_genomics_viewers/data.py:304-333 | A loop is kept by a range exactly when an anchor is inside the range, and by a range list exactly when its first chromosome is `junk` or an anchor is inside an unskipped range |
| Subsets.LoopSkipIsHarmless | glue_genomics_viewers/data.py:319-333 | When both anchors of every returned loop lie on the query window's chromosome and overlap it, the corrected filter keeps exactly the loops with an anchor in some range: neither the skipped ranges nor the `junk` seed change the result |
| Subsets.LoopFilterAsWritten | glue_genomics_viewers/data.py:318-333 | The source's multi-range branch raises `NameError` exactly when the zipped list is non-empty. With an empty list it keeps only the loops whose first chromosome is `junk` |
| Subsets.LoopFilterAsWrittenAgrees | glue_genomics_viewers/data.py:299-337 | Wherever the source's filtering returns, it agrees with the corrected one for any window |
| Subsets.AsWrittenRaises | glue_genomics_viewers/data.py:318-321 | One range and one loop inside it: the source raises where the corrected filter keeps the loop |
| Subsets.CoverageProfile | glue_genomics_viewers/data.py:265-292 | The profile is a subsequence of what the query read from the level selected for 1000 samples |
| Subsets.CoverageProfileSubsets | glue_genomics_viewers/data.py:275-292 | A range subset narrows the unfiltered profile to the records inside the range. An unknown subset yields nothing |
| Subsets.LoopRows | glue_genomics_viewers/data.py:299-300 | The rows `BedPeData.profile` receives are one level's read. They are within budget unless they come from the coarsest level |
| Subsets.LoopProfile | glue_genomics_viewers/data.py:299-337 | The loop profile is a subsequence of those rows |
| Subsets.LoopProfileAsWritten | glue_genomics_viewers/data.py:298-337 | `BedPeData.profile` as written raises `NameError` exactly for a range list holding a range. Otherwise it returns the corrected profile |
| Subsets.LoopProfileSubsets | glue_genomics_viewers/data.py:304-337 | A range subset narrows the unfiltered loop profile to the loops with an anchor in the range. An unknown subset yields nothing |

## Left out

- Reading and writing files, `bgzip`, `tabix` and `pairix` are left out. A level's content is a sequence of records. A range read is a function parameter `store(path, window)` or `rows(level)`.
- The "already indexed" shortcut (lines 49-52 and 160-163) is left out, because it only skips recomputing levels that exist.
- `pd.to_numeric(errors='ignore')` is left out. Records are typed from the start, and CSV text and column coercion are not modelled.
- Floating point is modelled as exact `real` arithmetic. Float `-inf` is the `NegInf` case of the running maximum.
- Coverage.Decimate: requires `step > 0`. Every caller passes `10 ** (i + 1)`, and the tail flush divides by the bucket width `step`.
- Pyramid.SelectLevel: requires `samples > 0` and `factor >= 1`. The only values used are 1000 and 10; a zero `samples` divides by zero in the source.
- Loops.DecimateLoops: requires `res > 0`. The only resolutions used are `10 ** (i + 1)`, and the source floor-divides by the resolution.
- Subsets.LoopProfile: applies the corrected multi-range branch, the window check of `BedgraphData.profile`. For a range list holding a range, the code at line 321 raises `NameError` instead. `Subsets.LoopProfileAsWritten` models that behaviour.
- Loops.SortLoops: loops with equal `(chrom1, chrom2, start1, start2)` stay in the order `MergeGroups` produced them, first appearance of their bin. pandas' `groupby` sorts its groups by bin key `(a, b)` and the multi-column `sort_values` is a stable lexsort, so pandas leaves such ties in bin-key order. The model does not reproduce that tie order.
- Loops.BuildLoopLevels: models the validation and level chain of `BedPe.index`. In the code, line 159 calls `os.mkdirs` and `self.path.dirname`, which do not exist, so that method raises before any of this runs.
- The raw file's compressed copy is written next to the input (lines 55 and 172). The query for the raw data reads it from `.glue_index` (lines 89-90). `Pyramid.QueryPath` gives the path the query reads; whether that file exists is not modelled.
- `BedGraph.index` names its input columns `chr, stop, start, value` (line 54). The model ignores this, because the decimation unpacks each row by position.
- `int(start)` and `int(end)` in `profile` are left out. The window bounds are integers from the start.
- `BedPe.query`'s `verbose` flag and logging only print, so they are left out.
- `BedPe._level_path` (lines 216-222) is the same code as `BedGraph._level_path`, and both use `Pyramid.LevelPath`.
- `GenomicRangeSubsetState.copy` and glue's `SubsetState` machinery are left out, because only the subset's fields matter here.
- The viewers, layer artists, heatmap, network and demo modules are not part of this model.

## Findings

| source | as written | input that shows it | evidently intended | confidence | as-written member | corrected member |
|---|---|---|---|---|---|---|
| glue_genomics_viewers/data.py:318-333 | The multi-range branch of `BedPeData.profile` tests each range against `query_chrom`, `query_start` and `query_end`, but that method never assigns them. The first range raises `NameError` | `MultiRangeSubset(["chr1"], [0], [100])` with any loops | The window check of `BedgraphData.profile`, against the queried window `chr<chr>:start-end` | high; not executed | Subsets.LoopFilterAsWritten (shown by Subsets.AsWrittenRaises) | Subsets.LoopFilter |
