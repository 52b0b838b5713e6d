/** The loop pyramid: `BedPe.decimate_loops`, the row order every level is
    kept in, and `BedPe.index`'s validation and level chain. */
module Loops {
  import opened Results
  import opened Genome
  import Seqs
  import Pyramid

  // ---------------------------------------------------------------------
  // The sort key (chrom1, chrom2, start1, start2)

  /** Python's `<=` on strings: lexicographic by code point. */
  predicate StrLe(a: string, b: string)
    decreases |a|
  {
    a == [] || (b != [] && (a[0] < b[0] || (a[0] == b[0] && StrLe(a[1..], b[1..]))))
  }

  lemma {:induction false} StrLeTotal(a: string, b: string)
    ensures StrLe(a, b) || StrLe(b, a)
    decreases |a|
  {
    if a != [] && b != [] && a[0] == b[0] {
      StrLeTotal(a[1..], b[1..]);
    }
  }

  lemma {:induction false} StrLeAntisymmetric(a: string, b: string)
    requires StrLe(a, b) && StrLe(b, a)
    ensures a == b
    decreases |a|
  {
    if a != [] {
      StrLeAntisymmetric(a[1..], b[1..]);
      assert a == [a[0]] + a[1..] && b == [b[0]] + b[1..];
    }
  }

  lemma {:induction false} StrLeTransitive(a: string, b: string, c: string)
    requires StrLe(a, b) && StrLe(b, c)
    ensures StrLe(a, c)
    decreases |a|
  {
    if a != [] && a[0] == b[0] && b[0] == c[0] {
      StrLeTransitive(a[1..], b[1..], c[1..]);
    }
  }

  /** `x` sorts no later than `y` under `sort_values(['chrom1', 'chrom2',
      'start1', 'start2'])`. */
  predicate KeyLe(x: Loop, y: Loop)
  {
    if x.chrom1 != y.chrom1 then StrLe(x.chrom1, y.chrom1)
    else if x.chrom2 != y.chrom2 then StrLe(x.chrom2, y.chrom2)
    else if x.start1 != y.start1 then x.start1 < y.start1
    else x.start2 <= y.start2
  }

  lemma KeyLeTotal(x: Loop, y: Loop)
    ensures KeyLe(x, y) || KeyLe(y, x)
  {
    StrLeTotal(x.chrom1, y.chrom1);
    StrLeTotal(x.chrom2, y.chrom2);
  }

  lemma KeyLeTransitive(x: Loop, y: Loop, z: Loop)
    requires KeyLe(x, y) && KeyLe(y, z)
    ensures KeyLe(x, z)
  {
    if x.chrom1 != y.chrom1 || y.chrom1 != z.chrom1 {
      if x.chrom1 == z.chrom1 {
        StrLeAntisymmetric(x.chrom1, y.chrom1);
      } else if x.chrom1 == y.chrom1 || y.chrom1 == z.chrom1 {
      } else {
        StrLeTransitive(x.chrom1, y.chrom1, z.chrom1);
      }
    } else if x.chrom2 != y.chrom2 || y.chrom2 != z.chrom2 {
      if x.chrom2 == z.chrom2 {
        StrLeAntisymmetric(x.chrom2, y.chrom2);
      } else if x.chrom2 == y.chrom2 || y.chrom2 == z.chrom2 {
      } else {
        StrLeTransitive(x.chrom2, y.chrom2, z.chrom2);
      }
    }
  }

  /** Neighbouring rows are in key order. */
  predicate SortedByKey(s: seq<Loop>)
  {
    forall i :: 0 < i < |s| ==> KeyLe(s[i - 1], s[i])
  }

  /** Neighbour order gives order between any two rows. */
  lemma {:induction false} SortedPairwise(s: seq<Loop>)
    requires SortedByKey(s)
    ensures forall i, j :: 0 <= i < j < |s| ==> KeyLe(s[i], s[j])
  {
    forall i, j | 0 <= i < j < |s|
      ensures KeyLe(s[i], s[j])
    {
      var k := i + 1;
      while k < j
        invariant i < k <= j
        invariant KeyLe(s[i], s[k])
      {
        KeyLeTransitive(s[i], s[k], s[k + 1]);
        k := k + 1;
      }
    }
  }

  /** Insert `x` before the first row it sorts no later than. */
  function Insert(x: Loop, s: seq<Loop>): (r: seq<Loop>)
    requires SortedByKey(s)
    ensures SortedByKey(r)
    ensures multiset(r) == multiset(s) + multiset{x}
    ensures |s| > 0 ==> r[0] == x || r[0] == s[0]
    ensures |s| == 0 ==> r == [x]
  {
    if s == [] then [x]
    else if KeyLe(x, s[0]) then [x] + s
    else
      KeyLeTotal(x, s[0]);
      assert s == [s[0]] + s[1..];
      [s[0]] + Insert(x, s[1..])
  }

  /** A row of `Insert(x, s)` is `x` or a row of `s`. */
  lemma InsertMembers(x: Loop, s: seq<Loop>)
    requires SortedByKey(s)
    ensures forall y :: y in Insert(x, s) ==> y == x || y in s
  {
    var r := Insert(x, s);
    forall y | y in r
      ensures y == x || y in s
    {
      assert y in multiset(r);
    }
  }

  /** `sort_values(['chrom1', 'chrom2', 'start1', 'start2'])`: a
      rearrangement of the rows in key order. */
  function SortLoops(s: seq<Loop>): (r: seq<Loop>)
    ensures SortedByKey(r)
    ensures multiset(r) == multiset(s)
    ensures |r| == |s|
  {
    if s == [] then []
    else
      assert s == [s[0]] + s[1..];
      Insert(s[0], SortLoops(s[1..]))
  }

  /** Sorting neither adds nor loses a row. */
  lemma SortLoopsMembers(s: seq<Loop>)
    ensures forall x :: x in SortLoops(s) <==> x in s
  {
    var r := SortLoops(s);
    assert forall x :: x in r <==> x in multiset(r);
    assert forall x :: x in s <==> x in multiset(s);
  }

  // ---------------------------------------------------------------------
  // Values

  /** `df.value.sum()`. */
  function SumValues(s: seq<Loop>): real
  {
    if s == [] then 0.0 else s[0].value + SumValues(s[1..])
  }

  lemma {:induction false} InsertSum(x: Loop, s: seq<Loop>)
    requires SortedByKey(s)
    ensures SumValues(Insert(x, s)) == x.value + SumValues(s)
  {
    if s != [] && !KeyLe(x, s[0]) {
      InsertSum(x, s[1..]);
    }
  }

  /** Sorting leaves the total value unchanged. */
  lemma {:induction false} SortSum(s: seq<Loop>)
    ensures SumValues(SortLoops(s)) == SumValues(s)
  {
    if s != [] {
      SortSum(s[1..]);
      InsertSum(s[0], SortLoops(s[1..]));
    }
  }

  // ---------------------------------------------------------------------
  // Extent filter and bins

  /** `end2 - start1`: the span of a loop from its first anchor's start to
      its second anchor's end. */
  function Extent(l: Loop): int
  {
    l.end2 - l.start1
  }

  /** `df[extent >= resolution]`. */
  function Kept(rows: seq<Loop>, res: int): (r: seq<Loop>)
    ensures forall x :: x in r ==> x in rows && Extent(x) >= res
    ensures forall x :: x in rows && Extent(x) >= res ==> x in r
    ensures Seqs.IsSubseq(r, rows)
    ensures |r| <= |rows|
  {
    var p := (l: Loop) => Extent(l) >= res;
    Seqs.FilterMembership(rows, p);
    Seqs.Filter(rows, p)
  }

  /** The extent filter keeps every copy of a long enough loop and no copy
      of a shorter one. */
  lemma KeptCounts(rows: seq<Loop>, res: int)
    ensures forall x :: multiset(Kept(rows, res))[x] == if Extent(x) >= res then multiset(rows)[x] else 0
  {
    Seqs.FilterCounts(rows, (l: Loop) => Extent(l) >= res);
  }

  /** The group key `(a, b)` of a loop. */
  datatype BinKey = BinKey(a: int, b: int)

  /** The coordinates a loop is grouped by; the value and the chromosomes
      play no part in the grouping. */
  datatype Anchors = Anchors(start1: int, end1: int, start2: int, end2: int)

  /** The group key of `l` under the key function `key`. */
  function KeyOf(key: Anchors -> BinKey, l: Loop): BinKey
  {
    key(Anchors(l.start1, l.end1, l.start2, l.end2))
  }

  /** `x.value.sum()` over the group of rows whose key is `k`. */
  function GroupSum(rows: seq<Loop>, k: BinKey, key: Anchors -> BinKey): real
  {
    if rows == [] then 0.0
    else (if KeyOf(key, rows[0]) == k then rows[0].value else 0.0) + GroupSum(rows[1..], k, key)
  }

  /** `x.head(1)` of the group with key `k`: its first row in input order. */
  function FirstInGroup(rows: seq<Loop>, k: BinKey, key: Anchors -> BinKey): (r: Option<Loop>)
    ensures r.Some? ==> r.value in rows && KeyOf(key, r.value) == k
  {
    if rows == [] then None
    else if KeyOf(key, rows[0]) == k then Some(rows[0])
    else FirstInGroup(rows[1..], k, key)
  }

  /** Group `k` has a first row exactly when some row has key `k`. */
  lemma {:induction false} FirstInGroupFindsGroup(rows: seq<Loop>, k: BinKey, key: Anchors -> BinKey)
    ensures FirstInGroup(rows, k, key).None? <==> forall x :: x in rows ==> KeyOf(key, x) != k
  {
    if rows != [] {
      FirstInGroupFindsGroup(rows[1..], k, key);
      assert rows == [rows[0]] + rows[1..];
    }
  }

  /** The row the group `k` collapses to: its first row with its value
      replaced by the group's sum. */
  function Representative(rows: seq<Loop>, k: BinKey, key: Anchors -> BinKey): Loop
    requires FirstInGroup(rows, k, key).Some?
  {
    FirstInGroup(rows, k, key).value.(value := GroupSum(rows, k, key))
  }

  /** The rows outside group `k`, in order. */
  function DropGroup(rows: seq<Loop>, k: BinKey, key: Anchors -> BinKey): (r: seq<Loop>)
    ensures |r| <= |rows|
    ensures forall i :: 0 <= i < |r| ==> KeyOf(key, r[i]) != k
  {
    if rows == [] then []
    else if KeyOf(key, rows[0]) == k then DropGroup(rows[1..], k, key)
    else [rows[0]] + DropGroup(rows[1..], k, key)
  }

  /** A row survives `DropGroup` exactly when it is outside group `k`. */
  lemma {:induction false} DropGroupMembers(rows: seq<Loop>, k: BinKey, key: Anchors -> BinKey)
    ensures forall x :: x in DropGroup(rows, k, key) <==> x in rows && KeyOf(key, x) != k
  {
    if rows != [] {
      DropGroupMembers(rows[1..], k, key);
      assert rows == [rows[0]] + rows[1..];
    }
  }

  lemma {:induction false} DropGroupKeepsOtherGroups(rows: seq<Loop>, k: BinKey, k': BinKey, key: Anchors -> BinKey)
    requires k != k'
    ensures FirstInGroup(DropGroup(rows, k, key), k', key) == FirstInGroup(rows, k', key)
    ensures GroupSum(DropGroup(rows, k, key), k', key) == GroupSum(rows, k', key)
  {
    if rows != [] {
      DropGroupKeepsOtherGroups(rows[1..], k, k', key);
      if KeyOf(key, rows[0]) != k {
        assert ([rows[0]] + DropGroup(rows[1..], k, key))[1..] == DropGroup(rows[1..], k, key);
      }
    }
  }

  /** A sequence's total is its group `k` total plus the total outside it. */
  lemma {:induction false} SumSplitsByGroup(rows: seq<Loop>, k: BinKey, key: Anchors -> BinKey)
    ensures SumValues(rows) == GroupSum(rows, k, key) + SumValues(DropGroup(rows, k, key))
  {
    if rows != [] {
      SumSplitsByGroup(rows[1..], k, key);
      if KeyOf(key, rows[0]) != k {
        assert ([rows[0]] + DropGroup(rows[1..], k, key))[1..] == DropGroup(rows[1..], k, key);
      }
    }
  }

  /** No two rows share a key. */
  predicate DistinctKeys(s: seq<Loop>, key: Anchors -> BinKey)
  {
    forall i, j :: 0 <= i < j < |s| ==> KeyOf(key, s[i]) != KeyOf(key, s[j])
  }

  /** Rows keyed outside the first row's group see the same first row and
      the same group sum in `rows` as in the rows left after dropping that
      group. */
  lemma OtherGroupsUnchanged(rows: seq<Loop>, key: Anchors -> BinKey, merged: seq<Loop>)
    requires rows != []
    requires forall o :: o in merged ==>
               FirstInGroup(DropGroup(rows[1..], KeyOf(key, rows[0]), key), KeyOf(key, o), key).Some?
    ensures forall o :: o in merged ==>
              && KeyOf(key, o) != KeyOf(key, rows[0])
              && FirstInGroup(rows, KeyOf(key, o), key)
                 == FirstInGroup(DropGroup(rows[1..], KeyOf(key, rows[0]), key), KeyOf(key, o), key)
              && GroupSum(rows, KeyOf(key, o), key)
                 == GroupSum(DropGroup(rows[1..], KeyOf(key, rows[0]), key), KeyOf(key, o), key)
  {
    var k := KeyOf(key, rows[0]);
    var others := DropGroup(rows[1..], k, key);
    forall o | o in merged
      ensures KeyOf(key, o) != k
      ensures FirstInGroup(rows, KeyOf(key, o), key) == FirstInGroup(others, KeyOf(key, o), key)
      ensures GroupSum(rows, KeyOf(key, o), key) == GroupSum(others, KeyOf(key, o), key)
    {
      DropGroupMembers(rows[1..], k, key);
      assert FirstInGroup(others, KeyOf(key, o), key).value in others;
      DropGroupKeepsOtherGroups(rows[1..], k, KeyOf(key, o), key);
    }
  }

  /** `groupby(key).apply(lambda x: x.head(1).assign(value=x.value.sum()))`,
      one row per group: every row is the representative of its own group
      and no key occurs twice. The groups come in order of first appearance
      here; pandas orders them by key, which only the order of rows that
      tie under `SortLoops`'s key can tell apart. */
  function MergeGroups(rows: seq<Loop>, key: Anchors -> BinKey): (r: seq<Loop>)
    ensures |r| <= |rows|
    ensures DistinctKeys(r, key)
    ensures forall o :: o in r ==>
              FirstInGroup(rows, KeyOf(key, o), key).Some? && o == Representative(rows, KeyOf(key, o), key)
    decreases |rows|
  {
    if rows == [] then []
    else
      var k := KeyOf(key, rows[0]);
      var others := DropGroup(rows[1..], k, key);
      var merged := MergeGroups(others, key);
      OtherGroupsUnchanged(rows, key, merged);
      var head := rows[0].(value := GroupSum(rows, k, key));
      assert forall i :: 0 < i < |merged| + 1 ==> ([head] + merged)[i] == merged[i - 1];
      [rows[0].(value := GroupSum(rows, k, key))] + merged
  }

  /** Every key present in the input has a row in the merge. */
  lemma {:induction false} MergeGroupsCoversKeys(rows: seq<Loop>, key: Anchors -> BinKey)
    ensures forall x :: x in rows ==> exists o :: o in MergeGroups(rows, key) && KeyOf(key, o) == KeyOf(key, x)
    decreases |rows|
  {
    if rows != [] {
      var k := KeyOf(key, rows[0]);
      var others := DropGroup(rows[1..], k, key);
      MergeGroupsCoversKeys(others, key);
      var r := MergeGroups(rows, key);
      assert r == [rows[0].(value := GroupSum(rows, k, key))] + MergeGroups(others, key);
      assert r[0] in r && KeyOf(key, r[0]) == k;
      forall x | x in rows
        ensures exists o :: o in r && KeyOf(key, o) == KeyOf(key, x)
      {
        if KeyOf(key, x) != k {
          DropGroupMembers(rows[1..], k, key);
          assert x in others;
          var o :| o in MergeGroups(others, key) && KeyOf(key, o) == KeyOf(key, x);
          assert o in r;
        }
      }
    }
  }

  /** Merging moves value between rows of a group but never creates or loses any. */
  lemma {:induction false} MergeGroupsConservesValue(rows: seq<Loop>, key: Anchors -> BinKey)
    ensures SumValues(MergeGroups(rows, key)) == SumValues(rows)
    decreases |rows|
  {
    if rows != [] {
      var k := KeyOf(key, rows[0]);
      var others := DropGroup(rows[1..], k, key);
      MergeGroupsConservesValue(others, key);
      SumSplitsByGroup(rows[1..], k, key);
      var r := MergeGroups(rows, key);
      assert r[1..] == MergeGroups(others, key);
    }
  }

  lemma {:induction false} InsertKeepsDistinctKeys(x: Loop, s: seq<Loop>, key: Anchors -> BinKey)
    requires SortedByKey(s) && DistinctKeys(s, key)
    requires forall y :: y in s ==> KeyOf(key, y) != KeyOf(key, x)
    ensures DistinctKeys(Insert(x, s), key)
  {
    if s != [] && !KeyLe(x, s[0]) {
      var t := Insert(x, s[1..]);
      assert DistinctKeys(s[1..], key) by {
        forall i, j | 0 <= i < j < |s[1..]|
          ensures KeyOf(key, s[1..][i]) != KeyOf(key, s[1..][j])
        {
          assert s[1..][i] == s[i + 1] && s[1..][j] == s[j + 1];
        }
      }
      InsertKeepsDistinctKeys(x, s[1..], key);
      InsertMembers(x, s[1..]);
      forall y | y in t
        ensures KeyOf(key, y) != KeyOf(key, s[0])
      {
        if y != x {
          var j :| 0 <= j < |s[1..]| && s[1..][j] == y;
          assert s[j + 1] == y;
        } else {
          assert s[0] in s;
        }
      }
      var r := Insert(x, s);
      assert r == [s[0]] + t;
      forall i, j | 0 <= i < j < |r|
        ensures KeyOf(key, r[i]) != KeyOf(key, r[j])
      {
        if i == 0 {
          assert r[j] == t[j - 1];
        } else {
          assert r[i] == t[i - 1] && r[j] == t[j - 1];
        }
      }
    }
  }

  /** Sorting keeps the keys distinct. */
  lemma {:induction false} SortKeepsDistinctKeys(s: seq<Loop>, key: Anchors -> BinKey)
    requires DistinctKeys(s, key)
    ensures DistinctKeys(SortLoops(s), key)
  {
    if s != [] {
      assert DistinctKeys(s[1..], key) by {
        forall i, j | 0 <= i < j < |s[1..]|
          ensures KeyOf(key, s[1..][i]) != KeyOf(key, s[1..][j])
        {
          assert s[1..][i] == s[i + 1] && s[1..][j] == s[j + 1];
        }
      }
      SortKeepsDistinctKeys(s[1..], key);
      SortLoopsMembers(s[1..]);
      forall y | y in SortLoops(s[1..])
        ensures KeyOf(key, y) != KeyOf(key, s[0])
      {
        var j :| 0 <= j < |s[1..]| && s[1..][j] == y;
        assert s[j + 1] == y;
      }
      InsertKeepsDistinctKeys(s[0], SortLoops(s[1..]), key);
    }
  }

  // ---------------------------------------------------------------------
  // decimate_loops

  /** `a = ((end1 + start1) // 2) // resolution`, `b` likewise for the
      second anchor. */
  function Bin(c: Anchors, res: int): BinKey
    requires res > 0
  {
    BinKey(FloorDiv(FloorDiv(c.end1 + c.start1, 2), res), FloorDiv(FloorDiv(c.end2 + c.start2, 2), res))
  }

  /** The key of a loop is the resolution cell each anchor's midpoint falls
      in, which pins it down: `a` is the one `q` with
      `res * q <= (end1 + start1) // 2 < res * (q + 1)`, and `b` likewise. */
  lemma BinIsCell(c: Anchors, res: int)
    requires res > 0
    ensures var k := Bin(c, res);
            && res * k.a <= FloorDiv(c.end1 + c.start1, 2) < res * (k.a + 1)
            && res * k.b <= FloorDiv(c.end2 + c.start2, 2) < res * (k.b + 1)
  {
    FloorDivIsFloor(FloorDiv(c.end1 + c.start1, 2), res);
    FloorDivIsFloor(FloorDiv(c.end2 + c.start2, 2), res);
  }

  /** The midpoint bin at resolution `res`, as the key function of the grouping. */
  function BinOf(res: int): Anchors -> BinKey
    requires res > 0
  {
    (c: Anchors) => Bin(c, res)
  }

  /** `BedPe.decimate_loops(df, resolution)`: drop loops shorter than the
      resolution, keep the first loop of every midpoint bin with the bin's
      summed value, and sort by `(chrom1, chrom2, start1, start2)`. The
      grouping ignores chromosomes. */
  function DecimateLoops(rows: seq<Loop>, res: int): (r: seq<Loop>)
    requires res > 0
    ensures |r| <= |rows|
    ensures SortedByKey(r)
    ensures forall o :: o in r ==> Extent(o) >= res
    ensures DistinctKeys(r, BinOf(res))
    ensures forall o :: o in r ==>
              FirstInGroup(Kept(rows, res), KeyOf(BinOf(res), o), BinOf(res)).Some?
              && o == Representative(Kept(rows, res), KeyOf(BinOf(res), o), BinOf(res))
    ensures forall x :: x in Kept(rows, res) ==> exists o :: o in r && KeyOf(BinOf(res), o) == KeyOf(BinOf(res), x)
    ensures SumValues(r) == SumValues(Kept(rows, res))
  {
    var key := BinOf(res);
    var kept := Kept(rows, res);
    var merged := MergeGroups(kept, key);
    MergeGroupsCoversKeys(kept, key);
    MergeGroupsConservesValue(kept, key);
    SortKeepsDistinctKeys(merged, key);
    SortSum(merged);
    var r := SortLoops(merged);
    SortLoopsMembers(merged);
    assert forall x :: x in kept ==> exists o :: o in r && KeyOf(BinOf(res), o) == KeyOf(BinOf(res), x) by {
      forall x | x in kept
        ensures exists o :: o in r && KeyOf(BinOf(res), o) == KeyOf(BinOf(res), x)
      {
        var o :| o in merged && KeyOf(key, o) == KeyOf(key, x);
        assert o in r;
      }
    }
    assert forall o :: o in r ==> Extent(o) >= res by {
      forall o | o in r
        ensures Extent(o) >= res
      {
        assert FirstInGroup(kept, KeyOf(key, o), key).value in kept;
      }
    }
    r
  }

  /** The example loops of `MergeExample`: `a` and `b` share the bin
      `(0, 10)` at resolution 10, and `c` is shorter than 10. */
  function ExampleA(): Loop { Loop("chr1", 0, 10, "chr1", 100, 110, 1.0) }
  function ExampleB(): Loop { Loop("chr1", 2, 8, "chr1", 102, 108, 2.5) }
  function ExampleC(): Loop { Loop("chr1", 0, 2, "chr1", 3, 5, 9.0) }

  /** The short loop is the only one the extent filter drops. */
  lemma KeptExample()
    ensures Kept([ExampleA(), ExampleB(), ExampleC()], 10) == [ExampleA(), ExampleB()]
  {
    var a, b, c := ExampleA(), ExampleB(), ExampleC();
    assert Extent(a) >= 10 && Extent(b) >= 10 && Extent(c) < 10;
    assert [a, b, c][1..] == [b, c] && [b, c][1..] == [c] && [c][1..] == [];
    var p := (l: Loop) => Extent(l) >= 10;
    assert Seqs.Filter([c], p) == [];
    assert Seqs.Filter([b, c], p) == [b] + Seqs.Filter([c], p);
    assert Seqs.Filter([a, b, c], p) == [a] + Seqs.Filter([b, c], p);
  }

  /** Two loops in one bin merge into the first, carrying both values; the
      short loop is dropped first. */
  lemma MergeExample()
    ensures DecimateLoops([ExampleA(), ExampleB(), ExampleC()], 10) == [ExampleA().(value := 3.5)]
  {
    var a, b := ExampleA(), ExampleB();
    var key := BinOf(10);
    assert KeyOf(key, a) == BinKey(0, 10) == KeyOf(key, b);
    KeptExample();
    assert [a, b][1..] == [b] && [b][1..] == [];
    assert DropGroup([b], BinKey(0, 10), key) == [];
    assert GroupSum([b], BinKey(0, 10), key) == 2.5;
    assert GroupSum([a, b], BinKey(0, 10), key) == 3.5;
    assert MergeGroups([a, b], key) == [a.(value := 3.5)];
  }

  // ---------------------------------------------------------------------
  // Building the loop pyramid

  /** `BedPe.index` raises `AssertionError` before writing anything when a
      loop's anchors overlap or it spans two chromosomes. */
  datatype BuildError = InvariantViolation

  /** The two assertions of `BedPe.index`: `start2 >= end1` and
      `chrom1 == chrom2`. */
  predicate WellFormed(l: Loop)
  {
    l.start2 >= l.end1 && l.chrom1 == l.chrom2
  }

  /** Sort the raw loops, then check every one is well formed. */
  function PrepareLoops(raw: seq<Loop>): (r: Result<seq<Loop>, BuildError>)
    ensures r.Success? <==> forall i :: 0 <= i < |raw| ==> WellFormed(raw[i])
    ensures r.Success? ==> SortedByKey(r.value) && multiset(r.value) == multiset(raw)
  {
    var sorted := SortLoops(raw);
    SortLoopsMembers(raw);
    if forall l | l in sorted :: WellFormed(l) then Success(sorted)
    else Failure(InvariantViolation)
  }

  /** `BedPe.index` without the file I/O: validate, then level 0 decimates
      the sorted loops with resolution `factor` and level `i` decimates level
      `i - 1` with resolution `factor ** (i + 1)`; no level is ever larger
      than the one it came from. */
  method BuildLoopLevels(raw: seq<Loop>, factor: int, depth: nat)
    returns (res: Result<seq<seq<Loop>>, BuildError>)
    requires factor >= 1
    ensures res.Failure? <==> exists i :: 0 <= i < |raw| && !WellFormed(raw[i])
    ensures res.Success? ==> |res.value| == depth
    ensures res.Success? && depth > 0 ==>
              res.value[0] == DecimateLoops(SortLoops(raw), Pyramid.LevelFactor(factor, 0))
    ensures res.Success? ==> forall i :: 0 < i < depth ==>
              res.value[i] == DecimateLoops(res.value[i - 1], Pyramid.LevelFactor(factor, i))
    ensures res.Success? ==> forall i :: 0 < i < depth ==> |res.value[i]| <= |res.value[i - 1]|
  {
    var prepared := PrepareLoops(raw);
    if prepared.Failure? {
      return Failure(prepared.error);
    }
    var levels := Pyramid.BuildChain(prepared.value,
                                     (df: seq<Loop>, i: nat) => DecimateLoops(df, Pyramid.LevelFactor(factor, i)),
                                     depth);
    return Success(levels);
  }
}
