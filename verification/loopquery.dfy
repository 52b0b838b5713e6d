/** `BedPe.query`: read one explicit level, or search the levels from the
    most downsampled (`depth - 1`) towards level 0 for a row-count budget.
    The indexed store is abstracted to `rows(level)`, the rows a range read
    of that level returns. */
module LoopQuery {
  import opened Results

  /** With `depth == 0` the search loop never runs and the final `return df`
      reads an unbound local. */
  datatype QueryError = UnboundLocal

  /** The most downsampled level below `k` whose row count exceeds `target`. */
  function LargestOver<T>(rows: int -> seq<T>, target: int, k: nat): (r: Option<nat>)
    ensures r.Some? ==> r.value < k && |rows(r.value)| > target
    ensures r.Some? ==> forall j :: r.value < j < k ==> |rows(j)| <= target
    ensures r.None? <==> forall j :: 0 <= j < k ==> |rows(j)| <= target
  {
    if k == 0 then None
    else if |rows(k - 1)| > target then Some(k - 1)
    else LargestOver(rows, target, k - 1)
  }

  /** The level whose rows the budget search returns, defined from the
      first over-budget level met scanning from `depth - 1` down: the level
      scanned just before it, or itself when it was scanned first, or level
      0 when no level is over budget. Its contract pins it down uniquely:
      every coarser level is within budget; it is within budget unless it is
      the first level scanned; the next finer level is over budget whenever
      it is within budget and not level 0; and it is level 0 when no level
      is over budget. */
  function BudgetLevel<T>(rows: int -> seq<T>, target: int, depth: nat): (r: nat)
    requires depth > 0
    ensures r < depth
    ensures forall j :: r < j < depth ==> |rows(j)| <= target
    ensures |rows(r)| <= target || r == depth - 1
    ensures 0 < r && |rows(r)| <= target ==> |rows(r - 1)| > target
    ensures (forall j :: 0 <= j < depth ==> |rows(j)| <= target) ==> r == 0
  {
    match LargestOver(rows, target, depth)
    case None => 0
    case Some(k) => if k == depth - 1 then k else k + 1
  }

  /** `BedPe.query(gr, target, level)` with `rows` standing for the range
      read of each level. */
  method Query<T>(rows: int -> seq<T>, depth: nat, target: int, level: Option<int>)
    returns (res: Result<seq<T>, QueryError>)
    ensures level.Some? ==> res == Success(rows(level.value))
    ensures level.None? && depth == 0 ==> res == Failure(UnboundLocal)
    ensures level.None? && depth > 0 ==> res == Success(rows(BudgetLevel(rows, target, depth)))
  {
    if level.Some? {
      return Success(rows(level.value));
    }
    var last: Option<seq<T>> := None;
    var df: Option<seq<T>> := None;
    var l := depth;
    while l > 0
      invariant 0 <= l <= depth
      invariant forall j :: l <= j < depth ==> |rows(j)| <= target
      invariant l < depth ==> last == Some(rows(l)) && df == Some(rows(l))
      invariant l == depth ==> last.None? && df.None?
    {
      l := l - 1;
      var d := rows(l);
      df := Some(d);
      if |d| > target {
        return Success(if last.Some? then last.value else d);
      }
      last := Some(d);
    }
    if df.None? {
      return Failure(UnboundLocal);
    }
    return Success(df.value);
  }

  /** Row counts 900, 150, 40, 5 at levels 0..3 with target 100: levels 3
      and 2 fit, level 1 is over budget, so level 2's 40 rows come back. */
  lemma BudgetExample()
    ensures var rows := (l: int) => seq(if l == 0 then 900 else if l == 1 then 150 else if l == 2 then 40 else 5,
                                        (i: int) => 0);
            BudgetLevel(rows, 100, 4) == 2 && |rows(BudgetLevel(rows, 100, 4))| == 40
  {
    var rows := (l: int) => seq(if l == 0 then 900 else if l == 1 then 150 else if l == 2 then 40 else 5,
                                (i: int) => 0);
    assert |rows(1)| == 150 && |rows(2)| == 40 && |rows(3)| == 5;
  }
}
