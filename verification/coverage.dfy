/** `BedGraph.decimate`: a one-pass streaming fold that merges coverage
    records into buckets of `step` positions.

    The generator is modelled as an explicit left fold (`Run`) over the
    records after the first, carrying the bucket state `Bucket`, followed by
    the tail flush (`Tail`). The quirks of the source are kept:
    the first record is read and dropped; the running maximum is not reset
    when a flushed bucket is followed by a new one; a mid-stream flush is
    tagged with the incoming record's chromosome; and the tail flush emits
    the maximum divided by the bucket width while every other emission
    point emits a maximum. */
module Coverage {
  import opened Results
  import opened Genome

  /** The running maximum, which the source seeds with float `-inf`. */
  datatype Ext = NegInf | Fin(v: real)

  /** Python's `max(m, x)` where `m` may be `-inf`. */
  function MaxWith(m: Ext, x: real): (r: real)
    ensures r >= x
    ensures m.Fin? ==> r >= m.v && (r == m.v || r == x)
    ensures m.NegInf? ==> r == x
  {
    match m
    case NegInf => x
    case Fin(v) => if v >= x then v else x
  }

  /** The generator's local variables between two records: the chromosome
      of the last record read, the open bucket `[lo, hi)` (`lo` is `None`
      once a bucket was closed or a record passed through), the summed
      mass and the running maximum. */
  datatype Bucket = Bucket(chrom: Chrom, lo: Option<int>, hi: int, sum: real, max: Ext)

  /** What holds of the state between any two records: an open bucket is
      `step` wide, and accumulated positive mass implies an open bucket
      with a finite maximum. */
  predicate Valid(st: Bucket, step: int)
  {
    && step > 0
    && (st.lo.Some? ==> st.hi == st.lo.value + step)
    && (st.sum > 0.0 ==> st.lo.Some? && st.max.Fin?)
  }

  /** `value * (stop - start)`: the contribution of one record to the sum. */
  function Mass(r: Rec): real
  {
    r.value * (r.stop - r.start) as real
  }

  /** The state after the first record was read: bucket `[0, step)`,
      nothing accumulated, maximum `-inf`. */
  function Init(chrom: Chrom, step: int): (st: Bucket)
    requires step > 0
    ensures Valid(st, step)
  {
    Bucket(chrom, Some(0), step, 0.0, NegInf)
  }

  /** The state after a bucket was closed or a record passed through. */
  function Closed(chrom: Chrom, hi: int): Bucket
  {
    Bucket(chrom, None, hi, 0.0, NegInf)
  }

  /** One iteration of the generator's loop: the next state and the records
      yielded while reading `r`. */
  function Step(st: Bucket, r: Rec, step: int): (res: (Bucket, seq<Rec>))
    requires Valid(st, step)
    ensures Valid(res.0, step)
    ensures res.0.chrom == r.chrom
    ensures |res.1| <= 2
    ensures forall o :: o in res.1 ==> o.start < o.stop
  {
    if st.lo.None? || r.start >= st.hi then
      // a new bucket starts: flush the pending one, if it holds positive mass
      var flushed := if st.sum > 0.0 then [Rec(r.chrom, st.lo.value, st.hi, st.max.v)] else [];
      if r.stop - r.start > step then
        (Closed(r.chrom, st.hi), flushed + [r])
      else
        (Bucket(r.chrom, Some(r.start), r.start + step, Mass(r), Fin(MaxWith(st.max, r.value))), flushed)
    else if r.stop > st.hi then
      // the record straddles the bucket end: close the bucket at `stop`
      (Closed(r.chrom, st.hi), [Rec(r.chrom, st.lo.value, r.stop, MaxWith(st.max, r.value))])
    else
      (Bucket(r.chrom, st.lo, st.hi, st.sum + Mass(r), Fin(MaxWith(st.max, r.value))), [])
  }

  /** The loop over the remaining records: final state and everything yielded. */
  function Run(st: Bucket, rs: seq<Rec>, step: int): (res: (Bucket, seq<Rec>))
    requires Valid(st, step)
    ensures Valid(res.0, step)
    decreases |rs|
  {
    if rs == [] then (st, [])
    else
      var first := Step(st, rs[0], step);
      var rest := Run(first.0, rs[1..], step);
      (rest.0, first.1 + rest.1)
  }

  /** The flush after the loop: the pending bucket, if it holds positive
      mass, with value `current_max / (hi - lo)`. */
  function Tail(st: Bucket, step: int): (r: seq<Rec>)
    requires Valid(st, step)
    ensures |r| <= 1
    ensures |r| == 1 <==> st.sum > 0.0
  {
    if st.sum > 0.0 then
      [Rec(st.chrom, st.lo.value, st.hi, st.max.v / (st.hi - st.lo.value) as real)]
    else []
  }

  /** The state once every record of `recs` was read. */
  function StateAfter(recs: seq<Rec>, step: int): (st: Bucket)
    requires |recs| >= 1 && step > 0
    ensures Valid(st, step)
  {
    Run(Init(recs[0].chrom, step), recs[1..], step).0
  }

  /** Everything yielded while reading `recs`, before the tail flush. */
  function Emitted(recs: seq<Rec>, step: int): seq<Rec>
    requires |recs| >= 1 && step > 0
  {
    Run(Init(recs[0].chrom, step), recs[1..], step).1
  }

  /** `BedGraph.decimate(intervals, step)`, fully consumed. */
  function Decimate(recs: seq<Rec>, step: int): (r: seq<Rec>)
    requires step > 0
    ensures |recs| <= 1 ==> r == []
    ensures |recs| >= 1 ==> r == Emitted(recs, step) + Tail(StateAfter(recs, step), step)
  {
    if |recs| == 0 then []
    else
      var res := Run(Init(recs[0].chrom, step), recs[1..], step);
      res.1 + Tail(res.0, step)
  }

  // ---------------------------------------------------------------------
  // Streaming structure

  /** Reading one more record extends what was yielded and moves the state
      by exactly one loop iteration: the generator never retracts output. */
  lemma {:induction false} RunSnoc(st: Bucket, rs: seq<Rec>, r: Rec, step: int)
    requires Valid(st, step)
    ensures var before := Run(st, rs, step);
            var one := Step(before.0, r, step);
            Run(st, rs + [r], step) == (one.0, before.1 + one.1)
    decreases |rs|
  {
    if rs == [] {
      assert rs + [r] == [r];
      assert [r][1..] == [];
      var one := Step(st, r, step);
      assert one.1 + [] == one.1 && [] + one.1 == one.1;
    } else {
      var first := Step(st, rs[0], step);
      assert (rs + [r])[0] == rs[0];
      assert (rs + [r])[1..] == rs[1..] + [r];
      RunSnoc(first.0, rs[1..], r, step);
      var before := Run(first.0, rs[1..], step);
      var one := Step(before.0, r, step);
      assert first.1 + (before.1 + one.1) == (first.1 + before.1) + one.1;
    }
  }

  /** Reading `r` after `recs` is one loop iteration from `StateAfter(recs)`. */
  lemma Feed(recs: seq<Rec>, r: Rec, step: int)
    requires |recs| >= 1 && step > 0
    ensures StateAfter(recs + [r], step) == Step(StateAfter(recs, step), r, step).0
    ensures Emitted(recs + [r], step) == Emitted(recs, step) + Step(StateAfter(recs, step), r, step).1
  {
    assert (recs + [r])[0] == recs[0];
    assert (recs + [r])[1..] == recs[1..] + [r];
    RunSnoc(Init(recs[0].chrom, step), recs[1..], r, step);
  }

  /** The yielded prefix of a longer input extends the yielded prefix of a
      shorter one. */
  lemma {:induction false} EmittedIsPrefixStable(recs: seq<Rec>, more: seq<Rec>, step: int)
    requires |recs| >= 1 && step > 0
    ensures Emitted(recs, step) <= Emitted(recs + more, step)
    decreases |more|
  {
    if more == [] {
      assert recs + more == recs;
    } else {
      var front := more[..|more| - 1];
      var last := more[|more| - 1];
      assert more == front + [last];
      assert recs + more == (recs + front) + [last];
      EmittedIsPrefixStable(recs, front, step);
      Feed(recs + front, last, step);
    }
  }

  /** The chromosome the tail flush is tagged with is the last record's. */
  lemma StateAfterChrom(recs: seq<Rec>, step: int)
    requires |recs| >= 1 && step > 0
    ensures StateAfter(recs, step).chrom == recs[|recs| - 1].chrom
  {
    if |recs| > 1 {
      var front := recs[..|recs| - 1];
      assert recs == front + [recs[|recs| - 1]];
      Feed(front, recs[|recs| - 1], step);
    }
  }

  // ---------------------------------------------------------------------
  // The four branches and the tail, stated on the whole stream

  /** A record arriving with no open bucket, or at or past the bucket end,
      that spans more than `step`: the pending bucket is flushed (only if
      its sum is positive, tagged with the incoming chromosome), the record
      is yielded unchanged, and the state is closed with maximum `-inf`. */
  lemma PassThrough(recs: seq<Rec>, r: Rec, step: int)
    requires |recs| >= 1 && step > 0
    requires StateAfter(recs, step).lo.None? || r.start >= StateAfter(recs, step).hi
    requires r.stop - r.start > step
    ensures var st := StateAfter(recs, step);
            && Emitted(recs + [r], step)
               == Emitted(recs, step)
                  + (if st.sum > 0.0 then [Rec(r.chrom, st.lo.value, st.hi, st.max.v)] else [])
                  + [r]
            && StateAfter(recs + [r], step).lo.None?
            && StateAfter(recs + [r], step).sum == 0.0
            && StateAfter(recs + [r], step).max == NegInf
  {
    Feed(recs, r, step);
  }

  /** A record arriving with no open bucket, or at or past the bucket end,
      that spans at most `step`: the pending bucket is flushed as above and
      a new bucket `[start, start + step)` opens holding this record's mass,
      with maximum `max(old maximum, value)` -- the old maximum survives. */
  lemma OpensBucket(recs: seq<Rec>, r: Rec, step: int)
    requires |recs| >= 1 && step > 0
    requires StateAfter(recs, step).lo.None? || r.start >= StateAfter(recs, step).hi
    requires r.stop - r.start <= step
    ensures var st := StateAfter(recs, step);
            && Emitted(recs + [r], step)
               == Emitted(recs, step)
                  + (if st.sum > 0.0 then [Rec(r.chrom, st.lo.value, st.hi, st.max.v)] else [])
            && StateAfter(recs + [r], step)
               == Bucket(r.chrom, Some(r.start), r.start + step, Mass(r), Fin(MaxWith(st.max, r.value)))
  {
    Feed(recs, r, step);
  }

  /** A record that starts inside the open bucket and ends past it: the
      bucket is yielded as `[lo, stop)` with `max(current maximum, value)`
      and closed. */
  lemma Straddles(recs: seq<Rec>, r: Rec, step: int)
    requires |recs| >= 1 && step > 0
    requires StateAfter(recs, step).lo.Some?
    requires r.start < StateAfter(recs, step).hi < r.stop
    ensures var st := StateAfter(recs, step);
            && Emitted(recs + [r], step)
               == Emitted(recs, step) + [Rec(r.chrom, st.lo.value, r.stop, MaxWith(st.max, r.value))]
            && StateAfter(recs + [r], step) == Closed(r.chrom, st.hi)
  {
    Feed(recs, r, step);
  }

  /** A record that starts and ends inside the open bucket yields nothing
      and adds its mass and value to the bucket. */
  lemma Contained(recs: seq<Rec>, r: Rec, step: int)
    requires |recs| >= 1 && step > 0
    requires StateAfter(recs, step).lo.Some?
    requires r.start < StateAfter(recs, step).hi && r.stop <= StateAfter(recs, step).hi
    ensures var st := StateAfter(recs, step);
            && Emitted(recs + [r], step) == Emitted(recs, step)
            && StateAfter(recs + [r], step)
               == Bucket(r.chrom, st.lo, st.hi, st.sum + Mass(r), Fin(MaxWith(st.max, r.value)))
  {
    Feed(recs, r, step);
  }

  /** The tail flush: the pending bucket is yielded only if its sum is
      positive, tagged with the last record's chromosome, and its value is
      the maximum divided by `step` (the bucket width). */
  lemma TailFlush(recs: seq<Rec>, step: int)
    requires |recs| >= 1 && step > 0
    ensures var st := StateAfter(recs, step);
            Decimate(recs, step)
            == Emitted(recs, step)
               + (if st.sum > 0.0
                  then [Rec(recs[|recs| - 1].chrom, st.lo.value, st.lo.value + step, st.max.v / step as real)]
                  else [])
  {
    StateAfterChrom(recs, step);
  }

  // ---------------------------------------------------------------------
  // Whole-stream properties

  /** The first record only initialises the loop variables: replacing it
      changes nothing in the output. */
  lemma FirstRecordIgnored(a: Rec, b: Rec, rest: seq<Rec>, step: int)
    requires step > 0
    ensures Decimate([a] + rest, step) == Decimate([b] + rest, step)
  {
    assert ([a] + rest)[1..] == rest;
    assert ([b] + rest)[1..] == rest;
    if rest != [] {
      assert Step(Init(a.chrom, step), rest[0], step) == Step(Init(b.chrom, step), rest[0], step);
    }
  }

  /** 1 when the state holds mass the tail would flush. */
  function Pending(st: Bucket): nat
  {
    if st.sum > 0.0 then 1 else 0
  }

  lemma {:induction false} RunLength(st: Bucket, rs: seq<Rec>, step: int)
    requires Valid(st, step)
    ensures var res := Run(st, rs, step);
            |res.1| + Pending(res.0) <= |rs| + Pending(st)
    decreases |rs|
  {
    if rs != [] {
      RunLength(Step(st, rs[0], step).0, rs[1..], step);
    }
  }

  /** Decimation never yields more records than it reads after the first. */
  lemma DecimateShrinks(recs: seq<Rec>, step: int)
    requires step > 0
    ensures |Decimate(recs, step)| <= if recs == [] then 0 else |recs| - 1
  {
    if recs != [] {
      RunLength(Init(recs[0].chrom, step), recs[1..], step);
    }
  }

  lemma {:induction false} RunWellFormed(st: Bucket, rs: seq<Rec>, step: int)
    requires Valid(st, step)
    ensures forall o :: o in Run(st, rs, step).1 ==> o.start < o.stop
    decreases |rs|
  {
    if rs != [] {
      RunWellFormed(Step(st, rs[0], step).0, rs[1..], step);
    }
  }

  /** Every yielded record is a non-empty interval. */
  lemma DecimateWellFormed(recs: seq<Rec>, step: int)
    requires step > 0
    ensures forall o :: o in Decimate(recs, step) ==> o.start < o.stop
  {
    if recs != [] {
      RunWellFormed(Init(recs[0].chrom, step), recs[1..], step);
    }
  }

  /** Starts never decrease along `s`. */
  predicate StartsSorted(s: seq<Rec>)
  {
    forall i, j :: 0 <= i < j < |s| ==> s[i].start <= s[j].start
  }

  lemma SortedAppend(a: seq<Rec>, b: seq<Rec>)
    requires StartsSorted(a) && StartsSorted(b)
    requires forall x, y :: x in a && y in b ==> x.start <= y.start
    ensures StartsSorted(a + b)
  {
    forall i, j | 0 <= i < j < |a + b|
      ensures (a + b)[i].start <= (a + b)[j].start
    {
      if j < |a| {
      } else if i >= |a| {
        assert (a + b)[i] == b[i - |a|] && (a + b)[j] == b[j - |a|];
      } else {
        assert (a + b)[i] in a && (a + b)[j] in b;
      }
    }
  }

  /** One iteration that does not just accumulate yields records whose
      starts lie between the lower bound `m` and the record's own start, and
      any bucket it leaves open starts at the record's start. */
  lemma StepBounds(st: Bucket, r: Rec, step: int, m: int)
    requires Valid(st, step)
    requires r.start >= m
    requires st.lo.Some? ==> m <= st.lo.value <= r.start
    requires !(st.lo.Some? && r.start < st.hi && r.stop <= st.hi)
    ensures var e := Step(st, r, step).1;
            StartsSorted(e) && forall o :: o in e ==> m <= o.start <= r.start
    ensures Step(st, r, step).0.lo.Some? ==> Step(st, r, step).0.lo.value == r.start
  {
  }

  lemma {:induction false} RunSorted(st: Bucket, rs: seq<Rec>, step: int, m: int)
    requires Valid(st, step)
    requires StartsSorted(rs)
    requires forall i :: 0 <= i < |rs| ==> rs[i].start >= m
    requires st.lo.Some? ==> st.lo.value >= m && forall i :: 0 <= i < |rs| ==> st.lo.value <= rs[i].start
    ensures var res := Run(st, rs, step);
            var out := res.1 + Tail(res.0, step);
            StartsSorted(out) && forall o :: o in out ==> o.start >= m
    decreases |rs|
  {
    if rs != [] {
      var r := rs[0];
      var first := Step(st, r, step);
      var e := first.1;
      var rest := Run(first.0, rs[1..], step);
      var tailOut := rest.1 + Tail(rest.0, step);
      assert Run(st, rs, step) == (rest.0, e + rest.1);
      assert e + rest.1 + Tail(rest.0, step) == e + tailOut;
      assert StartsSorted(rs[1..]);
      if st.lo.Some? && r.start < st.hi && r.stop <= st.hi {
        assert first.0.lo == st.lo;
        RunSorted(first.0, rs[1..], step, m);
        assert e == [];
        assert e + tailOut == tailOut;
      } else {
        StepBounds(st, r, step, m);
        assert forall i :: 0 <= i < |rs[1..]| ==> rs[1..][i].start >= r.start;
        RunSorted(first.0, rs[1..], step, r.start);
        SortedAppend(e, tailOut);
      }
    }
  }

  /** For non-negative starts that never decrease, the yielded starts never
      decrease and are non-negative. */
  lemma DecimateSorted(recs: seq<Rec>, step: int)
    requires step > 0
    requires StartsSorted(recs)
    requires forall i :: 0 <= i < |recs| ==> recs[i].start >= 0
    ensures StartsSorted(Decimate(recs, step))
    ensures forall o :: o in Decimate(recs, step) ==> o.start >= 0
  {
    if recs != [] {
      assert StartsSorted(recs[1..]);
      RunSorted(Init(recs[0].chrom, step), recs[1..], step, 0);
    }
  }

  /** The stale maximum made visible: the second bucket holds only values
      1 and 2, yet it is yielded with the first bucket's maximum 10. */
  lemma StaleMaxExample()
    ensures Decimate([Rec("chr1", 0, 1, 7.0), Rec("chr1", 0, 5, 10.0),
                      Rec("chr1", 100, 105, 1.0), Rec("chr1", 115, 125, 2.0)], 20)
            == [Rec("chr1", 0, 20, 10.0), Rec("chr1", 100, 125, 10.0)]
  {
    var r0, r1, r2, r3 := Rec("chr1", 0, 1, 7.0), Rec("chr1", 0, 5, 10.0),
                          Rec("chr1", 100, 105, 1.0), Rec("chr1", 115, 125, 2.0);
    var recs := [r0, r1, r2, r3];
    assert recs[1..] == [r1, r2, r3];
    assert [r1, r2, r3][1..] == [r2, r3];
    assert [r2, r3][1..] == [r3];
    assert [r3][1..] == [];
    var s0 := Init("chr1", 20);
    var s1 := Step(s0, r1, 20);
    var s2 := Step(s1.0, r2, 20);
    var s3 := Step(s2.0, r3, 20);
    assert s1.1 == [] && s1.0.sum == 50.0;
    assert s2.1 == [Rec("chr1", 0, 20, 10.0)];
    assert s2.0 == Bucket("chr1", Some(100), 120, 5.0, Fin(10.0));
    assert s3.1 == [Rec("chr1", 100, 125, 10.0)];
    assert s3.0.sum == 0.0;
    assert Run(s3.0, [], 20) == (s3.0, []);
    assert Run(s2.0, [r3], 20) == (s3.0, s3.1 + []);
    assert s3.1 + [] == s3.1;
    assert Run(s1.0, [r2, r3], 20) == (s3.0, s2.1 + s3.1);
    assert Run(s0, [r1, r2, r3], 20) == (s3.0, s1.1 + (s2.1 + s3.1));
  }
}
