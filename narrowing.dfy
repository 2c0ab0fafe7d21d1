/**
 * reduce_mem_usage: rewrite every column of a data frame, in place, to the
 * first integer width whose bounds strictly contain the column's range, or
 * from the object dtype to the categorical dtype; optionally after sampling.
 */
module Narrowing {
  import opened Wrappers
  import opened Frames
  import Sampling

  /** The test of one elif arm: min(w) < lo and hi < max(w), both strict. */
  predicate StrictlyContains(w: Width, lo: int, hi: int) {
    w.Min() < lo && hi < w.Max()
  }

  /**
   * The first width in the order int8, int16, int32, int64 whose bounds
   * strictly contain [lo, hi], or None when none does (the cascade has no else).
   */
  function ChooseIntWidth(lo: int, hi: int): (r: Option<Width>)
    ensures r.Some? ==> StrictlyContains(r.value, lo, hi)
    ensures r.Some? ==> forall w: Width :: w.Rank() < r.value.Rank() ==> !StrictlyContains(w, lo, hi)
    ensures r.None? <==> forall w :: !StrictlyContains(w, lo, hi)
  {
    if StrictlyContains(Int8, lo, hi) then Some(Int8)
    else if StrictlyContains(Int16, lo, hi) then Some(Int16)
    else if StrictlyContains(Int32, lo, hi) then Some(Int32)
    else if StrictlyContains(Int64, lo, hi) then Some(Int64)
    else None
  }

  predicate AllInts(vs: seq<Cell>) {
    forall k :: 0 <= k < |vs| ==> vs[k].IntCell?
  }

  /** Series.min() of a non-empty integer column. */
  function MinValue(vs: seq<Cell>): (m: int)
    requires |vs| > 0 && AllInts(vs)
    ensures exists k :: 0 <= k < |vs| && vs[k].i == m
    ensures forall k :: 0 <= k < |vs| ==> m <= vs[k].i
  {
    if |vs| == 1 then vs[0].i
    else
      var rest := MinValue(vs[1..]);
      if vs[0].i <= rest then vs[0].i else rest
  }

  /** Series.max() of a non-empty integer column. */
  function MaxValue(vs: seq<Cell>): (m: int)
    requires |vs| > 0 && AllInts(vs)
    ensures exists k :: 0 <= k < |vs| && vs[k].i == m
    ensures forall k :: 0 <= k < |vs| ==> vs[k].i <= m
  {
    if |vs| == 1 then vs[0].i
    else
      var rest := MaxValue(vs[1..]);
      if vs[0].i >= rest then vs[0].i else rest
  }

  /** Every cell is an integer strictly inside the bounds of w. */
  predicate HoldsStrictly(w: Width, vs: seq<Cell>) {
    forall k :: 0 <= k < |vs| ==> vs[k].IntCell? && w.Min() < vs[k].i < w.Max()
  }

  /** Testing the range [min, max] is the same as testing every cell. */
  lemma RangeDecides(vs: seq<Cell>)
    requires |vs| > 0 && AllInts(vs)
    ensures forall w :: HoldsStrictly(w, vs) <==> StrictlyContains(w, MinValue(vs), MaxValue(vs))
  {
    var lo, hi := MinValue(vs), MaxValue(vs);
    forall w
      ensures HoldsStrictly(w, vs) <==> StrictlyContains(w, lo, hi)
    {
      if HoldsStrictly(w, vs) {
        var a :| 0 <= a < |vs| && vs[a].i == lo;
        var b :| 0 <= b < |vs| && vs[b].i == hi;
      }
    }
  }

  /**
   * Why an iteration of the column loop raises: pandas rejects min() of an
   * unordered categorical column (a TypeError), and `df[col]` with a label
   * that names several columns is a frame, which has no `dtype` (an
   * AttributeError).
   */
  datatype NarrowError = UnorderedCategoricalMin | DuplicateLabel

  /**
   * One iteration of the column loop. An integer column with at least one
   * cell moves to the first width strictly holding all its cells, if any;
   * an object column becomes categorical; a categorical column is not of
   * the object dtype, so its min() is taken and fails; float columns are
   * kept as they are.
   */
  function NarrowColumn(c: Column): (r: Result<Column, NarrowError>)
    requires WellTyped(c)
    ensures r.Failure? <==> c.dtype == Category
    ensures r.Failure? ==> r.error == UnorderedCategoricalMin
    ensures r.Success? ==> r.value.values == c.values && WellTyped(r.value)
    ensures c.dtype == Object ==> r == Success(Column(Category, c.values))
    ensures c.dtype == Float ==> r == Success(c)
    ensures c.dtype.Int? && |c.values| > 0 && (exists w :: HoldsStrictly(w, c.values)) ==>
              && r.value.dtype.Int?
              && HoldsStrictly(r.value.dtype.width, c.values)
              && forall w: Width :: w.Rank() < r.value.dtype.width.Rank() ==> !HoldsStrictly(w, c.values)
    ensures c.dtype.Int? && (|c.values| == 0 || forall w :: !HoldsStrictly(w, c.values)) ==>
              r == Success(c)
  {
    match c.dtype
    case Object => Success(Column(Category, c.values))
    case Category => Failure(UnorderedCategoricalMin)
    case Float => Success(c)
    case Int(_) =>
      if |c.values| == 0 then Success(c)
      else
        assert AllInts(c.values) by {
          forall k | 0 <= k < |c.values| ensures c.values[k].IntCell? {
            assert c.values[k] in c.values;
          }
        }
        RangeDecides(c.values);
        match ChooseIntWidth(MinValue(c.values), MaxValue(c.values))
        case Some(w) => Success(Column(Int(w), c.values))
        case None => Success(c)
  }

  /** The label at position j is shared with another column. */
  predicate Duplicated(names: seq<string>, j: nat)
    requires j < |names|
  {
    exists k :: 0 <= k < |names| && k != j && names[k] == names[j]
  }

  /** Labels and columns of one frame, every column well typed. */
  predicate ColumnsOk(names: seq<string>, cs: seq<Column>) {
    |names| == |cs| && forall j :: 0 <= j < |cs| ==> WellTyped(cs[j])
  }

  /** One iteration of the loop over the labels: look the column up by label, then rewrite it. */
  function Step(names: seq<string>, cs: seq<Column>, j: nat): Result<Column, NarrowError>
    requires ColumnsOk(names, cs) && j < |cs|
  {
    if Duplicated(names, j) then Failure(DuplicateLabel) else NarrowColumn(cs[j])
  }

  /** The index of the first iteration from j on that raises, or the column count. */
  function FirstFailureFrom(names: seq<string>, cs: seq<Column>, j: nat): (k: nat)
    requires ColumnsOk(names, cs) && j <= |cs|
    ensures j <= k <= |cs|
    ensures forall i :: j <= i < k ==> Step(names, cs, i).Success?
    ensures k < |cs| ==> Step(names, cs, k).Failure?
    decreases |cs| - j
  {
    if j == |cs| then j
    else if Step(names, cs, j).Failure? then j
    else FirstFailureFrom(names, cs, j + 1)
  }

  /** The index of the first iteration that raises, or the column count. */
  function FirstFailure(names: seq<string>, cs: seq<Column>): (k: nat)
    requires ColumnsOk(names, cs)
    ensures k <= |cs|
    ensures forall i :: 0 <= i < k ==> Step(names, cs, i).Success?
    ensures k < |cs| ==> Step(names, cs, k).Failure?
  {
    FirstFailureFrom(names, cs, 0)
  }

  /** A repeated label makes the loop raise, at or before that label's first column. */
  lemma DuplicateLabelsFail(names: seq<string>, cs: seq<Column>, j: nat)
    requires ColumnsOk(names, cs) && j < |cs| && Duplicated(names, j)
    ensures FirstFailure(names, cs) <= j
    ensures FirstFailure(names, cs) < |cs|
  {
    assert Step(names, cs, j) == Failure(DuplicateLabel);
  }

  /** The columns after the loop: rewritten up to the first failure, untouched from there on. */
  function Optimized(names: seq<string>, cs: seq<Column>): (r: seq<Column>)
    requires ColumnsOk(names, cs)
    ensures |r| == |cs|
    ensures forall j :: 0 <= j < |cs| ==> r[j].values == cs[j].values && WellTyped(r[j])
  {
    var stop := FirstFailure(names, cs);
    seq(|cs|, j requires 0 <= j < |cs| =>
      if j < stop then Step(names, cs, j).value else cs[j])
  }

  /**
   * Because the bounds are strict, a cell equal to a width's extreme forces
   * the next width: an int8 column holding 127 is rewritten as int16.
   */
  lemma StrictBoundWidens()
    ensures NarrowColumn(Column(Int(Int8), [IntCell(127)])) == Success(Column(Int(Int16), [IntCell(127)]))
  {
    var c := Column(Int(Int8), [IntCell(127)]);
    assert HoldsStrictly(Int16, c.values);
    assert !(c.values[0].i < Int8.Max());
  }

  /**
   * A well-typed integer column with cells that no width holds strictly
   * contains the int64 minimum or maximum: only then is it left unchanged.
   */
  lemma NoWidthOnlyAtInt64Extremes(c: Column)
    requires WellTyped(c) && c.dtype.Int? && |c.values| > 0
    ensures (forall w: Width :: !HoldsStrictly(w, c.values)) <==>
              exists k :: 0 <= k < |c.values| &&
                (c.values[k] == IntCell(Int64.Min()) || c.values[k] == IntCell(Int64.Max()))
  {
    var vs := c.values;
    assert Int64.Min() <= c.dtype.width.Min() && c.dtype.width.Max() <= Int64.Max();
    forall k | 0 <= k < |vs|
      ensures vs[k].IntCell? && Int64.Min() <= vs[k].i <= Int64.Max()
    {
      assert vs[k] in vs;
    }
    if !HoldsStrictly(Int64, vs) {
      var k :| 0 <= k < |vs| && !(vs[k].IntCell? && Int64.Min() < vs[k].i < Int64.Max());
    }
    if exists k :: 0 <= k < |vs| && (vs[k] == IntCell(Int64.Min()) || vs[k] == IntCell(Int64.Max())) {
      var k :| 0 <= k < |vs| && (vs[k] == IntCell(Int64.Min()) || vs[k] == IntCell(Int64.Max()));
      forall w: Width
        ensures !HoldsStrictly(w, vs)
      {
        assert Int64.Min() <= w.Min() && w.Max() <= Int64.Max();
      }
    }
  }

  /**
   * Rewriting a column a second time: an integer or float column is left as
   * the first pass made it (the same width is chosen again), while an object
   * column, now categorical, makes the second pass fail.
   */
  lemma NarrowTwice(c: Column)
    requires WellTyped(c) && c.dtype != Category
    ensures c.dtype != Object ==> NarrowColumn(NarrowColumn(c).value) == NarrowColumn(c)
    ensures c.dtype == Object ==> NarrowColumn(NarrowColumn(c).value).Failure?
  {
    var d := NarrowColumn(c).value;
    if c.dtype.Int? && |c.values| > 0 {
      assert AllInts(c.values) by {
        forall k | 0 <= k < |c.values| ensures c.values[k].IntCell? {
          assert c.values[k] in c.values;
        }
      }
      RangeDecides(c.values);
      assert d.values == c.values && d.dtype.Int?;
    }
  }

  /**
   * Running the optimizer again after a successful pass: every integer
   * column gets the width it already has; the second pass succeeds exactly
   * when the frame had no object column, and then changes nothing.
   */
  lemma {:induction false} OptimizeTwice(names: seq<string>, cs: seq<Column>)
    requires ColumnsOk(names, cs)
    requires FirstFailure(names, cs) == |cs|
    ensures ColumnsOk(names, Optimized(names, cs))
    ensures forall j :: 0 <= j < |cs| && cs[j].dtype.Int? ==>
              Step(names, Optimized(names, cs), j) == Success(Optimized(names, cs)[j])
    ensures FirstFailure(names, Optimized(names, cs)) == |cs|
            <==> forall j :: 0 <= j < |cs| ==> cs[j].dtype != Object
    ensures FirstFailure(names, Optimized(names, cs)) == |cs| ==>
              Optimized(names, Optimized(names, cs)) == Optimized(names, cs)
  {
    var once := Optimized(names, cs);
    forall j | 0 <= j < |cs|
      ensures !Duplicated(names, j)
      ensures once[j] == NarrowColumn(cs[j]).value
      ensures cs[j].dtype != Object ==> Step(names, once, j) == Success(once[j])
      ensures cs[j].dtype == Object ==> Step(names, once, j).Failure?
    {
      assert Step(names, cs, j).Success?;
      NarrowTwice(cs[j]);
    }
    if forall j :: 0 <= j < |cs| ==> cs[j].dtype != Object {
      PassesFrom(names, once, 0);
      var twice := Optimized(names, once);
      forall j | 0 <= j < |cs|
        ensures twice[j] == once[j]
      {
      }
    } else {
      var j :| 0 <= j < |cs| && cs[j].dtype == Object;
      assert Step(names, once, j).Failure?;
    }
  }

  /** With no raising iteration from j on, the loop reaches the end. */
  lemma {:induction false} PassesFrom(names: seq<string>, cs: seq<Column>, j: nat)
    requires ColumnsOk(names, cs) && j <= |cs|
    requires forall i :: j <= i < |cs| ==> Step(names, cs, i).Success?
    ensures FirstFailureFrom(names, cs, j) == |cs|
    decreases |cs| - j
  {
    if j < |cs| {
      PassesFrom(names, cs, j + 1);
    }
  }

  /**
   * The column loop of reduce_mem_usage over the labels: each column is
   * looked up and replaced by its narrowed version in order; the first
   * iteration that raises stops the loop and the columns before it stay
   * rewritten.
   */
  method NarrowColumns(names: seq<string>, cols: array<Column>) returns (outcome: Outcome<NarrowError>)
    requires ColumnsOk(names, cols[..])
    modifies cols
    ensures cols[..] == Optimized(names, old(cols[..]))
    ensures outcome == if FirstFailure(names, old(cols[..])) == cols.Length then Pass
                       else Fail(Step(names, old(cols[..]), FirstFailure(names, old(cols[..]))).error)
  {
    ghost var cs := cols[..];
    var k := 0;
    while k < cols.Length
      invariant 0 <= k <= FirstFailure(names, cs)
      invariant forall j :: 0 <= j < k ==> cols[j] == Step(names, cs, j).value
      invariant forall j :: k <= j < cols.Length ==> cols[j] == cs[j]
    {
      if Duplicated(names, k) {
        assert Step(names, cs, k).Failure?;
        assert cols[..] == Optimized(names, cs);
        return Fail(DuplicateLabel);
      }
      var res := NarrowColumn(cols[k]);
      if res.Failure? {
        assert cols[..] == Optimized(names, cs);
        return Fail(res.error);
      }
      cols[k] := res.value;
      k := k + 1;
    }
    assert cols[..] == Optimized(names, cs);
    return Pass;
  }

  /** Why reduce_mem_usage can fail: in the sampler or in the column loop. */
  datatype OptimizeError = SamplingFailed(sampleError: Sampling.SampleError) | NarrowingFailed(narrowError: NarrowError)

  /**
   * reduce_mem_usage(df, n_samples): without a sample count the columns of
   * df itself are rewritten and df is returned; with one, df is left alone
   * and the columns of its fresh sample are rewritten instead.
   */
  method ReduceMemUsage(df: DataFrame, nSamples: Option<nat>) returns (r: Result<DataFrame, OptimizeError>)
    requires df.Valid()
    modifies df.columns
    ensures df.Valid()
    ensures nSamples.None? ==>
      var cs := old(df.columns[..]);
      var stop := FirstFailure(df.names, cs);
      && df.columns[..] == Optimized(df.names, cs)
      && r == if stop == |cs| then Success(df)
              else Failure(NarrowingFailed(Step(df.names, cs, stop).error))
    ensures nSamples.Some? ==> unchanged(df.columns)
    ensures nSamples.Some? && (nSamples.value == 0 || (df.rows > 0 && df.rows < nSamples.value)) ==>
      r == Failure(SamplingFailed(Sampling.ZeroDivision))
    ensures nSamples.Some? && nSamples.value > 0 && (df.rows == 0 || nSamples.value <= df.rows) ==>
      var sampled := Sampling.SampledColumns(old(df.columns[..]), df.rows, nSamples.value);
      && ColumnsOk(df.names, sampled)
      && var stop := FirstFailure(df.names, sampled);
      && (r.Success? <==> stop == |sampled|)
      && (r.Success? ==>
            && fresh(r.value) && r.value.Valid() && r.value.names == df.names
            && r.value.rows == |Sampling.Kept(Sampling.Positions(df.rows), df.rows / nSamples.value, nSamples.value)|
            && r.value.columns[..] == Optimized(df.names, sampled))
      && (r.Failure? ==> r.error == NarrowingFailed(Step(df.names, sampled, stop).error))
  {
    var target := df;
    if nSamples.Some? {
      var s := Sampling.SampleData(df, nSamples.value);
      if s.Failure? {
        return Failure(SamplingFailed(s.error));
      }
      target := s.value;
    }
    var outcome := NarrowColumns(target.names, target.columns);
    if outcome.Fail? {
      return Failure(NarrowingFailed(outcome.error));
    }
    return Success(target);
  }
}
