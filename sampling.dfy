/**
 * sample_data: a systematic (fixed-stride) sample of a data frame's rows.
 * With interval = rows / n (truncated), row i is kept exactly when
 * i % interval == 0 and i / interval <= n; kept rows are copied, in order,
 * into a new frame with the same column labels.
 */
module Sampling {
  import opened Wrappers
  import opened Frames

  /** Python's ZeroDivisionError: n == 0 divides by zero, and so does i % 0 once there is a row. */
  datatype SampleError = ZeroDivision

  function MinNat(a: nat, b: nat): nat {
    if a <= b then a else b
  }

  /** The selection test applied to row position i. */
  predicate Keeps(i: nat, interval: nat, n: nat)
    requires interval > 0
  {
    i % interval == 0 && i / interval <= n
  }

  /** The elements of s at kept positions, in their original order. */
  function Kept<T>(s: seq<T>, interval: nat, n: nat): seq<T>
    requires interval > 0 || s == []
  {
    if s == [] then []
    else
      Kept(s[..|s| - 1], interval, n)
        + (if Keeps(|s| - 1, interval, n) then [s[|s| - 1]] else [])
  }

  /** The row positions 0, 1, ..., len - 1. */
  function Positions(len: nat): seq<nat> {
    seq(len, k requires 0 <= k => k as nat)
  }

  /** The number of stride positions below len, capped at n + 1 (strides 0..n). */
  function StrideCount(len: nat, interval: nat, n: nat): nat
    requires interval > 0
  {
    MinNat(n + 1, (len + interval - 1) / interval)
  }

  // ---------------------------------------------------------------------------
  // Arithmetic helpers

  lemma MulMono(x: int, y: int, b: int)
    requires x <= y && b >= 0
    ensures x * b <= y * b
  {
    var t := y - x;
    assert y * b == x * b + t * b;
  }

  /** Division by b is characterised by the interval q * b <= a < q * b + b. */
  lemma DivOf(a: int, b: int, q: int)
    requires b > 0 && q * b <= a < q * b + b
    ensures a / b == q
  {
    var d, m := a / b, a % b;
    assert a == d * b + m && 0 <= m < b;
    assert (d + 1) * b == d * b + b;
    assert (q + 1) * b == q * b + b;
    if d < q {
      MulMono(d + 1, q, b);
    } else if d > q {
      MulMono(q + 1, d, b);
    }
  }

  lemma DivAtLeast(a: int, b: int, k: int)
    requires b > 0
    ensures k <= a / b <==> k * b <= a
  {
    var d, m := a / b, a % b;
    assert a == d * b + m && 0 <= m < b;
    if k <= d {
      MulMono(k, d, b);
    } else {
      assert (d + 1) * b == d * b + b;
      MulMono(d + 1, k, b);
    }
  }

  /** Moving from len to len + 1 adds one stride position exactly when len is a multiple of the interval. */
  lemma CeilStep(len: nat, interval: nat)
    requires interval > 0
    ensures (len + interval) / interval
            == (len + interval - 1) / interval + (if len % interval == 0 then 1 else 0)
    ensures len % interval == 0 ==> (len + interval - 1) / interval == len / interval
    ensures len == (len / interval) * interval + len % interval
  {
    var q, r := len / interval, len % interval;
    assert len == q * interval + r;
    DivOf(len + interval, interval, q + 1);
    if r == 0 {
      DivOf(len + interval - 1, interval, q);
    } else {
      DivOf(len + interval - 1, interval, q + 1);
    }
  }

  // ---------------------------------------------------------------------------
  // Properties of the selection

  /** One more row position appends its element exactly when that position is kept. */
  lemma KeptStep<T>(s: seq<T>, i: nat, interval: nat, n: nat)
    requires interval > 0 && i < |s|
    ensures Kept(s[..i + 1], interval, n)
            == Kept(s[..i], interval, n) + (if Keeps(i, interval, n) then [s[i]] else [])
  {
    assert s[..i + 1][..i] == s[..i];
  }

  /**
   * The sample is the fixed-stride sequence s[0], s[interval], s[2 * interval], ...
   * of StrideCount elements.
   */
  lemma {:induction false} KeptIsStride<T>(s: seq<T>, interval: nat, n: nat)
    requires interval > 0
    ensures |Kept(s, interval, n)| == StrideCount(|s|, interval, n)
    ensures forall j :: 0 <= j < |Kept(s, interval, n)| ==>
              j * interval < |s| && Kept(s, interval, n)[j] == s[j * interval]
  {
    if s == [] {
      assert (interval - 1) / interval == 0 by { DivOf(interval - 1, interval, 0); }
    } else {
      var len := |s| - 1;
      var p := s[..len];
      KeptIsStride(p, interval, n);
      CeilStep(len, interval);
      var k := Kept(s, interval, n);
      var kp := Kept(p, interval, n);
      assert k == kp + (if Keeps(len, interval, n) then [s[len]] else []);
      forall j | 0 <= j < |k|
        ensures j * interval < |s| && k[j] == s[j * interval]
      {
        if j < |kp| {
          assert k[j] == kp[j] == p[j * interval];
        } else {
          assert Keeps(len, interval, n) && j == |kp|;
          assert j == len / interval;
        }
      }
    }
  }

  /**
   * Exactly the kept positions appear in the sample: every sampled element
   * comes from a kept position, every element at a kept position is in the
   * sample (at index position / interval), and positions increase along it.
   */
  lemma SampleMembership<T>(s: seq<T>, interval: nat, n: nat)
    requires interval > 0
    ensures forall j :: 0 <= j < |Kept(s, interval, n)| ==>
              j * interval < |s| && Keeps(j * interval, interval, n)
              && Kept(s, interval, n)[j] == s[j * interval]
    ensures forall i :: 0 <= i < |s| && Keeps(i, interval, n) ==>
              i / interval < |Kept(s, interval, n)| && Kept(s, interval, n)[i / interval] == s[i]
    ensures forall j, k :: 0 <= j < k < |Kept(s, interval, n)| ==> j * interval < k * interval
  {
    KeptIsStride(s, interval, n);
    var k := Kept(s, interval, n);
    forall j | 0 <= j < |k|
      ensures Keeps(j * interval, interval, n)
    {
      StrideIsKept(j, interval, n);
    }
    forall i | 0 <= i < |s| && Keeps(i, interval, n)
      ensures i / interval < |k| && k[i / interval] == s[i]
    {
      KeptIsInStride(i, |s|, interval, n);
    }
    forall j, l | 0 <= j < l < |k|
      ensures j * interval < l * interval
    {
      MulMono(j + 1, l, interval);
      assert (j + 1) * interval == j * interval + interval;
    }
  }

  lemma StrideIsKept(j: nat, interval: nat, n: nat)
    requires interval > 0 && j <= n
    ensures Keeps(j * interval, interval, n)
  {
    DivOf(j * interval, interval, j);
    assert (j * interval) % interval == 0;
  }

  lemma KeptIsInStride(i: nat, len: nat, interval: nat, n: nat)
    requires interval > 0 && i < len && Keeps(i, interval, n)
    ensures i / interval < StrideCount(len, interval, n)
    ensures (i / interval) * interval == i
  {
    var q := i / interval;
    assert i == q * interval + i % interval;
    assert (q + 1) * interval == q * interval + interval;
    DivAtLeast(len + interval - 1, interval, q + 1);
  }

  /**
   * With 0 < n <= rows and interval = rows / n, the sample has n or n + 1 rows;
   * it has n + 1 exactly when stride n still falls inside the frame.
   */
  lemma SampleSize(rows: nat, n: nat)
    requires 0 < n <= rows
    ensures rows / n >= 1
    ensures n <= StrideCount(rows, rows / n, n) <= n + 1
    ensures StrideCount(rows, rows / n, n) == n + 1 <==> n * (rows / n) < rows
  {
    var interval := rows / n;
    DivAtLeast(rows, n, 1);
    assert rows == interval * n + rows % n;
    DivAtLeast(rows + interval - 1, interval, n);
    DivAtLeast(rows + interval - 1, interval, n + 1);
  }

  /** The kept row positions are 0, interval, 2 * interval, ..., in increasing order. */
  lemma KeptPositions(len: nat, interval: nat, n: nat)
    requires interval > 0
    ensures Kept(Positions(len), interval, n)
            == seq(StrideCount(len, interval, n), j => j * interval)
  {
    var pos := Positions(len);
    var k := Kept(pos, interval, n);
    KeptIsStride(pos, interval, n);
    forall j | 0 <= j < |k|
      ensures k[j] == j * interval
    {
      assert k[j] == pos[j * interval];
    }
  }

  /** 105 rows sampled for 10 keep the 11 positions 0, 10, ..., 100: one more than asked. */
  lemma OvershootExample()
    ensures 105 / 10 == 10
    ensures Kept(Positions(105), 10, 10) == seq(11, j => j * 10)
  {
    KeptPositions(105, 10, 10);
    DivOf(105 + 9, 10, 11);
  }

  /** 100 rows sampled for 10 keep the 10 positions 0, 10, ..., 90. */
  lemma ExactExample()
    ensures 100 / 10 == 10
    ensures Kept(Positions(100), 10, 10) == seq(10, j => j * 10)
  {
    KeptPositions(100, 10, 10);
    DivOf(100 + 9, 10, 10);
  }

  /** A column of the sample: the source column's dtype and its kept cells. */
  function SampleColumn(c: Column, interval: nat, n: nat): Column
    requires interval > 0 || c.values == []
  {
    Column(c.dtype, Kept(c.values, interval, n))
  }

  /** The sampled frame is the source frame restricted to the kept rows, row for row. */
  lemma {:induction false} SampleRowsAreCopies(cs: seq<Column>, rows: nat, interval: nat, n: nat, j: nat)
    requires interval > 0
    requires forall c :: 0 <= c < |cs| ==> |cs[c].values| == rows
    requires j < StrideCount(rows, interval, n)
    ensures j * interval < rows
    ensures forall c :: 0 <= c < |cs| ==> j < |SampleColumn(cs[c], interval, n).values|
    ensures Row(seq(|cs|, c requires 0 <= c < |cs| => SampleColumn(cs[c], interval, n)), j)
            == Row(cs, j * interval)
  {
    KeptIsStride(Positions(rows), interval, n);
    var ss := seq(|cs|, c requires 0 <= c < |cs| => SampleColumn(cs[c], interval, n));
    forall c | 0 <= c < |cs|
      ensures j < |ss[c].values| && ss[c].values[j] == cs[c].values[j * interval]
    {
      KeptIsStride(cs[c].values, interval, n);
    }
  }

  lemma {:induction false} KeptSubset<T>(s: seq<T>, interval: nat, n: nat)
    requires interval > 0
    ensures forall x :: x in Kept(s, interval, n) ==> x in s
  {
    if s != [] {
      var p := s[..|s| - 1];
      KeptSubset(p, interval, n);
      assert forall x :: x in p ==> x in s;
    }
  }

  /** The sample columns built from the first i rows of cs. */
  function SampledPrefix(cs: seq<Column>, i: nat, interval: nat, n: nat): seq<Column>
    requires interval > 0 || i == 0
    requires forall c :: 0 <= c < |cs| ==> i <= |cs[c].values|
  {
    seq(|cs|, c requires 0 <= c < |cs| =>
      Column(cs[c].dtype, Kept(cs[c].values[..i], interval, n)))
  }

  /** The frame acc with row i of cs appended (DataFrame.append of one row). */
  function AppendRow(acc: seq<Column>, cs: seq<Column>, i: nat): seq<Column>
    requires |acc| == |cs|
    requires forall c :: 0 <= c < |cs| ==> i < |cs[c].values|
  {
    seq(|acc|, c requires 0 <= c < |acc| =>
      Column(acc[c].dtype, acc[c].values + [cs[c].values[i]]))
  }

  /** One loop step of sample_data: row i is appended exactly when it is kept. */
  lemma SampledStep(cs: seq<Column>, i: nat, interval: nat, n: nat)
    requires interval > 0
    requires forall c :: 0 <= c < |cs| ==> i < |cs[c].values|
    ensures SampledPrefix(cs, i + 1, interval, n)
            == if Keeps(i, interval, n) then AppendRow(SampledPrefix(cs, i, interval, n), cs, i)
               else SampledPrefix(cs, i, interval, n)
  {
    var next, prev := SampledPrefix(cs, i + 1, interval, n), SampledPrefix(cs, i, interval, n);
    var want := if Keeps(i, interval, n) then AppendRow(prev, cs, i) else prev;
    forall c | 0 <= c < |cs|
      ensures next[c] == want[c]
    {
      KeptStep(cs[c].values, i, interval, n);
    }
  }

  /** The sample of every column of a frame with the given row count. */
  function SampledColumns(cs: seq<Column>, rows: nat, n: nat): seq<Column>
    requires 0 < n && (rows == 0 || n <= rows)
    requires forall c :: 0 <= c < |cs| ==> |cs[c].values| == rows
  {
    DivAtLeast(rows, n, 1);
    seq(|cs|, c requires 0 <= c < |cs| => SampleColumn(cs[c], rows / n, n))
  }

  /** Once all rows are visited, the columns built are the sample of the whole frame. */
  lemma SampledAll(cs: seq<Column>, rows: nat, n: nat)
    requires 0 < n && (rows == 0 || n <= rows)
    requires forall c :: 0 <= c < |cs| ==> |cs[c].values| == rows
    ensures rows / n > 0 || rows == 0
    ensures SampledPrefix(cs, rows, rows / n, n) == SampledColumns(cs, rows, n)
  {
    DivAtLeast(rows, n, 1);
    var interval := rows / n;
    var done, want := SampledPrefix(cs, rows, interval, n), SampledColumns(cs, rows, n);
    forall c | 0 <= c < |cs|
      ensures done[c] == want[c]
    {
      assert cs[c].values[..rows] == cs[c].values;
    }
  }

  /** Sampling keeps every column well typed and gives all of them the sample's row count. */
  lemma SampledColumnsFacts(cs: seq<Column>, rows: nat, n: nat)
    requires 0 < n && (rows == 0 || n <= rows)
    requires forall c :: 0 <= c < |cs| ==> |cs[c].values| == rows && WellTyped(cs[c])
    ensures rows / n > 0 || rows == 0
    ensures forall c :: 0 <= c < |cs| ==>
              WellTyped(SampledColumns(cs, rows, n)[c])
              && |SampledColumns(cs, rows, n)[c].values| == |Kept(Positions(rows), rows / n, n)|
  {
    DivAtLeast(rows, n, 1);
    var interval := rows / n;
    var want := SampledColumns(cs, rows, n);
    forall c | 0 <= c < |cs|
      ensures WellTyped(want[c])
      ensures |want[c].values| == |Kept(Positions(rows), interval, n)|
    {
      if interval > 0 {
        KeptSubset(cs[c].values, interval, n);
        KeptIsStride(cs[c].values, interval, n);
        KeptIsStride(Positions(rows), interval, n);
      }
    }
  }

  /** The columns and the row count of a sample under construction. */
  datatype Sample = Sample(columns: seq<Column>, rows: nat)

  /**
   * The loop of sample_data over the row positions of a frame given as its
   * columns: the kept rows, appended one at a time, or ZeroDivision when
   * n == 0 or when there are rows but fewer than n of them.
   */
  method SampleRows(cs: seq<Column>, rows: nat, n: nat) returns (r: Result<Sample, SampleError>)
    requires forall c :: 0 <= c < |cs| ==> |cs[c].values| == rows
    ensures r.Failure? <==> n == 0 || (rows > 0 && rows < n)
    ensures r.Failure? ==> r.error == ZeroDivision
    ensures r.Success? ==>
      && n > 0 && (rows > 0 ==> rows / n > 0)
      && r.value.rows == |Kept(Positions(rows), rows / n, n)|
      && r.value.columns == SampledColumns(cs, rows, n)
  {
    if n == 0 {
      return Failure(ZeroDivision);
    }
    var interval := rows / n;
    DivAtLeast(rows, n, 1);
    var pos := Positions(rows);
    var acc := seq(|cs|, c requires 0 <= c < |cs| => Column(cs[c].dtype, []));
    assert acc == SampledPrefix(cs, 0, interval, n) by {
      forall c | 0 <= c < |cs| ensures cs[c].values[..0] == [] { }
    }
    var count := 0;
    var i := 0;
    while i < rows
      invariant 0 <= i <= rows
      invariant interval == 0 ==> i == 0
      invariant count == |Kept(pos[..i], interval, n)|
      invariant acc == SampledPrefix(cs, i, interval, n)
    {
      if interval == 0 {
        return Failure(ZeroDivision);
      }
      SampledStep(cs, i, interval, n);
      KeptStep(pos, i, interval, n);
      if Keeps(i, interval, n) {
        acc := AppendRow(acc, cs, i);
        count := count + 1;
      }
      i := i + 1;
    }
    assert pos[..rows] == pos;
    SampledAll(cs, rows, n);
    return Success(Sample(acc, count));
  }

  /**
   * sample_data(df, n): a new frame with df's column labels holding the
   * rows of df that SampleRows keeps.
   */
  method SampleData(df: DataFrame, n: nat) returns (r: Result<DataFrame, SampleError>)
    requires df.Valid()
    ensures r.Failure? <==> n == 0 || (df.rows > 0 && df.rows < n)
    ensures r.Failure? ==> r.error == ZeroDivision
    ensures r.Success? ==>
      && fresh(r.value) && fresh(r.value.columns) && r.value.Valid()
      && r.value.names == df.names
      && n > 0
      && (df.rows > 0 ==> df.rows / n > 0)
      && r.value.rows == |Kept(Positions(df.rows), df.rows / n, n)|
      && r.value.columns[..] == SampledColumns(df.columns[..], df.rows, n)
  {
    var s := SampleRows(df.columns[..], df.rows, n);
    match s
    case Failure(e) =>
      return Failure(e);
    case Success(sample) =>
      SampledColumnsFacts(df.columns[..], df.rows, n);
      var frame := new DataFrame(df.names, sample.rows, sample.columns);
      return Success(frame);
  }
}
