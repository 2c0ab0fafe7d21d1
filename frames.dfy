/**
 * The tabular data model shared by the sampler and the memory optimizer:
 * a data frame is an ordered list of named columns of equal length, each
 * column carrying a declared dtype and its cells.
 */
module Frames {

  /** 2^k, used to state the numpy integer bounds. */
  function Pow2(k: nat): int {
    if k == 0 then 1 else 2 * Pow2(k - 1)
  }

  lemma {:induction false} Pow2Add(a: nat, b: nat)
    ensures Pow2(a + b) == Pow2(a) * Pow2(b)
  {
    if a > 0 {
      Pow2Add(a - 1, b);
    }
  }

  /** The signed numpy integer widths, in the order the optimizer tries them. */
  datatype Width = Int8 | Int16 | Int32 | Int64 {

    function Bits(): nat {
      match this
      case Int8 => 8
      case Int16 => 16
      case Int32 => 32
      case Int64 => 64
    }

    /** Position in the order int8, int16, int32, int64. */
    function Rank(): nat {
      match this
      case Int8 => 0
      case Int16 => 1
      case Int32 => 2
      case Int64 => 3
    }

    /** np.iinfo(w).min */
    function Min(): int {
      match this
      case Int8 => -0x80
      case Int16 => -0x8000
      case Int32 => -0x8000_0000
      case Int64 => -0x8000_0000_0000_0000
    }

    /** np.iinfo(w).max */
    function Max(): int {
      match this
      case Int8 => 0x7F
      case Int16 => 0x7FFF
      case Int32 => 0x7FFF_FFFF
      case Int64 => 0x7FFF_FFFF_FFFF_FFFF
    }
  }

  /** The numpy bounds are those of a two's-complement integer of the width's bit count. */
  lemma WidthBounds(w: Width)
    ensures w.Min() == -Pow2(w.Bits() - 1)
    ensures w.Max() == Pow2(w.Bits() - 1) - 1
  {
    match w
    case Int8 => assert Pow2(7) == 0x80;
    case Int16 => assert Pow2(15) == 0x8000;
    case Int32 =>
      Pow2Add(15, 16);
      assert Pow2(15) == 0x8000 && Pow2(16) == 0x1_0000;
    case Int64 =>
      var p16 := Pow2(16);
      assert p16 == 0x1_0000;
      Pow2Add(16, 16);
      var p32 := Pow2(32);
      assert p32 == 0x1_0000_0000;
      Pow2Add(32, 31);
      Pow2Add(31, 1);
      assert Pow2(31) == 0x8000_0000;
  }

  /** One cell of a column. */
  datatype Cell = IntCell(i: int) | FloatCell(x: real) | TextCell(s: string)

  /**
   * The declared dtype of a column: a signed integer width, a float (every
   * dtype that is neither integer nor object takes the float branch), the
   * generic object dtype, or pandas' (unordered) categorical dtype.
   */
  datatype Dtype = Int(width: Width) | Float | Object | Category

  datatype Column = Column(dtype: Dtype, values: seq<Cell>)

  /** A cell that a column of the given dtype can hold. */
  predicate Fits(d: Dtype, v: Cell) {
    match d
    case Int(w) => v.IntCell? && w.Min() <= v.i <= w.Max()
    case Float => v.FloatCell?
    case Object => true
    case Category => true
  }

  /** Every cell of the column is representable in its declared dtype. */
  predicate WellTyped(c: Column) {
    forall v :: v in c.values ==> Fits(c.dtype, v)
  }

  /** Row i of a frame given as its columns: the i-th cell of every column, in column order. */
  function Row(cs: seq<Column>, i: nat): seq<Cell>
    requires forall c :: 0 <= c < |cs| ==> i < |cs[c].values|
  {
    seq(|cs|, c requires 0 <= c < |cs| => cs[c].values[i])
  }

  /**
   * A pandas DataFrame: its column labels, its row count (the length of its
   * index) and its columns. The optimizer rewrites the columns in place.
   */
  class DataFrame {
    const names: seq<string>
    const rows: nat
    const columns: array<Column>

    ghost predicate Valid()
      reads this, columns
    {
      && columns.Length == |names|
      && forall c :: 0 <= c < columns.Length ==>
           |columns[c].values| == rows && WellTyped(columns[c])
    }

    constructor (names: seq<string>, rows: nat, cs: seq<Column>)
      requires |cs| == |names|
      requires forall c :: 0 <= c < |cs| ==> |cs[c].values| == rows && WellTyped(cs[c])
      ensures Valid() && fresh(columns)
      ensures this.names == names && this.rows == rows && columns[..] == cs
    {
      this.names := names;
      this.rows := rows;
      this.columns := new Column[|cs|](k requires 0 <= k < |cs| => cs[k]);
    }
  }
}
