/**
  Matrix4_T as an object: four rows of four scalars held in a 4x4 array that
  the in-place operators update. Each operation is specified by the value it
  leaves, in terms of the functions of MatrixValue.
 */
module Matrix {
  import MatrixValue

  class Matrix4 {
    /** The storage: row i, column j is m[i, j]. */
    const m: array2<int>

    /** The storage always has the 4x4 shape. */
    ghost predicate Valid()
    {
      m.Length0 == MatrixValue.RowNum && m.Length1 == MatrixValue.ColNum
    }

    /** The matrix value currently held. */
    function Value(): (a: MatrixValue.Mat4)
      reads m
      requires Valid()
      ensures forall i, j | 0 <= i < MatrixValue.RowNum && 0 <= j < MatrixValue.ColNum :: a[i][j] == m[i, j]
    {
      seq(MatrixValue.RowNum, i requires 0 <= i < MatrixValue.RowNum reads m =>
        seq(MatrixValue.ColNum, j requires 0 <= j < MatrixValue.ColNum reads m => m[i, j]))
    }

    // -------------------------------------------------------------------
    // Construction

    /** Reads sixteen consecutive scalars, one row of four at a time. */
    constructor FromBuffer(buf: seq<int>)
      requires |buf| >= MatrixValue.ElemNum
      ensures Valid() && fresh(m)
      ensures Value() == MatrixValue.FromBuffer(buf)
      ensures Elements() == buf[..MatrixValue.ElemNum]
    {
      m := new int[MatrixValue.RowNum, MatrixValue.ColNum];
      new;
      var i, p := 0, 0;
      while i < MatrixValue.RowNum
        invariant 0 <= i <= MatrixValue.RowNum && p == MatrixValue.ColNum * i
        invariant forall r, c | 0 <= r < i && 0 <= c < MatrixValue.ColNum :: m[r, c] == buf[MatrixValue.ColNum * r + c]
      {
        forall c | 0 <= c < MatrixValue.ColNum {
          m[i, c] := buf[p + c];
        }
        i, p := i + 1, p + MatrixValue.ColNum;
      }
      forall r, c | 0 <= r < MatrixValue.RowNum && 0 <= c < MatrixValue.ColNum
        ensures Value()[r][c] == MatrixValue.FromBuffer(buf)[r][c]
      {
        MatrixValue.FromBufferAt(buf, r, c);
      }
      MatrixValue.Extensionality(Value(), MatrixValue.FromBuffer(buf));
      MatrixValue.FlattenFromBuffer(buf);
    }

    /** Sets each element from its own argument, in row-major reading order. */
    constructor FromElements(f11: int, f12: int, f13: int, f14: int,
                             f21: int, f22: int, f23: int, f24: int,
                             f31: int, f32: int, f33: int, f34: int,
                             f41: int, f42: int, f43: int, f44: int)
      ensures Valid() && fresh(m)
      ensures Value() == MatrixValue.FromElements(f11, f12, f13, f14, f21, f22, f23, f24,
                                                  f31, f32, f33, f34, f41, f42, f43, f44)
    {
      m := new int[MatrixValue.RowNum, MatrixValue.ColNum];
      new;
      var a := MatrixValue.FromElements(f11, f12, f13, f14, f21, f22, f23, f24,
                                        f31, f32, f33, f34, f41, f42, f43, f44);
      forall i, j | 0 <= i < MatrixValue.RowNum && 0 <= j < MatrixValue.ColNum {
        m[i, j] := a[i][j];
      }
      MatrixValue.Extensionality(Value(), a);
    }

    /** A deep copy: new storage holding the same elements. */
    constructor Copy(rhs: Matrix4)
      requires rhs.Valid()
      ensures Valid() && fresh(m)
      ensures Value() == rhs.Value()
    {
      m := new int[MatrixValue.RowNum, MatrixValue.ColNum];
      new;
      forall i, j | 0 <= i < MatrixValue.RowNum && 0 <= j < MatrixValue.ColNum {
        m[i, j] := rhs.m[i, j];
      }
      MatrixValue.Extensionality(Value(), rhs.Value());
    }

    /** The zero constant. */
    static method Zero() returns (z: Matrix4)
      ensures z.Valid() && fresh(z.m)
      ensures z.Value() == MatrixValue.Zero()
    {
      z := new Matrix4.FromElements(0, 0, 0, 0,
                                    0, 0, 0, 0,
                                    0, 0, 0, 0,
                                    0, 0, 0, 0);
    }

    /** The identity constant. */
    static method Identity() returns (e: Matrix4)
      ensures e.Valid() && fresh(e.m)
      ensures e.Value() == MatrixValue.Identity()
    {
      e := new Matrix4.FromElements(1, 0, 0, 0,
                                    0, 1, 0, 0,
                                    0, 0, 1, 0,
                                    0, 0, 0, 1);
    }

    // -------------------------------------------------------------------
    // Element access

    /** The number of elements: one per row and column position. */
    static function Size(): (n: nat)
      ensures n == MatrixValue.RowNum * MatrixValue.ColNum
    {
      MatrixValue.ElemNum
    }

    /** The element at (row, col). */
    function At(row: nat, col: nat): (x: int)
      reads m
      requires Valid() && row < MatrixValue.RowNum && col < MatrixValue.ColNum
      ensures x == Value()[row][col]
    {
      m[row, col]
    }

    /**
      The elements from begin() to end(): the contiguous storage walked in
      order, row after row.
     */
    function Elements(): (s: seq<int>)
      reads m
      requires Valid()
      ensures |s| == Size()
      ensures forall k | 0 <= k < |s| :: s[k] == At(k / MatrixValue.ColNum, k % MatrixValue.ColNum)
    {
      MatrixValue.Flatten(Value())
    }

    /** The element at a flat offset from begin(). */
    function Index(k: nat): (x: int)
      reads m
      requires Valid() && k < Size()
      ensures x == At(k / MatrixValue.ColNum, k % MatrixValue.ColNum)
    {
      Elements()[k]
    }

    // -------------------------------------------------------------------
    // Rows and columns

    /** Row i as a vector. */
    function Row(i: nat): (v: MatrixValue.Vec4)
      reads m
      requires Valid() && i < MatrixValue.RowNum
      ensures forall j | 0 <= j < MatrixValue.ColNum :: v[j] == At(i, j)
    {
      Value()[i]
    }

    /** Replaces row i by v. */
    method SetRow(i: nat, v: MatrixValue.Vec4)
      requires Valid() && i < MatrixValue.RowNum
      modifies m
      ensures Value() == old(Value())[i := v]
    {
      forall j | 0 <= j < MatrixValue.ColNum {
        m[i, j] := v[j];
      }
      MatrixValue.Extensionality(Value(), old(Value())[i := v]);
    }

    /** Column j, gathered into a fresh vector; the matrix is left alone. */
    method Col(j: nat) returns (v: MatrixValue.Vec4)
      requires Valid() && j < MatrixValue.ColNum
      ensures v == MatrixValue.Column(Value(), j)
      ensures forall i | 0 <= i < MatrixValue.RowNum :: v[i] == At(i, j)
    {
      var ret := new int[MatrixValue.RowNum];
      for i := 0 to MatrixValue.RowNum
        invariant forall r | 0 <= r < i :: ret[r] == m[r, j]
      {
        ret[i] := m[i, j];
      }
      v := ret[..];
    }

    /** Scatters v into column j, one element into each row. */
    method SetCol(j: nat, v: MatrixValue.Vec4)
      requires Valid() && j < MatrixValue.ColNum
      modifies m
      ensures Value() == MatrixValue.WithColumn(old(Value()), j, v)
    {
      for i := 0 to MatrixValue.RowNum
        invariant forall r, c | 0 <= r < MatrixValue.RowNum && 0 <= c < MatrixValue.ColNum ::
          m[r, c] == if r < i && c == j then v[r] else old(m[r, c])
      {
        m[i, j] := v[i];
      }
      MatrixValue.Extensionality(Value(), MatrixValue.WithColumn(old(Value()), j, v));
    }

    // -------------------------------------------------------------------
    // In-place arithmetic

    /** Adds rhs elementwise; rhs may be this matrix itself. */
    method AddAssign(rhs: Matrix4)
      requires Valid() && rhs.Valid()
      modifies m
      ensures Value() == MatrixValue.Add(old(Value()), old(rhs.Value()))
      ensures rhs.m != m ==> rhs.Value() == old(rhs.Value())
    {
      forall i, j | 0 <= i < MatrixValue.RowNum && 0 <= j < MatrixValue.ColNum {
        m[i, j] := m[i, j] + rhs.m[i, j];
      }
      MatrixValue.Extensionality(Value(), MatrixValue.Add(old(Value()), old(rhs.Value())));
      if rhs.m != m {
        MatrixValue.Extensionality(rhs.Value(), old(rhs.Value()));
      }
    }

    /** Subtracts rhs elementwise; rhs may be this matrix itself. */
    method SubAssign(rhs: Matrix4)
      requires Valid() && rhs.Valid()
      modifies m
      ensures Value() == MatrixValue.Sub(old(Value()), old(rhs.Value()))
      ensures rhs.m != m ==> rhs.Value() == old(rhs.Value())
    {
      forall i, j | 0 <= i < MatrixValue.RowNum && 0 <= j < MatrixValue.ColNum {
        m[i, j] := m[i, j] - rhs.m[i, j];
      }
      MatrixValue.Extensionality(Value(), MatrixValue.Sub(old(Value()), old(rhs.Value())));
      if rhs.m != m {
        MatrixValue.Extensionality(rhs.Value(), old(rhs.Value()));
      }
    }

    /** Multiplies every element by s, one row at a time. */
    method ScaleAssign(s: int)
      requires Valid()
      modifies m
      ensures Value() == MatrixValue.Scale(old(Value()), s)
    {
      for i := 0 to MatrixValue.RowNum
        invariant forall r, c | 0 <= r < MatrixValue.RowNum && 0 <= c < MatrixValue.ColNum ::
          m[r, c] == if r < i then old(m[r, c]) * s else old(m[r, c])
      {
        forall c | 0 <= c < MatrixValue.ColNum {
          m[i, c] := m[i, c] * s;
        }
      }
      MatrixValue.Extensionality(Value(), MatrixValue.Scale(old(Value()), s));
    }

    /** Copy assignment; assigning a matrix to itself changes nothing. */
    method Assign(rhs: Matrix4)
      requires Valid() && rhs.Valid()
      modifies m
      ensures Value() == old(rhs.Value())
    {
      if this != rhs {
        forall i, j | 0 <= i < MatrixValue.RowNum && 0 <= j < MatrixValue.ColNum {
          m[i, j] := rhs.m[i, j];
        }
        MatrixValue.Extensionality(Value(), old(rhs.Value()));
      }
    }

    // -------------------------------------------------------------------
    // Unary operators and comparison

    /** Unary plus: a new matrix equal to this one. */
    method Positive() returns (r: Matrix4)
      requires Valid()
      ensures r.Valid() && fresh(r.m)
      ensures r.Value() == Value() && Value() == old(Value())
    {
      r := new Matrix4.Copy(this);
    }

    /** Unary minus: a copy whose storage is replaced by the negated storage. */
    method Negated() returns (r: Matrix4)
      requires Valid()
      ensures r.Valid() && fresh(r.m)
      ensures r.Value() == MatrixValue.Neg(Value()) && Value() == old(Value())
    {
      r := new Matrix4.Copy(this);
      forall i, j | 0 <= i < MatrixValue.RowNum && 0 <= j < MatrixValue.ColNum {
        r.m[i, j] := -m[i, j];
      }
      MatrixValue.Extensionality(r.Value(), MatrixValue.Neg(Value()));
    }

    /** Exact elementwise equality, with no tolerance. */
    function Equals(rhs: Matrix4): (b: bool)
      reads m, rhs.m
      requires Valid() && rhs.Valid()
      ensures b <==> Value() == rhs.Value()
    {
      var same := forall i, j | 0 <= i < MatrixValue.RowNum && 0 <= j < MatrixValue.ColNum :: m[i, j] == rhs.m[i, j];
      if same then MatrixValue.Extensionality(Value(), rhs.Value()); true else false
    }

    /** Inequality, the negation of Equals. */
    function NotEquals(rhs: Matrix4): (b: bool)
      reads m, rhs.m
      requires Valid() && rhs.Valid()
      ensures b <==> Value() != rhs.Value()
    {
      !Equals(rhs)
    }
  }

  // ---------------------------------------------------------------------
  // Binary operators, each a copy of the left operand followed by the
  // matching in-place operator

  /** a + b, leaving both operands unchanged. */
  method Sum(a: Matrix4, b: Matrix4) returns (r: Matrix4)
    requires a.Valid() && b.Valid()
    ensures r.Valid() && fresh(r.m)
    ensures r.Value() == MatrixValue.Add(a.Value(), b.Value())
    ensures a.Value() == old(a.Value()) && b.Value() == old(b.Value())
  {
    r := new Matrix4.Copy(a);
    r.AddAssign(b);
  }

  /** a - b, leaving both operands unchanged. */
  method Difference(a: Matrix4, b: Matrix4) returns (r: Matrix4)
    requires a.Valid() && b.Valid()
    ensures r.Valid() && fresh(r.m)
    ensures r.Value() == MatrixValue.Sub(a.Value(), b.Value())
    ensures a.Value() == old(a.Value()) && b.Value() == old(b.Value())
  {
    r := new Matrix4.Copy(a);
    r.SubAssign(b);
  }

  /** a * s (and s * a), leaving the operand unchanged. */
  method Scaled(a: Matrix4, s: int) returns (r: Matrix4)
    requires a.Valid()
    ensures r.Valid() && fresh(r.m)
    ensures r.Value() == MatrixValue.Scale(a.Value(), s)
    ensures a.Value() == old(a.Value())
  {
    r := new Matrix4.Copy(a);
    r.ScaleAssign(s);
  }

  /** What a caller can conclude from the contracts alone. */
  method DiagonalScenario()
  {
    var d := new Matrix4.FromElements(1, 0, 0, 0,
                                      0, 2, 0, 0,
                                      0, 0, 3, 0,
                                      0, 0, 0, 4);
    assert d.At(1, 1) == 2;
    var c := d.Col(2);
    assert c == [0, 0, 3, 0];
    var z := Matrix4.Zero();
    var z5 := Scaled(z, 5);
    MatrixValue.ScaleUnitAndZero(z.Value(), 5);
    assert z5.Equals(z);
    var nd := d.Negated();
    var s := Sum(d, nd);
    MatrixValue.AddNeg(d.Value());
    assert s.Equals(z);
    assert d.Equals(d) && !d.NotEquals(d);
  }
}
