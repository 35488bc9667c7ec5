/**
  The value of a 4x4 matrix over an exact scalar type: four rows of four
  scalars in row-major order, with the elementwise algebra of Matrix4_T.
  Scalars are mathematical integers, so every law below holds exactly.
 */
module MatrixValue {

  /** Shape constants, as the row_num, col_num and elem_num enumerators. */
  const RowNum := 4
  const ColNum := 4
  const ElemNum := RowNum * ColNum

  /** A fixed-size vector of four scalars (one row or one column). */
  type Vec4 = v: seq<int> | |v| == 4 witness [0, 0, 0, 0]

  /** Four rows of four scalars; element (i, j) is a[i][j]. */
  type Mat4 = a: seq<Vec4> | |a| == 4
    witness var z: Vec4 := [0, 0, 0, 0]; [z, z, z, z]

  /** Two matrices with the same elements are the same matrix. */
  lemma Extensionality(a: Mat4, b: Mat4)
    requires forall i, j | 0 <= i < RowNum && 0 <= j < ColNum :: a[i][j] == b[i][j]
    ensures a == b
  {
    forall i | 0 <= i < RowNum
      ensures a[i] == b[i]
    {
      assert forall j | 0 <= j < ColNum :: a[i][j] == b[i][j];
    }
  }

  // ---------------------------------------------------------------------
  // Storage order and construction

  /** The elements in storage order, as iterating begin() .. end() visits them. */
  function Flatten(a: Mat4): (s: seq<int>)
    ensures |s| == ElemNum
    ensures forall k | 0 <= k < ElemNum :: s[k] == a[k / ColNum][k % ColNum]
  {
    var first: seq<int> := a[0];
    var s := first + a[1] + a[2] + a[3];
    assert forall k | 0 <= k < ElemNum :: s[k] == a[k / ColNum][k % ColNum] by {
      forall k | 0 <= k < ElemNum
        ensures s[k] == a[k / ColNum][k % ColNum]
      {
        if k < 4 {
        } else if k < 8 {
          assert s[k] == a[1][k - 4];
        } else if k < 12 {
          assert s[k] == a[2][k - 8];
        } else {
          assert s[k] == a[3][k - 12];
        }
      }
    }
    s
  }

  /** The matrix read from the first sixteen scalars of a buffer, one row at a time. */
  function FromBuffer(buf: seq<int>): Mat4
    requires |buf| >= ElemNum
  {
    seq(RowNum, i requires 0 <= i < RowNum => buf[ColNum * i .. ColNum * i + ColNum])
  }

  /** Reading a buffer into a matrix keeps every scalar at its row-major position. */
  lemma FromBufferAt(buf: seq<int>, i: nat, j: nat)
    requires |buf| >= ElemNum && i < RowNum && j < ColNum
    ensures FromBuffer(buf)[i][j] == buf[ColNum * i + j]
  {
  }

  /** Iterating a matrix built from a buffer gives back the buffer's sixteen scalars. */
  lemma FlattenFromBuffer(buf: seq<int>)
    requires |buf| >= ElemNum
    ensures Flatten(FromBuffer(buf)) == buf[..ElemNum]
  {
  }

  /** Building from a matrix's own storage order reproduces the matrix. */
  lemma FromBufferFlatten(a: Mat4)
    ensures FromBuffer(Flatten(a)) == a
  {
    var b := FromBuffer(Flatten(a));
    forall i, j | 0 <= i < RowNum && 0 <= j < ColNum
      ensures b[i][j] == a[i][j]
    {
      FromBufferAt(Flatten(a), i, j);
      assert (ColNum * i + j) / ColNum == i && (ColNum * i + j) % ColNum == j;
    }
    Extensionality(b, a);
  }

  /** The matrix of sixteen scalars named in row-major reading order. */
  function FromElements(f11: int, f12: int, f13: int, f14: int,
                        f21: int, f22: int, f23: int, f24: int,
                        f31: int, f32: int, f33: int, f34: int,
                        f41: int, f42: int, f43: int, f44: int): (a: Mat4)
    ensures Flatten(a) == [f11, f12, f13, f14, f21, f22, f23, f24,
                           f31, f32, f33, f34, f41, f42, f43, f44]
  {
    [[f11, f12, f13, f14],
     [f21, f22, f23, f24],
     [f31, f32, f33, f34],
     [f41, f42, f43, f44]]
  }

  /** The all-zero matrix. */
  function Zero(): (z: Mat4)
    ensures forall i, j | 0 <= i < RowNum && 0 <= j < ColNum :: z[i][j] == 0
  {
    FromElements(0, 0, 0, 0,
                 0, 0, 0, 0,
                 0, 0, 0, 0,
                 0, 0, 0, 0)
  }

  /** The identity matrix: ones on the diagonal, zeros elsewhere. */
  function Identity(): (e: Mat4)
    ensures forall i, j | 0 <= i < RowNum && 0 <= j < ColNum :: e[i][j] == if i == j then 1 else 0
  {
    FromElements(1, 0, 0, 0,
                 0, 1, 0, 0,
                 0, 0, 1, 0,
                 0, 0, 0, 1)
  }

  // ---------------------------------------------------------------------
  // Rows and columns

  /** Column j, gathered one element from each row. */
  function Column(a: Mat4, j: nat): Vec4
    requires j < ColNum
  {
    seq(RowNum, i requires 0 <= i < RowNum => a[i][j])
  }

  /** The matrix with column j replaced by v, one element scattered into each row. */
  function WithColumn(a: Mat4, j: nat, v: Vec4): Mat4
    requires j < ColNum
  {
    seq(RowNum, i requires 0 <= i < RowNum => a[i][j := v[i]])
  }

  /** Writing column j then reading it back gives the written vector. */
  lemma ColumnOfWithColumn(a: Mat4, j: nat, v: Vec4)
    requires j < ColNum
    ensures Column(WithColumn(a, j, v), j) == v
  {
  }

  /**
    Writing column j sets element (i, j) to v[i] and leaves every element
    of every other column as it was.
   */
  lemma WithColumnAt(a: Mat4, j: nat, v: Vec4, i: nat, k: nat)
    requires j < ColNum && i < RowNum && k < ColNum
    ensures WithColumn(a, j, v)[i][k] == if k == j then v[i] else a[i][k]
  {
  }

  // ---------------------------------------------------------------------
  // Elementwise algebra

  /** Elementwise sum. */
  function Add(a: Mat4, b: Mat4): Mat4
  {
    seq(RowNum, i requires 0 <= i < RowNum =>
      seq(ColNum, j requires 0 <= j < ColNum => a[i][j] + b[i][j]))
  }

  /** Elementwise difference. */
  function Sub(a: Mat4, b: Mat4): Mat4
  {
    seq(RowNum, i requires 0 <= i < RowNum =>
      seq(ColNum, j requires 0 <= j < ColNum => a[i][j] - b[i][j]))
  }

  /** Every element multiplied by the scalar s. */
  function Scale(a: Mat4, s: int): Mat4
  {
    seq(RowNum, i requires 0 <= i < RowNum =>
      seq(ColNum, j requires 0 <= j < ColNum => a[i][j] * s))
  }

  /** Every element negated. */
  function Neg(a: Mat4): Mat4
  {
    seq(RowNum, i requires 0 <= i < RowNum =>
      seq(ColNum, j requires 0 <= j < ColNum => -a[i][j]))
  }

  /** Zero is a right identity of addition and of subtraction. */
  lemma AddZero(a: Mat4)
    ensures Add(a, Zero()) == a
    ensures Sub(a, Zero()) == a
  {
    Extensionality(Add(a, Zero()), a);
    Extensionality(Sub(a, Zero()), a);
  }

  /** A matrix plus its negation is the zero matrix. */
  lemma AddNeg(a: Mat4)
    ensures Add(a, Neg(a)) == Zero()
  {
    Extensionality(Add(a, Neg(a)), Zero());
  }

  /** Addition is commutative. */
  lemma AddCommutes(a: Mat4, b: Mat4)
    ensures Add(a, b) == Add(b, a)
  {
    Extensionality(Add(a, b), Add(b, a));
  }

  /** Addition is associative. */
  lemma AddAssociates(a: Mat4, b: Mat4, c: Mat4)
    ensures Add(Add(a, b), c) == Add(a, Add(b, c))
  {
    Extensionality(Add(Add(a, b), c), Add(a, Add(b, c)));
  }

  /** Subtraction agrees with adding the negation. */
  lemma SubIsAddNeg(a: Mat4, b: Mat4)
    ensures Sub(a, b) == Add(a, Neg(b))
  {
    Extensionality(Sub(a, b), Add(a, Neg(b)));
  }

  /** Subtracting what was added restores the original matrix. */
  lemma SubUndoesAdd(a: Mat4, b: Mat4)
    ensures Sub(Add(a, b), b) == a
  {
    Extensionality(Sub(Add(a, b), b), a);
  }

  /** Negation is an involution, and it is scaling by -1. */
  lemma NegProperties(a: Mat4)
    ensures Neg(Neg(a)) == a
    ensures Neg(a) == Scale(a, -1)
  {
    Extensionality(Neg(Neg(a)), a);
    Extensionality(Neg(a), Scale(a, -1));
  }

  /** Scaling distributes over matrix addition. */
  lemma ScaleDistributes(a: Mat4, b: Mat4, s: int)
    ensures Scale(Add(a, b), s) == Add(Scale(a, s), Scale(b, s))
  {
    forall i, j | 0 <= i < RowNum && 0 <= j < ColNum
      ensures Scale(Add(a, b), s)[i][j] == Add(Scale(a, s), Scale(b, s))[i][j]
    {
      calc {
        Scale(Add(a, b), s)[i][j];
        (a[i][j] + b[i][j]) * s;
        a[i][j] * s + b[i][j] * s;
      }
    }
    Extensionality(Scale(Add(a, b), s), Add(Scale(a, s), Scale(b, s)));
  }

  /** Scaling by one changes nothing; scaling the zero matrix gives zero. */
  lemma ScaleUnitAndZero(a: Mat4, s: int)
    ensures Scale(a, 1) == a
    ensures Scale(Zero(), s) == Zero()
  {
    Extensionality(Scale(a, 1), a);
    Extensionality(Scale(Zero(), s), Zero());
  }
}
