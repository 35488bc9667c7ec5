# Matrix4_T in Dafny

A model of KlayGE's fixed-size 4x4 matrix value type `Matrix4_T<T>`
(`KFL/include/KFL/Matrix.hpp`): four rows of four scalars stored row-major,
its constructors, the `Zero()` and `Identity()` constants, element, flat-index,
row and column access, and its elementwise in-place and derived operators.

The scalar type `T` is modelled as Dafny's unbounded `int`, so sums,
differences, negations and scalar products are exact and the algebraic laws
hold without tolerance.

Two modules:

- `MatrixValue` (`matrix_value.dfy`): the matrix as a value. `Vec4` is a
  sequence of four scalars (the `Vector_T<T, 4>` a row or column is), `Mat4`
  four such rows. It defines storage order (`Flatten`), the buffer and
  16-argument constructions, the two constants, column read and write, and the
  elementwise `Add`, `Sub`, `Scale` and `Neg`. Lemmas state the round trips
  and the algebraic laws about them.
- `Matrix` (`matrix4.dfy`): the class `Matrix4`. Its storage is a 4x4
  `array2<int>` that the in-place operators update. `Value()` reads the array
  as a `Mat4`, and every method is proved against the `MatrixValue` function
  that describes its result. Where the source loops, the model loops:
  - the buffer constructor walks the buffer one row of four at a time;
  - `Col` get gathers into a fresh vector;
  - `Col` set scatters one element per row;
  - scalar `*=` scales one row at a time.

  The whole-storage assignments (`+=`, `-=`, `=`, the copy and unary minus)
  are simultaneous `forall` updates, which also makes `a += a` behave as the
  source's does. The 16-argument constructor writes all sixteen elements in
  one simultaneous update, each from its own argument. The binary `+`, `-` and
  scalar `*` that the source derives through its operator mixins are
  module-level methods that copy the left operand and apply the in-place
  operator, so they leave both operands unchanged.

Preconditions carry the source's caller obligations: indices are below 4,
flat indices below 16, and a buffer holds at least 16 scalars. The source
checks none of these.

## Model

| member | source | states |
|---|---|---|
| `MatrixValue.Extensionality` | KFL/include/KFL/Matrix.hpp:219-223 | two matrices whose sixteen elements agree are equal, so elementwise comparison decides equality |
| `MatrixValue.Flatten` | KFL/include/KFL/Matrix.hpp:125-136 | storage order has 16 elements and element k is the one at row k/4, column k%4 |
| `MatrixValue.FromBufferAt` | KFL/include/KFL/Matrix.hpp:72-79 | the buffer construction puts buf[4*i+j] at row i, column j |
| `MatrixValue.FlattenFromBuffer` | KFL/include/KFL/Matrix.hpp:72-79 | iterating a matrix built from a buffer reproduces the buffer's first 16 scalars in order |
| `MatrixValue.FromBufferFlatten` | KFL/include/KFL/Matrix.hpp:72-79 | building from a matrix's own storage order gives back that matrix |
| `MatrixValue.FromElements` | KFL/include/KFL/Matrix.hpp:87-96 | the p-th of the 16 arguments is the p-th element in storage order (row p/4, column p%4) |
| `MatrixValue.Zero` | KFL/include/KFL/Matrix.hpp:101-109 | every element of the zero constant is 0 |
| `MatrixValue.Identity` | KFL/include/KFL/Matrix.hpp:111-119 | element (i, j) of the identity constant is 1 when i == j and 0 otherwise |
| `MatrixValue.ColumnOfWithColumn` | KFL/include/KFL/Matrix.hpp:142-157 | reading column j after writing v to it gives v |
| `MatrixValue.WithColumnAt` | KFL/include/KFL/Matrix.hpp:142-148 | a column write sets (i, j) to v[i] and leaves every element of the other columns unchanged |
| `MatrixValue.AddZero` | KFL/include/KFL/Matrix.hpp:160-171 | A + Zero() == A and A - Zero() == A |
| `MatrixValue.AddNeg` | KFL/include/KFL/Matrix.hpp:212-217 | A + (-A) == Zero() |
| `MatrixValue.AddCommutes` | KFL/include/KFL/Matrix.hpp:160-165 | A + B == B + A |
| `MatrixValue.AddAssociates` | KFL/include/KFL/Matrix.hpp:160-165 | (A + B) + C == A + (B + C) |
| `MatrixValue.SubIsAddNeg` | KFL/include/KFL/Matrix.hpp:166-171 | A - B == A + (-B) |
| `MatrixValue.SubUndoesAdd` | KFL/include/KFL/Matrix.hpp:160-171 | (A + B) - B == A |
| `MatrixValue.NegProperties` | KFL/include/KFL/Matrix.hpp:212-217 | -(-A) == A, and -A is A scaled by -1 |
| `MatrixValue.ScaleDistributes` | KFL/include/KFL/Matrix.hpp:178-186 | (A + B) * s == A * s + B * s |
| `MatrixValue.ScaleUnitAndZero` | KFL/include/KFL/Matrix.hpp:178-186 | A * 1 == A and Zero() * s == Zero() |
| `Matrix.Matrix4.FromBuffer` | KFL/include/KFL/Matrix.hpp:72-79 | fresh storage holding FromBuffer(buf), whose begin..end iteration equals the first 16 buffer scalars |
| `Matrix.Matrix4.FromElements` | KFL/include/KFL/Matrix.hpp:87-96 | fresh storage holding the 16 arguments in row-major reading order |
| `Matrix.Matrix4.Copy` | KFL/include/KFL/Matrix.hpp:80-82 | fresh storage, not shared with the source, holding the same value |
| `Matrix.Matrix4.Zero` | KFL/include/KFL/Matrix.hpp:101-109 | a matrix holding the all-zero value |
| `Matrix.Matrix4.Identity` | KFL/include/KFL/Matrix.hpp:111-119 | a matrix holding the identity value |
| `Matrix.Matrix4.Size` | KFL/include/KFL/Matrix.hpp:98-99 | size() is 16, the number of elements begin..end spans |
| `Matrix.Matrix4.At` | KFL/include/KFL/Matrix.hpp:121-124 | operator()(row, col) is element (row, col) of the held value |
| `Matrix.Matrix4.Elements` | KFL/include/KFL/Matrix.hpp:125-132 | begin..end spans size() == 16 elements, the k-th being (k/4, k%4) |
| `Matrix.Matrix4.Index` | KFL/include/KFL/Matrix.hpp:133-136 | operator[](k) equals operator()(k/4, k%4) |
| `Matrix.Matrix4.Row` | KFL/include/KFL/Matrix.hpp:140-141 | Row(i)[j] == (i, j) for every j |
| `Matrix.Matrix4.SetRow` | KFL/include/KFL/Matrix.hpp:138-139 | row i becomes v and every other row is unchanged |
| `Matrix.Matrix4.Col` | KFL/include/KFL/Matrix.hpp:149-157 | Col(j)[i] == (i, j) for every i; the matrix is not modified |
| `Matrix.Matrix4.SetCol` | KFL/include/KFL/Matrix.hpp:142-148 | the new value is the old one with column j replaced by v |
| `Matrix.Matrix4.AddAssign` | KFL/include/KFL/Matrix.hpp:160-165 | every element becomes old(i, j) + rhs(i, j), also when rhs is the receiver; a distinct rhs is unchanged |
| `Matrix.Matrix4.SubAssign` | KFL/include/KFL/Matrix.hpp:166-171 | every element becomes old(i, j) - rhs(i, j), also when rhs is the receiver; a distinct rhs is unchanged |
| `Matrix.Matrix4.ScaleAssign` | KFL/include/KFL/Matrix.hpp:178-186 | every element is multiplied by the scalar |
| `Matrix.Matrix4.Assign` | KFL/include/KFL/Matrix.hpp:191-198 | the target ends equal to the source's value, self-assignment included |
| `Matrix.Matrix4.Positive` | KFL/include/KFL/Matrix.hpp:210-211 | unary + returns a new matrix equal to the operand |
| `Matrix.Matrix4.Negated` | KFL/include/KFL/Matrix.hpp:212-217 | unary - returns a new matrix whose every element is negated; the operand is unchanged |
| `Matrix.Matrix4.Equals` | KFL/include/KFL/Matrix.hpp:219-223 | == holds exactly when the two values are equal, with no tolerance |
| `Matrix.Matrix4.NotEquals` | KFL/include/KFL/Matrix.hpp:45-49 | != holds exactly when the values differ, the negation of == |
| `Matrix.Sum` | KFL/include/KFL/Matrix.hpp:45-46 | binary + is a new matrix holding Add(a, b); both operands are unchanged |
| `Matrix.Difference` | KFL/include/KFL/Matrix.hpp:45-46 | binary - is a new matrix holding Sub(a, b); both operands are unchanged |
| `Matrix.Scaled` | KFL/include/KFL/Matrix.hpp:48-49 | binary * by a scalar is a new matrix holding Scale(a, s); the operand is unchanged |

## Left out

- Matrix-by-matrix `*=` and binary `*` (lines 172-177, 229-234): they delegate to `MathLib::mul`, which is not part of this model. The identity law `A * Identity() == A` is therefore not stated.
- `operator/=` (lines 187-189) and the derived binary `/` (line 47, from the operator mixins): `/=` computes the reciprocal `1.0f / rhs` as a float and scales by it. Floating point is not modelled. What an integer element type receives from that float scalar is decided inside the `Vector_T` row type, which is not part of this model.
- The converting constructor and assignment from `Matrix4_T<U>` (lines 83-86, 199-207): they depend on C++ numeric conversion rules. `+=` and `-=` accept a `Matrix4_T<U>` in the source; the model covers the same-type case only.
- The default constructor (lines 70-71): it leaves the elements indeterminate, so nothing can be stated about them.
- Scalar width: `T` is an exact integer. Overflow, wrap-around and rounding of a machine type are not modelled.
- `Matrix.Matrix4.ScaleAssign`: the source's scalar `*=` (lines 178-179) takes a scalar of any type `U`; the model covers only a scalar of the element type itself. The source also takes that scalar by reference and reads it again for every row (lines 181-184). When the scalar is an element of the same matrix, as in `m *= m(0, 0)`, the rows after that element's row are scaled by the already-scaled value. For example, take row 0 equal to [2, 1, 1, 1] and rows 1-3 equal to [1, 1, 1, 1]. `m *= m(0, 0)` first turns element (0, 0) into 4, so rows 1-3 end as [4, 4, 4, 4]. The model's `s` is passed by value, so rows 1-3 end as [2, 2, 2, 2]. The binary `Matrix.Scaled` is not affected, because it copies its operand first.
- `Matrix.Matrix4.Zero`, `Matrix.Matrix4.Identity`: the source returns a reference to one function-local static instance, initialised once and shared. Each call in the model returns fresh storage holding the same value. Callers only receive a const reference, so they observe the same value either way.
- Raw pointers: `begin`/`end` are modelled as the sequence they delimit (`Elements`) and `operator[]` as indexing into it. Writing through the returned references and iterators is not modelled.
- `Matrix.Matrix4.SetCol`: the source's `Row` get (lines 140-141) returns a live reference into the storage, and `Col` set (lines 142-147) reads its argument through a reference while it writes one row at a time. When that argument is row k of the same matrix and k < j, the write at step k overwrites element (k, j), and step j then reads the overwritten value instead of the original. For example, with row 0 equal to [1, 2, 3, 4], `Col(1, Row(0))` leaves element (1, 1) equal to 1. The model passes `v` by value, so `SetCol` always writes the original row, and element (1, 1) ends up 2.
- The `Vector_T` row type: it is not part of this model. Rows and columns are `Vec4` values, and whole-row operations are element-by-element updates of the 4x4 array.
- The boost operator mixins (lines 45-49): only what they derive is modelled. That is binary `+`, `-`, scalar `*` and `!=`, as copy-then-compound-assign and as the negation of `==`.
