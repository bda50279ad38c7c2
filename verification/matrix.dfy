/** 3x3 matrices for 2D affine transforms. The nine elements are stored
    column by column; the named fields follow the row-major order of the
    nine-argument constructor. */
module Matrices {
  import opened Vectors
  import opened Lines
  import Rects
  import Polygons
  import Circles

  /** `Matrix3x3(e00, e01, e02, e10, e11, e12, e20, e21, e22)`: field eRC is
      the element in row R and column C. */
  datatype Matrix3x3 = Matrix3x3(e00: real, e01: real, e02: real,
                                 e10: real, e11: real, e12: real,
                                 e20: real, e21: real, e22: real)

  /** `Matrix3x3()`: all zeros. */
  const Zero3 := Matrix3x3(0.0, 0.0, 0.0, 0.0, 0.0, 0.0, 0.0, 0.0, 0.0)

  /** `Matrix3x3::identity`. */
  const Identity := Matrix3x3(1.0, 0.0, 0.0, 0.0, 1.0, 0.0, 0.0, 0.0, 1.0)

  /** The storage order of the `elements` array: column by column. */
  function Elements(m: Matrix3x3): (s: seq<real>)
    ensures |s| == 9
  {
    [m.e00, m.e10, m.e20, m.e01, m.e11, m.e21, m.e02, m.e12, m.e22]
  }

  /** The element in row r and column c, by name. */
  function Entry(m: Matrix3x3, r: nat, c: nat): real
    requires r < 3 && c < 3
  {
    match (r, c)
    case (0, 0) => m.e00 case (0, 1) => m.e01 case (0, 2) => m.e02
    case (1, 0) => m.e10 case (1, 1) => m.e11 case (1, 2) => m.e12
    case (2, 0) => m.e20 case (2, 1) => m.e21 case _ => m.e22
  }

  /** `element(row, column)`: elements[column * 3 + row]; both indices must
      be below 3. */
  function Element(m: Matrix3x3, row: int, column: int): (v: real)
    requires 0 <= row < 3 && 0 <= column < 3
    ensures v == Entry(m, row, column)
  {
    Elements(m)[column * 3 + row]
  }

  /** `fromTranslation(tx, ty)`. */
  function FromTranslation(tx: real, ty: real): Matrix3x3
  {
    Matrix3x3(1.0, 0.0, tx, 0.0, 1.0, ty, 0.0, 0.0, 1.0)
  }

  /** `fromScale(sx, sy)`. */
  function FromScale(sx: real, sy: real): Matrix3x3
  {
    Matrix3x3(sx, 0.0, 0.0, 0.0, sy, 0.0, 0.0, 0.0, 1.0)
  }

  /** `fromSkew(kx, ky)`. */
  function FromSkew(kx: real, ky: real): Matrix3x3
  {
    Matrix3x3(1.0, kx, 0.0, ky, 1.0, 0.0, 0.0, 0.0, 1.0)
  }

  /** `xVector()`, `yVector()` and `translation()`: the first two columns and
      the translation column, without the bottom row. */
  function XVector(m: Matrix3x3): Vec2 { Vec2(m.e00, m.e10) }
  function YVector(m: Matrix3x3): Vec2 { Vec2(m.e01, m.e11) }
  function Translation(m: Matrix3x3): Vec2 { Vec2(m.e02, m.e12) }

  /** `setTranslation(value)`: only the translation column changes. */
  function SetTranslation(m: Matrix3x3, value: Vec2): (q: Matrix3x3)
    ensures Translation(q) == value
    ensures XVector(q) == XVector(m) && YVector(q) == YVector(m)
    ensures q.e20 == m.e20 && q.e21 == m.e21 && q.e22 == m.e22
  {
    m.(e02 := value.x, e12 := value.y)
  }

  /** A matrix of an affine transform: bottom row (0, 0, 1). */
  predicate IsAffine(m: Matrix3x3) { m.e20 == 0.0 && m.e21 == 0.0 && m.e22 == 1.0 }

  // ---------------------------------------------------------------------
  // Algebra

  /** A row (x0, x1, x2) times a column (y0, y1, y2). */
  function Dot3(x0: real, x1: real, x2: real, y0: real, y1: real, y2: real): real
  {
    x0 * y0 + x1 * y1 + x2 * y2
  }

  /** The 2x2 determinant a * b - c * d, as the cofactors of `inverse()`
      and `determinant()` write it. */
  function Minor(a: real, b: real, c: real, d: real): real
  {
    a * b - c * d
  }

  /** `operator*(m1, m2)`: entry (r, c) is row r of m1 times column c of m2. */
  function Product(m1: Matrix3x3, m2: Matrix3x3): Matrix3x3
  {
    Matrix3x3(
      Dot3(m1.e00, m1.e01, m1.e02, m2.e00, m2.e10, m2.e20),
      Dot3(m1.e00, m1.e01, m1.e02, m2.e01, m2.e11, m2.e21),
      Dot3(m1.e00, m1.e01, m1.e02, m2.e02, m2.e12, m2.e22),
      Dot3(m1.e10, m1.e11, m1.e12, m2.e00, m2.e10, m2.e20),
      Dot3(m1.e10, m1.e11, m1.e12, m2.e01, m2.e11, m2.e21),
      Dot3(m1.e10, m1.e11, m1.e12, m2.e02, m2.e12, m2.e22),
      Dot3(m1.e20, m1.e21, m1.e22, m2.e00, m2.e10, m2.e20),
      Dot3(m1.e20, m1.e21, m1.e22, m2.e01, m2.e11, m2.e21),
      Dot3(m1.e20, m1.e21, m1.e22, m2.e02, m2.e12, m2.e22))
  }

  /** The identity is neutral on both sides. */
  lemma IdentityIsNeutral(m: Matrix3x3)
    ensures Product(Identity, m) == m
    ensures Product(m, Identity) == m
  {
  }

  /** `operator*(m, s)` and `operator*(s, m)`: every stored element scaled. */
  function ScaleBy(m: Matrix3x3, s: real): Matrix3x3
  {
    Matrix3x3(m.e00 * s, m.e01 * s, m.e02 * s, m.e10 * s, m.e11 * s, m.e12 * s, m.e20 * s, m.e21 * s, m.e22 * s)
  }

  /** Scaling multiplies each of the nine stored elements by s. */
  lemma ScaleByElements(m: Matrix3x3, s: real)
    ensures forall i :: 0 <= i < 9 ==> Elements(ScaleBy(m, s))[i] == Elements(m)[i] * s
  {
  }

  /** The entries of a scaled matrix, one by one, for the proofs below. */
  lemma ScaledEntries(m: Matrix3x3, s: real)
    ensures ScaleBy(m, s).e00 == m.e00 * s
    ensures ScaleBy(m, s).e01 == m.e01 * s
    ensures ScaleBy(m, s).e02 == m.e02 * s
    ensures ScaleBy(m, s).e10 == m.e10 * s
    ensures ScaleBy(m, s).e11 == m.e11 * s
    ensures ScaleBy(m, s).e12 == m.e12 * s
    ensures ScaleBy(m, s).e20 == m.e20 * s
    ensures ScaleBy(m, s).e21 == m.e21 * s
    ensures ScaleBy(m, s).e22 == m.e22 * s
  {
  }

  /** Scaling the column scales the row-by-column product. */
  lemma DotScaledRight(x0: real, x1: real, x2: real, y0: real, y1: real, y2: real, k: real)
    ensures Dot3(x0, x1, x2, y0 * k, y1 * k, y2 * k) == Dot3(x0, x1, x2, y0, y1, y2) * k
  {
  }

  /** Scaling the row scales the row-by-column product. */
  lemma DotScaledLeft(x0: real, x1: real, x2: real, y0: real, y1: real, y2: real, k: real)
    ensures Dot3(x0 * k, x1 * k, x2 * k, y0, y1, y2) == Dot3(x0, x1, x2, y0, y1, y2) * k
  {
  }

  /** Entry (0, 0) of a product whose right factor is scaled by k. */
  lemma ScaledOnTheRight00(a: Matrix3x3, b: Matrix3x3, k: real)
    ensures Product(a, ScaleBy(b, k)).e00 == Product(a, b).e00 * k
  {
    DotScaledRight(a.e00, a.e01, a.e02, b.e00, b.e10, b.e20, k);
  }

  /** Entry (0, 1) of a product whose right factor is scaled by k. */
  lemma ScaledOnTheRight01(a: Matrix3x3, b: Matrix3x3, k: real)
    ensures Product(a, ScaleBy(b, k)).e01 == Product(a, b).e01 * k
  {
    DotScaledRight(a.e00, a.e01, a.e02, b.e01, b.e11, b.e21, k);
  }

  /** Entry (0, 2) of a product whose right factor is scaled by k. */
  lemma ScaledOnTheRight02(a: Matrix3x3, b: Matrix3x3, k: real)
    ensures Product(a, ScaleBy(b, k)).e02 == Product(a, b).e02 * k
  {
    DotScaledRight(a.e00, a.e01, a.e02, b.e02, b.e12, b.e22, k);
  }

  /** Entry (1, 0) of a product whose right factor is scaled by k. */
  lemma ScaledOnTheRight10(a: Matrix3x3, b: Matrix3x3, k: real)
    ensures Product(a, ScaleBy(b, k)).e10 == Product(a, b).e10 * k
  {
    DotScaledRight(a.e10, a.e11, a.e12, b.e00, b.e10, b.e20, k);
  }

  /** Entry (1, 1) of a product whose right factor is scaled by k. */
  lemma ScaledOnTheRight11(a: Matrix3x3, b: Matrix3x3, k: real)
    ensures Product(a, ScaleBy(b, k)).e11 == Product(a, b).e11 * k
  {
    DotScaledRight(a.e10, a.e11, a.e12, b.e01, b.e11, b.e21, k);
  }

  /** Entry (1, 2) of a product whose right factor is scaled by k. */
  lemma ScaledOnTheRight12(a: Matrix3x3, b: Matrix3x3, k: real)
    ensures Product(a, ScaleBy(b, k)).e12 == Product(a, b).e12 * k
  {
    DotScaledRight(a.e10, a.e11, a.e12, b.e02, b.e12, b.e22, k);
  }

  /** Entry (2, 0) of a product whose right factor is scaled by k. */
  lemma ScaledOnTheRight20(a: Matrix3x3, b: Matrix3x3, k: real)
    ensures Product(a, ScaleBy(b, k)).e20 == Product(a, b).e20 * k
  {
    DotScaledRight(a.e20, a.e21, a.e22, b.e00, b.e10, b.e20, k);
  }

  /** Entry (2, 1) of a product whose right factor is scaled by k. */
  lemma ScaledOnTheRight21(a: Matrix3x3, b: Matrix3x3, k: real)
    ensures Product(a, ScaleBy(b, k)).e21 == Product(a, b).e21 * k
  {
    DotScaledRight(a.e20, a.e21, a.e22, b.e01, b.e11, b.e21, k);
  }

  /** Entry (2, 2) of a product whose right factor is scaled by k. */
  lemma ScaledOnTheRight22(a: Matrix3x3, b: Matrix3x3, k: real)
    ensures Product(a, ScaleBy(b, k)).e22 == Product(a, b).e22 * k
  {
    DotScaledRight(a.e20, a.e21, a.e22, b.e02, b.e12, b.e22, k);
  }

  /** Scaling the right factor scales the product. */
  lemma MulScaleRight(a: Matrix3x3, b: Matrix3x3, k: real)
    ensures Product(a, ScaleBy(b, k)) == ScaleBy(Product(a, b), k)
  {
    ScaledOnTheRight00(a, b, k);
    ScaledOnTheRight01(a, b, k);
    ScaledOnTheRight02(a, b, k);
    ScaledOnTheRight10(a, b, k);
    ScaledOnTheRight11(a, b, k);
    ScaledOnTheRight12(a, b, k);
    ScaledOnTheRight20(a, b, k);
    ScaledOnTheRight21(a, b, k);
    ScaledOnTheRight22(a, b, k);
    ScaledEntries(Product(a, b), k);
  }

  /** Entry (0, 0) of a product whose left factor is scaled by k. */
  lemma ScaledOnTheLeft00(a: Matrix3x3, b: Matrix3x3, k: real)
    ensures Product(ScaleBy(a, k), b).e00 == Product(a, b).e00 * k
  {
    DotScaledLeft(a.e00, a.e01, a.e02, b.e00, b.e10, b.e20, k);
  }

  /** Entry (0, 1) of a product whose left factor is scaled by k. */
  lemma ScaledOnTheLeft01(a: Matrix3x3, b: Matrix3x3, k: real)
    ensures Product(ScaleBy(a, k), b).e01 == Product(a, b).e01 * k
  {
    DotScaledLeft(a.e00, a.e01, a.e02, b.e01, b.e11, b.e21, k);
  }

  /** Entry (0, 2) of a product whose left factor is scaled by k. */
  lemma ScaledOnTheLeft02(a: Matrix3x3, b: Matrix3x3, k: real)
    ensures Product(ScaleBy(a, k), b).e02 == Product(a, b).e02 * k
  {
    DotScaledLeft(a.e00, a.e01, a.e02, b.e02, b.e12, b.e22, k);
  }

  /** Entry (1, 0) of a product whose left factor is scaled by k. */
  lemma ScaledOnTheLeft10(a: Matrix3x3, b: Matrix3x3, k: real)
    ensures Product(ScaleBy(a, k), b).e10 == Product(a, b).e10 * k
  {
    DotScaledLeft(a.e10, a.e11, a.e12, b.e00, b.e10, b.e20, k);
  }

  /** Entry (1, 1) of a product whose left factor is scaled by k. */
  lemma ScaledOnTheLeft11(a: Matrix3x3, b: Matrix3x3, k: real)
    ensures Product(ScaleBy(a, k), b).e11 == Product(a, b).e11 * k
  {
    DotScaledLeft(a.e10, a.e11, a.e12, b.e01, b.e11, b.e21, k);
  }

  /** Entry (1, 2) of a product whose left factor is scaled by k. */
  lemma ScaledOnTheLeft12(a: Matrix3x3, b: Matrix3x3, k: real)
    ensures Product(ScaleBy(a, k), b).e12 == Product(a, b).e12 * k
  {
    DotScaledLeft(a.e10, a.e11, a.e12, b.e02, b.e12, b.e22, k);
  }

  /** Entry (2, 0) of a product whose left factor is scaled by k. */
  lemma ScaledOnTheLeft20(a: Matrix3x3, b: Matrix3x3, k: real)
    ensures Product(ScaleBy(a, k), b).e20 == Product(a, b).e20 * k
  {
    DotScaledLeft(a.e20, a.e21, a.e22, b.e00, b.e10, b.e20, k);
  }

  /** Entry (2, 1) of a product whose left factor is scaled by k. */
  lemma ScaledOnTheLeft21(a: Matrix3x3, b: Matrix3x3, k: real)
    ensures Product(ScaleBy(a, k), b).e21 == Product(a, b).e21 * k
  {
    DotScaledLeft(a.e20, a.e21, a.e22, b.e01, b.e11, b.e21, k);
  }

  /** Entry (2, 2) of a product whose left factor is scaled by k. */
  lemma ScaledOnTheLeft22(a: Matrix3x3, b: Matrix3x3, k: real)
    ensures Product(ScaleBy(a, k), b).e22 == Product(a, b).e22 * k
  {
    DotScaledLeft(a.e20, a.e21, a.e22, b.e02, b.e12, b.e22, k);
  }

  /** Scaling the left factor scales the product. */
  lemma MulScaleLeft(a: Matrix3x3, b: Matrix3x3, k: real)
    ensures Product(ScaleBy(a, k), b) == ScaleBy(Product(a, b), k)
  {
    ScaledOnTheLeft00(a, b, k);
    ScaledOnTheLeft01(a, b, k);
    ScaledOnTheLeft02(a, b, k);
    ScaledOnTheLeft10(a, b, k);
    ScaledOnTheLeft11(a, b, k);
    ScaledOnTheLeft12(a, b, k);
    ScaledOnTheLeft20(a, b, k);
    ScaledOnTheLeft21(a, b, k);
    ScaledOnTheLeft22(a, b, k);
    ScaledEntries(Product(a, b), k);
  }

  /** `transposed()`: element (r, c) of the result is element (c, r). */
  function Transposed(m: Matrix3x3): (t: Matrix3x3)
    ensures forall r, c :: 0 <= r < 3 && 0 <= c < 3 ==> Element(t, r, c) == Element(m, c, r)
  {
    Matrix3x3(m.e00, m.e10, m.e20, m.e01, m.e11, m.e21, m.e02, m.e12, m.e22)
  }

  /** Transposing twice gives back the matrix and the identity is its own
      transpose. */
  lemma TransposeLaws(a: Matrix3x3)
    ensures Transposed(Transposed(a)) == a
    ensures Transposed(Identity) == Identity
  {
  }

  /** `determinant()`: cofactor expansion along the first row. */
  function Determinant(m: Matrix3x3): real
  {
    m.e00 * Minor(m.e11, m.e22, m.e12, m.e21) - m.e01 * Minor(m.e22, m.e10, m.e12, m.e20) + m.e02 * Minor(m.e10, m.e21, m.e11, m.e20)
  }

  /** A translation has determinant one. */
  lemma DeterminantOfTranslation(tx: real, ty: real)
    ensures Determinant(FromTranslation(tx, ty)) == 1.0
  {
  }

  /** A scale has the product of its factors as determinant. */
  lemma DeterminantOfScale(sx: real, sy: real)
    ensures Determinant(FromScale(sx, sy)) == sx * sy
  {
  }

  /** Transposing keeps the determinant. */
  lemma DeterminantOfTransposed(m: Matrix3x3)
    ensures Determinant(Transposed(m)) == Determinant(m)
  {
  }

  /** `isInvertible()`. */
  predicate IsInvertible(m: Matrix3x3) { Determinant(m) != 0.0 }

  /** The transposed cofactor matrix `inverse()` starts from: the cofactors
      A to I of the code, laid out as `Matrix3x3(A, D, G, B, E, H, C, F, I)`. */
  function Adjugate(m: Matrix3x3): Matrix3x3
  {
    Matrix3x3(Minor(m.e11, m.e22, m.e12, m.e21), -Minor(m.e01, m.e22, m.e02, m.e21), Minor(m.e01, m.e12, m.e02, m.e11),
              -Minor(m.e10, m.e22, m.e12, m.e20), Minor(m.e00, m.e22, m.e02, m.e20), -Minor(m.e00, m.e12, m.e02, m.e10),
              Minor(m.e10, m.e21, m.e11, m.e20), -Minor(m.e00, m.e21, m.e01, m.e20), Minor(m.e00, m.e11, m.e01, m.e10))
  }

  /** The rows (a, b, c), (d, e, f) and (g, h, i) against the cofactors of
      row 0, (A, B, C) in `inverse()`: the determinant for row 0, zero for
      the others. */
  lemma CofactorsOfRow0(a: real, b: real, c: real, d: real, e: real, f: real, g: real, h: real, i: real)
    ensures Dot3(a, b, c, Minor(e, i, f, h), -Minor(d, i, f, g), Minor(d, h, e, g))
         == a * Minor(e, i, f, h) - b * Minor(i, d, f, g) + c * Minor(d, h, e, g)
    ensures Dot3(d, e, f, Minor(e, i, f, h), -Minor(d, i, f, g), Minor(d, h, e, g)) == 0.0
    ensures Dot3(g, h, i, Minor(e, i, f, h), -Minor(d, i, f, g), Minor(d, h, e, g)) == 0.0
  {
  }

  /** The same for the cofactors of row 1, (D, E, F). */
  lemma CofactorsOfRow1(a: real, b: real, c: real, d: real, e: real, f: real, g: real, h: real, i: real)
    ensures Dot3(a, b, c, -Minor(b, i, c, h), Minor(a, i, c, g), -Minor(a, h, b, g)) == 0.0
    ensures Dot3(d, e, f, -Minor(b, i, c, h), Minor(a, i, c, g), -Minor(a, h, b, g))
         == a * Minor(e, i, f, h) - b * Minor(i, d, f, g) + c * Minor(d, h, e, g)
    ensures Dot3(g, h, i, -Minor(b, i, c, h), Minor(a, i, c, g), -Minor(a, h, b, g)) == 0.0
  {
  }

  /** The same for the cofactors of row 2, (G, H, I). */
  lemma CofactorsOfRow2(a: real, b: real, c: real, d: real, e: real, f: real, g: real, h: real, i: real)
    ensures Dot3(a, b, c, Minor(b, f, c, e), -Minor(a, f, c, d), Minor(a, e, b, d)) == 0.0
    ensures Dot3(d, e, f, Minor(b, f, c, e), -Minor(a, f, c, d), Minor(a, e, b, d)) == 0.0
    ensures Dot3(g, h, i, Minor(b, f, c, e), -Minor(a, f, c, d), Minor(a, e, b, d))
         == a * Minor(e, i, f, h) - b * Minor(i, d, f, g) + c * Minor(d, h, e, g)
  {
  }

  /** The cofactors (A, D, G) against the columns (a, d, g), (b, e, h) and
      (c, f, i): the determinant for column 0, zero for the others. */
  lemma CofactorsOfColumn0(a: real, b: real, c: real, d: real, e: real, f: real, g: real, h: real, i: real)
    ensures Dot3(Minor(e, i, f, h), -Minor(b, i, c, h), Minor(b, f, c, e), a, d, g)
         == a * Minor(e, i, f, h) - b * Minor(i, d, f, g) + c * Minor(d, h, e, g)
    ensures Dot3(Minor(e, i, f, h), -Minor(b, i, c, h), Minor(b, f, c, e), b, e, h) == 0.0
    ensures Dot3(Minor(e, i, f, h), -Minor(b, i, c, h), Minor(b, f, c, e), c, f, i) == 0.0
  {
  }

  /** The same for the cofactors (B, E, H). */
  lemma CofactorsOfColumn1(a: real, b: real, c: real, d: real, e: real, f: real, g: real, h: real, i: real)
    ensures Dot3(-Minor(d, i, f, g), Minor(a, i, c, g), -Minor(a, f, c, d), a, d, g) == 0.0
    ensures Dot3(-Minor(d, i, f, g), Minor(a, i, c, g), -Minor(a, f, c, d), b, e, h)
         == a * Minor(e, i, f, h) - b * Minor(i, d, f, g) + c * Minor(d, h, e, g)
    ensures Dot3(-Minor(d, i, f, g), Minor(a, i, c, g), -Minor(a, f, c, d), c, f, i) == 0.0
  {
  }

  /** The same for the cofactors (C, F, I). */
  lemma CofactorsOfColumn2(a: real, b: real, c: real, d: real, e: real, f: real, g: real, h: real, i: real)
    ensures Dot3(Minor(d, h, e, g), -Minor(a, h, b, g), Minor(a, e, b, d), a, d, g) == 0.0
    ensures Dot3(Minor(d, h, e, g), -Minor(a, h, b, g), Minor(a, e, b, d), b, e, h) == 0.0
    ensures Dot3(Minor(d, h, e, g), -Minor(a, h, b, g), Minor(a, e, b, d), c, f, i)
         == a * Minor(e, i, f, h) - b * Minor(i, d, f, g) + c * Minor(d, h, e, g)
  {
  }

  /** The matrix times its adjugate is the determinant times the identity. */
  lemma AdjugateOnTheRight(m: Matrix3x3)
    ensures Product(m, Adjugate(m)) == ScaleBy(Identity, Determinant(m))
  {
    CofactorsOfRow0(m.e00, m.e01, m.e02, m.e10, m.e11, m.e12, m.e20, m.e21, m.e22);
    CofactorsOfRow1(m.e00, m.e01, m.e02, m.e10, m.e11, m.e12, m.e20, m.e21, m.e22);
    CofactorsOfRow2(m.e00, m.e01, m.e02, m.e10, m.e11, m.e12, m.e20, m.e21, m.e22);
    ScaledEntries(Identity, Determinant(m));
  }

  /** The adjugate times the matrix is the determinant times the identity. */
  lemma AdjugateOnTheLeft(m: Matrix3x3)
    ensures Product(Adjugate(m), m) == ScaleBy(Identity, Determinant(m))
  {
    CofactorsOfColumn0(m.e00, m.e01, m.e02, m.e10, m.e11, m.e12, m.e20, m.e21, m.e22);
    CofactorsOfColumn1(m.e00, m.e01, m.e02, m.e10, m.e11, m.e12, m.e20, m.e21, m.e22);
    CofactorsOfColumn2(m.e00, m.e01, m.e02, m.e10, m.e11, m.e12, m.e20, m.e21, m.e22);
    ScaledEntries(Identity, Determinant(m));
  }

  /** `inverse()`: the adjugate with every element multiplied by one over
      the determinant, which must not be zero. */
  function InverseOf(m: Matrix3x3): (inv: Matrix3x3)
    requires IsInvertible(m)
    ensures Product(m, inv) == Identity && Product(inv, m) == Identity
  {
    ScaledAdjugateIsInverse(m);
    ScaleBy(Adjugate(m), 1.0 / Determinant(m))
  }

  /** The adjugate scaled by one over the determinant is an inverse on both
      sides. */
  lemma ScaledAdjugateIsInverse(m: Matrix3x3)
    requires IsInvertible(m)
    ensures Product(m, ScaleBy(Adjugate(m), 1.0 / Determinant(m))) == Identity
    ensures Product(ScaleBy(Adjugate(m), 1.0 / Determinant(m)), m) == Identity
  {
    var k := 1.0 / Determinant(m);
    MulScaleRight(m, Adjugate(m), k);
    MulScaleLeft(Adjugate(m), m, k);
    AdjugateOnTheRight(m);
    AdjugateOnTheLeft(m);
    ScaledEntries(ScaleBy(Identity, Determinant(m)), k);
    assert Determinant(m) * k == 1.0;
  }

  /** The inverse of a translation translates back. */
  lemma InverseOfTranslation(tx: real, ty: real)
    ensures IsInvertible(FromTranslation(tx, ty)) && InverseOf(FromTranslation(tx, ty)) == FromTranslation(-tx, -ty)
  {
    DeterminantOfTranslation(tx, ty);
  }

  /** The inverse of a scale by non-zero factors divides by them. */
  lemma InverseOfScale(sx: real, sy: real)
    requires sx != 0.0 && sy != 0.0
    ensures IsInvertible(FromScale(sx, sy)) && InverseOf(FromScale(sx, sy)) == FromScale(1.0 / sx, 1.0 / sy)
  {
    DeterminantOfScale(sx, sy);
  }

  /** The matrix with the given elements in storage order. */
  function FromElements(s: seq<real>): (m: Matrix3x3)
    requires |s| == 9
    ensures Elements(m) == s
  {
    Matrix3x3(s[0], s[3], s[6], s[1], s[4], s[7], s[2], s[5], s[8])
  }

  /** Reading the elements back gives the matrix. */
  lemma ElementsRoundTrip(m: Matrix3x3)
    ensures FromElements(Elements(m)) == m
  {
  }

  /** The loop at the end of `inverse()`: each of the nine stored elements
      multiplied by k, one after the other. */
  method ScaleElementwise(m: Matrix3x3, k: real) returns (scaled: Matrix3x3)
    ensures scaled == ScaleBy(m, k)
  {
    var original := Elements(m);
    var elements := original;
    var i := 0;
    while i < 9
      invariant 0 <= i <= 9 && |elements| == 9
      invariant forall j :: 0 <= j < i ==> elements[j] == original[j] * k
      invariant forall j :: i <= j < 9 ==> elements[j] == original[j]
    {
      elements := elements[i := elements[i] * k];
      i := i + 1;
    }
    ScaleByElements(m, k);
    assert forall j :: 0 <= j < 9 ==> elements[j] == Elements(ScaleBy(m, k))[j];
    assert elements == Elements(ScaleBy(m, k));
    ElementsRoundTrip(ScaleBy(m, k));
    scaled := FromElements(elements);
  }

  /** `inverse()`: the adjugate, scaled element by element by one over the
      determinant; the result is a two-sided inverse. */
  method Inverse(m: Matrix3x3) returns (inv: Matrix3x3)
    requires IsInvertible(m)
    ensures inv == InverseOf(m)
    ensures Product(m, inv) == Identity && Product(inv, m) == Identity
  {
    var result := Adjugate(m);
    var determinant := 1.0 / Determinant(m);
    inv := ScaleElementwise(result, determinant);
  }

  // ---------------------------------------------------------------------
  // Transformations

  /** `transformedVector(v)`: the linear part only, that is the matrix
      applied to (x, y, 0). */
  function TransformedVector(m: Matrix3x3, v: Vec2): (r: Vec2)
    ensures r == Add(Scale(v.x, XVector(m)), Scale(v.y, YVector(m)))
  {
    Vec2(Dot3(m.e00, m.e01, m.e02, v.x, v.y, 0.0), Dot3(m.e10, m.e11, m.e12, v.x, v.y, 0.0))
  }

  /** `transformedPoint(v)`: the linear part plus the translation, that is
      the matrix applied to (x, y, 1). */
  function TransformedPoint(m: Matrix3x3, v: Vec2): (r: Vec2)
    ensures r == Add(TransformedVector(m, v), Translation(m))
  {
    Vec2(Dot3(m.e00, m.e01, m.e02, v.x, v.y, 1.0), Dot3(m.e10, m.e11, m.e12, v.x, v.y, 1.0))
  }

  /** A translation moves points by (tx, ty) and leaves vectors unchanged;
      a scale multiplies the coordinates. */
  lemma TranslationAndScale(tx: real, ty: real, sx: real, sy: real, v: Vec2)
    ensures TransformedPoint(FromTranslation(tx, ty), v) == Add(v, Vec2(tx, ty))
    ensures TransformedVector(FromTranslation(tx, ty), v) == v
    ensures TransformedVector(FromScale(sx, sy), v) == Vec2(sx * v.x, sy * v.y)
    ensures TransformedPoint(FromScale(sx, sy), v) == Vec2(sx * v.x, sy * v.y)
  {
  }

  /** The worked examples: translating by (1, 2) keeps the zero vector and
      moves the origin to (1, 2); scaling by (2, 3) maps (7, 5) to (14, 15). */
  lemma TransformExamples()
    ensures TransformedVector(FromTranslation(1.0, 2.0), Zero) == Zero
    ensures TransformedPoint(FromTranslation(1.0, 2.0), Zero) == Vec2(1.0, 2.0)
    ensures TransformedVector(FromScale(2.0, 3.0), Vec2(7.0, 5.0)) == Vec2(14.0, 15.0)
  {
    TranslationAndScale(1.0, 2.0, 2.0, 3.0, Zero);
    TranslationAndScale(1.0, 2.0, 2.0, 3.0, Vec2(7.0, 5.0));
  }

  /** Row (a0, a1, a2) of a product whose right factor b is affine, applied
      to the point (x, y): the same as applying b to the point first. */
  lemma AffinePointRow(a0: real, a1: real, a2: real, b00: real, b01: real, b02: real, b10: real, b11: real, b12: real,
                       b20: real, b21: real, b22: real, x: real, y: real)
    requires b20 == 0.0 && b21 == 0.0 && b22 == 1.0
    ensures Dot3(Dot3(a0, a1, a2, b00, b10, b20), Dot3(a0, a1, a2, b01, b11, b21), Dot3(a0, a1, a2, b02, b12, b22), x, y, 1.0)
         == Dot3(a0, a1, a2, Dot3(b00, b01, b02, x, y, 1.0), Dot3(b10, b11, b12, x, y, 1.0), 1.0)
  {
  }

  /** The same for the vector (x, y). */
  lemma AffineVectorRow(a0: real, a1: real, a2: real, b00: real, b01: real, b02: real, b10: real, b11: real, b12: real,
                        b20: real, b21: real, b22: real, x: real, y: real)
    requires b20 == 0.0 && b21 == 0.0
    ensures Dot3(Dot3(a0, a1, a2, b00, b10, b20), Dot3(a0, a1, a2, b01, b11, b21), Dot3(a0, a1, a2, b02, b12, b22), x, y, 0.0)
         == Dot3(a0, a1, a2, Dot3(b00, b01, b02, x, y, 0.0), Dot3(b10, b11, b12, x, y, 0.0), 0.0)
  {
  }

  /** Transforming a point by a product is transforming it by the right
      factor first, when that factor is affine. */
  lemma TransformComposition(a: Matrix3x3, b: Matrix3x3, v: Vec2)
    requires IsAffine(b)
    ensures TransformedPoint(Product(a, b), v) == TransformedPoint(a, TransformedPoint(b, v))
  {
    AffinePointRow(a.e00, a.e01, a.e02, b.e00, b.e01, b.e02, b.e10, b.e11, b.e12, b.e20, b.e21, b.e22, v.x, v.y);
    AffinePointRow(a.e10, a.e11, a.e12, b.e00, b.e01, b.e02, b.e10, b.e11, b.e12, b.e20, b.e21, b.e22, v.x, v.y);
  }

  /** The same for vectors. */
  lemma VectorTransformComposition(a: Matrix3x3, b: Matrix3x3, v: Vec2)
    requires IsAffine(b)
    ensures TransformedVector(Product(a, b), v) == TransformedVector(a, TransformedVector(b, v))
  {
    AffineVectorRow(a.e00, a.e01, a.e02, b.e00, b.e01, b.e02, b.e10, b.e11, b.e12, b.e20, b.e21, b.e22, v.x, v.y);
    AffineVectorRow(a.e10, a.e11, a.e12, b.e00, b.e01, b.e02, b.e10, b.e11, b.e12, b.e20, b.e21, b.e22, v.x, v.y);
  }

  /** An affine transform followed by its inverse leaves points in place. */
  lemma InverseUndoesTransform(m: Matrix3x3, v: Vec2)
    requires IsAffine(m) && IsInvertible(m)
    ensures TransformedPoint(InverseOf(m), TransformedPoint(m, v)) == v
  {
    TransformComposition(InverseOf(m), m, v);
    IdentityIsNeutral(m);
  }

  /** `transformedPolygon(p)`: every point transformed. */
  function TransformedPolygon(m: Matrix3x3, p: Polygons.Polygon): (q: Polygons.Polygon)
    ensures |q.points| == |p.points| && q.closed == p.closed
    ensures forall i :: 0 <= i < |p.points| ==> q.points[i] == TransformedPoint(m, p.points[i])
  {
    Polygons.Map(p, v => TransformedPoint(m, v))
  }

  /** `transformedLineSegment(s)`: both end points transformed. */
  function TransformedSegment(m: Matrix3x3, s: Segment): (t: Segment)
    ensures t.pointA == TransformedPoint(m, s.pointA) && t.pointB == TransformedPoint(m, s.pointB)
  {
    Segment(TransformedPoint(m, s.pointA), TransformedPoint(m, s.pointB))
  }

  /** `transformedRay(r)`: the origin transformed as a point, the direction
      as a vector and normalised again. */
  function TransformedRay(m: Matrix3x3, r: Ray, sqrt: real -> real): (t: Ray)
    requires IsSqrt(sqrt)
    ensures t.point == TransformedPoint(m, r.point)
    ensures t == MakeRay(TransformedPoint(m, r.point), TransformedVector(m, r.direction), sqrt)
  {
    Ray(TransformedPoint(m, r.point), Normalized(TransformedVector(m, r.direction), sqrt))
  }

  /** `transformedCircle(c)`: the centre transformed, and the radius the
      distance between the transformed centre and the transformed point one
      radius to its right. */
  function TransformedCircle(m: Matrix3x3, c: Circles.Circle, sqrt: real -> real): (t: Circles.Circle)
    requires IsSqrt(sqrt)
    ensures t.center == TransformedPoint(m, c.center)
    ensures t.radius >= 0.0
    ensures t.radius * t.radius == SquaredDistance(TransformedPoint(m, c.center), TransformedPoint(m, Add(c.center, Scale(c.radius, Right))))
  {
    var p1 := TransformedPoint(m, c.center);
    var p2 := TransformedPoint(m, Add(c.center, Scale(c.radius, Right)));
    Circles.Circle(p1, sqrt(SquaredDistance(p1, p2)))
  }

  /** The transformed corners of a rectangle, in the order the code lists
      them. */
  function TransformedCorners(m: Matrix3x3, r: Rects.Rect): seq<Vec2>
  {
    [TransformedPoint(m, Rects.TopLeft(r)), TransformedPoint(m, Rects.TopRight(r)),
     TransformedPoint(m, Rects.BottomLeft(r)), TransformedPoint(m, Rects.BottomRight(r))]
  }

  /** `transformedRect(r)` as written: the bounds of the transformed corners
      through `Rect(points)`, whose scan starts its maxima at FLT_MIN. */
  function TransformedRectAsWritten(m: Matrix3x3, r: Rects.Rect): Rects.Rect
  {
    Rects.FromPointsAsWritten(TransformedCorners(m, r))
  }

  /** `transformedRect(r)` with tight bounds: it contains every transformed
      corner. */
  function TransformedRect(m: Matrix3x3, r: Rects.Rect): (q: Rects.Rect)
    ensures Rects.WellFormed(q)
    ensures forall i :: 0 <= i < 4 ==> Rects.ContainsPoint(q, TransformedCorners(m, r)[i])
  {
    Rects.FromPoints(TransformedCorners(m, r))
  }

  /** Translating a well-formed rectangle moves its centre and keeps its
      size. */
  lemma TranslatedRect(r: Rects.Rect, tx: real, ty: real)
    requires Rects.WellFormed(r)
    ensures TransformedRect(FromTranslation(tx, ty), r) == Rects.Rect(Add(r.center, Vec2(tx, ty)), r.size)
  {
    var q := TransformedRect(FromTranslation(tx, ty), r);
    var pts := TransformedCorners(FromTranslation(tx, ty), r);
    Rects.EdgesOfRect(r);
    Rects.EdgesOfRect(q);
    assert pts == [Vec2(Rects.Left(r) + tx, Rects.Top(r) + ty), Vec2(Rects.Right(r) + tx, Rects.Top(r) + ty),
                   Vec2(Rects.Left(r) + tx, Rects.Bottom(r) + ty), Vec2(Rects.Right(r) + tx, Rects.Bottom(r) + ty)];
    assert Rects.ContainsPoint(q, pts[0]) && Rects.ContainsPoint(q, pts[3]);
    assert Rects.Left(q) == Rects.Left(r) + tx;
    assert Rects.Right(q) == Rects.Right(r) + tx;
    assert Rects.Bottom(q) == Rects.Bottom(r) + ty;
    assert Rects.Top(q) == Rects.Top(r) + ty;
  }

  /** A rectangle translated below the origin: the code as written reports
      its top edge at FLT_MIN, above the whole rectangle, where the tight
      bounds put it at the translated top. */
  lemma TransformedRectBelowOrigin(r: Rects.Rect, tx: real, ty: real)
    requires Rects.WellFormed(r) && Rects.Top(r) + ty <= 0.0
    ensures Rects.Top(TransformedRectAsWritten(FromTranslation(tx, ty), r)) == Rects.FloatMin
    ensures Rects.Top(TransformedRect(FromTranslation(tx, ty), r)) == Rects.Top(r) + ty
  {
    TranslatedRect(r, tx, ty);
    Rects.EdgesOfRect(r);
    var pts := TransformedCorners(FromTranslation(tx, ty), r);
    assert forall i :: 0 <= i < 4 ==> pts[i].y <= Rects.Top(r) + ty;
    Rects.TopAsWritten(pts);
  }
}
