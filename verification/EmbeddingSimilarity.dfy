/** Exact model of the cosine similarity between two face embeddings
    (embedding_similarity.py), over reals of any dimension. A magnitude is a
    parameter m with m >= 0 and m * m equal to the sum of squares. */
module EmbeddingSimilarity {
  import opened Wrappers

  type Vector = seq<real>

  datatype EmbeddingError = EmptyEmbedding | DimensionMismatch | ZeroVector

  function Dot(a: Vector, b: Vector): real
    requires |a| == |b|
  {
    if a == [] then 0.0 else a[0] * b[0] + Dot(a[1..], b[1..])
  }

  function SumOfSquares(a: Vector): real {
    Dot(a, a)
  }

  function Scale(k: real, a: Vector): (v: Vector)
    ensures |v| == |a|
  {
    if a == [] then [] else [k * a[0]] + Scale(k, a[1..])
  }

  function Divide(a: Vector, m: real): (v: Vector)
    requires m != 0.0
    ensures |v| == |a|
  {
    if a == [] then [] else [a[0] / m] + Divide(a[1..], m)
  }

  predicate IsMagnitude(m: real, a: Vector) {
    m >= 0.0 && m * m == SumOfSquares(a)
  }

  function Clamp(x: real): real {
    var low := if x < 1.0 then x else 1.0;
    if low > -1.0 then low else -1.0
  }

  // The sum of products of the two normalized vectors, before the clamp.
  function RawScore(a: Vector, b: Vector, ma: real, mb: real): real
    requires |a| == |b| && ma != 0.0 && mb != 0.0
  {
    Dot(Divide(a, ma), Divide(b, mb))
  }

  function CosineSimilarity(reference: Vector, captured: Vector,
                            referenceMagnitude: real, capturedMagnitude: real): Result<real, EmbeddingError> {
    if reference == [] || captured == [] then Err(EmptyEmbedding)
    else if |reference| != |captured| then Err(DimensionMismatch)
    else if referenceMagnitude == 0.0 || capturedMagnitude == 0.0 then Err(ZeroVector)
    else Ok(Clamp(RawScore(reference, captured, referenceMagnitude, capturedMagnitude)))
  }

  // ----- arithmetic on reals

  // The solver treats a square opaquely, so each lemma names the product.

  lemma PositiveProduct(x: real, y: real, q: real)
    requires x > 0.0 && y > 0.0 && q == x * y
    ensures q > 0.0
  {
  }

  lemma SquarePositive(x: real, q: real)
    requires x != 0.0 && q == x * x
    ensures q > 0.0
  {
    if x > 0.0 {
      PositiveProduct(x, x, q);
    } else {
      var y := -x;
      PositiveProduct(y, y, q);
    }
  }

  lemma SquareOfZero(x: real, q: real)
    requires x == 0.0 && q == x * x
    ensures q == 0.0
  {
  }

  lemma Square(x: real, q: real)
    requires q == x * x
    ensures q >= 0.0
    ensures q == 0.0 <==> x == 0.0
  {
    if x != 0.0 {
      SquarePositive(x, q);
    } else {
      SquareOfZero(x, q);
    }
  }

  lemma DifferenceOfSquares(m: real, n: real)
    ensures n * n - m * m == (n - m) * (n + m)
  {
  }

  lemma SquaresIncrease(m: real, n: real)
    requires 0.0 <= m < n
    ensures m * m < n * n
  {
    DifferenceOfSquares(m, n);
    PositiveProduct(n - m, n + m, n * n - m * m);
  }

  lemma SquareRootUnique(m: real, n: real)
    requires m >= 0.0 && n >= 0.0 && m * m == n * n
    ensures m == n
  {
    if m < n {
      SquaresIncrease(m, n);
    } else if n < m {
      SquaresIncrease(n, m);
    }
  }

  lemma Distribute(k: real, x: real, y: real)
    ensures k * (x + y) == k * x + k * y
  {
  }

  lemma ProductOfProducts(u: real, v: real, m: real, n: real)
    ensures u * v * (m * n) == (u * m) * (v * n)
  {
  }

  lemma QuotientProduct(x: real, m: real, y: real, n: real)
    requires m != 0.0 && n != 0.0
    ensures (x / m) * (y / n) * (m * n) == x * y
  {
    var u, v := x / m, y / n;
    assert u * m == x && v * n == y;
    ProductOfProducts(u, v, m, n);
  }

  lemma QuotientOfMultiples(k: real, x: real, m: real)
    requires k != 0.0 && m != 0.0 && k * m != 0.0
    ensures (k * x) / (k * m) == x / m
  {
    var u := x / m;
    assert x == u * m;
    assert k * x == u * (k * m);
  }

  lemma BoundedMultiple(t: real, w: real, d: real)
    requires -1.0 <= t <= 1.0 && w >= 0.0 && t * w == d
    ensures -w <= d <= w
  {
  }

  lemma QuotientUnique(s: real, t: real, w: real)
    requires w > 0.0 && s * w == t * w
    ensures s == t
  {
    assert (s - t) * w == 0.0;
  }

  lemma ScaledMagnitude(k: real, m: real, mk: real, square: real)
    requires k > 0.0 && m >= 0.0 && mk >= 0.0 && m * m == square && mk * mk == k * (k * square)
    ensures mk == k * m
  {
    var n := k * m;
    ProductOfProducts(k, k, m, m);
    assert n * n == k * (k * square);
    SquareRootUnique(mk, n);
  }

  // ----- vector algebra

  function Plus(a: Vector, b: Vector): (v: Vector)
    requires |a| == |b|
    ensures |v| == |a|
  {
    if a == [] then [] else [a[0] + b[0]] + Plus(a[1..], b[1..])
  }

  /** The dot product is the sum of the products of the entries: nothing for no entries, and each
      further pair of entries adds its product, wherever it stands in the vectors. */
  lemma {:induction false} DotAppends(a: Vector, b: Vector, x: real, y: real)
    requires |a| == |b|
    ensures Dot([], []) == 0.0
    ensures Dot(a + [x], b + [y]) == Dot(a, b) + x * y
  {
    if a != [] {
      DotAppends(a[1..], b[1..], x, y);
      assert (a + [x])[1..] == a[1..] + [x] && (b + [y])[1..] == b[1..] + [y];
    } else {
      assert a + [x] == [x] && b + [y] == [y];
    }
  }

  lemma {:induction false} DividedEntries(a: Vector, m: real, i: nat)
    requires m != 0.0 && i < |a|
    ensures Divide(a, m)[i] * m == a[i]
  {
    if i > 0 {
      DividedEntries(a[1..], m, i - 1);
    }
  }

  lemma {:induction false} DotSymmetric(a: Vector, b: Vector)
    requires |a| == |b|
    ensures Dot(a, b) == Dot(b, a)
  {
    if a != [] {
      DotSymmetric(a[1..], b[1..]);
    }
  }

  lemma {:induction false} SumOfSquaresNonNegative(a: Vector)
    ensures SumOfSquares(a) >= 0.0
    ensures SumOfSquares(a) == 0.0 <==> forall i :: 0 <= i < |a| ==> a[i] == 0.0
  {
    if a != [] {
      SumOfSquaresNonNegative(a[1..]);
      var q := a[0] * a[0];
      Square(a[0], q);
      assert SumOfSquares(a) == q + SumOfSquares(a[1..]);
      assert forall i :: 1 <= i < |a| ==> a[i] == a[1..][i - 1];
    }
  }

  lemma {:induction false} DotWithZero(a: Vector, b: Vector)
    requires |a| == |b|
    requires forall i :: 0 <= i < |b| ==> b[i] == 0.0
    ensures Dot(a, b) == 0.0
  {
    if a != [] {
      DotWithZero(a[1..], b[1..]);
    }
  }

  lemma FactorOut(x: real, p: real, q: real, rest: real, xp: real, total: real, dot: real)
    requires xp == x * p && total == xp * q + x * rest && dot == p * q + rest
    ensures total == x * dot
  {
    Distribute(x, p * q, rest);
  }

  lemma {:induction false} DotOfScaled(x: real, a: Vector, b: Vector)
    requires |a| == |b|
    ensures Dot(Scale(x, a), b) == x * Dot(a, b)
  {
    if a != [] {
      DotOfScaled(x, a[1..], b[1..]);
      assert Scale(x, a)[1..] == Scale(x, a[1..]);
      FactorOut(x, a[0], b[0], Dot(a[1..], b[1..]), Scale(x, a)[0], Dot(Scale(x, a), b), Dot(a, b));
    }
  }

  lemma SumTimes(p: real, q: real, r: real, s: real)
    requires s == p + q
    ensures s * r == p * r + q * r
  {
  }

  lemma {:induction false} DotOfSum(a: Vector, b: Vector, c: Vector)
    requires |a| == |b| == |c|
    ensures Dot(Plus(a, b), c) == Dot(a, c) + Dot(b, c)
  {
    if a != [] {
      DotOfSum(a[1..], b[1..], c[1..]);
      assert Plus(a, b)[1..] == Plus(a[1..], b[1..]);
      SumTimes(a[0], b[0], c[0], Plus(a, b)[0]);
    }
  }

  lemma SumOfSquaresOfSum(u: Vector, v: Vector)
    requires |u| == |v|
    ensures SumOfSquares(Plus(u, v)) == SumOfSquares(u) + 2.0 * Dot(u, v) + SumOfSquares(v)
  {
    var w := Plus(u, v);
    DotOfSum(u, v, w);
    DotSymmetric(u, w);
    DotSymmetric(v, w);
    DotOfSum(u, v, u);
    DotOfSum(u, v, v);
    DotSymmetric(u, v);
  }

  lemma SumOfSquaresScaled(x: real, a: Vector)
    ensures SumOfSquares(Scale(x, a)) == x * (x * SumOfSquares(a))
  {
    var v := Scale(x, a);
    DotOfScaled(x, a, v);
    DotSymmetric(a, v);
    DotOfScaled(x, a, a);
  }

  // Both |u + v| and |u - v| are real lengths.
  lemma UnitDotBounds(u: Vector, v: Vector)
    requires |u| == |v| && SumOfSquares(u) == 1.0 && SumOfSquares(v) == 1.0
    ensures -1.0 <= Dot(u, v) <= 1.0
    ensures Dot(u, v) == 1.0 ==> SumOfSquares(Plus(u, Scale(-1.0, v))) == 0.0
  {
    SumOfSquaresOfSum(u, v);
    SumOfSquaresNonNegative(Plus(u, v));
    var w := Scale(-1.0, v);
    SumOfSquaresScaled(-1.0, v);
    DotSymmetric(u, w);
    DotOfScaled(-1.0, v, u);
    DotSymmetric(v, u);
    SumOfSquaresOfSum(u, w);
    SumOfSquaresNonNegative(Plus(u, w));
  }

  lemma {:induction false} RawScoreIsQuotient(a: Vector, b: Vector, ma: real, mb: real)
    requires |a| == |b| && ma != 0.0 && mb != 0.0
    ensures RawScore(a, b, ma, mb) * (ma * mb) == Dot(a, b)
  {
    if a != [] {
      RawScoreIsQuotient(a[1..], b[1..], ma, mb);
      assert Divide(a, ma)[1..] == Divide(a[1..], ma);
      assert Divide(b, mb)[1..] == Divide(b[1..], mb);
      QuotientProduct(a[0], ma, b[0], mb);
      Distribute(ma * mb, (a[0] / ma) * (b[0] / mb), RawScore(a[1..], b[1..], ma, mb));
    }
  }

  lemma MagnitudePositive(a: Vector, m: real)
    requires IsMagnitude(m, a)
    ensures m == 0.0 <==> forall i :: 0 <= i < |a| ==> a[i] == 0.0
  {
    SumOfSquaresNonNegative(a);
    Square(m, SumOfSquares(a));
  }

  // ----- the score

  lemma NormalizedHasUnitLength(a: Vector, m: real)
    requires IsMagnitude(m, a) && m != 0.0
    ensures IsMagnitude(1.0, Divide(a, m))
  {
    RawScoreIsQuotient(a, a, m, m);
    var w := SumOfSquares(a);
    Square(m, w);
    QuotientUnique(RawScore(a, a, m, m), 1.0, w);
  }

  /** The sum of products already lies in [-1, 1], so the clamp changes nothing. */
  lemma ClampIsIdentity(a: Vector, b: Vector, ma: real, mb: real)
    requires |a| == |b| && IsMagnitude(ma, a) && IsMagnitude(mb, b) && ma != 0.0 && mb != 0.0
    ensures -1.0 <= RawScore(a, b, ma, mb) <= 1.0
    ensures Clamp(RawScore(a, b, ma, mb)) == RawScore(a, b, ma, mb)
  {
    var u, v := Divide(a, ma), Divide(b, mb);
    NormalizedHasUnitLength(a, ma);
    NormalizedHasUnitLength(b, mb);
    UnitDotBounds(u, v);
  }

  /** The score is defined exactly when both embeddings are non-empty, equally long
      and not the zero vector, and an undefined one names the first of these that fails. */
  lemma CosineDefined(a: Vector, b: Vector, ma: real, mb: real)
    requires IsMagnitude(ma, a) && IsMagnitude(mb, b)
    ensures CosineSimilarity(a, b, ma, mb).Ok?
       <==> |a| == |b| && (exists i :: 0 <= i < |a| && a[i] != 0.0) && (exists i :: 0 <= i < |b| && b[i] != 0.0)
    ensures CosineSimilarity(a, b, ma, mb) == Err(EmptyEmbedding) <==> |a| == 0 || |b| == 0
    ensures CosineSimilarity(a, b, ma, mb) == Err(DimensionMismatch) <==> |a| != 0 && |b| != 0 && |a| != |b|
  {
    MagnitudePositive(a, ma);
    MagnitudePositive(b, mb);
  }

  // The cosine of the angle between two vectors: times their lengths it is their dot product.
  predicate IsCosine(score: real, a: Vector, b: Vector, ma: real, mb: real) {
    |a| == |b| && ma > 0.0 && mb > 0.0 && score * (ma * mb) == Dot(a, b)
  }

  /** A defined score lies in [-1, 1] and is the dot product of the two unit vectors. */
  lemma CosineValue(a: Vector, b: Vector, ma: real, mb: real)
    requires IsMagnitude(ma, a) && IsMagnitude(mb, b) && CosineSimilarity(a, b, ma, mb).Ok?
    ensures |a| == |b| && ma != 0.0 && mb != 0.0
    ensures CosineSimilarity(a, b, ma, mb).value == RawScore(a, b, ma, mb)
    ensures -1.0 <= CosineSimilarity(a, b, ma, mb).value <= 1.0
  {
    ClampIsIdentity(a, b, ma, mb);
  }

  /** A defined score is the cosine of the angle between the two embeddings. */
  lemma ScoreIsCosine(a: Vector, b: Vector, ma: real, mb: real, score: real)
    requires IsMagnitude(ma, a) && IsMagnitude(mb, b) && CosineSimilarity(a, b, ma, mb) == Ok(score)
    ensures IsCosine(score, a, b, ma, mb)
  {
    CosineValue(a, b, ma, mb);
    RawScoreIsQuotient(a, b, ma, mb);
  }

  /** Cauchy-Schwarz in any dimension: no dot product exceeds the product of the lengths. */
  lemma CauchySchwarz(a: Vector, b: Vector, ma: real, mb: real)
    requires |a| == |b| && IsMagnitude(ma, a) && IsMagnitude(mb, b)
    ensures -(ma * mb) <= Dot(a, b) <= ma * mb
  {
    MagnitudePositive(a, ma);
    MagnitudePositive(b, mb);
    if mb == 0.0 {
      DotWithZero(a, b);
    } else if ma == 0.0 {
      DotWithZero(b, a);
      DotSymmetric(a, b);
    } else {
      ClampIsIdentity(a, b, ma, mb);
      RawScoreIsQuotient(a, b, ma, mb);
      PositiveProduct(ma, mb, ma * mb);
      BoundedMultiple(RawScore(a, b, ma, mb), ma * mb, Dot(a, b));
    }
  }

  lemma CosineSymmetric(a: Vector, b: Vector, ma: real, mb: real)
    requires IsMagnitude(ma, a) && IsMagnitude(mb, b)
    ensures CosineSimilarity(a, b, ma, mb) == CosineSimilarity(b, a, mb, ma)
  {
    if |a| == |b| && ma != 0.0 && mb != 0.0 {
      DotSymmetric(Divide(a, ma), Divide(b, mb));
    }
  }

  lemma {:induction false} ScaledRawScore(k: real, a: Vector, v: Vector, m: real, mk: real)
    requires |a| == |v| && k > 0.0 && m > 0.0 && mk == k * m && mk != 0.0
    ensures Dot(Divide(Scale(k, a), mk), v) == Dot(Divide(a, m), v)
  {
    if a != [] {
      ScaledRawScore(k, a[1..], v[1..], m, mk);
      assert Scale(k, a)[1..] == Scale(k, a[1..]);
      assert Divide(Scale(k, a), mk)[1..] == Divide(Scale(k, a[1..]), mk);
      assert Divide(a, m)[1..] == Divide(a[1..], m);
      QuotientOfMultiples(k, a[0], m);
    }
  }

  /** Multiplying either embedding by a positive factor leaves the score unchanged. */
  lemma CosineScaleInvariant(k: real, a: Vector, b: Vector, ma: real, mka: real, mb: real)
    requires k > 0.0
    requires IsMagnitude(ma, a) && IsMagnitude(mka, Scale(k, a)) && IsMagnitude(mb, b)
    ensures CosineSimilarity(Scale(k, a), b, mka, mb) == CosineSimilarity(a, b, ma, mb)
    ensures CosineSimilarity(b, Scale(k, a), mb, mka) == CosineSimilarity(b, a, mb, ma)
  {
    SumOfSquaresScaled(k, a);
    ScaledMagnitude(k, ma, mka, SumOfSquares(a));
    if |a| == |b| && ma != 0.0 && mb != 0.0 {
      assert ma > 0.0 && mb > 0.0;
      PositiveProduct(k, ma, mka);
      ScaledRawScore(k, a, Divide(b, mb), ma, mka);
    }
    CosineSymmetric(Scale(k, a), b, mka, mb);
    CosineSymmetric(a, b, ma, mb);
  }

  lemma {:induction false} DivideByOne(a: Vector)
    ensures Divide(a, 1.0) == a
  {
    if a != [] {
      DivideByOne(a[1..]);
      assert a == [a[0]] + a[1..];
    }
  }

  /** When both vectors were already normalized, the score is their dot product. */
  lemma CosineOfNormalized(a: Vector, b: Vector, na: real, nb: real, mu: real, mv: real)
    requires a != [] && |a| == |b| && na != 0.0 && nb != 0.0
    requires IsMagnitude(na, a) && IsMagnitude(nb, b)
    requires IsMagnitude(mu, Divide(a, na)) && IsMagnitude(mv, Divide(b, nb))
    ensures CosineSimilarity(Divide(a, na), Divide(b, nb), mu, mv) == Ok(Dot(Divide(a, na), Divide(b, nb)))
  {
    var u, v := Divide(a, na), Divide(b, nb);
    NormalizedHasUnitLength(a, na);
    NormalizedHasUnitLength(b, nb);
    SquareRootUnique(mu, 1.0);
    SquareRootUnique(mv, 1.0);
    DivideByOne(u);
    DivideByOne(v);
    ClampIsIdentity(u, v, mu, mv);
  }

  lemma {:induction false} DifferenceZero(u: Vector, v: Vector)
    requires |u| == |v|
    requires forall i :: 0 <= i < |u| ==> Plus(u, Scale(-1.0, v))[i] == 0.0
    ensures u == v
  {
    if u != [] {
      var w := Plus(u, Scale(-1.0, v));
      assert w[0] == 0.0;
      assert w[1..] == Plus(u[1..], Scale(-1.0, v[1..]));
      DifferenceZero(u[1..], v[1..]);
      assert u == [u[0]] + u[1..] && v == [v[0]] + v[1..];
    }
  }

  /** The score is 1 exactly when the two embeddings point in the same direction. */
  lemma PerfectScore(a: Vector, b: Vector, ma: real, mb: real)
    requires |a| == |b| && IsMagnitude(ma, a) && IsMagnitude(mb, b) && ma != 0.0 && mb != 0.0
    ensures RawScore(a, b, ma, mb) == 1.0 <==> Divide(a, ma) == Divide(b, mb)
  {
    var u, v := Divide(a, ma), Divide(b, mb);
    NormalizedHasUnitLength(a, ma);
    NormalizedHasUnitLength(b, mb);
    UnitDotBounds(u, v);
    if Dot(u, v) == 1.0 {
      SumOfSquaresNonNegative(Plus(u, Scale(-1.0, v)));
      DifferenceZero(u, v);
    }
  }
}
