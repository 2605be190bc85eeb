/** Cosine similarity, in real arithmetic, with the square root as a parameter. */
module Similarity {

  type Vector = seq<real>

  ghost predicate IsRoot(n: real, x: real) {
    n >= 0.0 && n * n == x
  }

  ghost predicate IsSqrt(sqrt: real -> real) {
    forall x :: x >= 0.0 ==> IsRoot(sqrt(x), x)
  }

  /** The sum of products of a zip: the longer vector's surplus is ignored. */
  function Dot(a: Vector, b: Vector): real {
    if a == [] || b == [] then 0.0 else a[0] * b[0] + Dot(a[1..], b[1..])
  }

  function Norm(sqrt: real -> real, a: Vector): real {
    sqrt(Dot(a, a))
  }

  /** The version of the code index. */
  function CosineIndex(sqrt: real -> real, a: Vector, b: Vector): real {
    if |a| != |b| || a == [] then 0.0
    else
      var normA, normB := Norm(sqrt, a), Norm(sqrt, b);
      Ratio(Dot(a, b), normA, normB)
  }

  function Ratio(dot: real, normA: real, normB: real): real {
    if normA > 0.0 && normB > 0.0 then
      PositiveProduct(normA, normB, normA * normB);
      dot / (normA * normB)
    else 0.0
  }

  /** The version of the shared memory. */
  function CosineMemory(sqrt: real -> real, a: Vector, b: Vector): real {
    if |a| != |b| || a == [] then 0.0
    else
      var magA, magB := Norm(sqrt, a), Norm(sqrt, b);
      if magA == 0.0 || magB == 0.0 then 0.0
      else
        NonZeroProduct(magA, magB);
        Dot(a, b) / (magA * magB)
  }

  lemma NonZeroProduct(x: real, y: real)
    requires x != 0.0 && y != 0.0
    ensures x * y != 0.0
  {
  }

  // The products in these facts are named, which keeps their uses linear.

  lemma Square(x: real, xx: real)
    requires xx == x * x
    ensures xx >= 0.0 && (xx == 0.0 <==> x == 0.0)
  {
    if x > 0.0 {
      PositiveProduct(x, x, xx);
    } else if x < 0.0 {
      PositiveProduct(-x, -x, xx);
    }
  }

  lemma PositiveProduct(x: real, y: real, xy: real)
    requires x > 0.0 && y > 0.0 && xy == x * y
    ensures xy > 0.0
  {
  }

  lemma SquareIncreases(x: real, y: real, xx: real, yy: real)
    requires 0.0 <= x < y && xx == x * x && yy == y * y
    ensures xx < yy
  {
    var d := y - x;
    assert yy == xx + 2.0 * x * d + d * d;
    assert x * d >= 0.0;
    assert d * d > 0.0;
  }

  lemma FactorNonNegative(b: real, e: real, be: real)
    requires b > 0.0 && be == b * e && be >= 0.0
    ensures e >= 0.0
  {
  }

  lemma SquareBound(d: real, n: real, dd: real, nn: real)
    requires n > 0.0 && dd == d * d && nn == n * n && dd <= nn
    ensures -1.0 <= d / n <= 1.0
  {
    if d > n {
      SquareIncreases(n, d, nn, dd);
    } else if -d > n {
      SquareIncreases(n, -d, nn, dd);
    }
    Quotient(d, n);
  }

  lemma Quotient(d: real, n: real)
    requires n > 0.0 && -n <= d <= n
    ensures -1.0 <= d / n <= 1.0
  {
  }

  lemma {:induction false} DotSymmetric(a: Vector, b: Vector)
    ensures Dot(a, b) == Dot(b, a)
  {
    if a == [] || b == [] {
    } else {
      DotSymmetric(a[1..], b[1..]);
    }
  }

  /** Each further pair of coordinates adds its product. */
  lemma {:induction false} DotSnoc(a: Vector, x: real, b: Vector, y: real)
    requires |a| == |b|
    ensures Dot(a + [x], b + [y]) == Dot(a, b) + x * y
  {
    if a == [] {
      assert ([] + [x])[1..] == [];
    } else {
      assert (a + [x])[1..] == a[1..] + [x] && (b + [y])[1..] == b[1..] + [y];
      DotSnoc(a[1..], x, b[1..], y);
    }
  }

  lemma {:induction false} DotSelf(a: Vector)
    ensures Dot(a, a) >= 0.0
    ensures Dot(a, a) == 0.0 <==> forall i :: 0 <= i < |a| ==> a[i] == 0.0
  {
    if a == [] {
    } else {
      DotSelf(a[1..]);
      Square(a[0], a[0] * a[0]);
      assert forall i :: 0 <= i < |a[1..]| ==> a[1..][i] == a[i + 1];
      assert a == [a[0]] + a[1..];
    }
  }

  /** p times a minus q times b. */
  ghost function Combine(p: real, a: Vector, q: real, b: Vector): (r: Vector)
    requires |a| == |b|
  {
    if a == [] then [] else [p * a[0] - q * b[0]] + Combine(p, a[1..], q, b[1..])
  }

  ghost function Quadratic(p: real, q: real, aa: real, ab: real, bb: real): real {
    p * p * aa - 2.0 * p * q * ab + q * q * bb
  }

  lemma {:induction false} CombinedSquare(p: real, a: Vector, q: real, b: Vector)
    requires |a| == |b|
    ensures var c := Combine(p, a, q, b);
            Dot(c, c) == Quadratic(p, q, Dot(a, a), Dot(a, b), Dot(b, b))
  {
    if a == [] {
    } else {
      var c := Combine(p, a, q, b);
      assert c[1..] == Combine(p, a[1..], q, b[1..]);
      CombinedSquare(p, a[1..], q, b[1..]);
      Expand(p, q, a[0], b[0], c[0], Dot(a[1..], a[1..]), Dot(a[1..], b[1..]), Dot(b[1..], b[1..]), Dot(c[1..], c[1..]),
             Dot(a, a), Dot(a, b), Dot(b, b), Dot(c, c));
    }
  }

  lemma Expand(p: real, q: real, x: real, y: real, z: real, aa: real, ab: real, bb: real, cc: real,
               aa': real, ab': real, bb': real, cc': real)
    requires z == p * x - q * y
    requires cc == Quadratic(p, q, aa, ab, bb)
    requires aa' == x * x + aa && ab' == x * y + ab && bb' == y * y + bb && cc' == z * z + cc
    ensures cc' == Quadratic(p, q, aa', ab', bb')
  {
    Binomial(p * x, q * y, z);
    var u, v := p * x, q * y;
    assert u * u == p * p * (x * x);
    assert u * v == p * q * (x * y);
    assert v * v == q * q * (y * y);
    assert p * p * aa' == p * p * (x * x) + p * p * aa;
    assert p * q * ab' == p * q * (x * y) + p * q * ab;
    assert q * q * bb' == q * q * (y * y) + q * q * bb;
  }

  lemma Binomial(u: real, v: real, z: real)
    requires z == u - v
    ensures z * z == u * u - 2.0 * (u * v) + v * v
  {
  }

  lemma {:induction false} DotWithZero(a: Vector, b: Vector)
    requires forall i :: 0 <= i < |b| ==> b[i] == 0.0
    ensures Dot(a, b) == 0.0
  {
    if a == [] || b == [] {
    } else {
      DotWithZero(a[1..], b[1..]);
    }
  }

  ghost predicate WithinProduct(ab: real, aa: real, bb: real) {
    ab * ab <= aa * bb
  }

  /** The square of a dot product is at most the product of the squares. */
  lemma CauchySchwarz(a: Vector, b: Vector)
    requires |a| == |b|
    ensures WithinProduct(Dot(a, b), Dot(a, a), Dot(b, b))
  {
    if Dot(b, b) == 0.0 {
      DotSelf(b);
      DotWithZero(a, b);
      ZeroProducts(Dot(a, a), Dot(a, b), Dot(b, b));
    } else {
      var cc := ResidualSquare(a, b);
      Factor(Dot(a, a), Dot(a, b), Dot(b, b), cc);
    }
  }

  /** The square of what is left of a after taking away its part along b, scaled up. */
  lemma ResidualSquare(a: Vector, b: Vector) returns (cc: real)
    requires |a| == |b| && Dot(b, b) != 0.0
    ensures Dot(b, b) > 0.0 && cc >= 0.0
    ensures cc == Quadratic(Dot(b, b), Dot(a, b), Dot(a, a), Dot(a, b), Dot(b, b))
  {
    DotSelf(b);
    var c := Combine(Dot(b, b), a, Dot(a, b), b);
    DotSelf(c);
    CombinedSquare(Dot(b, b), a, Dot(a, b), b);
    cc := Dot(c, c);
  }

  lemma ZeroProducts(aa: real, ab: real, bb: real)
    requires ab == 0.0 && bb == 0.0
    ensures WithinProduct(ab, aa, bb)
  {
  }

  lemma Factor(aa: real, ab: real, bb: real, cc: real)
    requires bb > 0.0 && cc >= 0.0
    requires cc == Quadratic(bb, ab, aa, ab, bb)
    ensures WithinProduct(ab, aa, bb)
  {
    var e := aa * bb - ab * ab;
    assert cc == bb * e;
    FactorNonNegative(bb, e, cc);
  }

  lemma NormSquared(sqrt: real -> real, a: Vector)
    requires IsSqrt(sqrt)
    ensures IsRoot(Norm(sqrt, a), Dot(a, a))
    ensures Norm(sqrt, a) == 0.0 <==> forall i :: 0 <= i < |a| ==> a[i] == 0.0
  {
    DotSelf(a);
    Square(Norm(sqrt, a), Dot(a, a));
  }

  lemma RatioBounded(dot: real, normA: real, normB: real, aa: real, bb: real)
    requires IsRoot(normA, aa) && IsRoot(normB, bb) && WithinProduct(dot, aa, bb)
    ensures -1.0 <= Ratio(dot, normA, normB) <= 1.0
  {
    if normA > 0.0 && normB > 0.0 {
      var n := normA * normB;
      PositiveProduct(normA, normB, n);
      assert n * n == (normA * normA) * (normB * normB);
      SquareBound(dot, n, dot * dot, aa * bb);
    }
  }

  /** The score is between -1 and 1, whatever the vectors. */
  lemma CosineBounded(sqrt: real -> real, a: Vector, b: Vector)
    requires IsSqrt(sqrt)
    ensures -1.0 <= CosineIndex(sqrt, a, b) <= 1.0
  {
    if |a| == |b| && a != [] {
      NormSquared(sqrt, a);
      NormSquared(sqrt, b);
      CauchySchwarz(a, b);
      RatioBounded(Dot(a, b), Norm(sqrt, a), Norm(sqrt, b), Dot(a, a), Dot(b, b));
    }
  }

  /**
   * The score times the product of the lengths is the dot product, and a score of
   * vectors of different dimension or of a zero vector is 0.
   */
  lemma CosineMeaning(sqrt: real -> real, a: Vector, b: Vector) returns (normA: real, normB: real, n: real)
    requires IsSqrt(sqrt)
    ensures IsRoot(normA, Dot(a, a)) && IsRoot(normB, Dot(b, b)) && n == normA * normB
    ensures |a| != |b| || n == 0.0 ==> CosineIndex(sqrt, a, b) == 0.0
    ensures |a| == |b| ==> IsProduct(CosineIndex(sqrt, a, b), n, Dot(a, b))
  {
    normA, normB := Norm(sqrt, a), Norm(sqrt, b);
    n := normA * normB;
    NormSquared(sqrt, a);
    NormSquared(sqrt, b);
    if normA == 0.0 {
      DotSymmetric(a, b);
      DotWithZero(b, a);
      ZeroFactor(CosineIndex(sqrt, a, b), normA, normB, n);
    } else if normB == 0.0 {
      DotWithZero(a, b);
      ZeroFactor(CosineIndex(sqrt, a, b), normB, normA, n);
    } else {
      PositiveProduct(normA, normB, n);
      QuotientTimes(Dot(a, b), n);
    }
  }

  lemma ZeroFactor(c: real, x: real, y: real, xy: real)
    requires x == 0.0 && xy == x * y
    ensures xy == 0.0 && IsProduct(c, xy, 0.0)
  {
  }

  lemma QuotientTimes(d: real, n: real)
    requires n > 0.0
    ensures IsProduct(d / n, n, d)
  {
  }

  lemma CosineSymmetric(sqrt: real -> real, a: Vector, b: Vector)
    ensures CosineIndex(sqrt, a, b) == CosineIndex(sqrt, b, a)
  {
    DotSymmetric(a, b);
    RatioSymmetric(Dot(a, b), Norm(sqrt, a), Norm(sqrt, b));
  }

  lemma RatioSymmetric(dot: real, normA: real, normB: real)
    ensures Ratio(dot, normA, normB) == Ratio(dot, normB, normA)
  {
    assert normA * normB == normB * normA;
  }

  lemma SelfQuotient(x: real, xx: real)
    requires x > 0.0 && xx == x * x
    ensures x * x > 0.0 && xx / (x * x) == 1.0
  {
    PositiveProduct(x, x, xx);
    var y := x * x;
    assert y == xx && xx / y == 1.0;
  }

  /** A vector is fully similar to itself exactly if it is not zero. */
  lemma CosineSelf(sqrt: real -> real, a: Vector)
    requires IsSqrt(sqrt)
    ensures CosineIndex(sqrt, a, a) == if exists i :: 0 <= i < |a| && a[i] != 0.0 then 1.0 else 0.0
  {
    NormSquared(sqrt, a);
    var n := Norm(sqrt, a);
    if n > 0.0 {
      SelfQuotient(n, Dot(a, a));
    }
  }

  /** The two implementations test for zero vectors differently and agree all the same. */
  lemma CosinesAgree(sqrt: real -> real, a: Vector, b: Vector)
    requires IsSqrt(sqrt)
    ensures CosineIndex(sqrt, a, b) == CosineMemory(sqrt, a, b)
  {
    NormSquared(sqrt, a);
    NormSquared(sqrt, b);
  }

  ghost function Scale(k: real, a: Vector): (r: Vector)
    ensures |r| == |a|
  {
    if a == [] then [] else [k * a[0]] + Scale(k, a[1..])
  }

  ghost predicate IsProduct(x: real, y: real, xy: real) {
    xy == x * y
  }

  lemma {:induction false} DotScaled(k: real, a: Vector, b: Vector)
    ensures IsProduct(k, Dot(a, b), Dot(Scale(k, a), b))
  {
    if a == [] || b == [] {
    } else {
      var ka := Scale(k, a);
      assert ka[1..] == Scale(k, a[1..]);
      DotScaled(k, a[1..], b[1..]);
      Distribute(k, a[0], b[0], ka[0], Dot(a[1..], b[1..]), Dot(ka[1..], b[1..]), Dot(a, b), Dot(ka, b));
    }
  }

  lemma Distribute(k: real, x: real, y: real, kx: real, d: real, kd: real, sum: real, ksum: real)
    requires IsProduct(k, x, kx) && IsProduct(k, d, kd)
    requires sum == x * y + d && ksum == kx * y + kd
    ensures IsProduct(k, sum, ksum)
  {
    assert kx * y == k * (x * y);
  }

  ghost predicate IsTwiceScaled(k: real, aa: real, kka: real) {
    kka == k * (k * aa)
  }

  lemma DotOfScaled(k: real, a: Vector)
    ensures IsTwiceScaled(k, Dot(a, a), Dot(Scale(k, a), Scale(k, a)))
  {
    DotScaled(k, a, Scale(k, a));
    DotSymmetric(a, Scale(k, a));
    DotScaled(k, a, a);
  }

  lemma RootScales(k: real, n: real, m: real, nn: real, mm: real)
    requires k > 0.0 && IsRoot(n, nn) && IsRoot(m, mm) && IsTwiceScaled(k, nn, mm)
    ensures IsProduct(k, n, m)
  {
    var kn := k * n;
    assert kn >= 0.0;
    assert mm == kn * kn;
    if m < kn {
      SquareIncreases(m, kn, mm, mm);
    } else if kn < m {
      SquareIncreases(kn, m, mm, mm);
    }
  }

  lemma NormScaled(sqrt: real -> real, k: real, a: Vector)
    requires IsSqrt(sqrt) && k > 0.0
    ensures IsProduct(k, Norm(sqrt, a), Norm(sqrt, Scale(k, a)))
  {
    var ka := Scale(k, a);
    DotOfScaled(k, a);
    NormSquared(sqrt, a);
    NormSquared(sqrt, ka);
    RootScales(k, Norm(sqrt, a), Norm(sqrt, ka), Dot(a, a), Dot(ka, ka));
  }

  /** Scaling a vector, as L2 normalisation does, changes no score. */
  lemma CosineIgnoresLength(sqrt: real -> real, k: real, a: Vector, b: Vector)
    requires IsSqrt(sqrt) && k > 0.0
    ensures CosineIndex(sqrt, Scale(k, a), b) == CosineIndex(sqrt, a, b)
  {
    NormScaled(sqrt, k, a);
    DotScaled(k, a, b);
    NormSquared(sqrt, a);
    Cancel(k, Dot(a, b), Norm(sqrt, a), Norm(sqrt, b), Norm(sqrt, Scale(k, a)), Dot(Scale(k, a), b));
  }

  lemma Cancel(k: real, d: real, n: real, m: real, kn: real, kd: real)
    requires k > 0.0 && n >= 0.0 && IsProduct(k, n, kn) && IsProduct(k, d, kd)
    ensures Ratio(kd, kn, m) == Ratio(d, n, m)
  {
    if n > 0.0 {
      PositiveProduct(k, n, kn);
      if m > 0.0 {
        var nm, knm := n * m, kn * m;
        PositiveProduct(n, m, nm);
        PositiveProduct(kn, m, knm);
        var q := d / nm;
        assert q * nm == d;
        assert knm == k * nm;
        assert kd == q * knm;
        assert kd / knm == q;
      }
    }
  }
}
