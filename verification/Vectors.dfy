/** Dot products and the cosine of two vectors, over the reals. */
module Vectors {
  import opened Environment

  function Dot(a: seq<real>, b: seq<real>): real
    requires |a| == |b|
  {
    if a == [] then 0.0 else a[0] * b[0] + Dot(a[1..], b[1..])
  }

  function Cosine(sqrt: real -> real, a: seq<real>, b: seq<real>): real
    requires |a| == |b|
  {
    Ratio(Dot(a, b), sqrt(Dot(a, a)), sqrt(Dot(b, b)))
  }

  /** d / (na * nb), or 0 when either length is 0. */
  function Ratio(d: real, na: real, nb: real): real {
    if na != 0.0 && nb != 0.0 then
      var p := na * nb;
      assert p != 0.0;
      d / p
    else 0.0
  }

  ghost predicate IsZero(a: seq<real>) {
    forall i :: 0 <= i < |a| ==> a[i] == 0.0
  }

  // Products are passed by name: the solver keeps better track of a variable than of a power.

  lemma PositiveProduct(x: real, y: real, p: real)
    requires x > 0.0 && y > 0.0 && p == x * y
    ensures p > 0.0
  {
  }

  lemma SquareSign(x: real, p: real)
    requires p == x * x
    ensures p >= 0.0
    ensures p == 0.0 <==> x == 0.0
  {
    if x > 0.0 {
      PositiveProduct(x, x, p);
    } else if x < 0.0 {
      PositiveProduct(-x, -x, p);
    }
  }

  lemma {:induction false} DotSymmetric(a: seq<real>, b: seq<real>)
    requires |a| == |b|
    ensures Dot(a, b) == Dot(b, a)
  {
    if a == [] {
    } else {
      DotSymmetric(a[1..], b[1..]);
    }
  }

  lemma {:induction false} SquareLength(a: seq<real>)
    ensures Dot(a, a) >= 0.0
    ensures Dot(a, a) == 0.0 <==> IsZero(a)
  {
    if a == [] {
    } else {
      SquareLength(a[1..]);
      SquareSign(a[0], a[0] * a[0]);
      assert IsZero(a) <==> a[0] == 0.0 && IsZero(a[1..]) by {
        assert a == [a[0]] + a[1..];
      }
    }
  }

  lemma SquaresOrder(x: real, y: real, xx: real, yy: real)
    requires y >= 0.0 && xx == x * x && yy == y * y && xx <= yy
    ensures -y <= x <= y
  {
    if x > y {
      PositiveProduct(x - y, x + y, (x - y) * (x + y));
    } else if x < -y {
      PositiveProduct(-x - y, -x + y, (-x - y) * (-x + y));
    }
  }

  /** The arithmetic-geometric mean inequality for u and v, squared. */
  lemma MeanInequality(u: real, v: real, m: real)
    requires m == u + v
    ensures 4.0 * (u * v) <= m * m
  {
    SquareSign(u - v, (u - v) * (u - v));
  }

  /** The Cauchy-Schwarz inequality between a dot product and two squared lengths. */
  ghost predicate IsBounded(dot: real, aa: real, bb: real) {
    dot * dot <= aa * bb
  }

  /** One more coordinate keeps the inequality. */
  lemma CauchySchwarzStep(p: real, aa: real, bb: real, x: real, y: real, q: real, xa: real, yb: real)
    requires aa >= 0.0 && bb >= 0.0 && IsBounded(p, aa, bb)
    requires q == x * y + p && xa == x * x + aa && yb == y * y + bb
    ensures IsBounded(q, xa, yb)
  {
    var xx, yy, xy := x * x, y * y, x * y;
    SquareSign(x, xx);
    SquareSign(y, yy);
    var u, v := aa * yy, bb * xx;
    assert u >= 0.0 && v >= 0.0;
    var m := u + v;
    MeanInequality(u, v, m);
    var s := xy * xy;
    SquareSign(xy, s);
    assert s == xx * yy;
    assert u * v == (aa * bb) * s by {
      assert (aa * yy) * (bb * xx) == (aa * bb) * (xx * yy);
    }
    var pp := p * p;
    var ab := aa * bb;
    assert pp * s <= ab * s;
    var t := 2.0 * (p * xy);
    assert t * t == 4.0 * (pp * s);
    SquaresOrder(t, m, t * t, m * m);
    assert (xy + p) * (xy + p) == s + t + pp;
    assert (xx + aa) * (yy + bb) == s + m + ab;
  }

  lemma {:induction false} CauchySchwarz(a: seq<real>, b: seq<real>)
    requires |a| == |b|
    ensures IsBounded(Dot(a, b), Dot(a, a), Dot(b, b))
  {
    if a == [] {
    } else {
      CauchySchwarz(a[1..], b[1..]);
      SquareLength(a[1..]);
      SquareLength(b[1..]);
      CauchySchwarzStep(Dot(a[1..], b[1..]), Dot(a[1..], a[1..]), Dot(b[1..], b[1..]), a[0], b[0],
                        Dot(a, b), Dot(a, a), Dot(b, b));
    }
  }

  lemma RootOf(sqrt: real -> real, a: seq<real>)
    requires IsSqrt(sqrt)
    ensures sqrt(Dot(a, a)) >= 0.0
    ensures sqrt(Dot(a, a)) * sqrt(Dot(a, a)) == Dot(a, a)
    ensures sqrt(Dot(a, a)) == 0.0 <==> IsZero(a)
  {
    SquareLength(a);
    SquareSign(sqrt(Dot(a, a)), Dot(a, a));
  }

  lemma QuotientBounds(d: real, n: real)
    requires n > 0.0 && -n <= d <= n
    ensures -1.0 <= d / n <= 1.0
  {
    var q := d / n;
    assert q * n == d;
    if q > 1.0 {
      PositiveProduct(q - 1.0, n, (q - 1.0) * n);
    } else if q < -1.0 {
      PositiveProduct(-1.0 - q, n, (-1.0 - q) * n);
    }
  }

  lemma RatioSymmetric(d: real, na: real, nb: real)
    ensures Ratio(d, na, nb) == Ratio(d, nb, na)
  {
    assert na * nb == nb * na;
  }

  lemma RatioBounds(d: real, na: real, nb: real, aa: real, bb: real)
    requires na >= 0.0 && nb >= 0.0 && na * na == aa && nb * nb == bb && IsBounded(d, aa, bb)
    ensures -1.0 <= Ratio(d, na, nb) <= 1.0
  {
    var n := na * nb;
    if na != 0.0 && nb != 0.0 {
      PositiveProduct(na, nb, n);
      assert n * n == (na * na) * (nb * nb);
      SquaresOrder(d, n, d * d, n * n);
      QuotientBounds(d, n);
    }
  }

  lemma RootRatioBounds(sqrt: real -> real, d: real, aa: real, bb: real)
    requires IsSqrt(sqrt) && aa >= 0.0 && bb >= 0.0 && IsBounded(d, aa, bb)
    ensures -1.0 <= Ratio(d, sqrt(aa), sqrt(bb)) <= 1.0
  {
    var na, nb := sqrt(aa), sqrt(bb);
    assert na >= 0.0 && na * na == aa;
    assert nb >= 0.0 && nb * nb == bb;
    RatioBounds(d, na, nb, aa, bb);
  }

  lemma CosineInRange(sqrt: real -> real, a: seq<real>, b: seq<real>)
    requires IsSqrt(sqrt) && |a| == |b|
    ensures -1.0 <= Cosine(sqrt, a, b) <= 1.0
  {
    SquareLength(a);
    SquareLength(b);
    CauchySchwarz(a, b);
    RootRatioBounds(sqrt, Dot(a, b), Dot(a, a), Dot(b, b));
  }

  lemma RatioOfOne(d: real, n: real)
    requires n != 0.0 && d == n * n
    ensures Ratio(d, n, n) == 1.0
  {
    var p := n * n;
    SquareSign(n, p);
    assert d / p == 1.0;
  }

  /** Cosine is symmetric, lies in [-1, 1], and is zero when either vector is. */
  lemma CosineBounds(sqrt: real -> real, a: seq<real>, b: seq<real>)
    requires IsSqrt(sqrt) && |a| == |b|
    ensures Cosine(sqrt, a, b) == Cosine(sqrt, b, a)
    ensures -1.0 <= Cosine(sqrt, a, b) <= 1.0
    ensures IsZero(a) || IsZero(b) ==> Cosine(sqrt, a, b) == 0.0
  {
    RootOf(sqrt, a);
    RootOf(sqrt, b);
    DotSymmetric(a, b);
    RatioSymmetric(Dot(a, b), sqrt(Dot(a, a)), sqrt(Dot(b, b)));
    CosineInRange(sqrt, a, b);
  }

  /** A non-zero vector points exactly in its own direction. */
  lemma CosineSelf(sqrt: real -> real, a: seq<real>)
    requires IsSqrt(sqrt) && !IsZero(a)
    ensures Cosine(sqrt, a, a) == 1.0
  {
    RootOf(sqrt, a);
    RatioOfOne(Dot(a, a), sqrt(Dot(a, a)));
  }

  // ------------------------------------------------------------ what cosine decides

  /** The angle between the vectors is acute and, for a positive s, its cosine, squared, at least s squared. */
  ghost predicate IsClose(q: seq<real>, v: seq<real>, s: real)
    requires |q| == |v|
  {
    && Dot(q, v) > 0.0
    && (s > 0.0 ==> Dot(q, v) * Dot(q, v) >= (s * s) * (Dot(q, q) * Dot(v, v)))
  }

  lemma QuotientAtLeast(d: real, p: real, s: real)
    requires p > 0.0
    ensures d / p >= s <==> d >= s * p
    ensures d / p > 0.0 <==> d > 0.0
  {
    var q := d / p;
    assert q * p == d;
    if q >= s {
      MonotoneProduct(s, q, p);
    } else {
      PositiveProduct(s - q, p, (s - q) * p);
    }
    if q > 0.0 {
      PositiveProduct(q, p, d);
    } else {
      MonotoneProduct(q, 0.0, p);
    }
  }

  lemma MonotoneProduct(x: real, y: real, p: real)
    requires x <= y && p > 0.0
    ensures x * p <= y * p
  {
    if x < y {
      PositiveProduct(y - x, p, (y - x) * p);
    }
  }

  /** Comparing two lengths is comparing their squares. */
  lemma SquaresCompare(x: real, y: real, xx: real, yy: real)
    requires y >= 0.0 && xx == x * x && yy == y * y && x >= 0.0
    ensures x >= y <==> xx >= yy
  {
    if x > y {
      PositiveProduct(x - y, x + y, (x - y) * (x + y));
    } else if x < y {
      PositiveProduct(y - x, x + y, (y - x) * (x + y));
    }
  }

  lemma RatioAtLeast(d: real, na: real, nb: real, aa: real, bb: real, s: real)
    requires na > 0.0 && nb > 0.0 && na * na == aa && nb * nb == bb && s > 0.0
    ensures Ratio(d, na, nb) >= s <==> d > 0.0 && d * d >= (s * s) * (aa * bb)
    ensures Ratio(d, na, nb) > 0.0 <==> d > 0.0
  {
    var p := na * nb;
    PositiveProduct(na, nb, p);
    QuotientAtLeast(d, p, s);
    var y := s * p;
    PositiveProduct(s, p, y);
    assert y * y == (s * s) * (aa * bb) by {
      assert (s * p) * (s * p) == (s * s) * (p * p);
      assert p * p == (na * na) * (nb * nb);
    }
    if d > 0.0 {
      SquaresCompare(d, y, d * d, y * y);
    }
  }

  lemma {:induction false} ZeroDot(a: seq<real>, b: seq<real>)
    requires |a| == |b| && IsZero(a)
    ensures Dot(a, b) == 0.0
  {
    if a == [] {
    } else {
      assert a[0] == 0.0 && forall i :: 0 <= i < |a[1..]| ==> a[1..][i] == a[i + 1];
      ZeroDot(a[1..], b[1..]);
    }
  }

  lemma RatioTimes(d: real, na: real, nb: real)
    requires na > 0.0 && nb > 0.0
    ensures Ratio(d, na, nb) * (na * nb) == d
  {
    PositiveProduct(na, nb, na * nb);
  }

  /** The cosine times both lengths is the dot product. */
  lemma CosineExactly(sqrt: real -> real, a: seq<real>, b: seq<real>) returns (na: real, nb: real)
    requires IsSqrt(sqrt) && |a| == |b|
    ensures na >= 0.0 && nb >= 0.0 && na * na == Dot(a, a) && nb * nb == Dot(b, b)
    ensures Cosine(sqrt, a, b) * (na * nb) == Dot(a, b)
  {
    na, nb := sqrt(Dot(a, a)), sqrt(Dot(b, b));
    RootOf(sqrt, a);
    RootOf(sqrt, b);
    if IsZero(a) {
      ZeroDot(a, b);
    } else if IsZero(b) {
      ZeroDot(b, a);
      DotSymmetric(a, b);
    } else {
      RatioTimes(Dot(a, b), na, nb);
    }
  }

  /** A positive cosine reaches a threshold if and only if the vectors are close by that measure. */
  lemma CosineReaches(sqrt: real -> real, q: seq<real>, v: seq<real>, s: real)
    requires IsSqrt(sqrt) && |q| == |v|
    ensures Cosine(sqrt, q, v) >= s && Cosine(sqrt, q, v) > 0.0 <==> IsClose(q, v, s)
  {
    RootOf(sqrt, q);
    RootOf(sqrt, v);
    if IsZero(q) {
      ZeroDot(q, v);
    } else if IsZero(v) {
      ZeroDot(v, q);
      DotSymmetric(q, v);
    } else {
      RatioAtLeast(Dot(q, v), sqrt(Dot(q, q)), sqrt(Dot(v, v)), Dot(q, q), Dot(v, v), if s > 0.0 then s else 1.0);
    }
  }
}
