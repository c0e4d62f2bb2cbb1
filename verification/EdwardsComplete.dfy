/** For prime 2^255 - 19 the addition law has no exceptions: any two points of the curve have a sum, and the sum is
    again a point of the curve. */
module EdwardsComplete {
  import opened Positional
  import opened FieldLimbs
  import opened FieldPowers
  import opened Fermat
  import opened EdwardsLaw
  import opened EdwardsPoints
  import opened SquareRoots
  import opened PrimeField
  import opened NonSquare

  lemma NonzeroIsUnit(z: int)
    requires Prime(P) && !Cong(z, 0)
    ensures Unit(z)
  {
    hide Cong, Power, Prime, Unit;
    LowResidue(z);
    var r: nat := z % P;
    if Cong(r, 0) { CongTrans(z, r, 0); }
    FermatCong(r);
    PowerNext(r, P - 1);
    UnitIntro(r, Power(r, P - 2));
    UnitMoves(r, z);
  }

  /** m^2 (y + j x)^2 where j^2 = -1. */
  lemma TwistedSquare(x: int, y: int, j: int, m: int, p: int)
    requires Cong(j * j, -1) && Cong(y * y - x * x, p)
    ensures var t := m * (y + j * x); Cong(t * t, (m * m) * (p + 2 * (j * (x * y))))
  {
    hide Cong;
    var s, c := y + j * x, 2 * (j * (x * y));
    Binomial(x, y, j);
    Interchange(j, x, j, x);
    CongRefl(x * x);
    CongProduct(j * j, -1, x * x, x * x);
    assert -1 * (x * x) == -(x * x);
    CongRefl(y * y + c);
    CongSum(y * y + c, y * y + c, (j * j) * (x * x), -(x * x));
    CongRefl(c);
    CongSum(y * y - x * x, p, c, c);
    CongTrans(s * s, (y * y - x * x) + c, p + c);
    Interchange(m, s, m, s);
    CongRefl(m * m);
    CongProduct(m * m, m * m, s * s, p + c);
  }

  lemma Binomial(x: int, y: int, j: int)
    ensures (y + j * x) * (y + j * x) == y * y + 2 * (j * (x * y)) + (j * x) * (j * x)
  {
    var z := j * x;
    assert (y + z) * (y + z) == y * y + 2 * (z * y) + z * z;
    assert z * y == j * (x * y);
  }

  /** If the common term squares to 1, d times a square is a square. */
  lemma CommonTermSquares(x1: int, y1: int, x2: int, y2: int, j: int)
    requires OnCurve(D(), x1, y1) && OnCurve(D(), x2, y2) && Cong(j * j, -1)
    requires var e := Mixed(D(), x1, y1, x2, y2); Cong(e * e, 1)
    ensures var e := Mixed(D(), x1, y1, x2, y2);
      var s, t := y1 + (j * e) * x1, (x1 * y1) * (y2 + j * x2); Cong(D() * (t * t), s * s)
  {
    hide Cong, D, OnCurve, Mixed;
    OnCurveIs(D(), x1, y1);
    OnCurveIs(D(), x2, y2);
    MixedIs(D(), x1, y1, x2, y2);
    var d, e, m1, m2 := D(), Mixed(D(), x1, y1, x2, y2), x1 * y1, x2 * y2;
    var s, t := y1 + (j * e) * x1, m1 * (y2 + j * x2);
    var c := 2 * (j * (e * m1));
    TwistedSquare(x2, y2, j, m1, 1 + d * (m2 * m2));
    Interchange(j, e, j, e);
    CongProduct(j * j, -1, e * e, 1);
    TwistedSquare(x1, y1, j * e, 1, 1 + d * (m1 * m1));
    assert (j * e) * m1 == j * (e * m1);
    assert Cong(s * s, 1 + d * (m1 * m1) + c);
    CongRefl(d);
    var q := (m1 * m1) * (1 + d * (m2 * m2) + 2 * (j * m2));
    CongProduct(d, d, t * t, q);
    Distribute(d, m1, m2, j);
    CongRefl(d * (m1 * m1) + c);
    CongSum(d * (m1 * m1) + c, d * (m1 * m1) + c, e * e, 1);
    CongTrans(d * (t * t), d * q, 1 + d * (m1 * m1) + c);
    CongSym(s * s, 1 + d * (m1 * m1) + c);
    CongTrans(d * (t * t), 1 + d * (m1 * m1) + c, s * s);
  }

  lemma CommonSquare(d: int, m1: int, m2: int)
    ensures (d * (m1 * m1)) * (d * (m2 * m2)) == (d * (m1 * m2)) * (d * (m1 * m2))
  {
    Interchange(d, m1 * m1, d, m2 * m2);
    Interchange(d, m1 * m2, d, m1 * m2);
    Interchange(m1, m2, m1, m2);
  }

  lemma Distribute(d: int, m1: int, m2: int, j: int)
    ensures var e := d * (m1 * m2);
      d * ((m1 * m1) * (1 + d * (m2 * m2) + 2 * (j * m2))) == d * (m1 * m1) + e * e + 2 * (j * (e * m1))
  {
    var e, n := d * (m1 * m2), m1 * m1;
    assert n * (1 + d * (m2 * m2) + 2 * (j * m2)) == n + n * (d * (m2 * m2)) + 2 * (n * (j * m2));
    CommonSquare(d, m1, m2);
    assert d * (n * (d * (m2 * m2))) == (d * n) * (d * (m2 * m2));
    assert n * (j * m2) == j * ((m1 * m2) * m1);
    assert d * (j * ((m1 * m2) * m1)) == j * (e * m1);
  }

  /** The common term of the denominators is never 1 or -1. */
  lemma NoException(x1: int, y1: int, x2: int, y2: int)
    requires Prime(P) && OnCurve(D(), x1, y1) && OnCurve(D(), x2, y2)
    ensures var e := Mixed(D(), x1, y1, x2, y2); !Cong(e * e, 1)
  {
    hide Cong, Prime, D, I, OnCurve;
    var e := Mixed(D(), x1, y1, x2, y2);
    if Cong(e * e, 1) {
      var i, m := I(), x1 * y1;
      RootOfMinusOne();
      assert -i * -i == i * i;
      CommonTermSquares(x1, y1, x2, y2, i);
      CommonTermSquares(x1, y1, x2, y2, -i);
      OnlyZero(y1 + (i * e) * x1, m * (y2 + i * x2));
      OnlyZero(y1 + (-i * e) * x1, m * (y2 + -i * x2));
      if !Cong(m, 0) {
        NoZeroDivisors(m, y2 + i * x2);
        NoZeroDivisors(m, y2 + -i * x2);
        BothVanish(y2, i * x2);
      }
      ZeroTerm(D(), x1, y1, x2, y2);
    }
  }

  lemma BothVanish(y: int, z: int)
    requires Prime(P) && Cong(y + z, 0) && Cong(y - z, 0)
    ensures Cong(y, 0)
  {
    hide Cong, Prime;
    CongSum(y + z, 0, y - z, 0);
    assert (y + z) + (y - z) == 2 * y;
    NoZeroDivisors(2, y);
    CongExactly(2, 0);
  }

  lemma ZeroTerm(d: int, x1: int, y1: int, x2: int, y2: int)
    requires Cong(x1 * y1, 0) || Cong(y2, 0)
    ensures var e := Mixed(d, x1, y1, x2, y2); !Cong(e * e, 1)
  {
    hide Cong;
    Multiplied();
    var e, m, n := Mixed(d, x1, y1, x2, y2), x1 * y1, x2 * y2;
    CongRefl(m);
    CongRefl(n);
    CongRefl(d);
    CongRefl(x2);
    if Cong(m, 0) {
      CongProduct(m, 0, n, n);
    } else {
      CongProduct(x2, x2, y2, 0);
      CongProduct(m, m, n, 0);
    }
    CongProduct(d, d, m * n, 0);
    CongProduct(e, 0, e, 0);
    CongSym(e * e, 0);
    if Cong(e * e, 1) {
      CongTrans(0, e * e, 1);
      CongExactly(0, 1);
    }
  }

  lemma DenominatorsAreUnits(x1: int, y1: int, x2: int, y2: int)
    requires Prime(P) && OnCurve(D(), x1, y1) && OnCurve(D(), x2, y2)
    ensures var e := Mixed(D(), x1, y1, x2, y2); Unit(1 + e) && Unit(1 - e)
  {
    hide Cong, Prime, D, OnCurve, Mixed, Unit;
    var e := Mixed(D(), x1, y1, x2, y2);
    NoException(x1, y1, x2, y2);
    CongRefl(1);
    if Cong(1 + e, 0) {
      CongSum(1 + e, 0, 1, 1);
      CongProduct(e, -1, e, -1);
    }
    if Cong(1 - e, 0) {
      CongSum(1, 1, 1 - e, 0);
      CongProduct(e, 1, e, 1);
    }
    NonzeroIsUnit(1 + e);
    NonzeroIsUnit(1 - e);
  }

  /** Any two points of the curve have a sum. */
  lemma SumExists(x1: int, y1: int, x2: int, y2: int) returns (x3: int, y3: int)
    requires Prime(P) && OnCurve(D(), x1, y1) && OnCurve(D(), x2, y2)
    ensures Sum(D(), x1, y1, x2, y2, x3, y3) && OnCurve(D(), x3, y3)
  {
    hide Cong, Prime, D, OnCurve, Mixed, Unit, Sum;
    DenominatorsAreUnits(x1, y1, x2, y2);
    var e := Mixed(D(), x1, y1, x2, y2);
    var i := UnitGives(1 + e);
    var j := UnitGives(1 - e);
    x3, y3 := (x1 * y2 + x2 * y1) * i, (y1 * y2 + x1 * x2) * j;
    Divide(x1 * y2 + x2 * y1, 1 + e, i);
    Divide(y1 * y2 + x1 * x2, 1 - e, j);
    SumIs(D(), x1, y1, x2, y2, x3, y3);
    SumOnCurve(D(), x1, y1, x2, y2, x3, y3);
  }

  lemma Divide(a: int, z: int, i: int)
    requires Cong(z * i, 1)
    ensures Cong((a * i) * z, a)
  {
    hide Cong;
    CongRefl(a);
    CongProduct(a, a, z * i, 1);
    assert (a * i) * z == a * (z * i);
  }

  /** The sum of two points of the curve is a point of the curve. */
  lemma SumOnCurve(d: int, x1: int, y1: int, x2: int, y2: int, x3: int, y3: int)
    requires OnCurve(d, x1, y1) && OnCurve(d, x2, y2) && Sum(d, x1, y1, x2, y2, x3, y3)
    ensures OnCurve(d, x3, y3)
  {
    hide Cong, Unit;
    Multiplied();
    var e := Mixed(d, x1, y1, x2, y2);
    var a, b, p, q := x1 * y2 + x2 * y1, y1 * y2 + x1 * x2, 1 + e, 1 - e;
    var n := (p * q) * (p * q);
    CurveIdentity(d, x1, y1, x2, y2);
    Cleared(d, x3, y3, a, b, p, q);
    CongTrans((y3 * y3 - x3 * x3) * n, (b * p) * (b * p) - (a * q) * (a * q), n + d * ((a * b) * (a * b)));
    var right := 1 + Mixed(d, x3, y3, x3, y3);
    CongSym(right * n, n + d * ((a * b) * (a * b)));
    CongTrans((y3 * y3 - x3 * x3) * n, n + d * ((a * b) * (a * b)), right * n);
    UnitProduct(p, q);
    UnitProduct(p * q, p * q);
    CancelUnit(y3 * y3 - x3 * x3, right, n);
  }

  /** Both sides of the curve equation for (x3, y3), times the square of the two denominators. */
  lemma Cleared(d: int, x3: int, y3: int, a: int, b: int, p: int, q: int)
    requires Cong(x3 * p, a) && Cong(y3 * q, b)
    ensures var n := (p * q) * (p * q);
      && Cong((y3 * y3 - x3 * x3) * n, (b * p) * (b * p) - (a * q) * (a * q))
      && Cong((1 + Mixed(d, x3, y3, x3, y3)) * n, n + d * ((a * b) * (a * b)))
  {
    hide Cong;
    Multiplied();
    var n := (p * q) * (p * q);
    CongRefl(p);
    CongRefl(q);
    CongRefl(n);
    CongRefl(d);
    CongProduct(x3 * p, a, q, q);
    CongProduct(y3 * q, b, p, p);
    assert (x3 * p) * q == x3 * (p * q) && (y3 * q) * p == y3 * (p * q);
    CongProduct(x3 * (p * q), a * q, x3 * (p * q), a * q);
    CongProduct(y3 * (p * q), b * p, y3 * (p * q), b * p);
    Interchange(x3, p * q, x3, p * q);
    Interchange(y3, p * q, y3, p * q);
    CongSum((y3 * y3) * n, (b * p) * (b * p), (x3 * x3) * n, (a * q) * (a * q));
    assert (y3 * y3 - x3 * x3) * n == (y3 * y3) * n - (x3 * x3) * n;
    CongProduct(x3 * p, a, y3 * q, b);
    Interchange(x3, p, y3, q);
    var m := x3 * y3;
    CongProduct(m * (p * q), a * b, m * (p * q), a * b);
    Interchange(m, p * q, m, p * q);
    CongProduct(d, d, (m * m) * n, (a * b) * (a * b));
    CongSum(n, n, d * ((m * m) * n), d * ((a * b) * (a * b)));
    assert (1 + d * (m * m)) * n == n + (d * (m * m)) * n == n + d * ((m * m) * n);
  }

  /** The numerators a and b of the law in terms of y^2 - x^2, y^2 + x^2 and x y of the two points. */
  lemma SquaredNumerators(x1: int, y1: int, x2: int, y2: int)
    ensures var a, b := x1 * y2 + x2 * y1, y1 * y2 + x1 * x2;
      var p1, q1, m1 := y1 * y1 - x1 * x1, y1 * y1 + x1 * x1, x1 * y1;
      var p2, q2, m2 := y2 * y2 - x2 * x2, y2 * y2 + x2 * x2, x2 * y2;
      b * b - a * a == p1 * p2 && a * a + b * b == q1 * q2 + 4 * (m1 * m2) && a * b == m1 * q2 + m2 * q1
  {
    var a, b := x1 * y2 + x2 * y1, y1 * y2 + x1 * x2;
    Products(x1 * y2, x2 * y1);
    Products(y1 * y2, x1 * x2);
    Interchange(x1, y2, x1, y2);
    Interchange(x2, y1, x2, y1);
    Interchange(y1, y2, y1, y2);
    Interchange(x1, x2, x1, x2);
    assert (x1 * y2) * (x2 * y1) == (x1 * y1) * (x2 * y2) by { Interchange(x1, y2, y1, x2); }
    assert (y1 * y2) * (x1 * x2) == (x1 * y1) * (x2 * y2) by { Interchange(y1, y2, x1, x2); }
    CrossTerms(x1, y1, x2, y2);
  }

  lemma Products(u: int, v: int)
    ensures (u + v) * (u + v) == u * u + 2 * (u * v) + v * v
  {
  }

  lemma CrossTerms(x1: int, y1: int, x2: int, y2: int)
    ensures (x1 * y2 + x2 * y1) * (y1 * y2 + x1 * x2)
         == (x1 * y1) * (y2 * y2 + x2 * x2) + (x2 * y2) * (y1 * y1 + x1 * x1)
  {
    Interchange(x1, y2, y1, y2);
    Interchange(x1, y2, x1, x2);
    Interchange(x2, y1, y1, y2);
    Interchange(x2, y1, x1, x2);
    Expand(x1 * y2, x2 * y1, y1 * y2, x1 * x2);
  }

  /** The left side, from b^2 - a^2 and a^2 + b^2. */
  lemma LeftSide(a: int, b: int, e: int)
    ensures (b * (1 + e)) * (b * (1 + e)) - (a * (1 - e)) * (a * (1 - e))
         == (b * b - a * a) * (1 + e * e) + 2 * (e * (a * a + b * b))
  {
    Interchange(b, 1 + e, b, 1 + e);
    Interchange(a, 1 - e, a, 1 - e);
    var u, v, f := a * a, b * b, e * e;
    assert (1 + e) * (1 + e) == 1 + 2 * e + f && (1 - e) * (1 - e) == 1 - 2 * e + f;
    assert v * (1 + 2 * e + f) == v + 2 * (e * v) + v * f;
    assert u * (1 - 2 * e + f) == u - 2 * (e * u) + u * f;
  }

  lemma SumSquare(p: int, x: int, y: int)
    requires p == y * y - x * x
    ensures (y * y + x * x) * (y * y + x * x) == p * p + 4 * ((x * y) * (x * y))
  {
    var u, v := x * x, y * y;
    Interchange(x, y, x, y);
    assert (v + u) * (v + u) == (v - u) * (v - u) + 4 * (u * v);
  }

  /** d (a b)^2 with a b = m1 q2 + m2 q1 and q^2 = p^2 + 4 m^2. */
  lemma RightSide(d: int, m1: int, m2: int, p1: int, p2: int, q1: int, q2: int)
    requires q1 * q1 == p1 * p1 + 4 * (m1 * m1) && q2 * q2 == p2 * p2 + 4 * (m2 * m2)
    ensures var ab, e := m1 * q2 + m2 * q1, d * (m1 * m2);
      d * (ab * ab)
        == (d * (m1 * m1)) * (p2 * p2) + (d * (m2 * m2)) * (p1 * p1) + 8 * (e * (m1 * m2)) + 2 * (e * (q1 * q2))
  {
    var ab, e, m, r, s := m1 * q2 + m2 * q1, d * (m1 * m2), m1 * m2, m1 * m1, m2 * m2;
    Products(m1 * q2, m2 * q1);
    Interchange(m1, q2, m1, q2);
    Interchange(m2, q1, m2, q1);
    Interchange(m1, q2, m2, q1);
    Interchange(m1, m2, m1, m2);
    assert ab * ab == r * (q2 * q2) + 2 * (m * (q1 * q2)) + s * (q1 * q1);
    assert r * (q2 * q2) == r * (p2 * p2) + 4 * (m * m);
    assert s * (q1 * q1) == s * (p1 * p1) + 4 * (m * m);
    Spread(d, r * (p2 * p2), s * (p1 * p1), m * m, m * (q1 * q2));
    assert d * (r * (p2 * p2)) == (d * r) * (p2 * p2) && d * (s * (p1 * p1)) == (d * s) * (p1 * p1);
    assert d * (m * m) == e * m && d * (m * (q1 * q2)) == e * (q1 * q2);
  }

  lemma Spread(d: int, u: int, v: int, w: int, z: int)
    ensures d * (u + 4 * w + 2 * z + (v + 4 * w)) == d * u + d * v + 8 * (d * w) + 2 * (d * z)
  {
  }

  /** What remains of the identity, for r = d m1^2 and s = d m2^2. */
  lemma Remainder(p1: int, p2: int, r: int, s: int)
    requires Cong(p1, 1 + r) && Cong(p2, 1 + s)
    ensures var f := r * s; Cong((p1 * p2) * (1 + f), (1 - f) * (1 - f) + r * (p2 * p2) + s * (p1 * p1))
  {
    hide Cong;
    var f, u, v := r * s, 1 + r, 1 + s;
    CongRefl(1 + f);
    CongRefl(r);
    CongRefl(s);
    CongRefl((1 - f) * (1 - f));
    CongProduct(p1, u, p2, v);
    CongProduct(p1 * p2, u * v, 1 + f, 1 + f);
    CongProduct(p1, u, p1, u);
    CongProduct(p2, v, p2, v);
    CongProduct(r, r, p2 * p2, v * v);
    CongProduct(s, s, p1 * p1, u * u);
    CongSum((1 - f) * (1 - f), (1 - f) * (1 - f), r * (p2 * p2), r * (v * v));
    CongSum((1 - f) * (1 - f) + r * (p2 * p2), (1 - f) * (1 - f) + r * (v * v), s * (p1 * p1), s * (u * u));
    Polynomial(r, s);
    CongSym((1 - f) * (1 - f) + r * (p2 * p2) + s * (p1 * p1), (1 - f) * (1 - f) + r * (v * v) + s * (u * u));
    CongTrans((p1 * p2) * (1 + f), (u * v) * (1 + f), (1 - f) * (1 - f) + r * (p2 * p2) + s * (p1 * p1));
  }

  lemma Polynomial(r: int, s: int)
    ensures var f, u, v := r * s, 1 + r, 1 + s;
      (u * v) * (1 + f) == (1 - f) * (1 - f) + r * (v * v) + s * (u * u)
  {
    var f := r * s;
    assert (1 + r) * (1 + s) == 1 + r + s + f;
    assert (1 + r + s + f) * (1 + f) == 1 + r + s + f + (f + r * f + s * f + f * f);
    assert (1 + s) * (1 + s) == 1 + 2 * s + s * s && (1 + r) * (1 + r) == 1 + 2 * r + r * r;
    assert r * (1 + 2 * s + s * s) == r + 2 * f + s * f;
    assert s * (1 + 2 * r + r * r) == s + 2 * f + r * f;
    assert (1 - f) * (1 - f) == 1 - 2 * f + f * f;
  }

  /** (b (1 + e))^2 - (a (1 - e))^2 = (1 - e^2)^2 + d a^2 b^2 for the numerators a and b of the law. */
  lemma CurveIdentity(d: int, x1: int, y1: int, x2: int, y2: int)
    requires OnCurve(d, x1, y1) && OnCurve(d, x2, y2)
    ensures var e, a, b := Mixed(d, x1, y1, x2, y2), x1 * y2 + x2 * y1, y1 * y2 + x1 * x2;
      var p, q := 1 + e, 1 - e;
      Cong((b * p) * (b * p) - (a * q) * (a * q), (p * q) * (p * q) + d * ((a * b) * (a * b)))
  {
    hide Cong, OnCurve, Mixed;
    OnCurveIs(d, x1, y1);
    OnCurveIs(d, x2, y2);
    MixedIs(d, x1, y1, x2, y2);
    var e, a, b := Mixed(d, x1, y1, x2, y2), x1 * y2 + x2 * y1, y1 * y2 + x1 * x2;
    var p1, q1, m1 := y1 * y1 - x1 * x1, y1 * y1 + x1 * x1, x1 * y1;
    var p2, q2, m2 := y2 * y2 - x2 * x2, y2 * y2 + x2 * x2, x2 * y2;
    var r, s, f := d * (m1 * m1), d * (m2 * m2), e * e;
    SquaredNumerators(x1, y1, x2, y2);
    LeftSide(a, b, e);
    SumSquare(p1, x1, y1);
    SumSquare(p2, x2, y2);
    RightSide(d, m1, m2, p1, p2, q1, q2);
    assert r * s == f by { CommonSquare(d, m1, m2); }
    Remainder(p1, p2, r, s);
    assert (1 + e) * (1 - e) == 1 - f;
    var rest := 2 * (e * (a * a + b * b));
    assert rest == 8 * (e * (m1 * m2)) + 2 * (e * (q1 * q2));
    CongRefl(rest);
    CongSum((p1 * p2) * (1 + f), (1 - f) * (1 - f) + r * (p2 * p2) + s * (p1 * p1), rest, rest);
  }
}
