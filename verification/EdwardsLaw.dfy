/** The addition law of the twisted Edwards curve of section 5.1 of RFC 8032, on numbers up to congruence. */
module EdwardsLaw {
  import opened FieldLimbs

  ghost predicate Inverse(z: int, i: int) { Cong(Times(z, i), 1) }

  /** A number one can divide by. */
  ghost predicate Unit(z: int)
  {
    exists i :: Inverse(z, i)
  }

  /** The common term of the two denominators of the law. */
  ghost function Mixed(d: int, x1: int, y1: int, x2: int, y2: int): int
  {
    Times(d, Times(Times(x1, y1), Times(x2, y2)))
  }

  /** (x3, y3) is the sum of (x1, y1) and (x2, y2): section 5.1.4 of RFC 8032. The denominators are units, and
      the quotients are multiplied out. */
  ghost predicate Sum(d: int, x1: int, y1: int, x2: int, y2: int, x3: int, y3: int)
  {
    var e := Mixed(d, x1, y1, x2, y2);
    && Unit(1 + e) && Unit(1 - e)
    && Cong(Times(x3, 1 + e), Times(x1, y2) + Times(x2, y1))
    && Cong(Times(y3, 1 - e), Times(y1, y2) + Times(x1, x2))
  }

  lemma UnitIntro(z: int, i: int)
    requires Cong(z * i, 1)
    ensures Unit(z)
  {
    Multiplied();
    assert Inverse(z, i);
  }

  lemma UnitGives(z: int) returns (i: int)
    requires Unit(z)
    ensures Cong(z * i, 1)
  {
    Multiplied();
    i :| Inverse(z, i);
  }

  lemma OneIsUnit()
    ensures Unit(1) && Unit(2)
  {
    CongRefl(1);
    UnitIntro(1, 1);
    CongIntro(2 * ((P + 1) / 2), 1, 1);
    UnitIntro(2, (P + 1) / 2);
  }

  lemma UnitProduct(a: int, b: int)
    requires Unit(a) && Unit(b)
    ensures Unit(a * b)
  {
    Multiplied();
    var i :| Inverse(a, i);
    var j :| Inverse(b, j);
    hide Cong;
    CongProduct(a * i, 1, b * j, 1);
    Interchange(a, i, b, j);
    UnitIntro(a * b, i * j);
  }

  lemma Interchange(a: int, i: int, b: int, j: int)
    ensures (a * i) * (b * j) == (a * b) * (i * j)
  {
    Scale(a, i, b, j);
  }

  lemma UnitMoves(a: int, b: int)
    requires Unit(a) && Cong(b, a)
    ensures Unit(b)
  {
    Multiplied();
    var i :| Inverse(a, i);
    hide Cong;
    CongRefl(i);
    CongProduct(b, a, i, i);
    CongTrans(b * i, a * i, 1);
    UnitIntro(b, i);
  }

  lemma CancelUnit(a: int, b: int, t: int)
    requires Unit(t) && Cong(a * t, b * t)
    ensures Cong(a, b)
  {
    hide Cong, Unit;
    var i := UnitGives(t);
    CongRefl(i);
    CongRefl(a);
    CongRefl(b);
    CongProduct(a * t, b * t, i, i);
    CongProduct(a, a, t * i, 1);
    CongProduct(b, b, t * i, 1);
    assert (a * t) * i == a * (t * i) && (b * t) * i == b * (t * i);
    CongSym(a * (t * i), a);
    CongTrans(a, a * (t * i), b * (t * i));
    CongTrans(a, b * (t * i), b);
  }

  /** Zero is not a unit, so representatives with a unit for a denominator say something. */
  lemma ZeroIsNoUnit(z: int)
    requires Cong(z, 0)
    ensures !Unit(z)
  {
    Multiplied();
    if Unit(z) {
      var i :| Inverse(z, i);
      CongRefl(i);
      CongProduct(z, 0, i, i);
      CongExactly(z * i, 1);
      CongExactly(z * i, 0);
    }
  }

  /** -x^2 + y^2 = 1 + d x^2 y^2 */
  ghost predicate OnCurve(d: int, x: int, y: int)
  {
    Cong(Times(y, y) - Times(x, x), 1 + Mixed(d, x, y, x, y))
  }

  lemma MixedIs(d: int, x1: int, y1: int, x2: int, y2: int)
    ensures Mixed(d, x1, y1, x2, y2) == d * ((x1 * y1) * (x2 * y2))
  {
    Multiplied();
  }

  lemma OnCurveIs(d: int, x: int, y: int)
    ensures OnCurve(d, x, y) <==> Cong(y * y - x * x, 1 + d * ((x * y) * (x * y)))
  {
    Multiplied();
  }

  lemma SumIs(d: int, x1: int, y1: int, x2: int, y2: int, x3: int, y3: int)
    ensures var e := Mixed(d, x1, y1, x2, y2);
      Sum(d, x1, y1, x2, y2, x3, y3) <==>
        && Unit(1 + e) && Unit(1 - e)
        && Cong(x3 * (1 + e), x1 * y2 + x2 * y1) && Cong(y3 * (1 - e), y1 * y2 + x1 * x2)
  {
    Multiplied();
  }

  lemma Expand(a: int, b: int, c: int, e: int)
    ensures (a + b) * (c + e) == a * c + a * e + b * c + b * e
    ensures (a - b) * (c - e) == a * c - a * e - b * c + b * e
  {
  }

  lemma Scale(u: int, z: int, v: int, w: int)
    ensures (u * z) * (v * w) == (z * w) * (u * v)
  {
    assert (u * z) * (v * w) == u * (z * (v * w)) == u * (v * (z * w)) == (z * w) * (u * v);
  }

  /** The two cross products of the formula. */
  lemma CrossProducts(x1: int, y1: int, z1: int, x2: int, y2: int, z2: int)
    ensures var a, b, w := ((y1 + x1) * z1) * ((y2 + x2) * z2), ((y1 - x1) * z1) * ((y2 - x2) * z2), 2 * (z1 * z2);
      a - b == w * (x1 * y2 + x2 * y1) && a + b == w * (y1 * y2 + x1 * x2)
  {
    var m := z1 * z2;
    Scale(y1 + x1, z1, y2 + x2, z2);
    Scale(y1 - x1, z1, y2 - x2, z2);
    Expand(y1, x1, y2, x2);
    var p, q := (y1 + x1) * (y2 + x2), (y1 - x1) * (y2 - x2);
    assert p - q == 2 * (x1 * y2 + x2 * y1) && p + q == 2 * (y1 * y2 + x1 * x2);
    Distribute(m, p, q, x1 * y2 + x2 * y1, y1 * y2 + x1 * x2);
  }

  lemma Distribute(m: int, p: int, q: int, u: int, v: int)
    requires p - q == 2 * u && p + q == 2 * v
    ensures m * p - m * q == (2 * m) * u && m * p + m * q == (2 * m) * v
  {
    assert m * p - m * q == m * (p - q) && m * p + m * q == m * (p + q);
  }

  lemma TProduct(d: int, x1: int, y1: int, z1: int, x2: int, y2: int, z2: int)
    ensures (2 * (d * (x2 * y2)) * z2) * ((x1 * y1) * z1) == (2 * (z1 * z2)) * (d * ((x1 * y1) * (x2 * y2)))
  {
    var u, v := x2 * y2, x1 * y1;
    Scale(2 * (d * u), z2, v, z1);
    assert (2 * (d * u)) * v == 2 * (d * (v * u));
  }

  /** The completed point (X : Z), (Y : T) is (x, y). */
  ghost predicate Completed(rx: int, ry: int, rz: int, rt: int, x: int, y: int)
  {
    Unit(rz) && Unit(rt) && Cong(Times(x, rz), rx) && Cong(Times(y, rt), ry)
  }

  lemma Ratio(x: int, w: int, s: int, n: int, num: int, den: int)
    requires Cong(num, w * n) && Cong(den, w * s) && Cong(x * s, n)
    ensures Cong(x * den, num)
  {
    hide Cong;
    CongRefl(x);
    CongRefl(w);
    CongProduct(x, x, den, w * s);
    assert x * (w * s) == w * (x * s);
    CongProduct(w, w, x * s, n);
    CongTrans(x * den, w * (x * s), w * n);
    CongSym(num, w * n);
    CongTrans(x * den, w * n, num);
  }

  /** Completed coordinates built from representatives of two points represent their sum. */
  lemma CompletedSum(d: int, x1: int, y1: int, z1: int, x2: int, y2: int, z2: int, x3: int, y3: int,
                     a: int, b: int, a2: int, b2: int, t1: int, t2: int, zz: int, rx: int, ry: int, rz: int, rt: int)
    requires Sum(d, x1, y1, x2, y2, x3, y3) && Unit(z1) && Unit(z2)
    requires Cong(a, (y1 + x1) * z1) && Cong(b, (y1 - x1) * z1) && Cong(t1, (x1 * y1) * z1)
    requires Cong(a2, (y2 + x2) * z2) && Cong(b2, (y2 - x2) * z2) && Cong(t2, 2 * (d * (x2 * y2)) * z2)
    requires Cong(zz, z1 * z2)
    requires Cong(rx, a * a2 - b * b2) && Cong(ry, a * a2 + b * b2) && Cong(rz, 2 * zz + t2 * t1)
    requires Cong(rt, 2 * zz - t2 * t1)
    ensures Completed(rx, ry, rz, rt, x3, y3)
    ensures var w, e := 2 * (z1 * z2), Mixed(d, x1, y1, x2, y2); Cong(rz, w * (1 + e)) && Cong(rt, w * (1 - e))
  {
    hide Cong, Unit;
    Multiplied();
    var w, e := 2 * (z1 * z2), Mixed(d, x1, y1, x2, y2);
    Numerators(x1, y1, z1, x2, y2, z2, a, b, a2, b2);
    Denominators(d, x1, y1, z1, x2, y2, z2, t1, t2, zz);
    CongTrans(rx, a * a2 - b * b2, w * (x1 * y2 + x2 * y1));
    CongTrans(ry, a * a2 + b * b2, w * (y1 * y2 + x1 * x2));
    CongTrans(rz, 2 * zz + t2 * t1, w * (1 + e));
    CongTrans(rt, 2 * zz - t2 * t1, w * (1 - e));
    Ratio(x3, w, 1 + e, x1 * y2 + x2 * y1, rx, rz);
    Ratio(y3, w, 1 - e, y1 * y2 + x1 * x2, ry, rt);
    OneIsUnit();
    UnitProduct(z1, z2);
    UnitProduct(2, z1 * z2);
    ScaledUnit(w, 1 + e, rz);
    ScaledUnit(w, 1 - e, rt);
  }

  lemma ScaledUnit(w: int, s: int, r: int)
    requires Unit(w) && Unit(s) && Cong(r, w * s)
    ensures Unit(r)
  {
    hide Cong, Unit;
    UnitProduct(w, s);
    UnitMoves(w * s, r);
  }

  lemma Numerators(x1: int, y1: int, z1: int, x2: int, y2: int, z2: int, a: int, b: int, a2: int, b2: int)
    requires Cong(a, (y1 + x1) * z1) && Cong(b, (y1 - x1) * z1) && Cong(a2, (y2 + x2) * z2) && Cong(b2, (y2 - x2) * z2)
    ensures var w := 2 * (z1 * z2);
      Cong(a * a2 - b * b2, w * (x1 * y2 + x2 * y1)) && Cong(a * a2 + b * b2, w * (y1 * y2 + x1 * x2))
  {
    hide Cong;
    var p, q := ((y1 + x1) * z1) * ((y2 + x2) * z2), ((y1 - x1) * z1) * ((y2 - x2) * z2);
    CongProduct(a, (y1 + x1) * z1, a2, (y2 + x2) * z2);
    CongProduct(b, (y1 - x1) * z1, b2, (y2 - x2) * z2);
    CongSum(a * a2, p, b * b2, q);
    CrossProducts(x1, y1, z1, x2, y2, z2);
  }

  lemma Denominators(d: int, x1: int, y1: int, z1: int, x2: int, y2: int, z2: int, t1: int, t2: int, zz: int)
    requires Cong(t1, (x1 * y1) * z1) && Cong(t2, 2 * (d * (x2 * y2)) * z2) && Cong(zz, z1 * z2)
    ensures var w, e := 2 * (z1 * z2), d * ((x1 * y1) * (x2 * y2));
      Cong(2 * zz + t2 * t1, w * (1 + e)) && Cong(2 * zz - t2 * t1, w * (1 - e))
  {
    hide Cong;
    var w, e := 2 * (z1 * z2), d * ((x1 * y1) * (x2 * y2));
    CongProduct(t2, 2 * (d * (x2 * y2)) * z2, t1, (x1 * y1) * z1);
    TProduct(d, x1, y1, z1, x2, y2, z2);
    CongRefl(2);
    CongProduct(2, 2, zz, z1 * z2);
    CongSum(2 * zz, w, t2 * t1, w * e);
    assert w + w * e == w * (1 + e) && w - w * e == w * (1 - e);
  }

  /** Doubling: the curve equation turns the formula without d into the law. */
  lemma CompletedDouble(d: int, x: int, y: int, z: int, x3: int, y3: int, rx: int, ry: int, rz: int, rt: int)
    requires OnCurve(d, x, y) && Sum(d, x, y, x, y, x3, y3) && Unit(z)
    requires var zz := z * z;
      && Cong(rx, zz * (2 * (x * y))) && Cong(ry, zz * (y * y + x * x))
      && Cong(rz, zz * (y * y - x * x)) && Cong(rt, zz * (2 - (y * y - x * x)))
    ensures Completed(rx, ry, rz, rt, x3, y3)
  {
    hide Cong, Unit;
    Multiplied();
    var zz, e, c := z * z, Mixed(d, x, y, x, y), y * y - x * x;
    CongRefl(x3);
    CongRefl(y3);
    CongRefl(2);
    CongProduct(x3, x3, c, 1 + e);
    CongTrans(x3 * c, x3 * (1 + e), 2 * (x * y));
    CongSum(2, 2, c, 1 + e);
    CongProduct(y3, y3, 2 - c, 1 - e);
    CongTrans(y3 * (2 - c), y3 * (1 - e), y * y + x * x);
    Ratio(x3, zz, c, 2 * (x * y), rx, rz);
    Ratio(y3, zz, 2 - c, y * y + x * x, ry, rt);
    UnitProduct(z, z);
    UnitMoves(1 + e, c);
    UnitMoves(1 - e, 2 - c);
    ScaledUnit(zz, c, rz);
    ScaledUnit(zz, 2 - c, rt);
  }

  /** (px : py : pz : pt) stands for x = px / pz, y = py / pz and x y = pt / pz. */
  ghost predicate Extended(px: int, py: int, pz: int, pt: int, x: int, y: int)
  {
    Unit(pz) && Cong(px, Times(x, pz)) && Cong(py, Times(y, pz)) && Cong(pt, Times(Times(x, y), pz))
  }

  /** From completed to extended coordinates. */
  lemma ToExtended(rx: int, ry: int, rz: int, rt: int, x: int, y: int, px: int, py: int, pz: int, pt: int)
    requires Completed(rx, ry, rz, rt, x, y)
    requires Cong(px, Times(rx, rt)) && Cong(py, Times(ry, rz)) && Cong(pz, Times(rz, rt)) && Cong(pt, Times(rx, ry))
    ensures Extended(px, py, pz, pt, x, y)
  {
    hide Cong, Unit, Times;
    TimesIs(rz, rt);
    TimesIs(rt, rz);
    ScaledUnit(rz, rt, pz);
    Coordinate(x, rx, rz, rt, px, pz);
    Coordinate(y, ry, rt, rz, py, pz);
    ProductCoordinate(x, y, rx, ry, rz, rt, pt, pz);
  }

  lemma Coordinate(x: int, r: int, s: int, t: int, p: int, z: int)
    requires Cong(Times(x, s), r) && Cong(p, Times(r, t)) && Cong(z, Times(s, t))
    ensures Cong(p, Times(x, z))
  {
    hide Cong, Times;
    TimesIs(x, s); TimesIs(r, t); TimesIs(s, t); TimesIs(x, z);
    CongRefl(x); CongRefl(t);
    CongProduct(x, x, z, s * t);
    CongProduct(x * s, r, t, t);
    assert (x * s) * t == x * (s * t);
    Meet(p, r * t, x * (s * t), x * z);
  }

  lemma ProductCoordinate(x: int, y: int, rx: int, ry: int, s: int, t: int, p: int, z: int)
    requires Cong(Times(x, s), rx) && Cong(Times(y, t), ry) && Cong(p, Times(rx, ry)) && Cong(z, Times(s, t))
    ensures Cong(p, Times(Times(x, y), z))
  {
    hide Cong, Times;
    TimesIs(x, s); TimesIs(y, t); TimesIs(rx, ry); TimesIs(s, t); TimesIs(x, y); TimesIs(x * y, z);
    CongRefl(x * y);
    CongProduct(x * y, x * y, z, s * t);
    CongProduct(x * s, rx, y * t, ry);
    Interchange(x, s, y, t);
    Meet(p, rx * ry, (x * y) * (s * t), (x * y) * z);
  }

  lemma Meet(a: int, b: int, c: int, e: int)
    requires Cong(a, b) && Cong(c, b) && Cong(e, c)
    ensures Cong(a, e)
  {
    hide Cong;
    CongTrans(e, c, b);
    CongSym(e, b);
    CongTrans(a, b, e);
  }

  /** On the curve a point and its mirror image add up to the neutral element. */
  lemma MirrorIsInverse(d: int, x: int, y: int)
    requires OnCurve(d, x, y) && Unit(1 + Mixed(d, x, y, x, y)) && Unit(1 - Mixed(d, x, y, x, y))
    ensures Sum(d, x, y, -x, y, 0, 1)
  {
    hide Cong, Unit;
    Multiplied();
    var p := x * y;
    assert (-x) * y == -p;
    assert p * -p == -(p * p);
    assert d * -(p * p) == -(d * (p * p));
    assert x * -x == -(x * x);
    CongRefl(0);
    CongSym(y * y - x * x, 1 + d * (p * p));
  }
}
