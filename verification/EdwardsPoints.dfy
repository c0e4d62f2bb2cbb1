/** The point formulas of the curve code: every field operation within its range, every result the curve's sum. */
module EdwardsPoints {
  import opened FieldLimbs
  import opened FieldOps
  import opened EdwardsLaw

  datatype P2 = P2(X: Fe, Y: Fe, Z: Fe)
  datatype P3 = P3(X: Fe, Y: Fe, Z: Fe, T: Fe)
  datatype P1p1 = P1p1(X: Fe, Y: Fe, Z: Fe, T: Fe)
  datatype Cached = Cached(YplusX: Fe, YminusX: Fe, Z: Fe, T2d: Fe)
  datatype Precomp = Precomp(yplusx: Fe, yminusx: Fe, xy2d: Fe)

  const FE_D: Fe := [-10913610, 13857413, -15372611, 6949391, 114729, -8787816, -6275908, -3247719,
    -18696448, -12055116]
  const FE_D2: Fe := [-21827239, -5839606, -30745221, 13898782, 229458, 15978800, -12551817, -6495438,
    29715968, 9444199]

  /** `d` is the quotient -121665/121666. */
  ghost predicate CurveConstant(d: int) { Cong(121666 * d, -121665) }

  lemma DenominatorIsUnit()
    ensures Unit(121666)
  {
    var i := 37095705934669439343138083508754565189542113879843219016388785533085940283556;
    CongIntro(121666 * i, 1, 77955);
    UnitIntro(121666, i);
  }

  lemma ConstantExists()
    ensures CurveConstant(Value(FE_D)) && Cong(Value(FE_D2), 2 * Value(FE_D))
  {
    CongExactly(121666 * Value(FE_D), -121665);
    CongExactly(Value(FE_D2), 2 * Value(FE_D));
  }

  ghost function D(): int
  {
    ConstantExists();
    var d :| CurveConstant(d);
    d
  }

  /** The limbs are those of the quotient and of its double. */
  lemma Constants()
    ensures Size(FE_D, 1, 0) && Size(FE_D2, 1, 0)
    ensures Cong(121666 * D(), -121665) && Cong(Value(FE_D), D()) && Cong(Value(FE_D2), 2 * D())
  {
    ConstantExists();
    DenominatorIsUnit();
    assert CurveConstant(D());
    hide Cong, Unit, Value, D;
    var v, d := Value(FE_D), D();
    CongSym(121666 * d, -121665);
    CongTrans(121666 * v, -121665, 121666 * d);
    assert 121666 * v == v * 121666 && 121666 * d == d * 121666;
    CancelUnit(v, d, 121666);
    CongRefl(2);
    CongProduct(2, 2, v, d);
    CongTrans(Value(FE_D2), 2 * v, 2 * d);
  }

  // How large the coordinates are: outputs of fe_mul in the projective and extended forms, up to three of them
  // added up in the completed form.

  ghost predicate Fits2(p: P2) { Size(p.X, 1, 0) && Size(p.Y, 1, 0) && Size(p.Z, 1, 0) }

  ghost predicate Fits3(p: P3) { Size(p.X, 1, 0) && Size(p.Y, 1, 0) && Size(p.Z, 1, 0) && Size(p.T, 1, 0) }

  ghost predicate FitsCompleted(r: P1p1) { Size(r.X, 3, 0) && Size(r.Y, 2, 0) && Size(r.Z, 3, 0) && Size(r.T, 3, 0) }

  ghost predicate FitsCached(q: Cached)
  {
    Size(q.YplusX, 2, 0) && Size(q.YminusX, 2, 0) && Size(q.Z, 1, 0) && Size(q.T2d, 1, 0)
  }

  ghost predicate FitsPrecomp(q: Precomp) { Size(q.yplusx, 1, 0) && Size(q.yminusx, 1, 0) && Size(q.xy2d, 1, 0) }

  // Which affine point they stand for.

  ghost predicate Is2(p: P2, x: int, y: int)
    requires Fits2(p)
  {
    var z := Value(p.Z);
    Unit(z) && Cong(Value(p.X), Times(x, z)) && Cong(Value(p.Y), Times(y, z))
  }

  ghost predicate Is3(p: P3, x: int, y: int)
    requires Fits3(p)
  {
    Extended(Value(p.X), Value(p.Y), Value(p.Z), Value(p.T), x, y)
  }

  ghost predicate IsCompleted(r: P1p1, x: int, y: int)
    requires FitsCompleted(r)
  {
    Completed(Value(r.X), Value(r.Y), Value(r.Z), Value(r.T), x, y)
  }

  ghost predicate IsCached(q: Cached, x: int, y: int)
    requires FitsCached(q)
  {
    var z := Value(q.Z);
    && Unit(z) && Cong(Value(q.YplusX), Times(y + x, z)) && Cong(Value(q.YminusX), Times(y - x, z))
    && Cong(Value(q.T2d), Times(2 * Times(D(), Times(x, y)), z))
  }

  ghost predicate IsPrecomp(q: Precomp, x: int, y: int)
    requires FitsPrecomp(q)
  {
    && Cong(Value(q.yplusx), y + x) && Cong(Value(q.yminusx), y - x)
    && Cong(Value(q.xy2d), 2 * Times(D(), Times(x, y)))
  }

  /** What the shared middle of the four addition formulas computes, from a pair of factors and a T product. */
  ghost predicate Formula(r: P1p1, p: P3, a2: int, b2: int, t2: int, zz: int)
    requires Fits3(p) && FitsCompleted(r)
  {
    var a, b, t1 := Value(p.Y) + Value(p.X), Value(p.Y) - Value(p.X), Value(p.T);
    && Cong(Value(r.X), a * a2 - b * b2) && Cong(Value(r.Y), a * a2 + b * b2)
    && Cong(Value(r.Z), 2 * zz + t2 * t1) && Cong(Value(r.T), 2 * zz - t2 * t1)
  }

  lemma FormulaIsSum(r: P1p1, p: P3, x1: int, y1: int, x2: int, y2: int, z2: int, x3: int, y3: int, a2: int, b2: int,
                     t2: int, zz: int)
    requires Fits3(p) && FitsCompleted(r) && Is3(p, x1, y1) && Formula(r, p, a2, b2, t2, zz)
    requires Cong(a2, (y2 + x2) * z2) && Cong(b2, (y2 - x2) * z2) && Cong(t2, 2 * (D() * (x2 * y2)) * z2)
    requires Cong(zz, Value(p.Z) * z2) && Unit(z2) && Sum(D(), x1, y1, x2, y2, x3, y3)
    ensures IsCompleted(r, x3, y3)
  {
    hide Cong, Unit, Value, Completed, Size, D;
    Multiplied();
    var z1 := Value(p.Z);
    CongSum(Value(p.Y), y1 * z1, Value(p.X), x1 * z1);
    assert y1 * z1 + x1 * z1 == (y1 + x1) * z1 && y1 * z1 - x1 * z1 == (y1 - x1) * z1;
    CompletedSum(D(), x1, y1, z1, x2, y2, z2, x3, y3, Value(p.Y) + Value(p.X), Value(p.Y) - Value(p.X), a2, b2,
                 Value(p.T), t2, zz, Value(r.X), Value(r.Y), Value(r.Z), Value(r.T));
  }

  /** The field operations common to `ge_add`, `ge_sub`, `ge_madd` and `ge_msub`; `t0` is the doubled Z product. */
  method Combine(p: P3, plus: Fe, minus: Fe, t2d: Fe, t0: Fe, ghost zz: int)
    returns (x: Fe, y: Fe, sum: Fe, difference: Fe)
    requires Fits3(p) && Size(plus, 2, 0) && Size(minus, 2, 0) && Size(t2d, 1, 0) && Size(t0, 2, 0)
    requires Cong(Value(t0), 2 * zz)
    ensures Size(x, 3, 0) && Size(y, 2, 0) && Size(sum, 3, 0) && Size(difference, 3, 0)
    ensures Formula(P1p1(x, y, sum, difference), p, Value(plus), Value(minus), Value(t2d), zz)
  {
    hide Cong, Value;
    x := Add(p.Y, p.X, 1, 1, 0);
    y := Sub(p.Y, p.X, 1, 1, 0);
    var z := Mul(x, plus, 2, 2);
    y := Mul(y, minus, 2, 2);
    var t := Mul(t2d, p.T, 1, 1);
    ghost var a, b := Value(z), Value(y);
    x := Sub(z, y, 1, 1, 0);
    y := Add(z, y, 1, 1, 0);
    sum := Add(t0, t, 2, 1, 0);
    difference := Sub(t0, t, 2, 1, 0);
    CongSum(a, (Value(p.Y) + Value(p.X)) * Value(plus), b, (Value(p.Y) - Value(p.X)) * Value(minus));
    CongSum(Value(t0), 2 * zz, Value(t), Value(t2d) * Value(p.T));
  }

  /** `ge_add` */
  method GeAdd(p: P3, q: Cached) returns (r: P1p1)
    requires Fits3(p) && FitsCached(q)
    ensures FitsCompleted(r)
    ensures forall x1, y1, x2, y2, x3, y3 ::
      Is3(p, x1, y1) && IsCached(q, x2, y2) && Sum(D(), x1, y1, x2, y2, x3, y3) ==>
        IsCompleted(r, x3, y3)
  {
    hide Cong, Unit, Value, Size, Completed, D, Sum, Formula;
    Multiplied();
    SizeSlack(p.Z, 1); SizeSlack(q.Z, 1);
    var zz := Mul(p.Z, q.Z, 1, 1);
    var t0 := Add(zz, zz, 1, 1, 0);
    CongRefl(Value(t0));
    var x, y, sum, difference := Combine(p, q.YplusX, q.YminusX, q.T2d, t0, Value(zz));
    r := P1p1(x, y, sum, difference);
    forall x1, y1, x2, y2, x3, y3 | Is3(p, x1, y1) && IsCached(q, x2, y2) && Sum(D(), x1, y1, x2, y2, x3, y3)
      ensures IsCompleted(r, x3, y3)
    {
      FormulaIsSum(r, p, x1, y1, x2, y2, Value(q.Z), x3, y3, Value(q.YplusX), Value(q.YminusX), Value(q.T2d),
        Value(zz));
    }
  }

  /** Changing the sign of x2 swaps the factors and negates the T product. */
  lemma Negated(r: P1p1, p: P3, a2: int, b2: int, t2: int, zz: int)
    requires Fits3(p) && FitsCompleted(r) && Formula(P1p1(r.X, r.Y, r.T, r.Z), p, a2, b2, t2, zz)
    ensures Formula(r, p, a2, b2, -t2, zz)
  {
    hide Cong, Value, Size;
    assert (-t2) * Value(p.T) == -(t2 * Value(p.T));
  }

  lemma NegatedT(t: int, d: int, x: int, y: int, z: int)
    requires Cong(t, 2 * (d * (x * y)) * z)
    ensures Cong(-t, 2 * (d * ((-x) * y)) * z)
  {
    hide Cong;
    CongRefl(0);
    CongSum(0, 0, t, 2 * (d * (x * y)) * z);
    assert (-x) * y == -(x * y);
    assert d * (-(x * y)) == -(d * (x * y));
    assert (2 * -(d * (x * y))) * z == -(2 * (d * (x * y)) * z);
  }

  /** `ge_sub` */
  method GeSub(p: P3, q: Cached) returns (r: P1p1)
    requires Fits3(p) && FitsCached(q)
    ensures FitsCompleted(r)
    ensures forall x1, y1, x2, y2, x3, y3 ::
      Is3(p, x1, y1) && IsCached(q, x2, y2) && Sum(D(), x1, y1, -x2, y2, x3, y3) ==>
        IsCompleted(r, x3, y3)
  {
    hide Cong, Unit, Value, Size, Completed, D, Sum, Formula;
    Multiplied();
    SizeSlack(p.Z, 1); SizeSlack(q.Z, 1);
    var zz := Mul(p.Z, q.Z, 1, 1);
    var t0 := Add(zz, zz, 1, 1, 0);
    CongRefl(Value(t0));
    var x, y, sum, difference := Combine(p, q.YminusX, q.YplusX, q.T2d, t0, Value(zz));
    r := P1p1(x, y, difference, sum);
    Negated(r, p, Value(q.YminusX), Value(q.YplusX), Value(q.T2d), Value(zz));
    forall x1, y1, x2, y2, x3, y3 | Is3(p, x1, y1) && IsCached(q, x2, y2) && Sum(D(), x1, y1, -x2, y2, x3, y3)
      ensures IsCompleted(r, x3, y3)
    {
      NegatedT(Value(q.T2d), D(), x2, y2, Value(q.Z));
      FormulaIsSum(r, p, x1, y1, -x2, y2, Value(q.Z), x3, y3, Value(q.YminusX), Value(q.YplusX), -Value(q.T2d),
        Value(zz));
    }
  }

  lemma PrecompIsCached(q: Precomp, x: int, y: int)
    requires FitsPrecomp(q) && IsPrecomp(q, x, y)
    ensures Cong(Value(q.yplusx), (y + x) * 1) && Cong(Value(q.yminusx), (y - x) * 1)
    ensures Cong(Value(q.xy2d), 2 * (D() * (x * y)) * 1)
  {
    Multiplied();
  }

  /** Sizes may be overstated. */
  lemma Larger(f: Fe, m: nat, n: nat)
    requires Size(f, m, 0) && m <= n
    ensures Size(f, n, 0)
  {
  }

  /** `ge_madd` */
  method GeMadd(p: P3, q: Precomp) returns (r: P1p1)
    requires Fits3(p) && FitsPrecomp(q)
    ensures FitsCompleted(r)
    ensures forall x1, y1, x2, y2, x3, y3 ::
      Is3(p, x1, y1) && IsPrecomp(q, x2, y2) && Sum(D(), x1, y1, x2, y2, x3, y3) ==>
        IsCompleted(r, x3, y3)
  {
    hide Cong, Unit, Value, Size, Completed, D, Sum, Formula;
    var t0 := Add(p.Z, p.Z, 1, 1, 0);
    CongRefl(Value(t0));
    CongRefl(Value(p.Z));
    Larger(q.yplusx, 1, 2);
    Larger(q.yminusx, 1, 2);
    var x, y, sum, difference := Combine(p, q.yplusx, q.yminusx, q.xy2d, t0, Value(p.Z));
    r := P1p1(x, y, sum, difference);
    forall x1, y1, x2, y2, x3, y3 | Is3(p, x1, y1) && IsPrecomp(q, x2, y2) && Sum(D(), x1, y1, x2, y2, x3, y3)
      ensures IsCompleted(r, x3, y3)
    {
      OneIsUnit();
      PrecompIsCached(q, x2, y2);
      FormulaIsSum(r, p, x1, y1, x2, y2, 1, x3, y3, Value(q.yplusx), Value(q.yminusx), Value(q.xy2d), Value(p.Z));
    }
  }

  /** `ge_msub` */
  method GeMsub(p: P3, q: Precomp) returns (r: P1p1)
    requires Fits3(p) && FitsPrecomp(q)
    ensures FitsCompleted(r)
    ensures forall x1, y1, x2, y2, x3, y3 ::
      Is3(p, x1, y1) && IsPrecomp(q, x2, y2) && Sum(D(), x1, y1, -x2, y2, x3, y3) ==>
        IsCompleted(r, x3, y3)
  {
    hide Cong, Unit, Value, Size, Completed, D, Sum, Formula;
    var t0 := Add(p.Z, p.Z, 1, 1, 0);
    CongRefl(Value(t0));
    CongRefl(Value(p.Z));
    Larger(q.yplusx, 1, 2);
    Larger(q.yminusx, 1, 2);
    var x, y, sum, difference := Combine(p, q.yminusx, q.yplusx, q.xy2d, t0, Value(p.Z));
    r := P1p1(x, y, difference, sum);
    Negated(r, p, Value(q.yminusx), Value(q.yplusx), Value(q.xy2d), Value(p.Z));
    forall x1, y1, x2, y2, x3, y3 | Is3(p, x1, y1) && IsPrecomp(q, x2, y2) && Sum(D(), x1, y1, -x2, y2, x3, y3)
      ensures IsCompleted(r, x3, y3)
    {
      OneIsUnit();
      PrecompIsCached(q, x2, y2);
      NegatedT(Value(q.xy2d), D(), x2, y2, 1);
      FormulaIsSum(r, p, x1, y1, -x2, y2, 1, x3, y3, Value(q.yminusx), Value(q.yplusx), -Value(q.xy2d), Value(p.Z));
    }
  }

  /** `ge_p1p1_to_p3` */
  method ToP3(r: P1p1) returns (p: P3)
    requires FitsCompleted(r)
    ensures Fits3(p) && forall x, y :: IsCompleted(r, x, y) ==> Is3(p, x, y)
  {
    hide Cong, Unit, Value, Size, Completed;
    Multiplied();
    SizeSlack(r.X, 3); SizeSlack(r.Y, 2); SizeSlack(r.Z, 3); SizeSlack(r.T, 3);
    var X := Mul(r.X, r.T, 3, 3);
    var Y := Mul(r.Y, r.Z, 2, 3);
    var Z := Mul(r.Z, r.T, 3, 3);
    var T := Mul(r.X, r.Y, 3, 2);
    p := P3(X, Y, Z, T);
    forall x, y | IsCompleted(r, x, y) ensures Is3(p, x, y) {
      ToExtended(Value(r.X), Value(r.Y), Value(r.Z), Value(r.T), x, y, Value(X), Value(Y), Value(Z), Value(T));
    }
  }

  lemma SizeSlack(f: Fe, n: nat)
    requires Size(f, n, 0)
    ensures Size(f, n, 1)
  {
  }

  /** `ge_p1p1_to_p2` */
  method ToP2(r: P1p1) returns (p: P2)
    requires FitsCompleted(r)
    ensures Fits2(p) && forall x, y :: IsCompleted(r, x, y) ==> Is2(p, x, y)
  {
    hide Cong, Unit, Value, Size, Completed;
    Multiplied();
    SizeSlack(r.X, 3); SizeSlack(r.Y, 2); SizeSlack(r.Z, 3); SizeSlack(r.T, 3);
    var X := Mul(r.X, r.T, 3, 3);
    var Y := Mul(r.Y, r.Z, 2, 3);
    var Z := Mul(r.Z, r.T, 3, 3);
    p := P2(X, Y, Z);
    forall x, y | IsCompleted(r, x, y) ensures Is2(p, x, y) {
      CongRefl(Value(r.X) * Value(r.Y));
      ToExtended(Value(r.X), Value(r.Y), Value(r.Z), Value(r.T), x, y, Value(X), Value(Y), Value(Z),
        Value(r.X) * Value(r.Y));
    }
  }

  /** `ge_p3_to_p2` */
  function DropT(p: P3): (q: P2)
    requires Fits3(p)
    ensures Fits2(q) && forall x, y :: Is3(p, x, y) ==> Is2(q, x, y)
  {
    P2(p.X, p.Y, p.Z)
  }

  /** `ge_p3_to_cached` */
  method ToCached(p: P3) returns (q: Cached)
    requires Fits3(p)
    ensures FitsCached(q) && forall x, y :: Is3(p, x, y) ==> IsCached(q, x, y)
  {
    hide Cong, Unit, Value, Size, FE_D2, D;
    Multiplied();
    Constants();
    SizeSlack(p.T, 1); SizeSlack(FE_D2, 1);
    var plus := Add(p.Y, p.X, 1, 1, 0);
    var minus := Sub(p.Y, p.X, 1, 1, 0);
    var t2d := Mul(p.T, FE_D2, 1, 1);
    q := Cached(plus, minus, p.Z, t2d);
    forall x, y | Is3(p, x, y) ensures IsCached(q, x, y) {
      var z := Value(p.Z);
      CachedProducts(x, y, z, D());
      CongSum(Value(p.Y), y * z, Value(p.X), x * z);
      CongProduct(Value(p.T), (x * y) * z, Value(FE_D2), 2 * D());
      CongTrans(Value(t2d), Value(p.T) * Value(FE_D2), 2 * (D() * (x * y)) * z);
    }
  }

  lemma CachedProducts(x: int, y: int, z: int, d: int)
    ensures y * z + x * z == (y + x) * z && y * z - x * z == (y - x) * z
    ensures ((x * y) * z) * (2 * d) == 2 * (d * (x * y)) * z
  {
    var m := x * y;
    assert (m * z) * (2 * d) == 2 * (d * m) * z;
  }

  lemma DoubleValues(x: int, y: int, z: int, px: int, py: int, xx: int, yy: int, zz: int, t0: int)
    requires Cong(px, x * z) && Cong(py, y * z)
    requires Cong(xx, px * px) && Cong(yy, py * py) && Cong(zz, 2 * (z * z)) && Cong(t0, (px + py) * (px + py))
    ensures var m := z * z;
      && Cong(t0 - (yy + xx), m * (2 * (x * y))) && Cong(yy + xx, m * (y * y + x * x))
      && Cong(yy - xx, m * (y * y - x * x)) && Cong(zz - (yy - xx), m * (2 - (y * y - x * x)))
  {
    hide Cong;
    var m := z * z;
    SquareValues(x, z, px, xx);
    SquareValues(y, z, py, yy);
    CongSum(px, x * z, py, y * z);
    assert x * z + y * z == (x + y) * z;
    SquareValues(x + y, z, px + py, t0);
    CongSum(yy, m * (y * y), xx, m * (x * x));
    assert m * (y * y) + m * (x * x) == m * (y * y + x * x) && m * (y * y) - m * (x * x) == m * (y * y - x * x);
    CongSum(t0, m * ((x + y) * (x + y)), yy + xx, m * (y * y + x * x));
    Expand(x, y, x, y);
    assert m * ((x + y) * (x + y)) - m * (y * y + x * x) == m * (2 * (x * y));
    CongSum(zz, 2 * m, yy - xx, m * (y * y - x * x));
    assert 2 * m - m * (y * y - x * x) == m * (2 - (y * y - x * x));
  }

  lemma SquareValues(x: int, z: int, px: int, xx: int)
    requires Cong(px, x * z) && Cong(xx, px * px)
    ensures Cong(xx, (z * z) * (x * x))
  {
    hide Cong;
    CongProduct(px, x * z, px, x * z);
    Scale(x, z, x, z);
    CongTrans(xx, px * px, (z * z) * (x * x));
  }

  /** `ge_p2_dbl` */
  method GeP2Dbl(p: P2) returns (r: P1p1)
    requires Fits2(p)
    ensures FitsCompleted(r)
    ensures forall x, y, x3, y3 :: Is2(p, x, y) && OnCurve(D(), x, y) && Sum(D(), x, y, x, y, x3, y3) ==>
      IsCompleted(r, x3, y3)
  {
    hide Cong, Unit, Value, Size, Completed, D, Sum, OnCurve;
    Multiplied();
    SizeSlack(p.X, 1); SizeSlack(p.Y, 1); SizeSlack(p.Z, 1);
    var X := Sq(p.X, 1);
    var Z := Sq(p.Y, 1);
    var T := Sq2(p.Z, 1);
    var Y := Add(p.X, p.Y, 1, 1, 0);
    SizeSlack(Y, 2);
    var t0 := Sq(Y, 2);
    ghost var xx, yy, zz := Value(X), Value(Z), Value(T);
    Y := Add(Z, X, 1, 1, 0);
    Z := Sub(Z, X, 1, 1, 0);
    X := Sub(t0, Y, 1, 2, 0);
    T := Sub(T, Z, 1, 2, 0);
    Larger(Z, 2, 3);
    r := P1p1(X, Y, Z, T);
    forall x, y, x3, y3 | Is2(p, x, y) && OnCurve(D(), x, y) && Sum(D(), x, y, x, y, x3, y3)
      ensures IsCompleted(r, x3, y3)
    {
      DoubleValues(x, y, Value(p.Z), Value(p.X), Value(p.Y), xx, yy, zz, Value(t0));
      CompletedDouble(D(), x, y, Value(p.Z), x3, y3, Value(X), Value(Y), Value(Z), Value(T));
    }
  }

  /** `ge_p3_dbl` */
  method GeP3Dbl(p: P3) returns (r: P1p1)
    requires Fits3(p)
    ensures FitsCompleted(r)
    ensures forall x, y, x3, y3 :: Is3(p, x, y) && OnCurve(D(), x, y) && Sum(D(), x, y, x, y, x3, y3) ==>
      IsCompleted(r, x3, y3)
  {
    r := GeP2Dbl(DropT(p));
  }

  /** `ge_p3_0`, `ge_p2_0`: the neutral element. */
  lemma Neutral(x: int, y: int)
    ensures var o := P3(ZERO, ONE, ONE, ZERO); Fits3(o) && Is3(o, 0, 1)
    ensures OnCurve(D(), 0, 1) && Sum(D(), 0, 1, x, y, x, y)
  {
    hide Cong, Unit, Value, D, Sum, OnCurve, Mixed;
    Units();
    OneIsUnit();
    CongRefl(0);
    CongRefl(1);
    CongRefl(x);
    CongRefl(y);
    TimesIs(0, 1);
    TimesIs(1, 1);
    OnCurveIs(D(), 0, 1);
    MixedIs(D(), 0, 1, x, y);
    SumIs(D(), 0, 1, x, y, x, y);
    assert D() * ((0 * 1) * (x * y)) == 0 && D() * ((0 * 1) * (0 * 1)) == 0;
  }
}
