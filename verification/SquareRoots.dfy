/** Square roots of quotients in the field, as `ge_frombytes_vartime` finds them. */
module SquareRoots {
  import opened Positional
  import opened FieldLimbs
  import opened FieldBytes
  import opened FieldOps
  import opened FieldPowers
  import opened EdwardsLaw
  import opened PointEncoding

  const FE_SQRTM1: Fe := [-32595792, -7943725, 9377950, 3500415, 12389472, -272473, -25146209, -2005654,
    326686, 11406482]

  ghost function I(): int { Value(FE_SQRTM1) }

  /** The constant is a square root of -1. */
  lemma RootOfMinusOne()
    ensures Size(FE_SQRTM1, 1, 0) && Cong(I() * I(), -1)
  {
    CongExactly(I() * I(), -1);
  }

  /** u v^3 (u v^7)^((P - 5) / 8), the candidate for a square root of u / v in section 5.1.3 of RFC 8032. */
  ghost function Candidate(u: int, v: int): int
  {
    var v3 := v * v * v;
    Power(Residue(v3 * v3 * v * u), (P - 5) / 8) * v3 * u
  }

  /** Products of elements known up to congruence. */
  method MulAs(f: Fe, g: Fe, ghost a: int, ghost b: int) returns (h: Fe)
    requires Size(f, 1, 1) && Size(g, 1, 1) && Cong(Value(f), a) && Cong(Value(g), b)
    ensures Size(h, 1, 0) && Size(h, 1, 1) && Cong(Value(h), a * b)
  {
    hide Cong, Value, Size;
    h := Mul(f, g, 1, 1);
    Slack(h);
    CongProduct(Value(f), a, Value(g), b);
    CongTrans(Value(h), Value(f) * Value(g), a * b);
  }

  method SqAs(f: Fe, ghost a: int) returns (h: Fe)
    requires Size(f, 1, 1) && Cong(Value(f), a)
    ensures Size(h, 1, 0) && Size(h, 1, 1) && Cong(Value(h), a * a)
  {
    hide Cong, Value, Size;
    h := Sq(f, 1);
    Slack(h);
    CongProduct(Value(f), a, Value(f), a);
    CongTrans(Value(h), Value(f) * Value(f), a * a);
  }

  /** `fe_divpowm1` */
  method FeDivPowM1(u: Fe, v: Fe, ghost a: int, ghost b: int) returns (r: Fe)
    requires Size(u, 1, 1) && Size(v, 1, 1) && Cong(Value(u), a) && Cong(Value(v), b)
    ensures Size(r, 1, 0) && Cong(Value(r), Candidate(a, b))
  {
    hide Cong, Value, Size, Power;
    ghost var b3 := b * b * b;
    var v3 := SqAs(v, b);
    v3 := MulAs(v3, v, b * b, b);
    var uv7 := SqAs(v3, b3);
    uv7 := MulAs(uv7, v, b3 * b3, b);
    uv7 := MulAs(uv7, u, b3 * b3 * b, a);
    var t0 := FePow22523(uv7);
    Slack(t0);
    SameResidue(Value(uv7), b3 * b3 * b * a);
    ghost var e := Power(Base(uv7), (P - 5) / 8);
    t0 := MulAs(t0, v3, e, b3);
    r := MulAs(t0, u, e * b3, a);
  }

  /** v x^2 */
  ghost function Left(v: int, x: int): int { Times(v, Times(x, x)) }

  lemma LeftIs(v: int, x: int)
    ensures Left(v, x) == v * (x * x)
  {
    Multiplied();
  }

  /** Does the candidate solve v x^2 = u, up to sign? */
  ghost predicate Solves(u: int, v: int)
  {
    Cong(Left(v, Candidate(u, v)), u) || Cong(Left(v, Candidate(u, v)), -u)
  }

  /** Zero test of a difference or sum. */
  lemma ZeroTest(x: int, a: int, b: int)
    requires Cong(x, a - b)
    ensures x % P == 0 <==> Cong(a, b)
  {
    hide Cong;
    CongExactly(x, a - b);
    CongExactly(a, b);
    SameClass(a, b);
  }

  /** A root up to sign is corrected by the square root of -1. */
  lemma Corrected(u: int, v: int, c: int, i: int)
    requires Cong(Left(v, c), -u) && Cong(i * i, -1)
    ensures Cong(Left(v, c * i), u)
  {
    hide Cong;
    Multiplied();
    Scale(c, i, c, i);
    CongProduct(v * (c * c), -u, i * i, -1);
    assert (v * (c * c)) * (i * i) == v * ((i * i) * (c * c));
    assert (-u) * (-1) == u;
  }

  lemma ZeroKept(c: int, i: int)
    requires Cong(i * i, -1)
    ensures Cong(c * i, 0) <==> Cong(c, 0)
  {
    hide Cong;
    CongRefl(i);
    CongRefl(c);
    if Cong(c, 0) { CongProduct(c, 0, i, i); }
    if Cong(c * i, 0) {
      CongProduct(c * i, 0, i, i);
      assert (c * i) * i == c * (i * i);
      CongProduct(c, c, i * i, -1);
      CongSym(c * (i * i), c * -1);
      CongTrans(c * -1, c * (i * i), 0);
      CongRefl(0);
      CongSum(0, 0, c * -1, 0);
    }
  }

  /** Is f = g? Subtract and test for zero. */
  method SameElement(f: Fe, g: Fe, ghost a: int, ghost b: int) returns (same: bool)
    requires Size(f, 1, 0) && Size(g, 1, 1) && Cong(Value(f), a) && Cong(Value(g), b)
    ensures same <==> Cong(a, b)
  {
    hide Cong, Value, Size;
    var check := Sub(f, g, 1, 1, 1);
    CongSum(Value(f), a, Value(g), b);
    SizeFreezes(check, 2, 1);
    ZeroTest(Value(check), a, b);
    var nonzero := FeIsNonzero(check);
    same := nonzero == 0;
  }

  /** Is f = -g? Add and test for zero. */
  method OppositeElement(f: Fe, g: Fe, ghost a: int, ghost b: int) returns (opposite: bool)
    requires Size(f, 1, 0) && Size(g, 1, 1) && Cong(Value(f), a) && Cong(Value(g), b)
    ensures opposite <==> Cong(a, -b)
  {
    hide Cong, Value, Size;
    var check := Add(f, g, 1, 1, 1);
    CongSum(Value(f), a, Value(g), b);
    SizeFreezes(check, 2, 1);
    ZeroTest(Value(check), a, -b);
    var nonzero := FeIsNonzero(check);
    opposite := nonzero == 0;
  }

  /** v x^2 for an element. */
  method LeftOf(v: Fe, x: Fe, ghost b: int, ghost c: int) returns (vxx: Fe)
    requires Size(v, 1, 1) && Size(x, 1, 0) && Cong(Value(v), b) && Cong(Value(x), c)
    ensures Size(vxx, 1, 0) && Cong(Value(vxx), Left(b, c))
  {
    hide Cong, Value, Size;
    Multiplied();
    Slack(x);
    vxx := SqAs(x, c);
    vxx := MulAs(vxx, v, c * c, b);
    assert c * c * b == b * (c * c);
  }

  /** The correction by the square root of -1. */
  method TimesI(x: Fe, ghost a: int, ghost b: int, ghost c: int) returns (y: Fe, ghost r: int)
    requires Size(x, 1, 0) && Cong(Value(x), c) && Cong(Left(b, c), -a)
    ensures Size(y, 1, 0) && Cong(Value(y), r) && Cong(Left(b, r), a) && (Cong(r, 0) <==> Cong(c, 0))
  {
    hide Cong, Value, Size, Left, I, FE_SQRTM1;
    RootOfMinusOne();
    Slack(FE_SQRTM1);
    Slack(x);
    IValue();
    y := MulAs(x, FE_SQRTM1, c, I());
    r := c * I();
    Corrected(a, b, c, I());
    ZeroKept(c, I());
  }

  lemma IValue()
    ensures Cong(Value(FE_SQRTM1), I())
  {
    CongRefl(I());
  }

  /** A square root of u / v, when the candidate gives one. */
  method SquareRoot(u: Fe, v: Fe, ghost a: int, ghost b: int) returns (ok: bool, x: Fe, ghost r: int)
    requires Size(u, 1, 1) && Size(v, 1, 1) && Cong(Value(u), a) && Cong(Value(v), b)
    ensures ok <==> Solves(a, b)
    ensures ok ==>
      Size(x, 1, 0) && Cong(Value(x), r) && Cong(Left(b, r), a) && (Cong(r, 0) <==> Cong(Candidate(a, b), 0))
  {
    hide Cong, Value, Size, Candidate, Left;
    ghost var c := Candidate(a, b);
    x := FeDivPowM1(u, v, a, b);
    r := c;
    var vxx := LeftOf(v, x, b, c);
    var same := SameElement(vxx, u, Left(b, c), a);
    if !same {
      var opposite := OppositeElement(vxx, u, Left(b, c), a);
      if !opposite {
        return false, x, r;
      }
      x, r := TimesI(x, a, b, c);
    }
    ok := true;
  }
}
