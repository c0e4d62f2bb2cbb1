/** For prime 2^255 - 19: the curve constant d is not a square, the condition under which the addition law of
    section 5.1.4 of RFC 8032 has no exceptions. */
module NonSquare {
  import opened Positional
  import opened FieldLimbs
  import opened FieldPowers
  import opened Fermat
  import opened EdwardsLaw
  import opened EdwardsPoints
  import opened SquareRoots
  import opened PrimeField

  /** A square root of 2d. */
  const W := 2408411702730472162503078585159338994375486564770957780436951903305685886781

  lemma RootOfTwiceD()
    ensures Cong(W * W, 2 * D()) && !Cong(W, 0)
  {
    CongExactly(W * W, 2 * Value(FE_D));
    CongExactly(W, 0);
    Constants();
    hide Cong, Value, D;
    CongRefl(2);
    CongProduct(2, 2, Value(FE_D), D());
    CongTrans(W * W, 2 * Value(FE_D), 2 * D());
  }

  /** Eighth powers of equal size and P - 1 = 8E + 4 tell the sign of fourth powers. */
  lemma FourthPowers(a: nat, b: nat)
    requires Prime(P) && a < P && b < P && !Cong(a, 0) && !Cong(b, 0)
    ensures var x: int, y: int := Power(a, 4), Power(b, 4); !Cong(x, -y)
  {
    hide Cong, Power, Prime;
    var x: int, y: int := Power(a, 4), Power(b, 4);
    if Cong(x, -y) {
      EighthPowers(a);
      EighthPowers(b);
      CongProduct(x, -y, x, -y);
      assert -y * -y == y * y;
      PowerCong(x * x, y * y, E);
      var u, v := Power(x * x, E), Power(y * y, E);
      CongProduct(u, v, x, -y);
      assert v * -y == -(v * y);
      FermatCong(a);
      FermatCong(b);
      OneIsNotMinusOne(u * x, v * y);
    }
  }

  lemma EighthPowers(a: nat)
    ensures Power(a, P - 1) == Power(Power(a, 4) * Power(a, 4), E) * Power(a, 4)
  {
    hide Power;
    Exponents();
    PowerAdd(a, 4, 4);
    PowerOfPower(a, 8, E);
    PowerAdd(a, 8 * E, 4);
  }

  lemma OneIsNotMinusOne(a: int, b: int)
    requires Cong(a, 1) && Cong(b, 1)
    ensures !Cong(a, -b)
  {
    hide Cong;
    if Cong(a, -b) {
      CongRefl(b);
      CongSum(a, -b, b, b);
      CongSum(a, 1, b, 1);
      CongSym(a + b, 0);
      CongTrans(0, a + b, 2);
      CongExactly(0, 2);
    }
  }

  lemma FourthOf(a: int)
    ensures Cong((a * a) * (a * a), Power(Residue(a), 4))
  {
    hide Cong;
    var r := Residue(a);
    CongProduct(a, r, a, r);
    CongProduct(a * a, r * r, a * a, r * r);
    SmallPowers(r);
    PowerAdd(r, 2, 2);
  }

  /** d times a square is a square only when it vanishes. */
  lemma OnlyZero(s: int, t: int)
    requires Prime(P) && Cong(D() * (t * t), s * s)
    ensures Cong(t, 0)
  {
    hide Cong, Power, Prime, D, I;
    var a, b, i := (1 + I()) * s, W * t, I();
    RootOfTwiceD();
    RootOfMinusOne();
    Doubled(s, t);
    SameSize(a * a, b * b, i);
    FourthOf(a);
    FourthOf(b);
    var p, q := Residue(a), Residue(b);
    var x, y := (a * a) * (a * a), (b * b) * (b * b);
    CongSym(x, Power(p, 4));
    CongTrans(Power(p, 4), x, -y);
    NegativeMoves(Power(p, 4), y, Power(q, 4));
    if Cong(q, 0) {
      CongTrans(b, q, 0);
      NoZeroDivisors(W, t);
    } else {
      if Cong(p, 0) {
        CongTrans(a, p, 0);
        CongProduct(a, 0, a, 0);
        VanishesToo(a * a, b);
        CongSym(b, q);
        CongTrans(q, b, 0);
      }
      FourthPowers(p, q);
    }
  }

  lemma NegativeMoves(x: int, y: int, z: int)
    requires Cong(x, -y) && Cong(y, z)
    ensures Cong(x, -z)
  {
    hide Cong;
    CongRefl(0);
    CongSum(0, 0, y, z);
    CongTrans(x, -y, -z);
  }

  /** With a = (1 + i) s and b = w t: a^2 = i b^2. */
  lemma Doubled(s: int, t: int)
    requires Cong(D() * (t * t), s * s)
    ensures var a, b := (1 + I()) * s, W * t; Cong(a * a, I() * (b * b))
  {
    hide Cong, D, I;
    var i, d, ss, tt := I(), D(), s * s, t * t;
    var a, b := (1 + i) * s, W * t;
    RootOfMinusOne();
    RootOfTwiceD();
    Interchange(1 + i, s, 1 + i, s);
    Interchange(W, t, W, t);
    assert (1 + i) * (1 + i) == 1 + 2 * i + i * i;
    CongRefl(1 + 2 * i);
    CongSum(1 + 2 * i, 1 + 2 * i, i * i, -1);
    CongRefl(ss);
    CongProduct((1 + i) * (1 + i), 2 * i, ss, ss);
    CongRefl(tt);
    CongProduct(W * W, 2 * d, tt, tt);
    CongRefl(2);
    CongProduct(2, 2, d * tt, ss);
    assert (2 * d) * tt == 2 * (d * tt);
    CongTrans(b * b, 2 * (d * tt), 2 * ss);
    CongRefl(i);
    CongProduct(i, i, b * b, 2 * ss);
    assert i * (2 * ss) == (2 * i) * ss;
    CongSym(i * (b * b), (2 * i) * ss);
    CongTrans(a * a, (2 * i) * ss, i * (b * b));
  }

  lemma SameSize(c: int, q: int, i: int)
    requires Cong(c, i * q) && Cong(i * i, -1)
    ensures Cong(c * c, -(q * q))
  {
    hide Cong;
    CongProduct(c, i * q, c, i * q);
    Interchange(i, q, i, q);
    CongRefl(q * q);
    CongProduct(i * i, -1, q * q, q * q);
    assert -1 * (q * q) == -(q * q);
    CongTrans(c * c, (i * i) * (q * q), -(q * q));
  }

  lemma VanishesToo(c: int, b: int)
    requires Prime(P) && Cong(c, 0) && Cong(c * c, -((b * b) * (b * b)))
    ensures Cong(b, 0)
  {
    hide Cong, Prime;
    var q := b * b;
    CongProduct(c, 0, c, 0);
    CongRefl(0);
    CongSum(0, 0, c * c, -(q * q));
    CongSym(0 - c * c, q * q);
    CongSum(0, 0, c * c, 0);
    CongTrans(q * q, 0 - c * c, 0);
    NoZeroDivisors(q, q);
    NoZeroDivisors(b, b);
  }
}
