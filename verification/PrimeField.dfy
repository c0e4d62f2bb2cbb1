/** What follows for the field when 2^255 - 19 is prime: inverses by exponentiation, and the exact meaning of the
    root test in point decoding. */
module PrimeField {
  import opened Positional
  import opened FieldLimbs
  import opened FieldOps
  import opened FieldPowers
  import opened Fermat
  import opened EdwardsLaw
  import opened PointEncoding
  import opened SquareRoots

  lemma NoZeroDivisors(a: int, b: int)
    requires Prime(P) && Cong(a * b, 0)
    ensures Cong(a, 0) || Cong(b, 0)
  {
    var r, s := a % P, b % P;
    CongExactly(a, 0);
    CongExactly(b, 0);
    CongExactly(a * b, 0);
    ModProduct(P, a, b);
    ModProduct(P, b, r);
    assert r * b == b * r && s * r == r * s;
    assert DividesProduct(P, r, s);
  }

  lemma FermatCong(z: nat)
    requires Prime(P) && z < P && !Cong(z, 0)
    ensures Cong(Power(z, P - 1), 1)
  {
    hide Power;
    CongExactly(z, 0);
    FermatLittle(P, z);
    CongExactly(Power(z, P - 1), 1);
  }

  lemma PowerNext(z: nat, n: nat)
    requires n > 0
    ensures Power(z, n) == z * Power(z, n - 1)
  {
  }

  /** A unit raised to P - 2 is its inverse, so `fe_invert` inverts. */
  lemma UnitInvertible(f: Fe)
    requires Prime(P) && Unit(Value(f))
    ensures Invertible(f)
  {
    hide Cong, Power, Value, Prime, Unit, Base;
    var z, v := Base(f), Value(f);
    BaseBelow(f);
    if Cong(z, 0) {
      CongTrans(v, z, 0);
      ZeroIsNoUnit(v);
    }
    FermatCong(z);
    PowerNext(z, P - 1);
    CongRefl(Power(z, P - 2));
    CongProduct(v, z, Power(z, P - 2), Power(z, P - 2));
    CongTrans(v * Power(z, P - 2), z * Power(z, P - 2), 1);
  }

  lemma BaseBelow(f: Fe)
    ensures Base(f) < P
  {
  }

  lemma {:induction false} PowerCong(a: nat, b: nat, n: nat)
    requires Cong(a, b)
    ensures Cong(Power(a, n), Power(b, n))
  {
    hide Cong;
    if n == 0 {
      CongRefl(1);
    } else {
      PowerCong(a, b, n - 1);
      CongProduct(a, b, Power(a, n - 1), Power(b, n - 1));
    }
  }

  lemma {:induction false} PowerOfProduct(a: nat, b: nat, n: nat)
    ensures Power(a * b, n) == Power(a, n) * Power(b, n)
  {
    if n > 0 {
      PowerOfProduct(a, b, n - 1);
      Interchange(a, b, Power(a, n - 1), Power(b, n - 1));
    }
  }

  lemma {:induction false} PowerOfPower(a: nat, m: nat, n: nat)
    ensures m * n >= 0 && Power(Power(a, m), n) == Power(a, m * n)
    decreases n
  {
    if n > 0 {
      PowerOfPower(a, m, n - 1);
      assert m * n == m + m * (n - 1);
      PowerAdd(a, m, m * (n - 1));
    }
  }

  const E := (P - 5) / 8

  lemma Exponents()
    ensures 8 * E + 4 == P - 1 && 2 * (2 * E + 1) == (P - 1) / 2 && 2 * ((P - 1) / 2) == P - 1 && E > 0
  {
  }

  lemma SmallPowers(z: nat)
    ensures Power(z, 1) == z && Power(z, 2) == z * z && Power(z, 3) == z * z * z
  {
    assert Power(z, 1) == z * Power(z, 0);
    assert Power(z, 2) == z * Power(z, 1);
    assert Power(z, 3) == z * Power(z, 2);
    assert z * (z * z) == z * z * z;
  }

  /** u v^7 in terms of v and the root. */
  lemma SeventhPower(u: int, v: int, b: nat, x: nat)
    requires Cong(v, b) && Cong(u, b * (x * x))
    ensures var v3 := v * v * v; Cong(v3, Power(b, 3)) && Cong(v3 * v3 * v * u, Power(b, 8) * Power(x, 2))
  {
    hide Cong, Power;
    var v3, b3 := v * v * v, Power(b, 3);
    SmallPowers(b);
    SmallPowers(x);
    CongProduct(v, b, v, b);
    CongProduct(v * v, b * b, v, b);
    CongProduct(v3, b3, v3, b3);
    CongProduct(v3 * v3, b3 * b3, v, b);
    CongProduct(v3 * v3 * v, b3 * b3 * b, u, b * (x * x));
    PowerAdd(b, 3, 3);
    PowerAdd(b, 6, 1);
    PowerAdd(b, 7, 1);
    Associate(b3 * b3 * b, b, x * x);
  }

  lemma Associate(a: int, b: int, c: int)
    ensures a * (b * c) == (a * b) * c
  {
  }

  lemma Collect(b: nat, x: nat)
    ensures (Power(b, 8 * E) * Power(x, 2 * E)) * Power(b, 3) * (b * (x * x)) == Power(b, P - 1) * Power(x, 2 * E + 2)
  {
    hide Power;
    Exponents();
    SmallPowers(b);
    SmallPowers(x);
    PowerAdd(b, 8 * E, 3);
    PowerAdd(b, 8 * E + 3, 1);
    PowerAdd(x, 2 * E, 2);
    Arrange(Power(b, 8 * E), Power(x, 2 * E), Power(b, 3), b, x * x);
  }

  lemma Arrange(p: int, q: int, r: int, b: int, s: int)
    ensures (p * q) * r * (b * s) == ((p * r) * b) * (q * s)
  {
    assert (p * q) * r == (p * r) * q;
    Interchange(p * r, q, b, s);
  }

  /** With a root x of u / v, the candidate is a power of x. */
  lemma CandidateIsPower(u: int, v: int, b: nat, x: nat)
    requires Prime(P) && Cong(v, b) && Cong(u, b * (x * x)) && b < P && !Cong(b, 0)
    ensures Cong(Candidate(u, v), Power(x, 2 * E + 2))
  {
    hide Cong, Power, Prime;
    var v3 := v * v * v;
    var w, n := v3 * v3 * v * u, Power(b, 8) * Power(x, 2);
    SeventhPower(u, v, b, x);
    CongSym(w, Residue(w));
    CongTrans(Residue(w), w, n);
    PowerCong(Residue(w), n, E);
    PowerOfProduct(Power(b, 8), Power(x, 2), E);
    PowerOfPower(b, 8, E);
    PowerOfPower(x, 2, E);
    var m := Power(b, 8 * E) * Power(x, 2 * E);
    CongProduct(Power(Residue(w), E), m, v3, Power(b, 3));
    CongProduct(Power(Residue(w), E) * v3, m * Power(b, 3), u, b * (x * x));
    Collect(b, x);
    FermatCong(b);
    CongRefl(Power(x, 2 * E + 2));
    CongProduct(Power(b, P - 1), 1, Power(x, 2 * E + 2), Power(x, 2 * E + 2));
    CongTrans(Candidate(u, v), Power(b, P - 1) * Power(x, 2 * E + 2), 1 * Power(x, 2 * E + 2));
  }

  /** v c^2 for that power: u times a square root of 1. */
  lemma LeftOfPower(u: int, v: int, b: nat, x: nat, c: int)
    requires Cong(v, b) && Cong(u, b * (x * x)) && Cong(c, Power(x, 2 * E + 2))
    ensures Cong(Left(v, c), u * Power(x, (P - 1) / 2))
  {
    hide Cong, Power;
    Multiplied();
    var g, s, xx := Power(x, 2 * E + 2), Power(x, (P - 1) / 2), x * x;
    Exponents();
    SmallPowers(x);
    PowerAdd(x, 2 * E + 2, 2 * E + 2);
    PowerAdd(x, 2, (P - 1) / 2);
    CongProduct(c, g, c, g);
    CongProduct(v, b, c * c, g * g);
    Associate(b, xx, s);
    CongRefl(s);
    CongSym(u, b * xx);
    CongProduct(b * xx, u, s, s);
    CongTrans(Left(v, c), (b * xx) * s, u * s);
  }

  /** A square root of 1 is 1 or -1. */
  lemma RootsOfOne(s: int)
    requires Prime(P) && Cong(s * s, 1)
    ensures Cong(s, 1) || Cong(s, -1)
  {
    hide Cong, Prime;
    CongRefl(1);
    CongSum(s * s, 1, 1, 1);
    assert (s - 1) * (s + 1) == s * s - 1;
    NoZeroDivisors(s - 1, s + 1);
    if Cong(s - 1, 0) {
      CongSum(s - 1, 0, 1, 1);
    } else {
      CongSum(s + 1, 0, 1, 1);
    }
  }

  lemma NonzeroCase(u: int, v: int, b: nat, x: nat)
    requires Prime(P) && Cong(v, b) && Cong(u, b * (x * x)) && b < P && x < P && !Cong(b, 0) && !Cong(x, 0)
    ensures Solves(u, v)
  {
    hide Cong, Power, Prime, Candidate, Left;
    var s, c := Power(x, (P - 1) / 2), Candidate(u, v);
    CandidateIsPower(u, v, b, x);
    LeftOfPower(u, v, b, x, c);
    Exponents();
    PowerAdd(x, (P - 1) / 2, (P - 1) / 2);
    FermatCong(x);
    RootsOfOne(s);
    CongRefl(u);
    if Cong(s, 1) {
      CongProduct(u, u, s, 1);
      CongTrans(Left(v, c), u * s, u);
    } else {
      CongProduct(u, u, s, -1);
      assert u * -1 == -u;
      CongTrans(Left(v, c), u * s, -u);
    }
  }

  lemma ZeroCase(u: int, v: int)
    requires Cong(u, 0)
    ensures Solves(u, v)
  {
    hide Cong, Power;
    Multiplied();
    var v3 := v * v * v;
    var k, c := Power(Residue(v3 * v3 * v * u), E) * v3, Candidate(u, v);
    CongRefl(k);
    CongProduct(k, k, u, 0);
    CongProduct(c, 0, c, 0);
    CongRefl(v);
    CongProduct(v, v, c * c, 0);
    CongSym(u, 0);
    CongTrans(Left(v, c), 0, u);
  }

  /** The candidate test succeeds whenever u / v has a square root. */
  lemma RootImpliesSolves(u: int, v: int, x: int)
    requires Prime(P) && Cong(Left(v, x), u)
    ensures Solves(u, v)
  {
    hide Cong, Power, Prime, Candidate, Solves;
    Multiplied();
    var b, r := v % P, x % P;
    LowResidue(v);
    LowResidue(x);
    CongProduct(x, r, x, r);
    CongProduct(v, b, x * x, r * r);
    CongSym(Left(v, x), u);
    CongTrans(u, Left(v, x), b * (r * r));
    if Cong(b, 0) || Cong(r, 0) {
      VanishingProduct(b, r);
      CongTrans(u, b * (r * r), 0);
      ZeroCase(u, v);
    } else {
      NonzeroCase(u, v, b, r);
    }
  }

  lemma VanishingProduct(b: int, r: int)
    requires Cong(b, 0) || Cong(r, 0)
    ensures Cong(b * (r * r), 0)
  {
    hide Cong;
    CongRefl(r);
    CongRefl(b);
    CongRefl(r * r);
    if Cong(b, 0) {
      CongProduct(b, 0, r * r, r * r);
    } else {
      CongProduct(r, 0, r, r);
      CongProduct(b, b, r * r, 0);
    }
  }

  ghost predicate HasRoot(u: int, v: int)
  {
    exists x :: Cong(Left(v, x), u)
  }

  /** For prime 2^255 - 19 the candidate test decides whether u / v is a square. */
  lemma SolvesExactly(u: int, v: int)
    requires Prime(P)
    ensures Solves(u, v) <==> HasRoot(u, v)
  {
    hide Cong, Prime, Candidate, Left;
    if Solves(u, v) {
      var c := Candidate(u, v);
      if !Cong(Left(v, c), u) {
        RootOfMinusOne();
        Corrected(u, v, c, I());
      }
    }
    if HasRoot(u, v) {
      var x :| Cong(Left(v, x), u);
      RootImpliesSolves(u, v, x);
    }
  }
}
