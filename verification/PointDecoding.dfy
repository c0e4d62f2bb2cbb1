/** Bytes as points: `ge_frombytes_vartime` accepts only canonical encodings of points on the curve, and what it
    accepts encodes back to the same bytes. */
module PointDecoding {
  import opened Positional
  import opened FieldLimbs
  import opened FieldBytes
  import opened FieldOps
  import opened FieldPowers
  import opened FieldFromBytes
  import opened EdwardsLaw
  import opened EdwardsPoints
  import opened SquareRoots
  import opened PointEncoding

  lemma NegatedParity(v: int)
    requires !Cong(v, 0)
    ensures Parity(-v) == 1 - Parity(v)
  {
    CongExactly(v, 0);
    ResidueIs(v);
    ResidueIs(-v);
    DivisionByP(v);
    DivUnique(-v, P, -(v / P) - 1);
    DivisionByP(-v);
  }

  /** The end of `ge_frombytes_vartime`: choose the root with the encoded sign; zero has only one. */
  method ChooseSign(x: Fe, sign: int) returns (ok: bool, y: Fe)
    requires Size(x, 1, 0) && 0 <= sign <= 1
    ensures ok <==> !(Cong(Value(x), 0) && sign == 1)
    ensures ok ==> Size(y, 1, 0) && (Value(y) == Value(x) || Value(y) == -Value(x)) && Parity(Value(y)) == sign
  {
    hide Value, Size;
    SizeFreezes(x, 1, 0);
    ResidueIs(Value(x));
    CongExactly(Value(x), 0);
    var negative := FeIsNegative(x);
    y := x;
    if negative != sign {
      var nonzero := FeIsNonzero(x);
      if nonzero == 0 {
        return false, y;
      }
      NegatedParity(Value(x));
      y := Neg(x);
    }
    ok := true;
  }

  /** The right sides of the curve equation solved for x: u = y^2 - 1 and v = d y^2 + 1. */
  ghost function U(y: int): int { Times(y, y) - 1 }

  ghost function V(y: int): int { Times(D(), Times(y, y)) + 1 }

  lemma SidesAre(y: int)
    ensures U(y) == y * y - 1 && V(y) == D() * (y * y) + 1
  {
    Multiplied();
  }

  /** A solution of v x^2 = u is a point. */
  lemma RootOnCurve(x: int, y: int)
    requires Cong(Left(V(y), x), U(y))
    ensures OnCurve(D(), x, y)
  {
    hide Cong, D, OnCurve, U, V, Left;
    SidesAre(y);
    LeftIs(V(y), x);
    OnCurveIs(D(), x, y);
    var e, d := (x * y) * (x * y), D();
    Scale(x, y, x, y);
    assert (d * (y * y)) * (x * x) == d * ((y * y) * (x * x));
    assert Left(V(y), x) == d * e + x * x;
    CongRefl(x * x - 1);
    CongSum(d * e + x * x, y * y - 1, x * x - 1, x * x - 1);
    CongSym(d * e + 1, y * y - x * x);
  }

  /** u and v from y. */
  method RightSides(y: Fe, ghost n: int) returns (u: Fe, v: Fe)
    requires Size(y, 1, 0) && Cong(Value(y), n)
    ensures Size(u, 1, 1) && Size(v, 1, 1) && Cong(Value(u), U(n)) && Cong(Value(v), V(n))
  {
    hide Cong, Value, Size, FE_D, D, U, V;
    SidesAre(n);
    Constants();
    Units();
    Slack(y);
    Slack(FE_D);
    CongRefl(1);
    u := SqAs(y, n);
    v := MulAs(u, FE_D, n * n, D());
    CongSum(Value(u), n * n, 1, 1);
    CongSum(Value(v), n * n * D(), 1, 1);
    assert n * n * D() == D() * (n * n);
    u := Sub(u, ONE, 1, 0, 1);
    v := Add(v, ONE, 1, 0, 1);
  }

  /** Everything decoding promises about an accepted point. */
  ghost predicate Decoded(s: seq<Byte>, h: P3)
    requires |s| == 32
  {
    && Fits3(h) && Value(h.Z) == 1
    && Low(s) < P && Cong(Value(h.Y), Low(s))
    && Parity(Value(h.X)) == s[31] / 128
    && Is3(h, Value(h.X), Value(h.Y)) && OnCurve(D(), Value(h.X), Value(h.Y))
  }

  /** A negated root is a root, and so is a congruent one. */
  lemma OtherRoot(v: int, x: int, z: int, u: int)
    requires Cong(Left(v, x), u) && (Cong(z, x) || Cong(z, -x))
    ensures Cong(Left(v, z), u)
  {
    hide Cong;
    Multiplied();
    CongRefl(v);
    var m := if Cong(z, x) then x else -x;
    CongProduct(z, m, z, m);
    assert m * m == x * x;
    CongProduct(v, v, z * z, x * x);
    CongTrans(Left(v, z), Left(v, x), u);
  }

  lemma SameRightSides(y: int, n: int)
    requires Cong(y, n)
    ensures Cong(U(y), U(n)) && Cong(V(y), V(n))
  {
    hide Cong, D;
    Multiplied();
    CongProduct(y, n, y, n);
    CongRefl(1);
    CongRefl(D());
    CongProduct(D(), D(), y * y, n * n);
    CongSum(y * y, n * n, 1, 1);
    CongSum(D() * (y * y), D() * (n * n), 1, 1);
  }

  lemma LeftMoves(v: int, w: int, x: int)
    requires Cong(v, w)
    ensures Cong(Left(v, x), Left(w, x))
  {
    hide Cong;
    Multiplied();
    CongRefl(x * x);
    CongProduct(v, w, x * x, x * x);
  }

  lemma ZeroValue(v: int, r: int)
    requires Cong(v, r)
    ensures Cong(v, 0) <==> Cong(r, 0)
  {
    CongExactly(v, r);
    CongExactly(v, 0);
    CongExactly(r, 0);
  }

  lemma SignsOf(v: int, w: int, r: int)
    requires Cong(v, r) && (w == v || w == -v)
    ensures Cong(w, r) || Cong(w, -r)
  {
    hide Cong;
    CongRefl(0);
    CongSum(0, 0, v, r);
  }

  /** A canonical y, a candidate that is a root, and a sign bit that fits it. */
  ghost predicate Accepts(s: seq<Byte>)
    requires |s| == 32
  {
    var n := Low(s);
    n < P && Solves(U(n), V(n)) && !(Cong(Candidate(U(n), V(n)), 0) && s[31] >= 128)
  }

  /** `ge_frombytes_vartime`: accepts exactly when the y coordinate is canonical, the candidate is a root, and the
      sign bit is not set on x = 0; then the result is the encoded point and on the curve. */
  method GeFromBytes(s: seq<Byte>) returns (ok: bool, h: P3)
    requires |s| == 32
    ensures ok <==> Accepts(s)
    ensures ok ==> Decoded(s, h)
  {
    hide Cong, Unit, Value, Size, Low, U, V, Left, Solves, Candidate, OnCurve, D;
    Multiplied();
    Units();
    OneIsUnit();
    h := P3(ZERO, ONE, ONE, ZERO);
    var Y;
    ok, Y := FeFromBytes(s);
    if !ok {
      return;
    }
    ghost var n, r := Low(s), 0;
    var u, v := RightSides(Y, n);
    var x;
    ok, x, r := SquareRoot(u, v, U(n), V(n));
    if !ok {
      return;
    }
    ZeroValue(Value(x), r);
    var X;
    ok, X := ChooseSign(x, s[31] / 128);
    if !ok {
      return;
    }
    SignsOf(Value(x), Value(X), r);
    ghost var y := Value(Y);
    OtherRoot(V(n), r, Value(X), U(n));
    SameRightSides(y, n);
    LeftMoves(V(y), V(n), Value(X));
    CongTrans(Left(V(y), Value(X)), Left(V(n), Value(X)), U(n));
    CongSym(U(y), U(n));
    CongTrans(Left(V(y), Value(X)), U(n), U(y));
    RootOnCurve(Value(X), y);
    Slack(X); Slack(Y);
    var T := Mul(X, Y, 1, 1);
    h := P3(X, Y, ONE, T);
    CongRefl(Value(X));
    CongRefl(Value(Y));
  }

  lemma {:induction false} PowersOfOne(n: nat)
    ensures Power(1, n) == 1
  {
    if n > 0 { PowersOfOne(n - 1); }
  }

  lemma OneInvertible(f: Fe)
    requires Value(f) == 1
    ensures Invertible(f)
  {
    hide Power;
    ResidueIs(1);
    PowersOfOne(P - 2);
  }

  lemma LowPositive(s: seq<Byte>)
    requires |s| == 32
    ensures Low(s) >= 0 && Eval(256, s) == Low(s) + TWO255 * (s[31] / 128)
  {
    LoadValue(s);
    LoadPositive(s);
  }

  lemma SameBytes(s: seq<Byte>, t: seq<Byte>, x: int, y: int)
    requires |s| == |t| == 32 && Low(s) < P && Cong(y, Low(s)) && Parity(x) == s[31] / 128
    requires Eval(256, t) == Encoded(x, y)
    ensures t == s
  {
    hide Eval, Low;
    LowPositive(s);
    CongExactly(y, Low(s));
    ResidueIs(y);
    EvalInjective(256, s, t);
  }

  /** Whatever bytes decode, the decoded point encodes to the same bytes. */
  method DecodeThenEncode(s: seq<Byte>) returns (ok: bool, t: seq<Byte>)
    requires |s| == 32
    ensures ok ==> t == s
  {
    hide Cong, Value, Size, Low, OnCurve, D, Invertible, Encoded, Eval;
    var h;
    t := [];
    ok, h := GeFromBytes(s);
    if ok {
      t := GeToBytes(DropT(h));
      OneInvertible(h.Z);
      SameBytes(s, t, Value(h.X), Value(h.Y));
    }
  }
}
