/** For prime 2^255 - 19: decoding accepts exactly the encodings of points of the curve, and every point comes back
    from its encoding. */
module PointRoundTrip {
  import opened Positional
  import opened FieldLimbs
  import opened FieldBytes
  import opened FieldOps
  import opened FieldFromBytes
  import opened FieldPowers
  import opened Fermat
  import opened EdwardsLaw
  import opened EdwardsPoints
  import opened SquareRoots
  import opened PointEncoding
  import opened PointDecoding
  import opened PrimeField

  /** u and v never vanish together, since d is not -1. */
  lemma NotBothZero(y: int)
    ensures !(Cong(U(y), 0) && Cong(V(y), 0))
  {
    hide Cong, D, U, V;
    SidesAre(y);
    if Cong(U(y), 0) && Cong(V(y), 0) {
      Constants();
      var d, q := D(), y * y;
      CongRefl(1);
      CongRefl(d);
      CongSum(q - 1, 0, 1, 1);
      CongProduct(d, d, q, 1);
      CongSum(d * q, d * 1, 1, 1);
      CongSym(d * q + 1, d + 1);
      CongTrans(d + 1, d * q + 1, 0);
      CongRefl(121666);
      CongProduct(121666, 121666, d + 1, 0);
      CongSum(121666 * d, -121665, 121666, 121666);
      CongSym(121666 * (d + 1), 1);
      CongTrans(1, 121666 * (d + 1), 0);
      CongExactly(1, 0);
    }
  }

  /** A point satisfies v x^2 = u. */
  lemma CurveGivesRoot(x: int, y: int)
    requires OnCurve(D(), x, y)
    ensures Cong(Left(V(y), x), U(y))
  {
    hide Cong, D, OnCurve, U, V, Left;
    SidesAre(y);
    LeftIs(V(y), x);
    OnCurveIs(D(), x, y);
    var e, d := (x * y) * (x * y), D();
    Scale(x, y, x, y);
    assert (d * (y * y)) * (x * x) == d * ((y * y) * (x * x));
    assert Left(V(y), x) == d * e + x * x;
    CongRefl(x * x - 1);
    CongSum(y * y - x * x, 1 + d * e, x * x - 1, x * x - 1);
    CongSym(y * y - 1, d * e + x * x);
  }

  /** Whether x vanishes is decided by y, and the candidate shows it. */
  lemma ZeroCandidate(x: int, y: int)
    requires Prime(P) && OnCurve(D(), x, y)
    ensures Cong(Candidate(U(y), V(y)), 0) ==> Cong(x, 0)
  {
    hide Cong, D, OnCurve, Candidate, U, V, Prime;
    Multiplied();
    var u, v, c := U(y), V(y), Candidate(U(y), V(y));
    if Cong(c, 0) {
      CurveGivesRoot(x, y);
      RootImpliesSolves(u, v, x);
      ZeroLeft(v, c);
      ZeroSide(u, Left(v, c));
      CongTrans(Left(v, x), u, 0);
      NoZeroDivisors(v, x * x);
      NotBothZero(y);
      NoZeroDivisors(x, x);
    }
  }

  lemma ZeroLeft(v: int, c: int)
    requires Cong(c, 0)
    ensures Cong(Left(v, c), 0)
  {
    hide Cong;
    Multiplied();
    CongRefl(v);
    CongProduct(c, 0, c, 0);
    CongProduct(v, v, c * c, 0);
  }

  lemma ZeroSide(u: int, l: int)
    requires Cong(l, 0) && (Cong(l, u) || Cong(l, -u))
    ensures Cong(u, 0)
  {
    hide Cong;
    CongRefl(0);
    if Cong(l, u) {
      CongSym(l, u);
      CongTrans(u, l, 0);
    } else {
      CongSym(l, -u);
      CongTrans(-u, l, 0);
      CongSum(0, 0, -u, 0);
    }
  }

  /** The bytes name a point of the curve by a canonical y and the parity of x. */
  ghost predicate Names(s: seq<Byte>, x: int)
    requires |s| == 32
  {
    Low(s) < P && OnCurve(D(), x, Low(s)) && Parity(x) == s[31] / 128
  }

  lemma NamedIsAccepted(s: seq<Byte>, x: int)
    requires |s| == 32 && Prime(P) && Names(s, x)
    ensures Accepts(s)
  {
    hide Cong, D, OnCurve, Candidate, U, V, Prime, Low, Left, Solves;
    var n := Low(s);
    CurveGivesRoot(x, n);
    RootImpliesSolves(U(n), V(n), x);
    ZeroCandidate(x, n);
    if Cong(x, 0) {
      CongExactly(x, 0);
      ResidueIs(x);
    }
  }

  /** Two roots of u / v with the same parity are the same. */
  lemma SameRoot(u: int, v: int, x: int, z: int)
    requires Prime(P) && Cong(Left(v, x), u) && Cong(Left(v, z), u) && !(Cong(u, 0) && Cong(v, 0))
    requires Parity(x) == Parity(z)
    ensures Cong(x, z)
  {
    hide Cong, Prime;
    CongSum(Left(v, x), u, Left(v, z), u);
    Factored(v, x, z);
    NoZeroDivisors(v, (x - z) * (x + z));
    if Cong(v, 0) {
      VanishingLeft(v, x);
      CongSym(Left(v, x), u);
      CongTrans(u, Left(v, x), 0);
    } else {
      NoZeroDivisors(x - z, x + z);
      ByParity(x, z);
    }
  }

  lemma Factored(v: int, x: int, z: int)
    ensures Left(v, x) - Left(v, z) == v * ((x - z) * (x + z))
  {
    Multiplied();
    assert (x - z) * (x + z) == x * x - z * z;
    assert v * (x * x) - v * (z * z) == v * (x * x - z * z);
  }

  lemma VanishingLeft(v: int, x: int)
    requires Cong(v, 0)
    ensures Cong(Left(v, x), 0)
  {
    hide Cong;
    Multiplied();
    CongRefl(x * x);
    CongProduct(v, 0, x * x, x * x);
  }

  lemma ByParity(x: int, z: int)
    requires (Cong(x - z, 0) || Cong(x + z, 0)) && Parity(x) == Parity(z)
    ensures Cong(x, z)
  {
    hide Cong;
    CongRefl(z);
    if Cong(x - z, 0) {
      CongSum(x - z, 0, z, z);
    } else {
      CongSum(x + z, 0, z, z);
      SameResidue(x, -z);
      if !Cong(z, 0) {
        NegatedParity(z);
      } else {
        CongRefl(0);
        CongSum(0, 0, z, 0);
        CongTrans(x, -z, 0);
        CongSym(z, 0);
        CongTrans(x, 0, z);
      }
    }
  }

  lemma MoveY(x: int, y: int, n: int)
    requires OnCurve(D(), x, y) && Cong(y, n)
    ensures OnCurve(D(), x, n)
  {
    hide Cong, D, OnCurve, U, V, Left;
    CurveGivesRoot(x, y);
    SameRightSides(y, n);
    CongSym(V(y), V(n));
    LeftMoves(V(n), V(y), x);
    CongTrans(Left(V(n), x), Left(V(y), x), U(y));
    CongTrans(Left(V(n), x), U(y), U(n));
    RootOnCurve(x, n);
  }

  lemma SplitAtTop(low: int, top: int, a: int, b: int)
    requires low + TWO255 * top == a + TWO255 * b && 0 <= low < TWO255 && 0 <= a < TWO255
    ensures low == a && top == b
  {
  }

  /** The bytes of an encoding carry the y coordinate and the parity. */
  lemma EncodingParts(s: seq<Byte>, x: int, y: int)
    requires |s| == 32 && Eval(256, s) == Encoded(x, y)
    ensures Low(s) == Residue(y) && s[31] / 128 == Parity(x)
  {
    hide Cong, Low, Eval;
    LowPositive(s);
    LowBelow(s);
    Residues(x, y);
    SplitAtTop(Low(s), s[31] / 128, Residue(y), Parity(x));
  }

  lemma LowBelow(s: seq<Byte>)
    requires |s| == 32
    ensures Low(s) < TWO255
  {
    LoadValue(s);
    LoadBelow(s);
  }

  lemma Replace(h: P3, x: int, y: int, a: int, b: int)
    requires Fits3(h) && Is3(h, x, y) && Cong(x, a) && Cong(y, b)
    ensures Is3(h, a, b)
  {
    hide Cong, Unit, Value, Size;
    Multiplied();
    var z := Value(h.Z);
    CongRefl(z);
    CongProduct(x, a, z, z);
    CongProduct(y, b, z, z);
    CongProduct(x, a, y, b);
    CongProduct(x * y, a * b, z, z);
    CongTrans(Value(h.X), x * z, a * z);
    CongTrans(Value(h.Y), y * z, b * z);
    CongTrans(Value(h.T), (x * y) * z, (a * b) * z);
  }

  /** A root of u / v that vanishes exactly when the candidate does. */
  lemma RootFound(u: int, v: int) returns (r: int)
    requires Solves(u, v)
    ensures Cong(Left(v, r), u) && (Cong(r, 0) <==> Cong(Candidate(u, v), 0))
  {
    hide Cong, Candidate, Left;
    var c := Candidate(u, v);
    if Cong(Left(v, c), u) {
      r := c;
    } else {
      RootOfMinusOne();
      Corrected(u, v, c, I());
      ZeroKept(c, I());
      r := c * I();
    }
  }

  lemma AcceptedIsNamed(s: seq<Byte>) returns (x: int)
    requires |s| == 32 && Accepts(s)
    ensures Names(s, x)
  {
    hide Cong, Candidate, Left, D, OnCurve, Low, U, V, Solves;
    var n, sign := Low(s), s[31] as int / 128;
    var r := RootFound(U(n), V(n));
    CongExactly(r, 0);
    Residues(r, n);
    x := r;
    ResidueIs(r);
    if Parity(r) != sign {
      NegatedParity(r);
      x := -r;
    }
    CongRefl(x);
    OtherRoot(V(n), r, x, U(n));
    RootOnCurve(x, n);
  }

  /** Accepted are exactly the byte strings that name a point. */
  lemma AcceptsExactly(s: seq<Byte>)
    requires |s| == 32 && Prime(P)
    ensures Accepts(s) <==> exists x :: Names(s, x)
  {
    hide Accepts, Names, Prime;
    if Accepts(s) {
      var x := AcceptedIsNamed(s);
    }
    forall x | Names(s, x) ensures Accepts(s) {
      NamedIsAccepted(s, x);
    }
  }

  /** Decoding an encoded point of the curve succeeds and gives the point back. */
  method EncodeThenDecode(p: P2, ghost x: int, ghost y: int) returns (ok: bool, h: P3)
    requires Prime(P) && Fits2(p) && Is2(p, x, y) && OnCurve(D(), x, y)
    ensures ok && Fits3(h) && Is3(h, x, y)
  {
    hide Cong, Unit, Value, Size, Low, OnCurve, D, U, V, Left, Invertible, Encoded, Eval, Prime, Accepts;
    UnitInvertible(p.Z);
    var s := GeToBytes(p);
    EncodingParts(s, x, y);
    MoveY(x, y, Low(s));
    CongSym(y, Low(s));
    NamedIsAccepted(s, x);
    ok, h := GeFromBytes(s);
    ghost var X, Y := Value(h.X), Value(h.Y);
    MoveY(X, Y, Low(s));
    CurveGivesRoot(X, Low(s));
    CurveGivesRoot(x, Low(s));
    NotBothZero(Low(s));
    SameRoot(U(Low(s)), V(Low(s)), X, x);
    CongTrans(Y, Low(s), y);
    Replace(h, X, Y, x, y);
  }
}
