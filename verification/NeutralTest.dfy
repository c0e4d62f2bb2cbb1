/** The closing comparison of the subgroup test: the chain ends in the neutral element. */
module NeutralTest {
  import opened FieldLimbs
  import opened FieldBytes
  import opened FieldOps
  import opened Fermat
  import opened EdwardsLaw
  import opened EdwardsPoints
  import opened SquareRoots
  import opened PointEncoding
  import opened PointDecoding
  import opened PrimeField
  import opened PointRoundTrip

  /** Y = T says that y is 1. */
  lemma EqualMeansOne(y: int, ry: int, rt: int)
    requires Unit(rt) && Cong(y * rt, ry)
    ensures Cong(ry, rt) <==> Cong(y, 1)
  {
    hide Cong, Unit;
    CongRefl(rt);
    if Cong(ry, rt) {
      CongTrans(y * rt, ry, rt);
      CancelUnit(y, 1, rt);
    }
    if Cong(y, 1) {
      CongProduct(y, 1, rt, rt);
      CongSym(y * rt, ry);
      CongTrans(ry, y * rt, rt);
    }
  }

  /** `fe_sub` and `fe_isnonzero` on the last sum of `ge_check_subgroup_precomp_vartime`: 0 exactly for y = 1. */
  method IsNotNeutral(t: P1p1) returns (r: int)
    requires FitsCompleted(t)
    ensures r == 0 || r == 1
    ensures forall x, y :: IsCompleted(t, x, y) ==> (r == 0 <==> Cong(y, 1))
  {
    hide Cong, Unit, Value, Size;
    Multiplied();
    var difference := Sub(t.Y, t.T, 2, 3, 0);
    SizeFreezes(difference, 5, 0);
    r := FeIsNonzero(difference);
    CongRefl(Value(difference));
    ZeroTest(Value(difference), Value(t.Y), Value(t.T));
    forall x, y | IsCompleted(t, x, y) ensures r == 0 <==> Cong(y, 1) {
      EqualMeansOne(y, Value(t.Y), Value(t.T));
    }
  }

  /** On the curve only the neutral element has y = 1. */
  lemma OneIsNeutral(x: int, y: int)
    requires Prime(P) && OnCurve(D(), x, y) && Cong(y, 1)
    ensures Cong(x, 0)
  {
    hide Cong, D, OnCurve, Prime, V;
    Multiplied();
    MoveY(x, y, 1);
    CurveGivesRoot(x, 1);
    CongRefl(0);
    NoZeroDivisors(V(1), x * x);
    NotBothZero(1);
    NoZeroDivisors(x, x);
  }
}
