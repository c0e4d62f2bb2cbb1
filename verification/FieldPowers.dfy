/** The two exponentiation chains of the curve code, with the exponent they reach. */
module FieldPowers {
  import opened Positional
  import opened FieldLimbs
  import opened FieldOps

  /** `f` stands for `z` to the power `e`. */
  ghost predicate IsPower(f: Fe, z: nat, e: nat)
  {
    Size(f, 1, 0) && Cong(Value(f), Power(z, e))
  }

  ghost predicate Reduced(v: int, r: int) { 0 <= r < P && Cong(v, r) }

  lemma LowResidue(v: int)
    ensures 0 <= v % P < P && Cong(v, v % P) && Reduced(v, v % P)
  {
    CongIntro(v, v % P, v / P);
  }

  /** The least nonnegative number congruent to `v`. */
  ghost function Residue(v: int): (r: nat)
    ensures r < P && Cong(v, r)
  {
    LowResidue(v);
    var r: int :| Reduced(v, r);
    r
  }

  lemma ResidueIs(v: int)
    ensures Residue(v) == v % P
  {
    CongExactly(v, Residue(v));
  }

  /** The residue a chain starts from. */
  ghost function Base(f: Fe): (z: nat)
    ensures Cong(Value(f), z)
  {
    Residue(Value(f))
  }

  method MulPowers(f: Fe, g: Fe, ghost z: nat, ghost d: nat, ghost e: nat) returns (h: Fe)
    requires IsPower(f, z, d) && IsPower(g, z, e)
    ensures IsPower(h, z, d + e)
  {
    hide Cong, Value, Size, Power;
    Slack(f); Slack(g);
    h := Mul(f, g, 1, 1);
    CongProduct(Value(f), Power(z, d), Value(g), Power(z, e));
    PowerAdd(z, d, e);
    CongTrans(Value(h), Value(f) * Value(g), Power(z, d + e));
  }

  lemma Slack(f: Fe)
    requires Size(f, 1, 0)
    ensures Size(f, 1, 1)
  {
  }

  method SqPower(f: Fe, ghost z: nat, ghost e: nat) returns (h: Fe)
    requires IsPower(f, z, e)
    ensures IsPower(h, z, 2 * e)
  {
    hide Cong, Value, Size, Power;
    Slack(f);
    h := Sq(f, 1);
    CongProduct(Value(f), Power(z, e), Value(f), Power(z, e));
    PowerAdd(z, e, e);
    CongTrans(Value(h), Value(f) * Value(f), Power(z, 2 * e));
  }

  /** `n` squarings. */
  method SqRepeat(f: Fe, n: nat, ghost z: nat, ghost e: nat) returns (h: Fe)
    requires IsPower(f, z, e)
    ensures IsPower(h, z, Power(2, n) * e)
  {
    hide IsPower;
    h := f;
    ghost var d := e;
    for i := 0 to n
      invariant IsPower(h, z, d) && d == Power(2, i) * e
    {
      h := SqPower(h, z, d);
      d := 2 * d;
      assert 2 * (Power(2, i) * e) == Power(2, i + 1) * e;
    }
  }

  lemma FewShifts()
    ensures Power(2, 1) == 2 && Power(2, 2) == 4 && Power(2, 5) == 32
  {
  }

  lemma Shifts()
    ensures Power(2, 2) == 4 && Power(2, 5) == 32 && Power(2, 10) == 1024 && Power(2, 20) == 1048576
    ensures Power(2, 50) == 1125899906842624 && Power(2, 100) == 1267650600228229401496703205376
  {
    hide Power;
    FewShifts();
    PowerAdd(2, 5, 5);
    PowerAdd(2, 10, 10);
    PowerAdd(2, 20, 20);
    PowerAdd(2, 40, 10);
    PowerAdd(2, 50, 50);
  }

  /** The exponent 2^250 - 1. */
  const ONES250 := 1809251394333065553493296640760748560207343510400633813116524750123642650623

  /** From 2^5 - 1 to 2^250 - 1: the exponents are runs of 5, 10, 20, 40, 50, 100, 200 and 250 ones. */
  method RunOfOnes(t5: Fe, ghost z: nat) returns (t: Fe)
    requires IsPower(t5, z, 31)
    ensures IsPower(t, z, ONES250)
  {
    hide IsPower, Power;
    Shifts();
    var t10 := SqRepeat(t5, 5, z, 31);
    t10 := MulPowers(t10, t5, z, 992, 31);
    t := SqRepeat(t10, 10, z, 1023);
    t := MulPowers(t, t10, z, 1047552, 1023);
    var t20 := t;
    t := SqRepeat(t20, 20, z, 1048575);
    t := MulPowers(t, t20, z, 1099510579200, 1048575);
    t := SqRepeat(t, 10, z, 1099511627775);
    var t50 := MulPowers(t, t10, z, 1125899906841600, 1023);
    t := SqRepeat(t50, 50, z, 1125899906842623);
    t := MulPowers(t, t50, z, 1267650600228228275596796362752, 1125899906842623);
    var t100 := t;
    t := SqRepeat(t100, 100, z, 1267650600228229401496703205375);
    t := MulPowers(t, t100, z, 1606938044258990275541962092339894951921974764381296132096000,
      1267650600228229401496703205375);
    t := SqRepeat(t, 50, z, 1606938044258990275541962092341162602522202993782792835301375);
    t := MulPowers(t, t50, z, 1809251394333065553493296640760748560207343510400633813116523624223735808000,
      1125899906842623);
  }

  lemma FirstPower(f: Fe)
    requires Size(f, 1, 0)
    ensures IsPower(f, Base(f), 1)
  {
    assert Power(Base(f), 1) == Base(f) * Power(Base(f), 0);
  }

  /** `fe_invert`: the power P - 2. */
  method FeInvert(f: Fe) returns (out: Fe)
    requires Size(f, 1, 0)
    ensures IsPower(out, Base(f), P - 2)
  {
    hide IsPower, Power, Base;
    ghost var z := Base(f);
    FirstPower(f);
    Shifts();
    var t0 := SqPower(f, z, 1);
    var t1 := SqPower(t0, z, 2);
    t1 := SqPower(t1, z, 4);
    t1 := MulPowers(f, t1, z, 1, 8);
    t0 := MulPowers(t0, t1, z, 2, 9);
    var t2 := SqPower(t0, z, 11);
    t1 := MulPowers(t1, t2, z, 9, 22);
    t1 := RunOfOnes(t1, z);
    t1 := SqRepeat(t1, 5, z, ONES250);
    out := MulPowers(t1, t0, z, 32 * ONES250, 11);
  }

  /** The tail of `fe_divpowm1`: the power (P - 5) / 8. */
  method FePow22523(f: Fe) returns (out: Fe)
    requires Size(f, 1, 0)
    ensures IsPower(out, Base(f), (P - 5) / 8)
  {
    hide IsPower, Power, Base;
    ghost var z := Base(f);
    FirstPower(f);
    Shifts();
    var t0 := SqPower(f, z, 1);
    var t1 := SqPower(t0, z, 2);
    t1 := SqPower(t1, z, 4);
    t1 := MulPowers(f, t1, z, 1, 8);
    t0 := MulPowers(t0, t1, z, 2, 9);
    t0 := SqPower(t0, z, 11);
    t0 := MulPowers(t1, t0, z, 9, 22);
    t0 := RunOfOnes(t0, z);
    t0 := SqPower(t0, z, ONES250);
    t0 := SqPower(t0, z, 2 * ONES250);
    out := MulPowers(t0, f, z, 4 * ONES250, 1);
  }
}
