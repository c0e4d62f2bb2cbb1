/** Field operations as the point formulas chain them: limb sizes in units of one `fe_mul` output, values up to
    congruence. */
module FieldOps {
  import opened Positional
  import opened FieldLimbs
  import opened FieldMul
  import opened FieldSquare

  type Fe = f: seq<int> | |f| == 10 witness seq(10, _ => 0)

  /** Limbs of at most `n` times the output bound of `fe_mul`, plus `slack`. */
  ghost predicate Size(f: Fe, n: nat, slack: nat)
  {
    forall i :: 0 <= i < 10 ==> var b := n * (if i % 2 == 0 then 33889976 else 16944988) + slack; -b <= f[i] <= b
  }

  /** Three outputs added up still are valid factors, with room for a slack of one. */
  lemma SizeIsInput(f: Fe, n: nat, slack: nat)
    requires Size(f, n, slack) && n <= 3 && slack <= 1
    ensures Input(f)
  {
  }

  lemma OutputIsSize(f: Fe)
    requires Output(f)
    ensures Size(f, 1, 0)
  {
  }

  /** `fe_mul` */
  method Mul(f: Fe, g: Fe, ghost m: nat, ghost n: nat) returns (h: Fe)
    requires Size(f, m, 1) && Size(g, n, 1) && m <= 3 && n <= 3
    ensures Size(h, 1, 0) && Cong(Value(h), Value(f) * Value(g))
  {
    hide Value, Cong;
    SizeIsInput(f, m, 1);
    SizeIsInput(g, n, 1);
    h := Multiply(f, g);
    OutputIsSize(h);
  }

  /** `fe_sq` */
  method Sq(f: Fe, ghost n: nat) returns (h: Fe)
    requires Size(f, n, 1) && n <= 3
    ensures Size(h, 1, 0) && Cong(Value(h), Value(f) * Value(f))
  {
    hide Value, Cong;
    SizeIsInput(f, n, 1);
    h := Square(f);
    OutputIsSize(h);
  }

  /** `fe_sq2` */
  method Sq2(f: Fe, ghost n: nat) returns (h: Fe)
    requires Size(f, n, 1) && n <= 3
    ensures Size(h, 1, 0) && Cong(Value(h), 2 * (Value(f) * Value(f)))
  {
    hide Value, Cong;
    SizeIsInput(f, n, 1);
    h := SquareTwice(f);
    OutputIsSize(h);
  }

  lemma ValueSum(f: Fe, g: Fe, h: Fe, k: int)
    requires forall i :: 0 <= i < 10 ==> h[i] == f[i] + k * g[i]
    ensures Value(h) == Value(f) + k * Value(g)
  {
    ValueLinear(f, k, g, 0, g, h);
  }

  /** `fe_add`; the sums fit 32 bits for all sizes used. */
  method Add(f: Fe, g: Fe, ghost m: nat, ghost n: nat, ghost slack: nat) returns (h: Fe)
    requires Size(f, m, 0) && Size(g, n, slack) && m + n <= 3 && slack <= 1
    ensures Size(h, m + n, slack) && Value(h) == Value(f) + Value(g)
    ensures forall i :: 0 <= i < 10 ==> Int32(h[i])
  {
    hide Value;
    h := seq(10, i requires 0 <= i < 10 => f[i] + g[i]);
    ValueSum(f, g, h, 1);
  }

  /** `fe_sub` */
  method Sub(f: Fe, g: Fe, ghost m: nat, ghost n: nat, ghost slack: nat) returns (h: Fe)
    requires Size(f, m, 0) && Size(g, n, slack) && m + n <= 5 && slack <= 1
    ensures Size(h, m + n, slack) && Value(h) == Value(f) - Value(g)
    ensures forall i :: 0 <= i < 10 ==> Int32(h[i])
  {
    hide Value;
    h := seq(10, i requires 0 <= i < 10 => f[i] - g[i]);
    ValueSum(f, g, h, -1);
  }

  /** `fe_neg` */
  method Neg(f: Fe) returns (h: Fe)
    requires Size(f, 1, 0)
    ensures Size(h, 1, 0) && Value(h) == -Value(f)
  {
    h := seq(10, i requires 0 <= i < 10 => -f[i]);
    ValueIs(f);
    ValueIs(h);
  }

  const ZERO: Fe := [0, 0, 0, 0, 0, 0, 0, 0, 0, 0]
  const ONE: Fe := [1, 0, 0, 0, 0, 0, 0, 0, 0, 0]

  lemma Units()
    ensures Size(ZERO, 0, 0) && Value(ZERO) == 0 && Size(ONE, 0, 1) && Size(ONE, 1, 0) && Value(ONE) == 1
  {
  }
}
