/** Abelian groups as values: the curve enters the model as any group with these laws. */
module Groups {

  datatype Group<!G> = Group(zero: G, add: (G, G) -> G, neg: G -> G)

  /** A marker that instantiates the laws at chosen points only. */
  ghost predicate At<G>(x: G, y: G, z: G) { true }

  ghost predicate Abelian<G(!new)>(g: Group<G>)
  {
    && (forall x, y, z {:trigger At(x, y, z)} :: At(x, y, z) ==> g.add(g.add(x, y), z) == g.add(x, g.add(y, z)))
    && (forall x, y, z {:trigger At(x, y, z)} :: At(x, y, z) ==> g.add(x, y) == g.add(y, x))
    && (forall x, y, z {:trigger At(x, y, z)} :: At(x, y, z) ==> g.add(x, g.zero) == x)
    && (forall x, y, z {:trigger At(x, y, z)} :: At(x, y, z) ==> g.add(x, g.neg(x)) == g.zero)
  }

  /** `n` times `x`, for every integer `n`. */
  ghost function Mul<G(!new)>(g: Group<G>, n: int, x: G): G
    decreases if n < 0 then -n else n
  {
    if n == 0 then g.zero
    else if n > 0 then g.add(Mul(g, n - 1, x), x)
    else g.add(Mul(g, n + 1, x), g.neg(x))
  }

  lemma Laws<G(!new)>(g: Group<G>, x: G, y: G, z: G)
    requires Abelian(g)
    ensures g.add(g.add(x, y), z) == g.add(x, g.add(y, z)) && g.add(x, y) == g.add(y, x)
    ensures g.add(x, g.zero) == x && g.add(x, g.neg(x)) == g.zero
  {
    assert At(x, y, z);
  }

  lemma ZeroLeft<G(!new)>(g: Group<G>, x: G)
    requires Abelian(g)
    ensures g.add(g.zero, x) == x && g.add(x, g.zero) == x
  {
    Laws(g, x, g.zero, x);
  }

  lemma Exchange<G(!new)>(g: Group<G>, a: G, b: G, c: G, d: G)
    requires Abelian(g)
    ensures g.add(g.add(a, b), g.add(c, d)) == g.add(g.add(a, c), g.add(b, d))
  {
    Laws(g, a, b, g.add(c, d));
    Laws(g, b, c, d);
    Laws(g, c, b, d);
    Laws(g, a, c, g.add(b, d));
  }

  lemma Undo<G(!new)>(g: Group<G>, x: G, y: G)
    requires Abelian(g)
    ensures g.add(g.add(x, y), g.neg(y)) == x && g.add(g.add(x, g.neg(y)), y) == x
  {
    Laws(g, x, y, g.neg(y));
    Laws(g, y, g.neg(y), x);
    Laws(g, x, g.neg(y), y);
    Laws(g, g.neg(y), y, x);
    Laws(g, x, x, x);
  }

  lemma MulSucc<G(!new)>(g: Group<G>, n: int, x: G)
    requires Abelian(g)
    ensures Mul(g, n + 1, x) == g.add(Mul(g, n, x), x)
  {
    if n < 0 { Undo(g, Mul(g, n + 1, x), x); }
  }

  lemma MulPred<G(!new)>(g: Group<G>, n: int, x: G)
    requires Abelian(g)
    ensures Mul(g, n - 1, x) == g.add(Mul(g, n, x), g.neg(x))
  {
    MulSucc(g, n - 1, x);
    Undo(g, Mul(g, n - 1, x), x);
  }

  lemma {:induction false} MulAdd<G(!new)>(g: Group<G>, m: int, n: int, x: G)
    requires Abelian(g)
    ensures Mul(g, m + n, x) == g.add(Mul(g, m, x), Mul(g, n, x))
    decreases if n < 0 then -n else n
  {
    if n == 0 {
      ZeroLeft(g, Mul(g, m, x));
    } else if n > 0 {
      MulAdd(g, m, n - 1, x);
      MulSucc(g, m + n - 1, x);
      Laws(g, Mul(g, m, x), Mul(g, n - 1, x), x);
    } else {
      MulAdd(g, m, n + 1, x);
      MulPred(g, m + n + 1, x);
      Laws(g, Mul(g, m, x), Mul(g, n + 1, x), g.neg(x));
    }
  }

  lemma MulOne<G(!new)>(g: Group<G>, x: G)
    requires Abelian(g)
    ensures Mul(g, 1, x) == x && Mul(g, 2, x) == g.add(x, x)
  {
    ZeroLeft(g, x);
    MulSucc(g, 1, x);
  }

  lemma MulNeg<G(!new)>(g: Group<G>, n: int, x: G)
    requires Abelian(g)
    ensures Mul(g, -n, x) == g.neg(Mul(g, n, x))
  {
    var a, b := Mul(g, n, x), Mul(g, -n, x);
    MulAdd(g, n, -n, x);
    Laws(g, a, b, a);
    Undo(g, b, a);
    ZeroLeft(g, g.neg(a));
  }

  lemma {:induction false} MulZeroPoint<G(!new)>(g: Group<G>, n: int)
    requires Abelian(g)
    ensures Mul(g, n, g.zero) == g.zero
    decreases if n < 0 then -n else n
  {
    if n > 0 {
      MulZeroPoint(g, n - 1);
      ZeroLeft(g, g.zero);
    } else if n < 0 {
      MulZeroPoint(g, n + 1);
      Laws(g, g.zero, g.zero, g.zero);
    }
  }

  lemma {:induction false} MulMul<G(!new)>(g: Group<G>, m: int, n: int, x: G)
    requires Abelian(g)
    ensures Mul(g, m, Mul(g, n, x)) == Mul(g, m * n, x)
    decreases if m < 0 then -m else m
  {
    if m > 0 {
      MulMul(g, m - 1, n, x);
      MulAdd(g, (m - 1) * n, n, x);
      assert (m - 1) * n + n == m * n;
    } else if m < 0 {
      MulMul(g, m + 1, n, x);
      MulNeg(g, n, x);
      MulAdd(g, (m + 1) * n, -n, x);
      assert (m + 1) * n + -n == m * n;
    }
  }

  lemma {:induction false} MulSum<G(!new)>(g: Group<G>, n: int, x: G, y: G)
    requires Abelian(g)
    ensures Mul(g, n, g.add(x, y)) == g.add(Mul(g, n, x), Mul(g, n, y))
    decreases if n < 0 then -n else n
  {
    if n == 0 {
      ZeroLeft(g, g.zero);
    } else if n > 0 {
      MulSum(g, n - 1, x, y);
      Exchange(g, Mul(g, n - 1, x), Mul(g, n - 1, y), x, y);
    } else {
      MulSum(g, n + 1, x, y);
      NegSum(g, x, y);
      Exchange(g, Mul(g, n + 1, x), Mul(g, n + 1, y), g.neg(x), g.neg(y));
    }
  }

  lemma NegSum<G(!new)>(g: Group<G>, x: G, y: G)
    requires Abelian(g)
    ensures g.neg(g.add(x, y)) == g.add(g.neg(x), g.neg(y))
  {
    var s, t := g.add(x, y), g.add(g.neg(x), g.neg(y));
    Exchange(g, x, y, g.neg(x), g.neg(y));
    Laws(g, x, x, x);
    Laws(g, y, y, y);
    ZeroLeft(g, g.zero);
    Laws(g, t, s, s);
    Undo(g, t, s);
    ZeroLeft(g, g.neg(s));
  }

  /** Multiplying a point whose `l`-fold vanishes depends only on the factor modulo `l`. */
  lemma MulMod<G(!new)>(g: Group<G>, n: int, l: int, x: G)
    requires Abelian(g) && l > 0 && Mul(g, l, x) == g.zero
    ensures Mul(g, n % l, x) == Mul(g, n, x)
  {
    var q := n / l;
    MulMul(g, q, l, x);
    MulZeroPoint(g, q);
    MulAdd(g, q * l, n % l, x);
    ZeroLeft(g, Mul(g, n % l, x));
    assert q * l + n % l == n;
  }

  lemma Double<G(!new)>(g: Group<G>, n: int, x: G)
    requires Abelian(g)
    ensures g.add(Mul(g, n, x), Mul(g, n, x)) == Mul(g, 2 * n, x)
  {
    MulAdd(g, n, n, x);
  }
}
