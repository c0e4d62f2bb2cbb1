/** The curve as the signature code sees it: a group with a base point of order L, an encoding of points as
    32 bytes and uninterpreted hashes. Everything the model assumes about Ed25519 is in `Lawful`. */
module Curve {
  import opened Options
  import opened Positional
  import opened ScalarLimbs
  import opened Scalars
  import opened Groups
  import opened ScalarMult

  /** `encode` is ge_tobytes and ge_p3_tobytes, `decode` ge_frombytes_vartime, `hash` cn_fast_hash, `fromHash`
      ge_fromfe_frombytes_vartime, and the tables are ge_Bi and ge_base. */
  datatype Curve<!G> = Curve(
    group: Group<G>,
    base: G,
    encode: G -> Bytes32,
    decode: Bytes32 -> Option<G>,
    hash: seq<Byte> -> Bytes32,
    fromHash: Bytes32 -> G,
    baseOdd: seq<G>,
    baseComb: seq<seq<G>>)

  /** The group hypotheses: section 5.1 of RFC 8032 gives the orders and the canonical encoding. */
  ghost predicate Lawful<G(!new)>(c: Curve<G>)
  {
    && Abelian(c.group)
    && Mul(c.group, L, c.base) == c.group.zero
    && (forall p: G {:trigger At(p, p, p)} :: At(p, p, p) ==> Mul(c.group, 8 * L, p) == c.group.zero)
    && (forall p: G {:trigger c.encode(p)} :: c.decode(c.encode(p)) == Some(p))
    && (forall b: Bytes32 {:trigger c.decode(b)} :: c.decode(b).Some? ==> c.encode(c.decode(b).value) == b)
    && OddMultiples(c.group, c.baseOdd, c.base)
    && BaseTable(c.group, c.baseComb, c.base)
  }

  lemma GroupLaws<G(!new)>(c: Curve<G>)
    requires Lawful(c)
    ensures Abelian(c.group)
  {
  }

  /** A reduced scalar has room to spare in its top byte. */
  lemma ReducedTop(s: Bytes32)
    requires Num(s) < L
    ensures s[31] <= 127
  {
    if s[31] >= 128 {
      EvalSplit(256, s, 31);
      assert s[31..] == [s[31]] && s[31..][1..] == [];
      EvalBound(256, s[..31]);
      TopWeight();
      hide Power, Eval;
      MulMono(Power(256, 31), 128, s[31]);
    }
  }

  lemma TopWeight()
    ensures 128 * Power(256, 31) > L
  {
    assert Power(256, 8) == 0x1_0000_0000_0000_0000;
    PowerAdd(256, 8, 8);
    PowerAdd(256, 16, 8);
    assert Power(256, 7) == 0x100_0000_0000_0000;
    PowerAdd(256, 24, 7);
  }

  ghost function HashScalar<G(!new)>(c: Curve<G>, data: seq<Byte>): (s: Bytes32)
    ensures Num(s) < L
  {
    Scalar(Num(c.hash(data)))
  }

  /** Nothing is known of one hash from another: for different inputs every pair of answers is possible. */
  function Answers(hash: seq<Byte> -> Bytes32, x: seq<Byte>, a: Bytes32, y: seq<Byte>, b: Bytes32): seq<Byte> -> Bytes32
  {
    z => if z == x then a else if z == y then b else hash(z)
  }

  /** A scalar made by hashing depends on all the bytes hashed: on two inputs it can take any two values. */
  lemma HashScalarFree<G(!new)>(c: Curve<G>, x: seq<Byte>, a: Bytes32, y: seq<Byte>, b: Bytes32)
    requires x != y && Num(a) < L && Num(b) < L
    ensures var c' := c.(hash := Answers(c.hash, x, a, y, b)); HashScalar(c', x) == a && HashScalar(c', y) == b
  {
    hide Num, Scalar;
    ScalarOf(a);
    ScalarOf(b);
  }

  lemma ScalarOf(a: Bytes32)
    requires Num(a) < L
    ensures Scalar(Num(a)) == a
  {
    hide Num;
    ScalarUnique(a, Num(a));
  }

  /** `hash_to_scalar` */
  method HashToScalar<G(!new)>(c: Curve<G>, data: seq<Byte>) returns (s: Bytes32)
    ensures s == HashScalar(c, data)
  {
    var h := c.hash(data);
    var a := new Byte[32](i requires 0 <= i < 32 => h[i]);
    assert a[..] == h;
    ScReduce32(a);
    s := a[..];
  }

  /** `random_scalar` on 64 random bytes. */
  method RandomScalar(random: seq<Byte>) returns (s: Bytes32)
    requires |random| == 64
    ensures s == Scalar(Num(random)) && Num(s) < L
  {
    var a := new Byte[64](i requires 0 <= i < 64 => random[i]);
    assert a[..] == random;
    ScReduce(a);
    s := a[..32];
    assert s == a[..][..32];
  }

  ghost function HashPoint<G(!new)>(c: Curve<G>, key: Bytes32): G
  {
    Mul(c.group, 8, c.fromHash(c.hash(key)))
  }

  lemma HashPointOrder<G(!new)>(c: Curve<G>, key: Bytes32)
    requires Lawful(c)
    ensures Mul(c.group, L, HashPoint(c, key)) == c.group.zero
  {
    var p := c.fromHash(c.hash(key));
    assert At(p, p, p);
    MulMul(c.group, L, 8, p);
  }

  /** So does a hashed point: on two keys it can be eight times the points of any two hash values. */
  lemma HashPointFree<G(!new)>(c: Curve<G>, x: Bytes32, a: Bytes32, y: Bytes32, b: Bytes32)
    requires x != y
    ensures var c' := c.(hash := Answers(c.hash, x, a, y, b));
      HashPoint(c', x) == Mul(c.group, 8, c.fromHash(a)) && HashPoint(c', y) == Mul(c.group, 8, c.fromHash(b))
  {
    hide Mul;
  }

  /** `ge_mul8` */
  method TimesEight<G(!new)>(g: Group<G>, p: G) returns (r: G)
    requires Abelian(g)
    ensures r == Mul(g, 8, p)
  {
    MulOne(g, p);
    r := g.add(p, p);
    Double(g, 2, p);
    r := g.add(r, r);
    Double(g, 4, p);
    r := g.add(r, r);
  }

  /** `hash_to_ec` */
  method HashToEc<G(!new)>(c: Curve<G>, key: Bytes32) returns (r: G)
    requires Lawful(c)
    ensures r == HashPoint(c, key)
  {
    r := TimesEight(c.group, c.fromHash(c.hash(key)));
  }

  /** a*P + b*Q on reduced scalars, given the odd multiples of Q. */
  method DoubleMul<G(!new)>(g: Group<G>, a: Bytes32, p: G, b: Bytes32, table: seq<G>, ghost q: G) returns (r: G)
    requires Abelian(g) && OddMultiples(g, table, q) && Num(a) < L && Num(b) < L
    ensures r == g.add(Mul(g, Num(a), p), Mul(g, Num(b), q))
  {
    hide Mul, Eval, Power, Abelian, OddMultiples;
    ReducedTop(a);
    ReducedTop(b);
    ghost var lostA, lostB;
    r, lostA, lostB := DoubleScalarMul(g, a, p, b, table, q);
  }

  /** a*P on a reduced scalar. */
  method PointMul<G(!new)>(g: Group<G>, a: Bytes32, p: G) returns (r: G)
    requires Abelian(g) && Num(a) < L
    ensures r == Mul(g, Num(a), p)
  {
    hide Mul, Eval, Abelian;
    ReducedTop(a);
    r := ScalarMul(g, a, p);
  }

  /** a*B on a reduced scalar. */
  method BaseMul<G(!new)>(c: Curve<G>, a: Bytes32) returns (r: G)
    requires Lawful(c) && Num(a) < L
    ensures r == Mul(c.group, Num(a), c.base)
  {
    hide Mul, Eval, Abelian, BaseTable;
    ReducedTop(a);
    r := ScalarMulBase(c.group, a, c.baseComb, c.base);
  }
}
