/** What an accepted signature proves: it is bound to its message, its key and its commitment, and answers to two
    different challenges on one commitment give the secret. */
module Extraction {
  import opened Options
  import opened Positional
  import opened ScalarLimbs
  import opened Scalars
  import opened Fermat
  import opened Groups
  import opened Curve
  import opened Signatures

  lemma SignedParts(prefix: Bytes32, pub: Bytes32, commitment: Bytes32)
    ensures var b := Signed(prefix, pub, commitment);
      |b| == 96 && b[..32] == prefix && b[32..64] == pub && b[64..] == commitment
  {
  }

  /** What is hashed when a signature is checked. */
  ghost function Hashed<G(!new)>(c: Curve<G>, prefix: Bytes32, pub: Bytes32, sig: Signature): seq<Byte>
    requires c.decode(pub).Some?
  {
    Signed(prefix, pub, c.encode(Commitment(c, c.decode(pub).value, sig)))
  }

  lemma HashedDiffers<G(!new)>(c: Curve<G>, prefix: Bytes32, pub: Bytes32, sig: Signature,
                               prefix': Bytes32, pub': Bytes32, sig': Signature)
    requires Lawful(c) && c.decode(pub).Some? && c.decode(pub').Some?
    ensures Hashed(c, prefix, pub, sig) == Hashed(c, prefix', pub', sig') <==>
      && prefix == prefix' && pub == pub'
      && Commitment(c, c.decode(pub).value, sig) == Commitment(c, c.decode(pub').value, sig')
  {
    hide Num, Mul, Signed, Commitment;
    var a, b := Commitment(c, c.decode(pub).value, sig), Commitment(c, c.decode(pub').value, sig');
    SignedParts(prefix, pub, c.encode(a));
    SignedParts(prefix', pub', c.encode(b));
    EncodeInjective(c, a, b);
  }

  lemma EncodeInjective<G(!new)>(c: Curve<G>, p: G, q: G)
    requires Lawful(c)
    ensures c.encode(p) == c.encode(q) <==> p == q
  {
    hide Mul;
    assert c.decode(c.encode(p)) == Some(p) && c.decode(c.encode(q)) == Some(q);
  }

  /** A signature is bound to its message, its key and its commitment: if any of them is different, there is a hash
      under which the one is accepted and the other is not. */
  lemma SignatureIsBound<G(!new)>(c: Curve<G>, prefix: Bytes32, pub: Bytes32, sig: Signature,
                                  prefix': Bytes32, pub': Bytes32, sig': Signature)
    requires Lawful(c) && c.decode(pub).Some? && c.decode(pub').Some?
    requires Num(sig.c) < L && Num(sig.r) < L && Num(sig'.c) < L && Num(sig'.r) < L
    requires prefix != prefix' || pub != pub'
      || Commitment(c, c.decode(pub).value, sig) != Commitment(c, c.decode(pub').value, sig')
    ensures var x, y := Hashed(c, prefix, pub, sig), Hashed(c, prefix', pub', sig');
      var c' := c.(hash := Answers(c.hash, x, sig.c, y, Scalar(Num(sig'.c) + 1)));
      SignatureHolds(c', prefix, pub, sig) && !SignatureHolds(c', prefix', pub', sig')
  {
    hide Num, Mul, Scalar, HashScalar, Answers, Signed, Lawful;
    HashedDiffers(c, prefix, pub, sig, prefix', pub', sig');
    NextScalar(sig'.c);
    HashScalarFree(c, Hashed(c, prefix, pub, sig), sig.c, Hashed(c, prefix', pub', sig'), Scalar(Num(sig'.c) + 1));
  }

  lemma NextScalar(a: Bytes32)
    requires Num(a) < L
    ensures Num(Scalar(Num(a) + 1)) < L && Scalar(Num(a) + 1) != a
  {
  }

  /** A commitment that two valid transcripts share gives the secret away: c1 X + r1 B = c2 X + r2 B. */
  lemma SameCommitment<G(!new)>(g: Group<G>, x: G, q: G, c1: int, r1: int, c2: int, r2: int)
    requires Abelian(g)
    requires g.add(Mul(g, c1, x), Mul(g, r1, q)) == g.add(Mul(g, c2, x), Mul(g, r2, q))
    ensures Mul(g, c1 - c2, x) == Mul(g, r2 - r1, q)
  {
    hide Mul;
    var a, b, d, e := Mul(g, c1, x), Mul(g, r1, q), Mul(g, c2, x), Mul(g, r2, q);
    MulAdd(g, c1, -c2, x);
    MulNeg(g, c2, x);
    MulAdd(g, r2, -r1, q);
    MulNeg(g, r1, q);
    MoveOver(g, a, b, d, e);
  }

  lemma MoveOver<G(!new)>(g: Group<G>, a: G, b: G, d: G, e: G)
    requires Abelian(g) && g.add(a, b) == g.add(d, e)
    ensures g.add(a, g.neg(d)) == g.add(e, g.neg(b))
  {
    Undo(g, a, b);
    Laws(g, d, e, g.neg(b));
    Laws(g, g.add(e, g.neg(b)), d, d);
    Undo(g, g.add(e, g.neg(b)), d);
    Laws(g, d, g.add(e, g.neg(b)), d);
  }

  /** A number that is no multiple of L has an inverse modulo L. */
  lemma InverseModL(d: int) returns (i: int)
    requires Prime(L) && d % L != 0
    ensures (i * d) % L == 1
  {
    hide Prime, Power;
    var r: nat := d % L;
    FermatLittle(L, r);
    i := Power(r, L - 2);
    NextPower(r, L - 1);
    ModProduct(L, d, i);
    assert r * i == i * r && d * i == i * d;
  }

  lemma NextPower(r: nat, n: nat)
    requires n > 0
    ensures Power(r, n) == r * Power(r, n - 1)
  {
  }

  /** d x = e q with i inverse to d modulo the order of x gives x as a multiple of q. */
  lemma Solve<G(!new)>(g: Group<G>, d: int, x: G, e: int, q: G, i: int)
    requires Abelian(g) && Mul(g, d, x) == Mul(g, e, q) && (i * d) % L == 1
    ensures Mul(g, L, x) == g.zero ==> x == Mul(g, i * e, q)
    ensures Mul(g, 8 * L, x) == g.zero ==> Mul(g, 8, x) == Mul(g, 8 * (i * e), q)
  {
    hide Mul;
    MulMul(g, i, d, x);
    MulMul(g, i, e, q);
    if Mul(g, L, x) == g.zero {
      MulMod(g, i * d, L, x);
      MulOne(g, x);
    }
    if Mul(g, 8 * L, x) == g.zero {
      MulMul(g, 8, i * d, x);
      MulMul(g, 8, i * e, q);
      MulMod(g, 8 * (i * d), 8 * L, x);
      EightTimes(i * d);
    }
  }

  lemma EightTimes(n: int)
    requires n % L == 1
    ensures (8 * n) % (8 * L) == 8
  {
    var k := n / L;
    assert 8 * n == 8 + (8 * L) * k;
    ModAdd(8 * L, 8, k);
  }

  lemma DifferentScalars(a: Bytes32, b: Bytes32)
    requires Num(a) < L && Num(b) < L && a != b
    ensures (Num(a) - Num(b)) % L != 0
  {
    hide Num;
    DifferenceTest(a, b);
  }

  /** The secret `x` opens the key: exactly, in the subgroup of order L, and up to points of order 8 in any case. */
  ghost predicate OpensKey<G(!new)>(c: Curve<G>, x: int, p: G)
  {
    && Mul(c.group, 8, p) == Mul(c.group, 8 * x, c.base)
    && (Mul(c.group, L, p) == c.group.zero ==> p == Mul(c.group, x, c.base))
  }

  lemma EveryOrder<G(!new)>(c: Curve<G>, p: G)
    requires Lawful(c)
    ensures Abelian(c.group) && Mul(c.group, 8 * L, p) == c.group.zero
  {
    hide Mul;
    assert At(p, p, p);
  }

  /** Two responses to different challenges on the same commitment. */
  lemma SecretFromCommitment<G(!new)>(c: Curve<G>, p: G, sig: Signature, sig': Signature) returns (x: int)
    requires Lawful(c) && Prime(L) && Num(sig.c) < L && Num(sig'.c) < L && sig.c != sig'.c
    requires Commitment(c, p, sig) == Commitment(c, p, sig')
    ensures OpensKey(c, x, p)
  {
    hide Mul, Num, Prime, Lawful, Abelian;
    var g := c.group;
    EveryOrder(c, p);
    var d, e := Num(sig.c) - Num(sig'.c), Num(sig'.r) - Num(sig.r);
    SameCommitment(g, p, c.base, Num(sig.c), Num(sig.r), Num(sig'.c), Num(sig'.r));
    DifferentScalars(sig.c, sig'.c);
    var i := InverseModL(d);
    x := i * e;
    Solve(g, d, p, e, c.base, i);
  }

  /** Two signatures accepted on the same commitment under different answers of the hash give the secret of the key:
      whoever can sign knows it. */
  lemma SecretFromTwoAnswers<G(!new)>(c: Curve<G>, c': Curve<G>, prefix: Bytes32, pub: Bytes32, sig: Signature,
                                      sig': Signature) returns (x: int)
    requires Lawful(c) && Prime(L) && c' == c.(hash := c'.hash)
    requires SignatureHolds(c, prefix, pub, sig) && SignatureHolds(c', prefix, pub, sig')
    requires Hashed(c, prefix, pub, sig) == Hashed(c, prefix, pub, sig')
    requires var b := Hashed(c, prefix, pub, sig); HashScalar(c, b) != HashScalar(c', b)
    ensures OpensKey(c, x, c.decode(pub).value)
  {
    hide Mul, Num, Prime, Lawful, Signed, HashScalar, OpensKey;
    HashedDiffers(c, prefix, pub, sig, prefix, pub, sig');
    x := SecretFromCommitment(c, c.decode(pub).value, sig, sig');
  }
}
