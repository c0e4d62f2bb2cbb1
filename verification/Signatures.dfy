/** Plain Schnorr-style signatures: `generate_signature` and `check_signature`. */
module Signatures {
  import opened Options
  import opened Positional
  import opened ScalarLimbs
  import opened Scalars
  import opened ScalarTests
  import opened Groups
  import opened ScalarMult
  import opened Curve

  /** A challenge and a response; 64 bytes in the source. */
  datatype Signature = Signature(c: Bytes32, r: Bytes32)

  /** With response (k - c*x) mod L, the commitment c*X + r*Q recomputed by a checker is the signer's k*Q. */
  lemma Response<G(!new)>(g: Group<G>, c: int, x: int, k: int, q: G)
    requires Abelian(g) && Mul(g, L, q) == g.zero
    ensures g.add(Mul(g, c, Mul(g, x, q)), Mul(g, (k - c * x) % L, q)) == Mul(g, k, q)
  {
    hide Mul;
    MulMul(g, c, x, q);
    MulMod(g, k - c * x, L, q);
    MulAdd(g, c * x, k - c * x, q);
  }

  /** Two reduced scalars are equal exactly when their difference vanishes modulo L. */
  lemma DifferenceTest(a: Bytes32, b: Bytes32)
    requires Num(a) < L && Num(b) < L
    ensures Num(Scalar(Num(a) - Num(b))) == 0 <==> a == b
  {
    var x, y := Num(a), Num(b);
    ZeroDifference(x, y);
    if x == y { EvalInjective(256, a, b); }
  }

  lemma ZeroDifference(x: int, y: int)
    requires 0 <= x < L && 0 <= y < L
    ensures (x - y) % L == 0 <==> x == y
  {
  }

  /** c*P + r*B, what a checker recomputes. */
  ghost function Commitment<G(!new)>(c: Curve<G>, p: G, sig: Signature): G
  {
    c.group.add(Mul(c.group, Num(sig.c), p), Mul(c.group, Num(sig.r), c.base))
  }

  /** The signer's commitment comes back. */
  lemma CommitmentCloses<G(!new)>(c: Curve<G>, sec: Bytes32, k: Bytes32, sig: Signature)
    requires Lawful(c) && sig.r == Scalar(MulSub(sig.c, sec, k))
    ensures Commitment(c, Mul(c.group, Num(sec), c.base), sig) == Mul(c.group, Num(k), c.base)
  {
    hide Mul, Num;
    Response(c.group, Num(sig.c), Num(sec), Num(k), c.base);
  }

  /** The bytes a challenge is hashed from. */
  function Signed(prefix: Bytes32, pub: Bytes32, commitment: Bytes32): seq<Byte>
  {
    prefix + pub + commitment
  }

  ghost predicate SignatureHolds<G(!new)>(c: Curve<G>, prefix: Bytes32, pub: Bytes32, sig: Signature)
  {
    && c.decode(pub).Some?
    && Num(sig.c) < L && Num(sig.r) < L
    && sig.c == HashScalar(c, Signed(prefix, pub, c.encode(Commitment(c, c.decode(pub).value, sig))))
  }

  /** `generate_signature`; the key pair is the caller's obligation, as its assertions say. */
  method GenerateSignature<G(!new)>(c: Curve<G>, prefix: Bytes32, pub: Bytes32, sec: Bytes32, random: seq<Byte>)
    returns (sig: Signature)
    requires Lawful(c) && ScCheck(sec) == 0 && pub == c.encode(Mul(c.group, Num(sec), c.base)) && |random| == 64
    ensures SignatureHolds(c, prefix, pub, sig)
  {
    hide Mul, Scalar, MulSub, HashScalar, Num, ScCheck, Commitment;
    var k := RandomScalar(random);
    var p := BaseMul(c, k);
    var challenge := HashToScalar(c, prefix + pub + c.encode(p));
    var response := ScMulSub(challenge, sec, k);
    sig := Signature(challenge, response);
    CommitmentCloses(c, sec, k, sig);
  }

  /** The commitment as a verifier recomputes it. */
  method Recommit<G(!new)>(c: Curve<G>, p: G, sig: Signature) returns (q: G)
    requires Lawful(c) && Num(sig.c) < L && Num(sig.r) < L
    ensures q == Commitment(c, p, sig)
  {
    hide Mul, Num, Abelian, OddMultiples, BaseTable;
    q := DoubleMul(c.group, sig.c, p, sig.r, c.baseOdd, c.base);
  }

  /** `check_signature` */
  method CheckSignature<G(!new)>(c: Curve<G>, prefix: Bytes32, pub: Bytes32, sig: Signature) returns (ok: bool)
    requires Lawful(c)
    ensures ok <==> SignatureHolds(c, prefix, pub, sig)
  {
    hide Mul, Scalar, HashScalar, Num, ScCheck, Lawful, Commitment;
    var p := c.decode(pub);
    if p.None? { return false; }
    ScCheckExact(sig.c);
    ScCheckExact(sig.r);
    if ScCheck(sig.c) != 0 || ScCheck(sig.r) != 0 { return false; }
    var q := Recommit(c, p.value, sig);
    var challenge := HashToScalar(c, prefix + pub + c.encode(q));
    var difference := ScSub(challenge, sig.c);
    DifferenceTest(challenge, sig.c);
    var nonzero := ScIsNonzero(difference);
    ok := nonzero == 0;
  }
}
