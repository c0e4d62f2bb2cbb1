/** One-time keys, section 4.3 of the CryptoNote v2.0 whitepaper: key derivation from a Diffie-Hellman
    secret, derived public and secret keys, and the inverse derivation a receiver scans with. */
module OneTimeKeys {
  import opened Options
  import opened Positional
  import opened ScalarLimbs
  import opened Scalars
  import opened ScalarTests
  import opened Groups
  import opened Curve
  import Varint

  /** 8 * sec * P, encoded; nothing when the key is not a point. */
  ghost function Derivation<G(!new)>(c: Curve<G>, pub: Bytes32, sec: Bytes32): Option<Bytes32>
  {
    match c.decode(pub)
    case None => None
    case Some(p) => Some(c.encode(Mul(c.group, 8, Mul(c.group, Num(sec), p))))
  }

  /** The bytes hashed into the scalar of one output; `suffix` is empty in the plain variants. */
  function DerivationBytes(derivation: Bytes32, index: nat, suffix: seq<Byte>): seq<Byte>
  {
    derivation + Varint.Encode(index) + suffix
  }

  /** The derivation, the index and the suffix can all be read back from the bytes. */
  lemma DerivationReadsBack(derivation: Bytes32, index: nat, suffix: seq<Byte>)
    requires index < TWO64
    ensures var b, k := DerivationBytes(derivation, index, suffix), |Varint.Encode(index)|;
      && |b| == 32 + k + |suffix| && b[..32] == derivation && b[32 + k..] == suffix
      && Varint.Read(64, b[32..], 0) == Varint.Ok(index, k)
  {
    hide Varint.Read, Varint.Encode, Power;
    var b := DerivationBytes(derivation, index, suffix);
    assert b[32..] == Varint.Encode(index) + suffix;
    Varint.SixtyFourBits();
    Varint.ReadEncoded(64, index, suffix, 0);
  }

  /** So different outputs of a transaction, and different transactions, hash different bytes. */
  lemma DerivationBytesDiffer(d: Bytes32, i: nat, s: seq<Byte>, d': Bytes32, i': nat, s': seq<Byte>)
    requires i < TWO64 && i' < TWO64
    ensures DerivationBytes(d, i, s) == DerivationBytes(d', i', s') <==> d == d' && i == i' && s == s'
  {
    hide DerivationBytes, Varint.Read, Varint.Encode;
    DerivationReadsBack(d, i, s);
    DerivationReadsBack(d', i', s');
  }

  ghost function OutputScalar<G(!new)>(c: Curve<G>, derivation: Bytes32, index: nat, suffix: seq<Byte>): (s: Bytes32)
    ensures Num(s) < L
  {
    HashScalar(c, DerivationBytes(derivation, index, suffix))
  }

  /** Two outputs of one derivation can get any two scalars: the index, like the derivation and the suffix, matters. */
  lemma OutputScalarsFree<G(!new)>(c: Curve<G>, d: Bytes32, i: nat, s: seq<Byte>, a: Bytes32,
                                   d': Bytes32, i': nat, s': seq<Byte>, b: Bytes32)
    requires i < TWO64 && i' < TWO64 && !(d == d' && i == i' && s == s') && Num(a) < L && Num(b) < L
    ensures var c' := c.(hash := Answers(c.hash, DerivationBytes(d, i, s), a, DerivationBytes(d', i', s'), b));
      OutputScalar(c', d, i, s) == a && OutputScalar(c', d', i', s') == b
  {
    hide Num, HashScalar, DerivationBytes, Answers;
    DerivationBytesDiffer(d, i, s, d', i', s');
    HashScalarFree(c, DerivationBytes(d, i, s), a, DerivationBytes(d', i', s'), b);
  }

  /** P plus or minus the output scalar times the base point. */
  ghost function Shifted<G(!new)>(c: Curve<G>, key: Bytes32, n: int): Option<Bytes32>
  {
    match c.decode(key)
    case None => None
    case Some(p) => Some(c.encode(c.group.add(p, Mul(c.group, n, c.base))))
  }

  /** `generate_key_derivation` */
  method GenerateKeyDerivation<G(!new)>(c: Curve<G>, key1: Bytes32, key2: Bytes32) returns (r: Option<Bytes32>)
    requires Lawful(c) && ScCheck(key2) == 0
    ensures r == Derivation(c, key1, key2)
  {
    hide Mul, Scalar, HashScalar, ScCheck, Num;
    var d := c.decode(key1);
    if d.None? { return None; }
    ScCheckExact(key2);
    var p := PointMul(c.group, key2, d.value);
    p := TimesEight(c.group, p);
    r := Some(c.encode(p));
  }

  /** `derivation_to_scalar` */
  method DerivationToScalar<G(!new)>(c: Curve<G>, derivation: Bytes32, index: nat, suffix: seq<Byte>)
    returns (s: Bytes32)
    requires index < TWO64 && |suffix| <= 32
    ensures s == OutputScalar(c, derivation, index, suffix)
  {
    var tag := Varint.Write(index);
    Varint.TenBytes(index);
    assert |derivation + tag| <= 32 + 10;
    s := HashToScalar(c, derivation + tag + suffix);
  }

  /** `derive_public_key` */
  method DerivePublicKey<G(!new)>(c: Curve<G>, derivation: Bytes32, index: nat, base: Bytes32, suffix: seq<Byte>)
    returns (r: Option<Bytes32>)
    requires Lawful(c) && index < TWO64 && |suffix| <= 32
    ensures r == Shifted(c, base, Num(OutputScalar(c, derivation, index, suffix)))
  {
    hide Mul, Scalar, HashScalar, ScCheck, Num;
    var p := c.decode(base);
    if p.None? { return None; }
    var s := DerivationToScalar(c, derivation, index, suffix);
    var q := BaseMul(c, s);
    r := Some(c.encode(c.group.add(p.value, q)));
  }

  /** `underive_public_key` */
  method UnderivePublicKey<G(!new)>(c: Curve<G>, derivation: Bytes32, index: nat, derived: Bytes32, suffix: seq<Byte>)
    returns (r: Option<Bytes32>)
    requires Lawful(c) && index < TWO64 && |suffix| <= 32
    ensures r == Shifted(c, derived, -Num(OutputScalar(c, derivation, index, suffix)))
  {
    hide Mul, Scalar, HashScalar, ScCheck, Num;
    var p := c.decode(derived);
    if p.None? { return None; }
    var s := DerivationToScalar(c, derivation, index, suffix);
    var q := BaseMul(c, s);
    MulNeg(c.group, Num(s), c.base);
    r := Some(c.encode(c.group.add(p.value, c.group.neg(q))));
  }

  /** `derive_secret_key` */
  method DeriveSecretKey<G(!new)>(c: Curve<G>, derivation: Bytes32, index: nat, base: Bytes32, suffix: seq<Byte>)
    returns (r: Bytes32)
    requires ScCheck(base) == 0 && index < TWO64 && |suffix| <= 32
    ensures r == Scalar(Num(base) + Num(OutputScalar(c, derivation, index, suffix)))
  {
    hide Mul, Scalar, HashScalar, ScCheck, Num;
    var s := DerivationToScalar(c, derivation, index, suffix);
    r := ScAdd(base, s);
  }

  /** Sender and receiver reach the same derivation. */
  lemma SharedDerivation<G(!new)>(c: Curve<G>, a: Bytes32, r: Bytes32)
    requires Lawful(c)
    ensures var viewKey, txKey := c.encode(Mul(c.group, Num(a), c.base)), c.encode(Mul(c.group, Num(r), c.base));
      Derivation(c, viewKey, r).Some? && Derivation(c, viewKey, r) == Derivation(c, txKey, a)
  {
    hide Num, Mul;
    MulMul(c.group, Num(r), Num(a), c.base);
    MulMul(c.group, Num(a), Num(r), c.base);
    assert Num(r) * Num(a) == Num(a) * Num(r);
  }

  /** The derivation from x*B and a secret is the point 8*x*sec*B. */
  lemma DerivationOf<G(!new)>(c: Curve<G>, x: int, sec: Bytes32)
    requires Lawful(c)
    ensures Derivation(c, c.encode(Mul(c.group, x, c.base)), sec)
         == Some(c.encode(Mul(c.group, 8 * (Num(sec) * x), c.base)))
  {
    hide Num, Mul;
    MulMul(c.group, Num(sec), x, c.base);
    MulMul(c.group, 8, Num(sec) * x, c.base);
  }

  /** A point of order dividing 8 added to the key does not change the derivation. */
  lemma DerivationIgnoresTorsion<G(!new)>(c: Curve<G>, p: G, t: G, sec: Bytes32)
    requires Lawful(c) && Mul(c.group, 8, t) == c.group.zero
    ensures Derivation(c, c.encode(c.group.add(p, t)), sec) == Derivation(c, c.encode(p), sec)
  {
    hide Num, Mul;
    var g, n := c.group, Num(sec);
    MulMul(g, 8, n, g.add(p, t));
    MulMul(g, n, 8, g.add(p, t));
    MulMul(g, 8, n, p);
    MulMul(g, n, 8, p);
    assert 8 * n == n * 8;
    MulSum(g, 8, p, t);
    ZeroLeft(g, Mul(g, 8, p));
  }

  /** Shifting back undoes shifting: `underive_public_key` inverts `derive_public_key` and conversely. */
  lemma ShiftBack<G(!new)>(c: Curve<G>, key: Bytes32, n: int)
    requires Lawful(c)
    ensures Shifted(c, key, n).Some? <==> c.decode(key).Some?
    ensures Shifted(c, key, n).Some? ==> Shifted(c, Shifted(c, key, n).value, -n) == Some(key)
  {
    hide Mul;
    if c.decode(key).Some? {
      MulNeg(c.group, n, c.base);
      Undo(c.group, c.decode(key).value, Mul(c.group, n, c.base));
    }
  }

  /** The derived secret key opens the derived public key, after reduction modulo L. */
  lemma SecretMatchesPublic<G(!new)>(c: Curve<G>, sec: Bytes32, n: int)
    requires Lawful(c)
    ensures Shifted(c, c.encode(Mul(c.group, Num(sec), c.base)), n)
         == Some(c.encode(Mul(c.group, Num(Scalar(Num(sec) + n)), c.base)))
  {
    hide Mul, Num;
    MulAdd(c.group, Num(sec), n, c.base);
    MulMod(c.group, Num(sec) + n, L, c.base);
  }

  /** A whole payment: with view key a, spend key b and transaction key r, the output key the sender makes
      is recognised by the receiver's scan and opened by the receiver's derived secret. */
  lemma PaymentReachesReceiver<G(!new)>(c: Curve<G>, a: Bytes32, b: Bytes32, r: Bytes32, index: nat, suffix: seq<Byte>)
    requires Lawful(c)
    ensures
      var viewKey, spendKey, txKey := c.encode(Mul(c.group, Num(a), c.base)), c.encode(Mul(c.group, Num(b), c.base)),
                                      c.encode(Mul(c.group, Num(r), c.base));
      var sent, seen := Derivation(c, viewKey, r), Derivation(c, txKey, a);
      && sent.Some? && seen == sent
      && var n := Num(OutputScalar(c, sent.value, index, suffix));
      && Shifted(c, spendKey, n).Some?
      && Shifted(c, Shifted(c, spendKey, n).value, -Num(OutputScalar(c, seen.value, index, suffix))) == Some(spendKey)
      && Shifted(c, spendKey, n).value == c.encode(Mul(c.group, Num(Scalar(Num(b) + n)), c.base))
  {
    hide Mul, Num, Scalar, OutputScalar;
    var viewKey, spendKey := c.encode(Mul(c.group, Num(a), c.base)), c.encode(Mul(c.group, Num(b), c.base));
    SharedDerivation(c, a, r);
    var n := Num(OutputScalar(c, Derivation(c, viewKey, r).value, index, suffix));
    SecretMatchesPublic(c, b, n);
    ShiftBack(c, spendKey, n);
  }
}
