/** Ring signatures, section 4.4 of the CryptoNote v2.0 whitepaper: key images, generation and checking. */
module RingSignatures {
  import opened Options
  import opened Positional
  import opened ScalarLimbs
  import opened Scalars
  import opened ScalarTests
  import opened Groups
  import opened ScalarMult
  import opened Subgroup
  import opened Curve
  import opened Signatures

  /** The two commitments of one ring member: c*P + r*B and r*Hp(P) + c*I. */
  ghost function Entry<G(!new)>(c: Curve<G>, image: G, pub: Bytes32, sig: Signature): seq<Byte>
  {
    match c.decode(pub)
    case None => []
    case Some(p) =>
      c.encode(Commitment(c, p, sig)) +
      c.encode(c.group.add(Mul(c.group, Num(sig.r), HashPoint(c, pub)), Mul(c.group, Num(sig.c), image)))
  }

  /** The hashed buffer: the prefix hash and the entries in ring order. */
  function Transcript(prefix: seq<Byte>, entries: seq<seq<Byte>>): seq<Byte>
  {
    if entries == [] then prefix
    else Transcript(prefix, entries[..|entries| - 1]) + entries[|entries| - 1]
  }

  ghost function Entries<G(!new)>(c: Curve<G>, image: G, pubs: seq<Bytes32>, sigs: seq<Signature>): (e: seq<seq<Byte>>)
    requires |pubs| == |sigs|
    ensures |e| == |pubs|
  {
    seq(|pubs|, i requires 0 <= i < |pubs| => Entry(c, image, pubs[i], sigs[i]))
  }

  /** The sum of the challenges. */
  ghost function Challenges(sigs: seq<Signature>): int
  {
    if sigs == [] then 0 else Challenges(sigs[..|sigs| - 1]) + Num(sigs[|sigs| - 1].c)
  }

  /** Ring member `i` passes the checks made before its entry is computed. */
  ghost predicate MemberOk<G(!new)>(c: Curve<G>, pub: Bytes32, sig: Signature)
  {
    Num(sig.c) < L && Num(sig.r) < L && c.decode(pub).Some?
  }

  /** What `checkRingSignature` decides. */
  ghost predicate RingHolds<G(!new)>(c: Curve<G>, prefix: Bytes32, image: Bytes32, pubs: seq<Bytes32>,
                                     sigs: seq<Signature>)
    requires |pubs| == |sigs|
  {
    && c.decode(image).Some?
    && Mul(c.group, L, c.decode(image).value) == c.group.zero
    && (forall i :: 0 <= i < |pubs| ==> MemberOk(c, pubs[i], sigs[i]))
    && HashScalar(c, Transcript(prefix, Entries(c, c.decode(image).value, pubs, sigs))) == Scalar(Challenges(sigs))
  }

  /** `generate_key_image` */
  method GenerateKeyImage<G(!new)>(c: Curve<G>, pub: Bytes32, sec: Bytes32) returns (image: Bytes32)
    requires Lawful(c) && ScCheck(sec) == 0
    ensures image == c.encode(Mul(c.group, Num(sec), HashPoint(c, pub)))
    ensures c.decode(image) == Some(Mul(c.group, Num(sec), HashPoint(c, pub)))
  {
    hide Mul, Num, ScCheck, HashPoint;
    ScCheckExact(sec);
    var p := HashToEc(c, pub);
    p := PointMul(c.group, sec, p);
    image := c.encode(p);
  }

  /** The two commitments computed from a signature and the decoded key. */
  method MakeEntry<G(!new)>(c: Curve<G>, pub: Bytes32, p: G, sig: Signature, table: seq<G>, ghost image: G)
    returns (e: seq<Byte>)
    requires Lawful(c) && c.decode(pub) == Some(p) && Num(sig.c) < L && Num(sig.r) < L
    requires OddMultiples(c.group, table, image)
    ensures e == Entry(c, image, pub, sig)
  {
    hide Mul, Num, HashPoint, Abelian, OddMultiples, BaseTable, Commitment;
    var a := Recommit(c, p, sig);
    var q := HashToEc(c, pub);
    var b := DoubleMul(c.group, sig.r, q, sig.c, table, image);
    e := c.encode(a) + c.encode(b);
  }

  lemma TranscriptGrows(prefix: seq<Byte>, entries: seq<seq<Byte>>, e: seq<Byte>)
    ensures Transcript(prefix, entries + [e]) == Transcript(prefix, entries) + e
  {
    assert (entries + [e])[..|entries|] == entries;
  }

  lemma ChallengesGrow(sigs: seq<Signature>, i: nat)
    requires i < |sigs|
    ensures Challenges(sigs[..i + 1]) == Challenges(sigs[..i]) + Num(sigs[i].c)
  {
    assert sigs[..i + 1][..i] == sigs[..i];
  }

  /** Running sums of scalars stay correct modulo L. */
  method AddChallenge(sum: Bytes32, x: Bytes32, ghost n: int) returns (s: Bytes32)
    requires sum == Scalar(n)
    ensures s == Scalar(n + Num(x))
  {
    hide Num;
    s := ScAdd(sum, x);
    SumMod(n, Num(x));
    SameScalar(Num(sum) + Num(x), n + Num(x));
  }

  lemma SumMod(n: int, x: int)
    ensures (n % L + x) % L == (n + x) % L
  {
    var q := n / L;
    assert n % L == n - L * q;
    assert ((n + x) - L * q) % L == (n + x) % L;
  }

  lemma SameScalar(x: int, y: int)
    requires x % L == y % L
    ensures Scalar(x) == Scalar(y)
  {
  }

  /** Progress of the checking loop: the first `i` members passed and are in the buffer and the sum. */
  ghost predicate Checked<G(!new)>(c: Curve<G>, prefix: Bytes32, image: G, pubs: seq<Bytes32>, sigs: seq<Signature>,
                                   i: nat, buf: seq<Byte>, sum: Bytes32)
    requires i <= |pubs| == |sigs|
  {
    && (forall j :: 0 <= j < i ==> MemberOk(c, pubs[j], sigs[j]))
    && buf == Transcript(prefix, Entries(c, image, pubs[..i], sigs[..i]))
    && sum == Scalar(Challenges(sigs[..i]))
  }

  lemma CheckedStart<G(!new)>(c: Curve<G>, prefix: Bytes32, image: G, pubs: seq<Bytes32>, sigs: seq<Signature>,
                              sum: Bytes32)
    requires |pubs| == |sigs| && sum == seq(32, _ => 0)
    ensures Checked(c, prefix, image, pubs, sigs, 0, prefix, sum)
  {
    EvalZeros(256, sum);
    hide Eval;
    ScalarUnique(sum, 0);
  }

  /** One iteration of the checking loop, for a member that passed. */
  method CheckMember<G(!new)>(c: Curve<G>, ghost prefix: Bytes32, ghost image: G, table: seq<G>, pubs: seq<Bytes32>,
                              sigs: seq<Signature>, i: nat, p: G, buf: seq<Byte>, sum: Bytes32)
    returns (buf': seq<Byte>, sum': Bytes32)
    requires Lawful(c) && OddMultiples(c.group, table, image) && i < |pubs| == |sigs|
    requires MemberOk(c, pubs[i], sigs[i]) && c.decode(pubs[i]) == Some(p)
    requires Checked(c, prefix, image, pubs, sigs, i, buf, sum)
    ensures Checked(c, prefix, image, pubs, sigs, i + 1, buf', sum')
  {
    hide Num, Lawful, OddMultiples, Entry, Transcript, Challenges, Scalar;
    var e := MakeEntry(c, pubs[i], p, sigs[i], table, image);
    buf' := buf + e;
    ghost var done := Entries(c, image, pubs[..i], sigs[..i]);
    assert Entries(c, image, pubs[..i + 1], sigs[..i + 1]) == done + [e];
    TranscriptGrows(prefix, done, e);
    ChallengesGrow(sigs, i);
    sum' := AddChallenge(sum, sigs[i].c, Challenges(sigs[..i]));
  }

  /** The loop of `checkRingSignature`: stops at the first member that fails a range test or does not decode. */
  method CheckMembers<G(!new)>(c: Curve<G>, prefix: Bytes32, ghost image: G, table: seq<G>, pubs: seq<Bytes32>,
                               sigs: seq<Signature>)
    returns (ok: bool, buf: seq<Byte>, sum: Bytes32)
    requires Lawful(c) && OddMultiples(c.group, table, image) && |pubs| == |sigs|
    ensures ok ==> Checked(c, prefix, image, pubs, sigs, |pubs|, buf, sum)
    ensures !ok ==> exists i :: 0 <= i < |pubs| && !MemberOk(c, pubs[i], sigs[i])
  {
    hide Num, Lawful, Checked, ScCheck, OddMultiples;
    buf, sum := prefix, seq(32, _ => 0);
    CheckedStart(c, prefix, image, pubs, sigs, sum);
    for i := 0 to |pubs|
      invariant Checked(c, prefix, image, pubs, sigs, i, buf, sum)
    {
      var p := c.decode(pubs[i]);
      ScCheckExact(sigs[i].c);
      ScCheckExact(sigs[i].r);
      assert MemberOk(c, pubs[i], sigs[i]) <==> ScCheck(sigs[i].c) == 0 && ScCheck(sigs[i].r) == 0 && p.Some?;
      if ScCheck(sigs[i].c) != 0 || ScCheck(sigs[i].r) != 0 { return false, buf, sum; }
      if p.None? { return false, buf, sum; }
      buf, sum := CheckMember(c, prefix, image, table, pubs, sigs, i, p.value, buf, sum);
    }
    ok := true;
  }

  /** `checkRingSignature`. Signatures beyond the ring are not looked at. */
  method CheckRingSignature<G(!new, ==)>(c: Curve<G>, prefix: Bytes32, image: Bytes32, pubs: seq<Bytes32>,
                                         sigs: seq<Signature>)
    returns (ok: bool)
    requires Lawful(c) && |pubs| <= |sigs|
    ensures ok <==> RingHolds(c, prefix, image, pubs, sigs[..|pubs|])
  {
    hide Num, Mul, Lawful, Transcript, Challenges, Scalar, Checked, OddMultiples, HashScalar, Entries, MemberOk,
      Abelian;
    GroupLaws(c);
    var imagePoint := c.decode(image);
    if imagePoint.None? { return false; }
    var table := Precompute(c.group, imagePoint.value);
    var outside := CheckSubgroup(c.group, table, imagePoint.value);
    if outside != 0 { return false; }
    var used := sigs[..|pubs|];
    var passed, buf, sum := CheckMembers(c, prefix, imagePoint.value, table, pubs, used);
    if !passed { return false; }
    var h := HashToScalar(c, buf);
    var difference := ScSub(h, sum);
    var nonzero := ScIsNonzero(difference);
    ok := nonzero == 0;
    CheckedEnd(c, prefix, imagePoint.value, pubs, used, buf, sum, h);
  }

  lemma CheckedEnd<G(!new)>(c: Curve<G>, prefix: Bytes32, image: G, pubs: seq<Bytes32>, sigs: seq<Signature>,
                            buf: seq<Byte>, sum: Bytes32, h: Bytes32)
    requires |pubs| == |sigs| && Checked(c, prefix, image, pubs, sigs, |pubs|, buf, sum) && h == HashScalar(c, buf)
    ensures forall i :: 0 <= i < |pubs| ==> MemberOk(c, pubs[i], sigs[i])
    ensures Num(Scalar(Num(h) - Num(sum))) == 0
       <==> HashScalar(c, Transcript(prefix, Entries(c, image, pubs, sigs))) == Scalar(Challenges(sigs))
  {
    hide Entry, Transcript, Challenges, Num;
    assert pubs[..|pubs|] == pubs && sigs[..|sigs|] == sigs;
    DifferenceTest(h, sum);
  }

  /** The signer's own entry before the challenge is known: k*B and k*Hp(P). */
  ghost function RealEntry<G(!new)>(c: Curve<G>, pub: Bytes32, k: Bytes32): seq<Byte>
  {
    c.encode(Mul(c.group, Num(k), c.base)) + c.encode(Mul(c.group, Num(k), HashPoint(c, pub)))
  }

  /** The all-zero scalar of a freshly created signature. */
  function Blank(): Bytes32 { seq(32, _ => 0) }

  /** Progress of the generating loop over the first `i` members; the real member is still blank. */
  ghost predicate Generated<G(!new)>(c: Curve<G>, prefix: Bytes32, image: G, pubs: seq<Bytes32>, own: nat,
                                     k: Bytes32, sigs: seq<Signature>, i: nat, entries: seq<seq<Byte>>,
                                     buf: seq<Byte>, sum: Bytes32)
  {
    && i <= |pubs| == |sigs| && |entries| == i && own < |pubs|
    && sigs[own].c == Blank()
    && (forall j :: 0 <= j < i && j != own ==>
      MemberOk(c, pubs[j], sigs[j]) && entries[j] == Entry(c, image, pubs[j], sigs[j]))
    && (own < i ==> entries[own] == RealEntry(c, pubs[own], k) && Num(k) < L)
    && buf == Transcript(prefix, entries)
    && sum == Scalar(Challenges(sigs[..i]))
  }

  lemma BlankIsZero()
    ensures Num(Blank()) == 0 && Scalar(0) == Blank()
  {
    EvalZeros(256, Blank());
    hide Eval;
    ScalarUnique(Blank(), 0);
  }

  /** Iteration for the real member. */
  method CommitReal<G(!new)>(c: Curve<G>, pub: Bytes32, random: seq<Byte>) returns (k: Bytes32, e: seq<Byte>)
    requires Lawful(c) && |random| == 64
    ensures k == Scalar(Num(random)) && Num(k) < L && e == RealEntry(c, pub, k)
  {
    hide Num, Mul, HashPoint, Scalar;
    k := RandomScalar(random);
    var p := BaseMul(c, k);
    var q := HashToEc(c, pub);
    q := PointMul(c.group, k, q);
    e := c.encode(p) + c.encode(q);
  }

  /** Iteration for a decoy: random challenge and response, entry computed from them. */
  method CommitDecoy<G(!new)>(c: Curve<G>, pub: Bytes32, p: G, table: seq<G>, ghost image: G,
                              random: (seq<Byte>, seq<Byte>))
    returns (sig: Signature, e: seq<Byte>)
    requires Lawful(c) && c.decode(pub) == Some(p) && OddMultiples(c.group, table, image)
    requires |random.0| == |random.1| == 64
    ensures MemberOk(c, pub, sig) && e == Entry(c, image, pub, sig)
    ensures sig == Signature(Scalar(Num(random.0)), Scalar(Num(random.1)))
  {
    hide Num, Lawful, OddMultiples, Entry, Scalar;
    var x := RandomScalar(random.0);
    var y := RandomScalar(random.1);
    sig := Signature(x, y);
    e := MakeEntry(c, pub, p, sig, table, image);
  }

  lemma {:induction false} ChallengesUpdate(sigs: seq<Signature>, i: nat, sig: Signature)
    requires i < |sigs|
    ensures Challenges(sigs[i := sig]) == Challenges(sigs) - Num(sigs[i].c) + Num(sig.c)
  {
    hide Num;
    var n := |sigs| - 1;
    if i < n {
      ChallengesUpdate(sigs[..n], i, sig);
      assert sigs[i := sig][..n] == sigs[..n][i := sig];
    } else {
      assert sigs[i := sig][..n] == sigs[..n];
    }
  }

  lemma GeneratedStart<G(!new)>(c: Curve<G>, prefix: Bytes32, image: G, pubs: seq<Bytes32>, own: nat, k: Bytes32,
                                sigs: seq<Signature>)
    requires |pubs| == |sigs| && own < |pubs| && sigs[own].c == Blank()
    ensures Generated(c, prefix, image, pubs, own, k, sigs, 0, [], prefix, Blank())
  {
    BlankIsZero();
    assert sigs[..0] == [];
  }

  /** Extending the loop state by the entry and challenge of member `i`. */
  lemma GeneratedStep<G(!new)>(c: Curve<G>, prefix: Bytes32, image: G, pubs: seq<Bytes32>, own: nat, k: Bytes32,
                               k': Bytes32, sigs: seq<Signature>, i: nat, entries: seq<seq<Byte>>, buf: seq<Byte>,
                               sum: Bytes32, sig: Signature, e: seq<Byte>, sum': Bytes32)
    requires Generated(c, prefix, image, pubs, own, k, sigs, i, entries, buf, sum) && i < |pubs|
    requires sum' == Scalar(Challenges(sigs[..i]) + Num(sig.c))
    requires if i == own then sig.c == Blank() && e == RealEntry(c, pubs[i], k') && Num(k') < L
             else k' == k && MemberOk(c, pubs[i], sig) && e == Entry(c, image, pubs[i], sig)
    ensures Generated(c, prefix, image, pubs, own, k', sigs[i := sig], i + 1, entries + [e], buf + e, sum')
  {
    hide Num, MemberOk, Entry, RealEntry, Transcript, Scalar, Challenges;
    var sigs' := sigs[i := sig];
    TranscriptGrows(prefix, entries, e);
    ChallengesGrow(sigs', i);
    assert sigs'[..i] == sigs[..i];
  }

  lemma ImageInSubgroup<G(!new)>(c: Curve<G>, pub: Bytes32, sec: Bytes32)
    requires Lawful(c)
    ensures Mul(c.group, L, Mul(c.group, Num(sec), HashPoint(c, pub))) == c.group.zero
  {
    hide Mul, Num, HashPoint;
    var g, q, x := c.group, HashPoint(c, pub), Num(sec);
    HashPointOrder(c, pub);
    MulMul(g, L, x, q);
    MulMul(g, x, L, q);
    MulZeroPoint(g, x);
    assert L * x == x * L;
  }

  lemma OwnEntry<G(!new)>(c: Curve<G>, pub: Bytes32, sec: Bytes32, k: Bytes32, sig: Signature)
    requires Lawful(c) && sig.r == Scalar(MulSub(sig.c, sec, k))
    requires c.decode(pub) == Some(Mul(c.group, Num(sec), c.base))
    ensures Entry(c, Mul(c.group, Num(sec), HashPoint(c, pub)), pub, sig) == RealEntry(c, pub, k)
  {
    hide Mul, Num, HashPoint, Commitment;
    var g, q := c.group, HashPoint(c, pub);
    CommitmentCloses(c, sec, k, sig);
    HashPointOrder(c, pub);
    Response(g, Num(sig.c), Num(sec), Num(k), q);
    Laws(g, Mul(g, Num(sig.c), Mul(g, Num(sec), q)), Mul(g, Num(sig.r), q), q);
  }

  lemma OwnMember<G(!new)>(c: Curve<G>, pub: Bytes32, sec: Bytes32, sig: Signature)
    requires c.decode(pub) == Some(Mul(c.group, Num(sec), c.base))
    requires exists x, y :: sig.c == Scalar(x) && sig.r == Scalar(y)
    ensures MemberOk(c, pub, sig)
  {
    hide Mul, Num;
  }

  lemma ChallengeTotal<G(!new)>(c: Curve<G>, sigs: seq<Signature>, own: nat, sig: Signature, buf: seq<Byte>,
                                sum: Bytes32)
    requires own < |sigs| && sigs[own].c == Blank() && sum == Scalar(Challenges(sigs))
    requires sig.c == Scalar(Num(HashScalar(c, buf)) - Num(sum))
    ensures HashScalar(c, buf) == Scalar(Challenges(sigs[own := sig]))
  {
    hide Challenges, Num;
    var h, total := HashScalar(c, buf), Challenges(sigs);
    BlankIsZero();
    ChallengesUpdate(sigs, own, sig);
    TotalMod(Num(h), total, Num(sum), Num(sig.c));
    ScalarUnique(h, total + Num(sig.c));
  }

  lemma TotalMod(h: int, total: int, sum: int, x: int)
    requires 0 <= h < L && sum == total % L && x == (h - sum) % L
    ensures h == (total + x) % L
  {
    var p, q := total / L, (h - sum) / L;
    assert total + x == h + L * (p - q);
    assert (h + L * (p - q)) % L == h;
  }

  /** The generated challenge and response of the real member make the ring hold. */
  lemma RingCloses<G(!new)>(c: Curve<G>, prefix: Bytes32, image: Bytes32, pubs: seq<Bytes32>, own: nat, k: Bytes32,
                            sec: Bytes32, sigs: seq<Signature>, entries: seq<seq<Byte>>, buf: seq<Byte>,
                            sum: Bytes32, sig: Signature)
    requires Lawful(c) && c.decode(image).Some?
    requires Generated(c, prefix, c.decode(image).value, pubs, own, k, sigs, |pubs|, entries, buf, sum)
    requires sig.c == Scalar(Num(HashScalar(c, buf)) - Num(sum)) && sig.r == Scalar(MulSub(sig.c, sec, k))
    requires Honest(c, pubs[own], image, sec)
    ensures RingHolds(c, prefix, image, pubs, sigs[own := sig])
  {
    hide Num, Mul, Entry, RealEntry, Transcript, Scalar, Challenges, HashScalar, MulSub, HashPoint, MemberOk;
    var sigs', point := sigs[own := sig], c.decode(image).value;
    ImageInSubgroup(c, pubs[own], sec);
    OwnEntry(c, pubs[own], sec, k, sig);
    OwnMember(c, pubs[own], sec, sig);
    assert Entries(c, point, pubs, sigs') == entries;
    assert sigs[..|sigs|] == sigs;
    ChallengeTotal(c, sigs, own, sig, buf, sum);
  }

  /** The ring member belongs to `sec` and the image is the one `sec` determines for it. */
  ghost predicate Honest<G(!new)>(c: Curve<G>, pub: Bytes32, image: Bytes32, sec: Bytes32)
  {
    && c.decode(pub) == Some(Mul(c.group, Num(sec), c.base))
    && c.decode(image) == Some(Mul(c.group, Num(sec), HashPoint(c, pub)))
  }

  ghost predicate Randoms(random: seq<(seq<Byte>, seq<Byte>)>)
  {
    forall i :: 0 <= i < |random| ==> |random[i].0| == |random[i].1| == 64
  }

  /** The iteration for the signer's own member. */
  method OwnStep<G(!new)>(c: Curve<G>, ghost prefix: Bytes32, ghost image: G, pubs: seq<Bytes32>, own: nat,
                          ghost k0: Bytes32, ghost sigs: seq<Signature>, ghost entries: seq<seq<Byte>>,
                          buf: seq<Byte>, ghost sum: Bytes32, random: seq<Byte>)
    returns (k: Bytes32, e: seq<Byte>)
    requires Lawful(c) && |random| == 64
    requires Generated(c, prefix, image, pubs, own, k0, sigs, own, entries, buf, sum)
    ensures Generated(c, prefix, image, pubs, own, k, sigs, own + 1, entries + [e], buf + e, sum)
  {
    hide *;
    OwnBlank(c, prefix, image, pubs, own, k0, sigs, own, entries, buf, sum);
    k, e := CommitReal(c, pubs[own], random);
    GeneratedStep(c, prefix, image, pubs, own, k0, k, sigs, own, entries, buf, sum, sigs[own], e, sum);
    assert sigs[own := sigs[own]] == sigs;
  }

  /** The iteration for a decoy whose key is the point `p`. */
  method DecoyStep<G(!new)>(c: Curve<G>, ghost prefix: Bytes32, ghost image: G, table: seq<G>, pubs: seq<Bytes32>,
                            ghost own: nat, ghost k: Bytes32, sigs: seq<Signature>, i: nat, p: G,
                            ghost entries: seq<seq<Byte>>, buf: seq<Byte>, sum: Bytes32,
                            random: (seq<Byte>, seq<Byte>))
    returns (sig: Signature, e: seq<Byte>, sum': Bytes32)
    requires Lawful(c) && OddMultiples(c.group, table, image) && |random.0| == |random.1| == 64
    requires i < |pubs| == |sigs| && i != own && c.decode(pubs[i]) == Some(p)
    requires Generated(c, prefix, image, pubs, own, k, sigs, i, entries, buf, sum)
    ensures Generated(c, prefix, image, pubs, own, k, sigs[i := sig], i + 1, entries + [e], buf + e, sum')
  {
    hide *;
    sig, e := CommitDecoy(c, pubs[i], p, table, image, random);
    SumSoFar(c, prefix, image, pubs, own, k, sigs, i, entries, buf, sum);
    sum' := AddChallenge(sum, sig.c, Challenges(sigs[..i]));
    GeneratedStep(c, prefix, image, pubs, own, k, k, sigs, i, entries, buf, sum, sig, e, sum');
  }

  /** The loop of `generateRingSignatures`; it gives up at the first decoy key that is not a point. */
  method GenerateMembers<G(!new)>(c: Curve<G>, prefix: Bytes32, ghost image: G, table: seq<G>, pubs: seq<Bytes32>,
                                  own: nat, random: seq<(seq<Byte>, seq<Byte>)>)
    returns (ok: bool, sigs: seq<Signature>, k: Bytes32, buf: seq<Byte>, sum: Bytes32, ghost entries: seq<seq<Byte>>)
    requires Lawful(c) && OddMultiples(c.group, table, image) && own < |pubs| == |random| && Randoms(random)
    ensures |sigs| == |pubs|
    ensures ok ==> Generated(c, prefix, image, pubs, own, k, sigs, |pubs|, entries, buf, sum)
    ensures ok <==> forall i :: 0 <= i < |pubs| && i != own ==> c.decode(pubs[i]).Some?
  {
    hide Lawful, OddMultiples, Generated;
    sigs := seq(|pubs|, _ => Signature(Blank(), Blank()));
    k, buf, sum, entries := Blank(), prefix, Blank(), [];
    GeneratedStart(c, prefix, image, pubs, own, k, sigs);
    for i := 0 to |pubs|
      invariant |sigs| == |pubs| && Generated(c, prefix, image, pubs, own, k, sigs, i, entries, buf, sum)
      invariant forall j :: 0 <= j < i && j != own ==> c.decode(pubs[j]).Some?
    {
      var e;
      if i == own {
        k, e := OwnStep(c, prefix, image, pubs, own, k, sigs, entries, buf, sum, random[i].0);
      } else {
        var p, sig := c.decode(pubs[i]), sigs[i];
        if p.None? { return false, sigs, k, buf, sum, entries; }
        sig, e, sum := DecoyStep(c, prefix, image, table, pubs, own, k, sigs, i, p.value, entries, buf, sum, random[i]);
        sigs := sigs[i := sig];
      }
      buf, entries := buf + e, entries + [e];
    }
    ok := true;
  }

  lemma SumSoFar<G(!new)>(c: Curve<G>, prefix: Bytes32, image: G, pubs: seq<Bytes32>, own: nat, k: Bytes32,
                          sigs: seq<Signature>, i: nat, entries: seq<seq<Byte>>, buf: seq<Byte>, sum: Bytes32)
    requires Generated(c, prefix, image, pubs, own, k, sigs, i, entries, buf, sum)
    ensures sum == Scalar(Challenges(sigs[..i]))
  {
  }

  lemma OwnBlank<G(!new)>(c: Curve<G>, prefix: Bytes32, image: G, pubs: seq<Bytes32>, own: nat, k: Bytes32,
                          sigs: seq<Signature>, i: nat, entries: seq<seq<Byte>>, buf: seq<Byte>, sum: Bytes32)
    requires Generated(c, prefix, image, pubs, own, k, sigs, i, entries, buf, sum)
    ensures own < |pubs| == |sigs| && sigs[own].c == Blank() && sum == Scalar(Challenges(sigs[..i]) + Num(sigs[own].c))
  {
    hide Challenges, Num, Scalar, Transcript, Entry, RealEntry, MemberOk, Blank;
    BlankIsZero();
  }

  /** `generateRingSignatures`. It fails exactly when the image or a decoy key is not a point; otherwise, for
      an honest key pair and key image, the checker accepts the result, whatever the random bytes. */
  method GenerateRingSignatures<G(!new)>(c: Curve<G>, prefix: Bytes32, image: Bytes32, pubs: seq<Bytes32>,
                                         sec: Bytes32, own: nat, random: seq<(seq<Byte>, seq<Byte>)>)
    returns (ok: bool, sigs: seq<Signature>)
    requires Lawful(c) && own < |pubs| == |random| && Randoms(random)
    ensures |sigs| == |pubs|
    ensures ok <==> c.decode(image).Some? && forall i :: 0 <= i < |pubs| && i != own ==> c.decode(pubs[i]).Some?
    ensures ok && Honest(c, pubs[own], image, sec) ==> RingHolds(c, prefix, image, pubs, sigs)
  {
    hide *;
    GroupLaws(c);
    var imagePoint := c.decode(image);
    if imagePoint.None? {
      sigs := seq(|pubs|, _ => Signature(Blank(), Blank()));
      return false, sigs;
    }
    var table := Precompute(c.group, imagePoint.value);
    var k, buf, sum;
    ghost var entries;
    ok, sigs, k, buf, sum, entries := GenerateMembers(c, prefix, imagePoint.value, table, pubs, own, random);
    if !ok { return; }
    var h := HashToScalar(c, buf);
    var challenge := ScSub(h, sum);
    var response := ScMulSub(challenge, sec, k);
    ghost var open := sigs;
    sigs := sigs[own := Signature(challenge, response)];
    if Honest(c, pubs[own], image, sec) {
      RingCloses(c, prefix, image, pubs, own, k, sec, open, entries, buf, sum, Signature(challenge, response));
    }
  }
}
