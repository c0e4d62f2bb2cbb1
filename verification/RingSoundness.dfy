/** What an accepted ring signature proves, section 4.4 of the CryptoNote v2.0 whitepaper: someone holding the secret
    of a ring member made it, and the key image is that member's only one. */
module RingSoundness {
  import opened Options
  import opened Positional
  import opened ScalarLimbs
  import opened Scalars
  import opened Fermat
  import opened Groups
  import opened Curve
  import opened Signatures
  import opened Extraction
  import opened RingSignatures

  /** An entry determines both commitments of its ring member. */
  lemma EntryBinds<G(!new)>(c: Curve<G>, image: G, image': G, pub: Bytes32, p: G, s: Signature, s': Signature)
    requires Lawful(c) && c.decode(pub) == Some(p)
    ensures Entry(c, image, pub, s) == Entry(c, image', pub, s') <==>
      && Commitment(c, p, s) == Commitment(c, p, s')
      && c.group.add(Mul(c.group, Num(s.r), HashPoint(c, pub)), Mul(c.group, Num(s.c), image))
         == c.group.add(Mul(c.group, Num(s'.r), HashPoint(c, pub)), Mul(c.group, Num(s'.c), image'))
  {
    hide Mul, Num, HashPoint, Commitment;
    var g, q := c.group, HashPoint(c, pub);
    var a, a' := Commitment(c, p, s), Commitment(c, p, s');
    var b := g.add(Mul(g, Num(s.r), q), Mul(g, Num(s.c), image));
    var b' := g.add(Mul(g, Num(s'.r), q), Mul(g, Num(s'.c), image'));
    PairInjective(c.encode(a), c.encode(b), c.encode(a'), c.encode(b'));
    EncodeInjective(c, a, a');
    EncodeInjective(c, b, b');
  }

  lemma PairInjective(a: Bytes32, b: Bytes32, a': Bytes32, b': Bytes32)
    ensures a + b == a' + b' <==> a == a' && b == b'
  {
    assert (a + b)[..32] == a && (a + b)[32..] == b && (a' + b')[..32] == a' && (a' + b')[32..] == b';
  }

  /** Equal entries of one member under one image, as equations between multiples. */
  lemma EqualEntries<G(!new)>(c: Curve<G>, image: G, pub: Bytes32, p: G, s: Signature, s': Signature)
    requires Lawful(c) && c.decode(pub) == Some(p) && Entry(c, image, pub, s) == Entry(c, image, pub, s')
    ensures var d, e := Num(s.c) - Num(s'.c), Num(s'.r) - Num(s.r);
      && Mul(c.group, d, p) == Mul(c.group, e, c.base)
      && Mul(c.group, d, image) == Mul(c.group, e, HashPoint(c, pub))
  {
    hide Mul, Num, HashPoint, Entry, Lawful, Abelian;
    GroupLaws(c);
    EntryBinds(c, image, image, pub, p, s, s');
    var g, q := c.group, HashPoint(c, pub);
    SameCommitment(g, p, c.base, Num(s.c), Num(s.r), Num(s'.c), Num(s'.r));
    Laws(g, Mul(g, Num(s.r), q), Mul(g, Num(s.c), image), q);
    Laws(g, Mul(g, Num(s'.r), q), Mul(g, Num(s'.c), image), q);
    SameCommitment(g, image, q, Num(s.c), Num(s.r), Num(s'.c), Num(s'.r));
  }

  /** The secret `x` opens the key, and the image is the one it determines. */
  ghost predicate Opens<G(!new)>(c: Curve<G>, x: int, pub: Bytes32, image: G)
  {
    image == Mul(c.group, x, HashPoint(c, pub)) && c.decode(pub).Some? && OpensKey(c, x, c.decode(pub).value)
  }

  lemma MemberExtraction<G(!new)>(c: Curve<G>, image: G, pub: Bytes32, s: Signature, s': Signature) returns (x: int)
    requires Lawful(c) && Prime(L) && Mul(c.group, L, image) == c.group.zero
    requires MemberOk(c, pub, s) && MemberOk(c, pub, s') && s.c != s'.c
    requires Entry(c, image, pub, s) == Entry(c, image, pub, s')
    ensures Opens(c, x, pub, image)
  {
    hide Mul, Num, Prime, HashPoint, Entry, Lawful, Abelian;
    var g, p, q := c.group, c.decode(pub).value, HashPoint(c, pub);
    EveryOrder(c, p);
    var d, e := Num(s.c) - Num(s'.c), Num(s'.r) - Num(s.r);
    EqualEntries(c, image, pub, p, s, s');
    DifferentScalars(s.c, s'.c);
    var i := InverseModL(d);
    x := i * e;
    Solve(g, d, p, e, c.base, i);
    Solve(g, d, image, e, q, i);
  }

  lemma {:induction false} SameChallenges(s: seq<Signature>, s': seq<Signature>)
    requires |s| == |s'| && forall i :: 0 <= i < |s| ==> s[i].c == s'[i].c
    ensures Challenges(s) == Challenges(s')
  {
    if s != [] {
      SameChallenges(s[..|s| - 1], s'[..|s| - 1]);
    }
  }

  /** The same curve with other answers of the hash, which agree on the ring's keys. */
  ghost predicate Rehashed<G(!new)>(c: Curve<G>, c': Curve<G>, pubs: seq<Bytes32>)
  {
    c' == c.(hash := c'.hash) && forall i :: 0 <= i < |pubs| ==> c'.hash(pubs[i]) == c.hash(pubs[i])
  }

  lemma SameEntry<G(!new)>(c: Curve<G>, c': Curve<G>, pubs: seq<Bytes32>, image: G, i: nat, s: Signature)
    requires Rehashed(c, c', pubs) && i < |pubs|
    ensures Entry(c', image, pubs[i], s) == Entry(c, image, pubs[i], s)
    ensures MemberOk(c', pubs[i], s) == MemberOk(c, pubs[i], s)
  {
    hide Mul, Num;
    assert HashPoint(c', pubs[i]) == HashPoint(c, pubs[i]);
  }

  /** Two ring signatures that are accepted on the same commitments under different answers of the hash give away the
      secret of a ring member, and the image is the one that secret determines. */
  lemma RingExtraction<G(!new)>(c: Curve<G>, c': Curve<G>, prefix: Bytes32, image: Bytes32, pubs: seq<Bytes32>,
                                s: seq<Signature>, s': seq<Signature>) returns (j: nat, x: int)
    requires Lawful(c) && Prime(L) && |pubs| == |s| == |s'| && Rehashed(c, c', pubs)
    requires RingHolds(c, prefix, image, pubs, s) && RingHolds(c', prefix, image, pubs, s')
    requires var point := c.decode(image).value; Entries(c, point, pubs, s) == Entries(c', point, pubs, s')
    requires var buf := Transcript(prefix, Entries(c, c.decode(image).value, pubs, s));
      HashScalar(c, buf) != HashScalar(c', buf)
    ensures j < |pubs| && c.decode(image).Some? && Opens(c, x, pubs[j], c.decode(image).value)
  {
    hide Mul, Num, Prime, Lawful, HashPoint, Entry, MemberOk, HashScalar, Transcript, Challenges, Scalar;
    hide Rehashed, Opens;
    var point := c.decode(image).value;
    assert c'.decode == c.decode && c'.group == c.group by { Rehash(c, c', pubs); }
    if forall i :: 0 <= i < |pubs| ==> s[i].c == s'[i].c {
      SameChallenges(s, s');
    }
    j :| 0 <= j < |pubs| && s[j].c != s'[j].c;
    assert Entries(c, point, pubs, s)[j] == Entries(c', point, pubs, s')[j];
    SameEntry(c, c', pubs, point, j, s'[j]);
    x := MemberExtraction(c, point, pubs[j], s[j], s'[j]);
  }

  lemma Rehash<G(!new)>(c: Curve<G>, c': Curve<G>, pubs: seq<Bytes32>)
    requires Rehashed(c, c', pubs)
    ensures c'.decode == c.decode && c'.group == c.group
  {
  }

  /** A key has one image: the secrets that open it agree modulo L. */
  lemma OneImagePerKey<G(!new)>(c: Curve<G>, pub: Bytes32, x: int, image: G, y: int, image': G)
    requires Lawful(c) && Prime(L) && c.base != c.group.zero
    requires Opens(c, x, pub, image) && Opens(c, y, pub, image')
    ensures (x - y) % L == 0 && image == image'
  {
    hide Mul, Prime, HashPoint;
    var g, n, q := c.group, x - y, HashPoint(c, pub);
    MulAdd(g, 8 * x, -(8 * y), c.base);
    MulNeg(g, 8 * y, c.base);
    Laws(g, Mul(g, 8 * x, c.base), c.base, c.base);
    assert 8 * x + -(8 * y) == 8 * n;
    if (8 * n) % L != 0 {
      var i := InverseModL(8 * n);
      MulMul(g, i, 8 * n, c.base);
      MulZeroPoint(g, i);
      MulMod(g, i * (8 * n), L, c.base);
      MulOne(g, c.base);
    }
    NoFactorEight(n);
    HashPointOrder(c, pub);
    MulMod(g, x, L, q);
    MulMod(g, y, L, q);
    SameResidues(x, y);
  }

  lemma NoFactorEight(n: int)
    ensures (8 * n) % L == 0 ==> n % L == 0
  {
    if (8 * n) % L == 0 {
      var k, m := (8 * n) / L, (3 * L + 1) / 8;
      assert 8 * n == k * L && 8 * m == 3 * L + 1;
      assert (8 * m) * n == m * (8 * n) == (m * k) * L;
      assert (3 * L + 1) * n == (3 * n) * L + n;
      assert n == 0 + (m * k - 3 * n) * L;
      ModAdd(L, 0, m * k - 3 * n);
    }
  }

  lemma SameResidues(x: int, y: int)
    requires (x - y) % L == 0
    ensures x % L == y % L
  {
    var k := (x - y) / L;
    assert x == y + k * L;
    ModAdd(L, y, k);
  }

  /** A point of order dividing 8 that L takes to zero is zero. */
  lemma NoCommonOrder<G(!new)>(g: Group<G>, t: G)
    requires Abelian(g) && Mul(g, 8, t) == g.zero && Mul(g, L, t) == g.zero
    ensures t == g.zero
  {
    hide Mul;
    MulMul(g, 5, L, t);
    MulZeroPoint(g, 5);
    MulMod(g, 5 * L, 8, t);
    assert (5 * L) % 8 == 1;
    MulOne(g, t);
  }

  /** An accepted image stands alone among those that differ from it by a point of order 8: none of them is accepted,
      whatever the message, the ring and the signature. */
  lemma ShiftedImageRefused<G(!new)>(c: Curve<G>, prefix: Bytes32, image: Bytes32, pubs: seq<Bytes32>,
                                     sigs: seq<Signature>, t: G, prefix': Bytes32, pubs': seq<Bytes32>,
                                     sigs': seq<Signature>)
    requires Lawful(c) && |pubs| == |sigs| && |pubs'| == |sigs'|
    requires RingHolds(c, prefix, image, pubs, sigs) && t != c.group.zero && Mul(c.group, 8, t) == c.group.zero
    ensures !RingHolds(c, prefix', c.encode(c.group.add(c.decode(image).value, t)), pubs', sigs')
  {
    hide Mul, Num, HashScalar, Transcript, Entries, Challenges, Scalar, MemberOk;
    var g, point := c.group, c.decode(image).value;
    MulSum(g, L, point, t);
    ZeroLeft(g, Mul(g, L, t));
    if Mul(g, L, t) == g.zero { NoCommonOrder(g, t); }
  }

  ghost predicate Wide(entries: seq<seq<Byte>>)
  {
    forall i :: 0 <= i < |entries| ==> |entries[i]| == 64
  }

  lemma {:induction false} TranscriptLength(prefix: Bytes32, entries: seq<seq<Byte>>)
    requires Wide(entries)
    ensures |Transcript(prefix, entries)| == 32 + 64 * |entries|
  {
    if entries != [] { TranscriptLength(prefix, entries[..|entries| - 1]); }
  }

  /** The hashed buffer determines the message and every entry, in ring order. */
  lemma {:induction false} TranscriptInjective(prefix: Bytes32, entries: seq<seq<Byte>>,
                                               prefix': Bytes32, entries': seq<seq<Byte>>)
    requires Wide(entries) && Wide(entries')
    ensures Transcript(prefix, entries) == Transcript(prefix', entries') <==> prefix == prefix' && entries == entries'
    decreases |entries|
  {
    TranscriptLength(prefix, entries);
    TranscriptLength(prefix', entries');
    if |entries| == |entries'| && entries != [] {
      var n := |entries| - 1;
      var a, b, x, y := Transcript(prefix, entries[..n]), Transcript(prefix', entries'[..n]), entries[n], entries'[n];
      TranscriptInjective(prefix, entries[..n], prefix', entries'[..n]);
      TranscriptLength(prefix, entries[..n]);
      TranscriptLength(prefix', entries'[..n]);
      SplitEnd(a, x, b, y);
      assert entries == entries[..n] + [x] && entries' == entries'[..n] + [y];
    }
  }

  lemma SplitEnd(a: seq<Byte>, x: seq<Byte>, b: seq<Byte>, y: seq<Byte>)
    requires |a| == |b|
    ensures a + x == b + y <==> a == b && x == y
  {
    assert (a + x)[..|a|] == a && (b + y)[..|a|] == b && (a + x)[|a|..] == x && (b + y)[|a|..] == y;
  }

  /** What is checked of a ring signature before anything is hashed. */
  ghost predicate Presentable<G(!new)>(c: Curve<G>, image: Bytes32, pubs: seq<Bytes32>, sigs: seq<Signature>)
  {
    && |pubs| == |sigs| && c.decode(image).Some? && Mul(c.group, L, c.decode(image).value) == c.group.zero
    && forall i :: 0 <= i < |pubs| ==> MemberOk(c, pubs[i], sigs[i])
  }

  ghost function Hashed<G(!new)>(c: Curve<G>, prefix: Bytes32, image: Bytes32, pubs: seq<Bytes32>, sigs: seq<Signature>)
    : seq<Byte>
    requires Presentable(c, image, pubs, sigs)
  {
    Transcript(prefix, Entries(c, c.decode(image).value, pubs, sigs))
  }

  lemma EntriesWide<G(!new)>(c: Curve<G>, image: Bytes32, pubs: seq<Bytes32>, sigs: seq<Signature>)
    requires Presentable(c, image, pubs, sigs)
    ensures Wide(Entries(c, c.decode(image).value, pubs, sigs))
  {
    hide Mul, Num, HashPoint, Commitment;
    var point := c.decode(image).value;
    forall i | 0 <= i < |pubs| ensures |Entries(c, point, pubs, sigs)[i]| == 64 {
      assert MemberOk(c, pubs[i], sigs[i]);
      assert Entries(c, point, pubs, sigs)[i] == Entry(c, point, pubs[i], sigs[i]);
    }
  }

  /** The hash that answers with the sum of the challenges on one buffer and with something else on another. */
  ghost function Telling<G(!new)>(c: Curve<G>, x: seq<Byte>, sigs: seq<Signature>, y: seq<Byte>, sigs': seq<Signature>)
    : seq<Byte> -> Bytes32
  {
    Answers(c.hash, x, Scalar(Challenges(sigs)), y, Scalar(Challenges(sigs') + 1))
  }

  lemma Elsewhere<G(!new)>(c: Curve<G>, x: seq<Byte>, sigs: seq<Signature>, y: seq<Byte>, sigs': seq<Signature>,
                           pubs: seq<Bytes32>)
    requires forall key :: key in pubs ==> key != x && key != y
    ensures Rehashed(c, c.(hash := Telling(c, x, sigs, y, sigs')), pubs)
  {
    hide Scalar, Challenges;
    var c' := c.(hash := Telling(c, x, sigs, y, sigs'));
    forall i | 0 <= i < |pubs| ensures c'.hash(pubs[i]) == c.hash(pubs[i]) {
      assert pubs[i] in pubs;
    }
  }

  lemma BuffersDiffer<G(!new)>(c: Curve<G>, prefix: Bytes32, image: Bytes32, pubs: seq<Bytes32>,
                               sigs: seq<Signature>, prefix': Bytes32, image': Bytes32, pubs': seq<Bytes32>,
                               sigs': seq<Signature>)
    requires Presentable(c, image, pubs, sigs) && Presentable(c, image', pubs', sigs')
    requires prefix != prefix'
      || Entries(c, c.decode(image).value, pubs, sigs) != Entries(c, c.decode(image').value, pubs', sigs')
    ensures Hashed(c, prefix, image, pubs, sigs) != Hashed(c, prefix', image', pubs', sigs')
  {
    hide Mul, Num, Entry, MemberOk, Transcript;
    EntriesWide(c, image, pubs, sigs);
    EntriesWide(c, image', pubs', sigs');
    TranscriptInjective(prefix, Entries(c, c.decode(image).value, pubs, sigs),
      prefix', Entries(c, c.decode(image').value, pubs', sigs'));
  }

  /** A key can be mistaken for the hashed buffer only when the ring is empty. */
  lemma NotAKey<G(!new)>(c: Curve<G>, prefix: Bytes32, image: Bytes32, pubs: seq<Bytes32>, sigs: seq<Signature>,
                         key: Bytes32)
    requires Presentable(c, image, pubs, sigs) && (pubs == [] ==> key != prefix)
    ensures key != Hashed(c, prefix, image, pubs, sigs)
  {
    hide Mul, Num, Entry, MemberOk;
    EntriesWide(c, image, pubs, sigs);
    TranscriptLength(prefix, Entries(c, c.decode(image).value, pubs, sigs));
  }

  /** Under other answers of the hash only the answer on the buffer decides. */
  lemma DecidedByHash<G(!new)>(c: Curve<G>, c': Curve<G>, prefix: Bytes32, image: Bytes32, pubs: seq<Bytes32>,
                               sigs: seq<Signature>)
    requires Presentable(c, image, pubs, sigs) && Rehashed(c, c', pubs)
    ensures RingHolds(c', prefix, image, pubs, sigs) <==>
      HashScalar(c', Hashed(c, prefix, image, pubs, sigs)) == Scalar(Challenges(sigs))
  {
    hide Mul, Num, Entry, MemberOk, HashScalar, Transcript, Challenges, Scalar;
    var point := c.decode(image).value;
    forall i | 0 <= i < |pubs|
      ensures MemberOk(c', pubs[i], sigs[i])
      ensures Entries(c', point, pubs, sigs)[i] == Entries(c, point, pubs, sigs)[i]
    {
      SameEntry(c, c', pubs, point, i, sigs[i]);
    }
    assert Entries(c', point, pubs, sigs) == Entries(c, point, pubs, sigs);
  }

  lemma NotTheSum(n: int)
    ensures Num(Scalar(n)) < L && Num(Scalar(n + 1)) < L && Scalar(n + 1) != Scalar(n)
  {
  }

  /** A ring signature is bound to its message and to the commitments of every member: if the message, or any
      commitment, is different, there is a hash under which the one is accepted and the other is not. */
  lemma BoundToMessageAndRing<G(!new)>(c: Curve<G>, prefix: Bytes32, image: Bytes32, pubs: seq<Bytes32>,
                                       sigs: seq<Signature>, prefix': Bytes32, image': Bytes32, pubs': seq<Bytes32>,
                                       sigs': seq<Signature>)
    requires Presentable(c, image, pubs, sigs) && Presentable(c, image', pubs', sigs')
    requires (pubs == [] ==> prefix !in pubs') && (pubs' == [] ==> prefix' !in pubs)
    requires prefix != prefix'
      || Entries(c, c.decode(image).value, pubs, sigs) != Entries(c, c.decode(image').value, pubs', sigs')
    ensures var x, y := Hashed(c, prefix, image, pubs, sigs), Hashed(c, prefix', image', pubs', sigs');
      var c' := c.(hash := Telling(c, x, sigs, y, sigs'));
      RingHolds(c', prefix, image, pubs, sigs) && !RingHolds(c', prefix', image', pubs', sigs')
  {
    hide Mul, Num, Entry, MemberOk, HashScalar, Transcript, Challenges, Scalar, Hashed, Presentable, RingHolds, Entries;
    var x, y := Hashed(c, prefix, image, pubs, sigs), Hashed(c, prefix', image', pubs', sigs');
    var c' := c.(hash := Telling(c, x, sigs, y, sigs'));
    BuffersDiffer(c, prefix, image, pubs, sigs, prefix', image', pubs', sigs');
    forall key: Bytes32 | key in pubs || key in pubs' ensures key != x && key != y {
      NotAKey(c, prefix, image, pubs, sigs, key);
      NotAKey(c, prefix', image', pubs', sigs', key);
    }
    Elsewhere(c, x, sigs, y, sigs', pubs);
    Elsewhere(c, x, sigs, y, sigs', pubs');
    DecidedByHash(c, c', prefix, image, pubs, sigs);
    DecidedByHash(c, c', prefix', image', pubs', sigs');
    NotTheSum(Challenges(sigs));
    NotTheSum(Challenges(sigs'));
    HashScalarFree(c, x, Scalar(Challenges(sigs)), y, Scalar(Challenges(sigs') + 1));
  }
}
