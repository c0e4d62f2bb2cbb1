/** Field elements as ten signed limbs in radix 2^25.5, and their rounded carries. */
module FieldLimbs {
  import opened Positional

  /** 2^255 - 19 */
  const P := 57896044618658097711785492504343953926634992332820282019728792003956564819949

  const TWO26 := 67108864
  const TWO25 := 33554432

  // 2^0, 2^26, 2^51, 2^77, 2^102, 2^128, 2^153, 2^179, 2^204, 2^230
  const W0 := 1
  const W1 := 67108864
  const W2 := 2251799813685248
  const W3 := 151115727451828646838272
  const W4 := 5070602400912917605986812821504
  const W5 := 340282366920938463463374607431768211456
  const W6 := 11417981541647679048466287755595961091061972992
  const W7 := 766247770432944429179173513575154591809369561091801088
  const W8 := 25711008708143844408671393477458601640355247900524685364822016
  const W9 := 1725436586697640946858688965569256363112777243042596638790631055949824

  function Weight(i: nat): int
    requires i < 10
  {
    if i == 0 then W0 else if i == 1 then W1 else if i == 2 then W2 else if i == 3 then W3 else if i == 4 then W4
    else if i == 5 then W5 else if i == 6 then W6 else if i == 7 then W7 else if i == 8 then W8 else W9
  }

  /** The number the first `n` limbs stand for. */
  function Weighted(f: seq<int>, n: nat): int
    requires n <= |f| <= 10
  {
    if n == 0 then 0 else Weighted(f, n - 1) + Weight(n - 1) * f[n - 1]
  }

  /** The number the limbs stand for. */
  function Value(f: seq<int>): int
    requires |f| == 10
  {
    Weighted(f, |f|)
  }

  lemma ValueIs(f: seq<int>)
    requires |f| == 10
    ensures Value(f) ==
      W0 * f[0] + W1 * f[1] + W2 * f[2] + W3 * f[3] + W4 * f[4] +
      W5 * f[5] + W6 * f[6] + W7 * f[7] + W8 * f[8] + W9 * f[9]
  {
    assert Weighted(f, 1) == W0 * f[0] && Weighted(f, 2) == Weighted(f, 1) + W1 * f[1];
    assert Weighted(f, 3) == Weighted(f, 2) + W2 * f[2] && Weighted(f, 4) == Weighted(f, 3) + W3 * f[3];
    assert Weighted(f, 5) == Weighted(f, 4) + W4 * f[4] && Weighted(f, 6) == Weighted(f, 5) + W5 * f[5];
    assert Weighted(f, 7) == Weighted(f, 6) + W6 * f[6] && Weighted(f, 8) == Weighted(f, 7) + W7 * f[7];
    assert Weighted(f, 9) == Weighted(f, 8) + W8 * f[8] && Weighted(f, 10) == Weighted(f, 9) + W9 * f[9];
  }

  lemma ValueUpdate(f: seq<int>, i: nat, x: int)
    requires |f| == 10 && i < 10
    ensures Value(f[i := f[i] + x]) == Value(f) + Weight(i) * x
  {
    ValueIs(f);
    ValueIs(f[i := f[i] + x]);
  }

  /** Limb `i` holds 26 bits when even, 25 when odd. */
  function Radix(i: nat): int
  {
    if i % 2 == 0 then TWO26 else TWO25
  }

  lemma NextWeight(i: nat)
    requires i < 9
    ensures Weight(i + 1) == Radix(i) * Weight(i)
  {
  }

  function Rounded(s: seq<int>, i: nat): int
    requires i < |s|
  {
    (s[i] + Radix(i) / 2) / Radix(i)
  }

  /** Carry limb `i` into the next one, or past the top into limb 0 with factor 19. */
  function Carry(s: seq<int>, i: nat): (t: seq<int>)
    requires |s| == 10 && i < 10
    ensures |t| == 10
  {
    var c := Rounded(s, i);
    if i < 9 then s[i + 1 := s[i + 1] + c][i := s[i] - c * Radix(i)]
    else s[0 := s[0] + c * 19][9 := s[9] - c * TWO25]
  }

  lemma Cancel(w: int, r: int, c: int)
    ensures (r * w) * c + w * (-(c * r)) == 0
  {
    assert (r * w) * c == w * (c * r);
  }

  lemma CarryValue(s: seq<int>, i: nat)
    requires |s| == 10 && i < 10
    ensures Value(Carry(s, i)) == Value(s) - (if i == 9 then P * Rounded(s, 9) else 0)
  {
    hide Value, Rounded;
    var c := Rounded(s, i);
    if i < 9 {
      var t := s[i + 1 := s[i + 1] + c];
      ValueUpdate(s, i + 1, c);
      ValueUpdate(t, i, -(c * Radix(i)));
      NextWeight(i);
      Cancel(Weight(i), Radix(i), c);
    } else {
      ValueUpdate(s, 0, c * 19);
      ValueUpdate(s[0 := s[0] + c * 19], 9, -(c * TWO25));
    }
  }

  /** Limb `j` has magnitude at most `bs[j]`. */
  ghost predicate Bounded(s: seq<int>, bs: seq<int>)
  {
    |s| == |bs| == 10 && forall j :: 0 <= j < 10 ==> -bs[j] <= s[j] <= bs[j]
  }

  /** The 64-bit operations of one carry. */
  ghost predicate CarryFits(s: seq<int>, i: nat)
    requires |s| == 10 && i < 10
  {
    var c := Rounded(s, i);
    && Int64(s[i] + Radix(i) / 2) && Int64(c * Radix(i)) && Int64(s[i] - c * Radix(i)) && Int64(c * 19)
    && Int64(s[(i + 1) % 10] + if i == 9 then c * 19 else c)
  }

  /** Bounds after carrying limb `i`: its own becomes half its radix, the next one grows by the carry. */
  function Next(bs: seq<int>, i: nat): seq<int>
    requires |bs| == 10 && i < 10
  {
    var m := bs[i] / Radix(i) + 1;
    bs[(i + 1) % 10 := bs[(i + 1) % 10] + if i == 9 then m * 19 else m][i := Radix(i) / 2]
  }

  lemma RoundedBounds(x: int, r: int, b: int)
    requires r == TWO26 || r == TWO25
    requires -b <= x <= b
    ensures var c := (x + r / 2) / r; -(b / r + 1) <= c <= b / r + 1 && -(r / 2) <= x - c * r <= r / 2
  {
    var c := (x + r / 2) / r;
    if r == TWO26 {
      assert c == (x + TWO25) / TWO26;
    } else {
      assert c == (x + 16777216) / TWO25;
    }
  }

  lemma CarryBounds(s: seq<int>, bs: seq<int>, i: nat)
    requires Bounded(s, bs) && i < 10 && bs[i] <= 0x4800_0000_0000_0000 && bs[(i + 1) % 10] <= 0x4800_0000_0000_0000
    ensures CarryFits(s, i) && Bounded(Carry(s, i), Next(bs, i))
  {
    RoundedBounds(s[i], Radix(i), bs[i]);
    RadixBounds(bs[i], i);
    hide Radix;
    var c, m, n := Rounded(s, i), bs[i] / Radix(i) + 1, (i + 1) % 10;
    assert -m <= c <= m;
    var t, u := Carry(s, i), Next(bs, i);
    assert t[i] == s[i] - c * Radix(i) && u[i] == Radix(i) / 2;
    assert t[n] == s[n] + (if i == 9 then c * 19 else c) && u[n] == bs[n] + if i == 9 then m * 19 else m;
    forall j | 0 <= j < 10 && j != i && j != n ensures t[j] == s[j] && u[j] == bs[j] {
    }
  }

  lemma RadixBounds(b: int, i: nat)
    requires 0 <= b <= 0x4800_0000_0000_0000
    ensures 16777216 <= Radix(i) / 2 <= TWO25 && 0 <= b / Radix(i) <= 0x1_0000_0000_0000
    ensures i == 9 ==> Radix(i) == TWO25
  {
  }

  /** The product, counted up or down from zero. Definitions that are passed on as a whole use it, so that nothing
      is multiplied out where they only have to be matched. */
  ghost function Times(k: int, b: int): int
    decreases if k < 0 then -k else k
  {
    if k == 0 then 0 else if k > 0 then Times(k - 1, b) + b else Times(k + 1, b) - b
  }

  lemma {:induction false} TimesIs(k: int, b: int)
    ensures Times(k, b) == k * b
    decreases if k < 0 then -k else k
  {
    if k > 0 {
      TimesIs(k - 1, b);
    } else if k < 0 {
      TimesIs(k + 1, b);
    }
  }

  lemma Multiplied()
    ensures forall a, b :: Times(a, b) == a * b
  {
    forall a, b ensures Times(a, b) == a * b {
      TimesIs(a, b);
    }
  }

  /** Equality of field elements. */
  ghost predicate Cong(a: int, b: int)
  {
    exists k :: a == b + Times(k, P)
  }

  lemma CongIntro(a: int, b: int, k: int)
    requires a == b + P * k
    ensures Cong(a, b)
  {
    TimesIs(k, P);
    assert a == b + Times(k, P);
  }

  lemma CongElim(a: int, b: int) returns (k: int)
    requires Cong(a, b)
    ensures a == b + P * k
  {
    k :| a == b + Times(k, P);
    TimesIs(k, P);
  }

  /** Congruent numbers are those with the same residue. */
  lemma CongExactly(a: int, b: int)
    ensures Cong(a, b) <==> a % P == b % P
  {
    if Cong(a, b) {
      var k := CongElim(a, b);
      DivUnique(a, P, b / P + k);
    }
    if a % P == b % P {
      CongIntro(a, b, a / P - b / P);
    }
  }

  lemma CongRefl(a: int)
    ensures Cong(a, a)
  {
    CongIntro(a, a, 0);
  }

  lemma CongSym(a: int, b: int)
    requires Cong(a, b)
    ensures Cong(b, a)
  {
    hide Cong;
    var k := CongElim(a, b);
    CongIntro(b, a, -k);
  }

  lemma CongTrans(a: int, b: int, c: int)
    requires Cong(a, b) && Cong(b, c)
    ensures Cong(a, c)
  {
    hide Cong;
    var k := CongElim(a, b);
    var m := CongElim(b, c);
    CongIntro(a, c, k + m);
  }

  lemma CongSum(a: int, a': int, b: int, b': int)
    requires Cong(a, a') && Cong(b, b')
    ensures Cong(a + b, a' + b') && Cong(a - b, a' - b')
  {
    hide Cong;
    var k := CongElim(a, a');
    var m := CongElim(b, b');
    CongIntro(a + b, a' + b', k + m);
    CongIntro(a - b, a' - b', k - m);
  }

  lemma CongProduct(a: int, a': int, b: int, b': int)
    requires Cong(a, a') && Cong(b, b')
    ensures Cong(a * b, a' * b')
  {
    hide Cong;
    var k := CongElim(a, a');
    var m := CongElim(b, b');
    ProductExpands(a', k, b', m);
    CongIntro(a * b, a' * b', a' * m + k * b' + P * (k * m));
  }

  lemma ProductExpands(x: int, k: int, y: int, m: int)
    ensures (x + P * k) * (y + P * m) == x * y + P * (x * m + k * y + P * (k * m))
  {
    assert (x + P * k) * (y + P * m) == x * y + x * (P * m) + (P * k) * y + (P * k) * (P * m);
  }
}
