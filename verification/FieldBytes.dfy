/** `fe_tobytes`: the canonical 32 bytes of a field element, and the sign and zero tests built on it. */
module FieldBytes {
  import opened Positional
  import opened FieldLimbs
  import opened Packing
  import ScalarTests

  /** 2^255 */
  const TWO255 := 57896044618658097711785492504343953926634992332820282019728792003956564819968

  /** Five outputs of `fe_mul` added up. The stated input range is 1.1 * 2^26 for even limbs and 1.1 * 2^25 for odd
      ones, less than half of this; the subgroup test goes beyond it. */
  predicate Freezable(h: seq<int>)
  {
    |h| == 10 && forall i :: 0 <= i < 10 ==> var b := if i % 2 == 0 then 169449880 else 84724940; -b <= h[i] <= b
  }

  /** The value of limbs `i` and up, in units of limb `i`. */
  function Above(s: seq<int>, i: nat): int
    requires |s| == 10 && i <= 10
    decreases 10 - i
  {
    if i == 10 then 0 else s[i] + Radix(i) * Above(s, i + 1)
  }

  /** What limbs `i` and up can hold. */
  function Top(i: nat): int
    requires i <= 10
    decreases 10 - i
  {
    if i == 10 then 1 else Radix(i) * Top(i + 1)
  }

  lemma AboveAll(s: seq<int>)
    requires |s| == 10
    ensures Above(s, 0) == Value(s)
  {
    ValueIs(s);
    assert Above(s, 9) == s[9] && Above(s, 8) == s[8] + TWO26 * s[9];
    assert Above(s, 7) == s[7] + TWO25 * Above(s, 8) && Above(s, 6) == s[6] + TWO26 * Above(s, 7);
    assert Above(s, 5) == s[5] + TWO25 * Above(s, 6) && Above(s, 4) == s[4] + TWO26 * Above(s, 5);
    assert Above(s, 3) == s[3] + TWO25 * Above(s, 4) && Above(s, 2) == s[2] + TWO26 * Above(s, 3);
    assert Above(s, 1) == s[1] + TWO25 * Above(s, 2) && Above(s, 0) == s[0] + TWO26 * Above(s, 1);
  }

  lemma TopAll()
    ensures Top(0) == TWO255
  {
    assert Top(9) == TWO25 && Top(8) == TWO26 * Top(9) && Top(7) == TWO25 * Top(8) && Top(6) == TWO26 * Top(7);
    assert Top(5) == TWO25 * Top(6) && Top(4) == TWO26 * Top(5) && Top(3) == TWO25 * Top(4) && Top(2) == TWO26 * Top(3);
    assert Top(1) == TWO25 * Top(2) && Top(0) == TWO26 * Top(1);
  }

  /** The carry into limb `i` when `c` enters limb 0 and every limb passes on what it cannot hold. */
  function Incoming(h: seq<int>, c: int, i: nat): int
    requires |h| == 10 && i <= 10
  {
    if i == 0 then c else (h[i - 1] + Incoming(h, c, i - 1)) / Radix(i - 1)
  }

  function Settled(h: seq<int>, c: int): (d: seq<int>)
    requires |h| == 10
    ensures |d| == 10
  {
    seq(10, i requires 0 <= i < 10 => (h[i] + Incoming(h, c, i)) % Radix(i))
  }

  lemma LimbDivision(x: int, i: nat)
    ensures x == x % Radix(i) + Radix(i) * (x / Radix(i)) && 0 <= x % Radix(i) < Radix(i)
  {
  }

  /** Passing carries up keeps the value; what leaves the top limb counts 2^255. */
  lemma {:induction false} SettledValue(h: seq<int>, c: int, i: nat)
    requires |h| == 10 && i <= 10
    ensures Above(h, i) + Incoming(h, c, i) == Above(Settled(h, c), i) + Top(i) * Incoming(h, c, 10)
    ensures 0 <= Above(Settled(h, c), i) < Top(i)
    decreases 10 - i
  {
    hide Incoming, Settled, Radix;
    if i < 10 {
      var d, t := Settled(h, c), Incoming(h, c, 10);
      SettledValue(h, c, i + 1);
      SettledLimb(h, c, i);
      PassOn(h[i], Incoming(h, c, i), d[i], Radix(i), Incoming(h, c, i + 1),
        Above(h, i + 1), Above(d, i + 1), Top(i + 1), t);
      Room(d[i], Radix(i), Above(d, i + 1), Top(i + 1));
    }
  }

  lemma SettledLimb(h: seq<int>, c: int, i: nat)
    requires |h| == 10 && i < 10
    ensures h[i] + Incoming(h, c, i) == Settled(h, c)[i] + Radix(i) * Incoming(h, c, i + 1)
    ensures 0 <= Settled(h, c)[i] < Radix(i)
  {
    LimbDivision(h[i] + Incoming(h, c, i), i);
  }

  lemma PassOn(x: int, c: int, d: int, r: int, c': int, a: int, b: int, t: int, z: int)
    requires x + c == d + r * c' && a + c' == b + t * z
    ensures (x + r * a) + c == (d + r * b) + (r * t) * z
  {
    assert r * (a + c') == r * a + r * c';
    assert r * (b + t * z) == r * b + (r * t) * z;
  }

  lemma Room(d: int, r: int, a: int, t: int)
    requires 0 <= d < r && 0 <= a < t
    ensures 0 <= d + r * a < r * t
  {
    MulMono(r, a + 1, t);
    MulMono(r, 0, a);
    assert r * (a + 1) == r * a + r;
  }

  lemma WholeChain(h: seq<int>, c: int)
    requires |h| == 10
    ensures Value(h) + c == Value(Settled(h, c)) + TWO255 * Incoming(h, c, 10)
    ensures 0 <= Value(Settled(h, c)) < TWO255
  {
    hide Above, Incoming, Settled, Value, Top;
    SettledValue(h, c, 0);
    AboveAll(h);
    AboveAll(Settled(h, c));
    TopAll();
    StartsWith(h, c);
  }

  lemma StartsWith(h: seq<int>, c: int)
    requires |h| == 10
    ensures Incoming(h, c, 0) == c
  {
  }

  /** Rounding 19 times the top limb is close enough to 19 times the quotient. */
  lemma Estimate(v: int, h9: int, e: int, q0: int, q: int, r: int)
    requires v == W9 * h9 + e && v == P * q + r && 0 <= r < P && -3 <= q <= 3
    requires -4 * W9 <= e <= 4 * W9
    requires TWO25 * q0 <= 19 * h9 + 16777216 < TWO25 * q0 + TWO25
    ensures 0 <= v + q0 - TWO255 * q < TWO255
  {
  }

  function Guess(h: seq<int>): int
    requires |h| == 10
  {
    (19 * h[9] + 16777216) / TWO25
  }

  lemma BelowTop(h: seq<int>)
    requires Freezable(h)
    ensures -4 * W9 <= Value(h) - W9 * h[9] <= 4 * W9
    ensures -3 <= Value(h) / P <= 3
  {
    assert -169449880 <= h[0] <= 169449880 && -84724940 <= h[1] <= 84724940 && -169449880 <= h[2] <= 169449880;
    assert -84724940 <= h[3] <= 84724940 && -169449880 <= h[4] <= 169449880 && -84724940 <= h[5] <= 84724940;
    assert -169449880 <= h[6] <= 169449880 && -84724940 <= h[7] <= 84724940 && -169449880 <= h[8] <= 169449880;
    assert -84724940 <= h[9] <= 84724940;
    var e := Value(h) - W9 * h[9];
    ValueIs(h);
    assert -4 * W9 <= e <= 4 * W9;
    QuotientSmall(Value(h));
  }

  lemma QuotientSmall(v: int)
    requires -3 * P <= v <= 3 * P
    ensures -3 <= v / P <= 3
  {
  }

  lemma SameQuotient(a: int, d: int, t: int, q: int)
    requires a == d + TWO255 * t && 0 <= d < TWO255 && 0 <= a - TWO255 * q < TWO255
    ensures t == q
  {
  }

  lemma DivisionByP(v: int)
    ensures v == P * (v / P) + v % P && 0 <= v % P < P
  {
  }

  /** The rounded carry chain computes the quotient by 2^255 - 19 exactly. */
  lemma QuotientExact(h: seq<int>)
    requires Freezable(h)
    ensures Incoming(h, Guess(h), 10) == Value(h) / P
  {
    hide Value, Incoming, Settled;
    var v, q0 := Value(h), Guess(h);
    BelowTop(h);
    DivisionByP(v);
    WholeChain(h, q0);
    Estimate(v, h[9], v - W9 * h[9], q0, v / P, v % P);
    SameQuotient(v + q0, Value(Settled(h, q0)), Incoming(h, q0, 10), v / P);
  }

  /** The second chain leaves the canonical residue. */
  lemma ResidueExact(h: seq<int>, q: int)
    requires |h| == 10 && q == Value(h) / P
    ensures Value(Settled(h, 19 * q)) == Value(h) % P
  {
    hide Value, Incoming, Settled;
    var v := Value(h);
    DivisionByP(v);
    WholeChain(h, 19 * q);
    SameQuotient(v + 19 * q, Value(Settled(h, 19 * q)), Incoming(h, 19 * q, 10), q);
  }

  /** Each limb within its 26 or 25 bits. */
  ghost predicate Packable(d: seq<int>)
  {
    |d| == 10 && forall i :: 0 <= i < 10 ==> 0 <= d[i] < Radix(i)
  }

  function LowBytes(d: seq<int>): (b: seq<Byte>)
    requires Packable(d)
    ensures |b| == 16
  {
    Four(d[0], 1, 4, d[1]) + Three(d[1], 64, 8, d[2]) + Three(d[2], 32, 32, d[3]) + Three(d[3], 8, 64, d[4]) +
      Last(d[4], 4)
  }

  function HighBytes(d: seq<int>): (b: seq<Byte>)
    requires Packable(d)
    ensures |b| == 16
  {
    Four(d[5], 1, 2, d[6]) + Three(d[6], 128, 8, d[7]) + Three(d[7], 32, 16, d[8]) + Three(d[8], 16, 64, d[9]) +
      Last(d[9], 4)
  }

  lemma ThreeAt(d: seq<int>, i: nat, k: int, m: int, q: int)
    requires Packable(d) && i < 9
    requires 0 < k && 256 * (256 * k) * m == Radix(i) && 0 < m && m * q == 256 && q != 0
    ensures Above(d, i) / k == Eval(256, Three(d[i], k, m, d[i + 1])) + Power(256, 3) * (Above(d, i + 1) / q)
  {
    ThreeBytes(d[i], Radix(i), d[i + 1], Radix(i + 1), Above(d, i + 2), k, m, q);
    assert Power(256, 3) == 16777216;
  }

  lemma FourAt(d: seq<int>, i: nat, m: int, q: int)
    requires Packable(d) && i < 9
    requires 256 * (256 * (256 * 1)) * m == Radix(i) && 0 < m && m * q == 256 && q != 0
    ensures Above(d, i) == Eval(256, Four(d[i], 1, m, d[i + 1])) + Power(256, 4) * (Above(d, i + 1) / q)
  {
    FourBytes(d[i], Radix(i), d[i + 1], Radix(i + 1), Above(d, i + 2), 1, m, q);
    assert Power(256, 4) == 4294967296;
  }

  lemma LowBytesAt(d: seq<int>)
    requires Packable(d)
    ensures Above(d, 0) == Eval(256, LowBytes(d)) + Power(256, 16) * Above(d, 5)
  {
    hide Eval, Power, Above;
    var a, b, c, e, f := Four(d[0], 1, 4, d[1]), Three(d[1], 64, 8, d[2]), Three(d[2], 32, 32, d[3]),
      Three(d[3], 8, 64, d[4]), Last(d[4], 4);
    FourAt(d, 0, 4, 64);
    ThreeAt(d, 1, 64, 8, 32);
    ThreeAt(d, 2, 32, 32, 8);
    ThreeAt(d, 3, 8, 64, 4);
    FourthAt(d);
    Join(256, Above(d, 0), a, Above(d, 1) / 64, b, Above(d, 2) / 32);
    Join(256, Above(d, 0), a + b, Above(d, 2) / 32, c, Above(d, 3) / 8);
    Join(256, Above(d, 0), a + b + c, Above(d, 3) / 8, e, Above(d, 4) / 4);
    Join(256, Above(d, 0), a + b + c + e, Above(d, 4) / 4, f, Above(d, 5));
  }

  /** The fifth limb ends on the sixteenth byte. */
  lemma FourthAt(d: seq<int>)
    requires Packable(d)
    ensures Above(d, 4) / 4 == Eval(256, Last(d[4], 4)) + Power(256, 3) * Above(d, 5)
  {
    hide Last;
    var w := Above(d, 5);
    assert Radix(4) == TWO26;
    LastBytes(d[4], TWO26, w, 4);
    DivUnique(d[4] + TWO26 * w, TWO26, w);
    assert Power(256, 3) == 16777216;
  }

  lemma NinthAt(d: seq<int>)
    requires Packable(d)
    ensures Above(d, 9) / 4 == Eval(256, Last(d[9], 4)) + Power(256, 3) * 0
  {
    hide Last;
    assert Above(d, 9) == d[9] && d[9] < TWO25;
    LastBytes(d[9], TWO26, 0, 4);
    DivUnique(d[9], TWO26, 0);
  }

  lemma HighBytesAt(d: seq<int>)
    requires Packable(d)
    ensures Above(d, 5) == Eval(256, HighBytes(d))
  {
    hide Eval, Power, Above;
    var a, b, c, e, f := Four(d[5], 1, 2, d[6]), Three(d[6], 128, 8, d[7]), Three(d[7], 32, 16, d[8]),
      Three(d[8], 16, 64, d[9]), Last(d[9], 4);
    FourAt(d, 5, 2, 128);
    ThreeAt(d, 6, 128, 8, 32);
    ThreeAt(d, 7, 32, 16, 16);
    ThreeAt(d, 8, 16, 64, 4);
    NinthAt(d);
    Join(256, Above(d, 5), a, Above(d, 6) / 128, b, Above(d, 7) / 32);
    Join(256, Above(d, 5), a + b, Above(d, 7) / 32, c, Above(d, 8) / 16);
    Join(256, Above(d, 5), a + b + c, Above(d, 8) / 16, e, Above(d, 9) / 4);
    Join(256, Above(d, 5), a + b + c + e, Above(d, 9) / 4, f, 0);
  }

  /** The bytes spell the limbs. */
  lemma BytesValue(d: seq<int>)
    requires Packable(d)
    ensures Eval(256, LowBytes(d) + HighBytes(d)) == Value(d)
  {
    hide Eval, Power, Above, Value, LowBytes, HighBytes;
    LowBytesAt(d);
    HighBytesAt(d);
    AboveAll(d);
    EvalAppend(256, LowBytes(d), HighBytes(d));
  }

  lemma GuessSmall(h: seq<int>)
    requires Freezable(h)
    ensures Int32(19 * h[9] + 16777216) && -60 <= Guess(h) <= 60
  {
    assert -84724940 <= h[9] <= 84724940;
  }

  /** Carries stay far within 32 bits. */
  lemma CarrySmall(h: seq<int>, i: nat, c: int)
    requires Freezable(h) && i < 10 && -60 <= c <= 60
    ensures Int32(h[i] + c) && -3 <= (h[i] + c) / Radix(i) <= 3
  {
  }

  lemma SettledPackable(h: seq<int>, c: int)
    requires |h| == 10
    ensures Packable(Settled(h, c))
  {
    hide Incoming;
    forall i | 0 <= i < 10 ensures 0 <= Settled(h, c)[i] < Radix(i) {
      LimbDivision(h[i] + Incoming(h, c, i), i);
    }
  }

  /** The first chain: only its last carry is kept. */
  method Quotient(h: seq<int>) returns (q: int)
    requires Freezable(h)
    ensures q == Value(h) / P && -3 <= q <= 3
  {
    hide Value, Guess;
    GuessSmall(h);
    q := Guess(h);
    for i := 0 to 10
      invariant q == Incoming(h, Guess(h), i) && -60 <= q <= 60
    {
      CarrySmall(h, i, q);
      q := (h[i] + q) / Radix(i);
    }
    QuotientExact(h);
    BelowTop(h);
  }

  /** The second chain: every limb keeps what it can hold. */
  method Settle(h: seq<int>, c: int) returns (d: seq<int>)
    requires Freezable(h) && -60 <= c <= 60
    ensures d == Settled(h, c)
  {
    hide Incoming, Settled, Radix;
    d := [];
    var carry := c;
    StartsWith(h, c);
    for i := 0 to 10
      invariant carry == Incoming(h, c, i) && -60 <= carry <= 60 && d == Settled(h, c)[..i]
    {
      CarrySmall(h, i, carry);
      var x := h[i] + carry;
      SettledAt(h, c, i);
      carry := x / Radix(i);
      d := d + [x - carry * Radix(i)];
    }
  }

  lemma SettledAt(h: seq<int>, c: int, i: nat)
    requires |h| == 10 && i < 10
    ensures var x := h[i] + Incoming(h, c, i);
      Incoming(h, c, i + 1) == x / Radix(i) && Settled(h, c)[i] == x - x / Radix(i) * Radix(i) && Radix(i) > 0
  {
    LimbDivision(h[i] + Incoming(h, c, i), i);
  }

  /** `fe_tobytes`: 32 bytes that spell the residue below 2^255 - 19. */
  method FeToBytes(h: seq<int>) returns (s: seq<Byte>)
    requires Freezable(h)
    ensures |s| == 32 && Eval(256, s) == Value(h) % P
  {
    hide Value, Settled, LowBytes, HighBytes, Packable;
    var q := Quotient(h);
    ResidueExact(h, q);
    SettledPackable(h, 19 * q);
    var d := Settle(h, 19 * q);
    BytesValue(d);
    s := LowBytes(d) + HighBytes(d);
  }

  /** Two representations give the same bytes exactly when they stand for the same field element. */
  lemma CanonicalExactly(h: seq<int>, g: seq<int>, s: seq<Byte>, t: seq<Byte>)
    requires |h| == |g| == 10 && |s| == |t| == 32
    requires Eval(256, s) == Value(h) % P && Eval(256, t) == Value(g) % P
    ensures s == t <==> (Value(h) - Value(g)) % P == 0
  {
    hide Value;
    if s != t && Value(h) % P == Value(g) % P { EvalInjective(256, s, t); }
    SameClass(Value(h), Value(g));
  }

  lemma SameClass(x: int, y: int)
    ensures x % P == y % P <==> (x - y) % P == 0
  {
    DivisionByP(x);
    DivisionByP(y);
    var k := x / P - y / P;
    assert x - y == P * k + (x % P - y % P);
    if x % P == y % P {
      DivUnique(x - y, P, k);
    } else if x % P > y % P {
      DivUnique(x - y, P, k);
    } else {
      DivUnique(x - y, P, k - 1);
    }
  }

  /** `fe_isnegative`: the low bit of the canonical residue. */
  method FeIsNegative(f: seq<int>) returns (r: int)
    requires Freezable(f)
    ensures r == (Value(f) % P) % 2
  {
    hide Value, Eval;
    var s := FeToBytes(f);
    EvalCons(s);
    LowBit(s[0], Eval(256, s[1..]));
    r := s[0] % 2;
  }

  lemma LowBit(x: int, y: int)
    ensures (x + 256 * y) % 2 == x % 2
  {
    assert x + 256 * y == x + 2 * (128 * y);
  }

  /** `fe_isnonzero` */
  method FeIsNonzero(f: seq<int>) returns (r: int)
    requires Freezable(f)
    ensures r == if Value(f) % P == 0 then 0 else 1
  {
    hide Value;
    var s := FeToBytes(f);
    r := ScalarTests.ScIsNonzero(s);
  }
}
