/** 128-bit products and quotients out of 64-bit words, and the 256-bit difficulty test built on them. */
module WideArithmetic {
  import opened Positional

  const TWO256 := 0x1_0000_0000_0000_0000_0000_0000_0000_0000_0000_0000_0000_0000_0000_0000_0000_0000

  type Word = x: int | 0 <= x < TWO64

  /** Unsigned 64-bit addition, which wraps. */
  function Add(a: Word, b: Word): Word { (a + b) % TWO64 }

  lemma ProductBound(x: int, y: int)
    requires 0 <= x < TWO32 && 0 <= y < TWO32
    ensures 0 <= x * y <= TWO64 - 2 * TWO32 + 1
  {
    MulMono(x, y, TWO32 - 1);
    MulMono(TWO32 - 1, x, TWO32 - 1);
  }

  lemma Distribute(a: int, b: int, c: int, d: int)
    ensures (a * TWO32 + b) * (c * TWO32 + d) == TWO64 * (a * c) + TWO32 * (a * d + b * c) + b * d
  {
    assert (a * TWO32 + b) * (c * TWO32 + d) == (a * TWO32) * (c * TWO32) + (a * TWO32) * d + b * (c * TWO32) + b * d;
    assert (a * TWO32) * (c * TWO32) == TWO64 * (a * c);
    assert (a * TWO32) * d == TWO32 * (a * d) && b * (c * TWO32) == TWO32 * (b * c);
  }

  /** `mul128`: the exact product, high and low word. */
  method Mul128(m: Word, n: Word) returns (hi: Word, lo: Word)
    ensures hi * TWO64 + lo == m * n
  {
    var a, b, c, d := m / TWO32, m % TWO32, n / TWO32, n % TWO32;
    ProductBound(a, c);
    ProductBound(a, d);
    ProductBound(b, c);
    ProductBound(b, d);
    Distribute(a, b, c, d);
    hi, lo := Combine(a * c, a * d, b * c, b * d);
  }

  /** The carry chain over the four partial products; none of the sums in the high word wraps. */
  method Combine(ac: Word, ad: Word, bc: Word, bd: Word) returns (hi: Word, lo: Word)
    requires ad + bc <= 2 * (TWO64 - 2 * TWO32 + 1) && bd <= TWO64 - 2 * TWO32 + 1 && ac <= TWO64 - 2 * TWO32 + 1
    ensures hi * TWO64 + lo == TWO64 * ac + TWO32 * (ad + bc) + bd && ac <= hi
  {
    var adbc := Add(ad, bc);
    var adbcCarry := if adbc < ad then 1 else 0;
    assert ad + bc == adbc + adbcCarry * TWO64;
    var shifted: Word := (adbc * TWO32) % TWO64;
    assert adbc * TWO32 == (adbc / TWO32) * TWO64 + shifted;
    lo := Add(bd, shifted);
    var loCarry := if lo < bd then 1 else 0;
    assert bd + shifted == lo + loCarry * TWO64;
    assert ac + adbc / TWO32 + adbcCarry * TWO32 + loCarry < TWO64;
    hi := ac + adbc / TWO32 + adbcCarry * TWO32 + loCarry;
  }

  /** `div_with_reminder`: one step of long division, carrying the remainder. */
  method DivStep(dividend: nat, divisor: nat, remainder: nat) returns (quotient: nat, rest: nat)
    requires dividend < TWO32 && 0 < divisor < TWO32 && remainder < divisor
    ensures remainder * TWO32 + dividend == quotient * divisor + rest && rest < divisor && quotient < TWO32
  {
    var whole := remainder * TWO32 + dividend;
    QuotientFits(whole, divisor);
    rest := whole % divisor;
    quotient := whole / divisor;
  }

  lemma QuotientFits(n: nat, d: nat)
    requires 0 < d && n < TWO32 * d
    ensures n == (n / d) * d + n % d && 0 <= n / d < TWO32
  {
    var q := n / d;
    if q >= TWO32 { MulMono(d, TWO32, q); }
  }

  /** `div128_32`: quotient and remainder of a 128-bit number by a 32-bit one. */
  method Div128(hi: Word, lo: Word, divisor: nat) returns (qhi: Word, qlo: Word, remainder: nat)
    requires 0 < divisor < TWO32
    ensures hi * TWO64 + lo == (qhi * TWO64 + qlo) * divisor + remainder && remainder < divisor
  {
    var q3, q2, q1, q0;
    q3, remainder := DivStep(hi / TWO32, divisor, 0);
    ghost var r3 := remainder;
    q2, remainder := DivStep(hi % TWO32, divisor, remainder);
    ghost var r2 := remainder;
    q1, remainder := DivStep(lo / TWO32, divisor, remainder);
    ghost var r1 := remainder;
    q0, remainder := DivStep(lo % TWO32, divisor, remainder);
    qhi, qlo := q3 * TWO32 + q2, q1 * TWO32 + q0;
    LongDivision(q3, q2, q1, q0, divisor);
  }

  lemma LongDivision(q3: int, q2: int, q1: int, q0: int, d: int)
    ensures ((q3 * TWO32 + q2) * TWO64 + (q1 * TWO32 + q0)) * d
         == ((q3 * d * TWO32 + q2 * d) * TWO32 + q1 * d) * TWO32 + q0 * d
  {
    var x := (q3 * TWO32 + q2) * TWO64 + (q1 * TWO32 + q0);
    assert x == q3 * (TWO32 * TWO64) + q2 * TWO64 + q1 * TWO32 + q0;
    assert x * d == q3 * (TWO32 * TWO64) * d + q2 * TWO64 * d + q1 * TWO32 * d + q0 * d;
    assert q3 * (TWO32 * TWO64) * d == q3 * d * TWO32 * TWO64;
  }

  /** Does 64-bit addition carry? */
  predicate Cadd(a: Word, b: Word)
  {
    Add(a, b) < a
  }

  /** Does 64-bit addition with an incoming carry carry? */
  predicate Cadc(a: Word, b: Word, c: bool)
  {
    Add(a, b) < a || (c && Add(a, b) == TWO64 - 1)
  }

  lemma CarriesExactly(a: Word, b: Word, c: bool)
    ensures Cadd(a, b) <==> a + b >= TWO64
    ensures Cadc(a, b, c) <==> a + b + (if c then 1 else 0) >= TWO64
  {
  }

  /** Word `i` of a 32-byte hash, on a little-endian machine. */
  function HashWord(h: seq<Byte>, i: nat): (w: Word)
    requires |h| == 32 && i < 4
  {
    EvalBound(256, h[8 * i..8 * i + 8]);
    assert Power(256, 8) == TWO64;
    Eval(256, h[8 * i..8 * i + 8])
  }

  lemma EightBytes()
    ensures Power(256, 8) == TWO64
  {
  }

  lemma HashWords(h: seq<Byte>)
    requires |h| == 32
    ensures Eval(256, h) == HashWord(h, 0) as int +
      TWO64 * (HashWord(h, 1) as int + TWO64 * (HashWord(h, 2) as int + TWO64 * HashWord(h, 3) as int))
  {
    hide Eval, Power;
    EightBytes();
    EvalSplit(256, h, 8);
    EvalSplit(256, h[8..], 8);
    EvalSplit(256, h[16..], 8);
    assert h[8..][..8] == h[8..16] && h[8..][8..] == h[16..] && h[16..][..8] == h[16..24] && h[16..][8..] == h[24..];
    assert h[0..8] == h[..8] && h[24..32] == h[24..];
  }

  /** `check_hash` */
  method CheckHash(h: seq<Byte>, difficulty: Word) returns (ok: bool)
    requires |h| == 32
    ensures ok <==> Eval(256, h) * difficulty < TWO256
  {
    hide Eval, HashWord;
    HashWords(h);
    var low: Word, high: Word, top: Word, cur: Word;
    var h0, h1, h2, h3 := HashWord(h, 0), HashWord(h, 1), HashWord(h, 2), HashWord(h, 3);
    high, top := Mul128(h3, difficulty);
    ghost var p3 := (high, top);
    if high != 0 {
      TopTooLarge(h0, h1, h2, h3, difficulty, high, top);
      return false;
    }
    cur, low := Mul128(h0, difficulty);
    ghost var p0 := (cur, low);
    high, low := Mul128(h1, difficulty);
    ghost var p1 := (high, low);
    var carry := Cadd(cur, low);
    cur := high;
    high, low := Mul128(h2, difficulty);
    ghost var p2 := (high, low);
    carry := Cadc(cur, low, carry);
    carry := Cadc(high, top, carry);
    ok := !carry;
    ProductOfWords(h0, h1, h2, h3, difficulty);
    CarryChain(p0.0, p0.1, p1.0, p1.1, p2.0, p2.1, p3.1);
  }

  lemma ProductOfWords(a: int, b: int, c: int, e: int, d: int)
    ensures (a + TWO64 * (b + TWO64 * (c + TWO64 * e))) * d
      == a * d + TWO64 * (b * d + TWO64 * (c * d + TWO64 * (e * d)))
  {
    assert (c + TWO64 * e) * d == c * d + TWO64 * (e * d);
    assert (b + TWO64 * (c + TWO64 * e)) * d == b * d + TWO64 * ((c + TWO64 * e) * d);
    assert (a + TWO64 * (b + TWO64 * (c + TWO64 * e))) * d == a * d + TWO64 * ((b + TWO64 * (c + TWO64 * e)) * d);
  }

  lemma TopTooLarge(a: Word, b: Word, c: Word, e: Word, d: Word, high: Word, top: Word)
    requires high * TWO64 + top == e * d && high != 0
    ensures (a + TWO64 * (b + TWO64 * (c + TWO64 * e as int))) * d >= TWO256
  {
    ProductOfWords(a, b, c, e, d);
    MulMono(d, 0, a);
    MulMono(d, 0, b);
    MulMono(d, 0, c);
  }

  /** The three carries decide whether the 256-bit product fits. */
  lemma CarryChain(hi0: Word, lo0: Word, hi1: Word, lo1: Word, hi2: Word, lo2: Word, lo3: Word)
    ensures var c1 := Cadd(hi0, lo1);
      var c2 := Cadc(hi1, lo2, c1);
      var c3 := Cadc(hi2, lo3, c2);
      c3 <==>
        (hi0 * TWO64 + lo0) + TWO64 * ((hi1 * TWO64 + lo1) + TWO64 * ((hi2 * TWO64 + lo2) + TWO64 * lo3 as int))
          >= TWO256
  {
    CarriesExactly(hi0, lo1, false);
    CarriesExactly(hi1, lo2, Cadd(hi0, lo1));
    CarriesExactly(hi2, lo3, Cadc(hi1, lo2, Cadd(hi0, lo1)));
  }

  /** A hash that meets a difficulty meets every lower one. */
  lemma LowerDifficulty(h: seq<Byte>, d: Word, d': Word)
    requires |h| == 32 && d' <= d && Eval(256, h) * d < TWO256
    ensures Eval(256, h) * d' < TWO256
  {
    EvalBound(256, h);
    MulMono(Eval(256, h), d', d);
  }
}
