/** Little-endian positional numbers: one evaluation function shared by bytes (base 256),
    scalar limbs (base 2^21), signed digits (base 2 and 16) and 64-bit words (base 2^64). */
module Positional {

  type Byte = x: int | 0 <= x < 256

  const TWO32 := 0x1_0000_0000
  const TWO64 := 0x1_0000_0000_0000_0000

  type Bytes32 = s: seq<Byte> | |s| == 32 witness seq(32, _ => 0)

  predicate Int32(x: int) { -0x8000_0000 <= x < 0x8000_0000 }

  predicate Int64(x: int) { -0x8000_0000_0000_0000 <= x < 0x8000_0000_0000_0000 }

  function Zeros(n: nat): (s: seq<Byte>)
    ensures |s| == n && forall i :: 0 <= i < n ==> s[i] == 0
  {
    seq(n, _ => 0)
  }

  function Power(b: nat, n: nat): (r: nat)
    ensures b > 0 ==> r > 0
  {
    if n == 0 then 1 else b * Power(b, n - 1)
  }

  /** The number whose digits, least significant first, are `s`; digits may be negative or large. */
  function Eval(b: nat, s: seq<int>): int
  {
    if s == [] then 0 else s[0] + b * Eval(b, s[1..])
  }

  ghost predicate Digits(b: nat, s: seq<int>)
  {
    forall i :: 0 <= i < |s| ==> 0 <= s[i] < b
  }

  lemma {:induction false} PowerAdd(b: nat, m: nat, n: nat)
    ensures Power(b, m + n) == Power(b, m) * Power(b, n)
  {
    if m != 0 {
      PowerAdd(b, m - 1, n);
      assert b * (Power(b, m - 1) * Power(b, n)) == (b * Power(b, m - 1)) * Power(b, n);
    }
  }

  lemma {:induction false} PowerMono(b: nat, m: nat, n: nat)
    requires b > 0 && m <= n
    ensures Power(b, m) <= Power(b, n)
  {
    PowerAdd(b, m, n - m);
    var p, q := Power(b, m), Power(b, n - m);
    assert p * q >= p * 1;
  }

  /** Changing one digit shifts the value by the difference times the digit's weight. */
  lemma {:induction false} EvalUpdate(b: nat, s: seq<int>, i: nat, x: int)
    requires i < |s|
    ensures Eval(b, s[i := x]) == Eval(b, s) + (x - s[i]) * Power(b, i)
  {
    var t := s[i := x];
    if i == 0 {
      assert t[1..] == s[1..];
    } else {
      assert t[1..] == s[1..][i - 1 := x];
      EvalUpdate(b, s[1..], i - 1, x);
      var d, p := x - s[i], Power(b, i - 1);
      assert b * (Eval(b, s[1..]) + d * p) == b * Eval(b, s[1..]) + d * (b * p);
    }
  }

  lemma {:induction false} EvalAppend(b: nat, s: seq<int>, t: seq<int>)
    ensures Eval(b, s + t) == Eval(b, s) + Power(b, |s|) * Eval(b, t)
  {
    if s == [] {
      assert s + t == t;
    } else {
      assert (s + t)[1..] == s[1..] + t;
      EvalAppend(b, s[1..], t);
      var p, e := Power(b, |s| - 1), Eval(b, t);
      assert b * (Eval(b, s[1..]) + p * e) == b * Eval(b, s[1..]) + (b * p) * e;
    }
  }

  lemma EvalSplit(b: nat, s: seq<int>, i: nat)
    requires i <= |s|
    ensures Eval(b, s) == Eval(b, s[..i]) + Power(b, i) * Eval(b, s[i..])
  {
    EvalAppend(b, s[..i], s[i..]);
    assert s[..i] + s[i..] == s;
  }

  lemma Regroup(b: int, c: int, f: int, d: int, x: int, y: int)
    ensures (c + f * d) + b * (x + f * y) == (c + b * x) + f * (d + b * y)
  {
    assert b * (x + f * y) == b * x + f * (b * y);
    assert f * (d + b * y) == f * d + f * (b * y);
  }

  /** Evaluation is linear in the digits. */
  lemma {:induction false} EvalLinear(b: nat, s: seq<int>, f: int, t: seq<int>, u: seq<int>)
    requires |s| == |t| == |u| && forall i :: 0 <= i < |s| ==> u[i] == s[i] + f * t[i]
    ensures Eval(b, u) == Eval(b, s) + f * Eval(b, t)
  {
    if s != [] {
      EvalLinear(b, s[1..], f, t[1..], u[1..]);
      Regroup(b, s[0], f, t[0], Eval(b, s[1..]), Eval(b, t[1..]));
    }
  }

  /** If each `rest[i]` is `digits[i]` plus `b` times the next, the digits spell `rest[0]`. */
  lemma {:induction false} Chain(b: nat, digits: seq<int>, rest: seq<int>)
    requires |rest| == |digits| + 1
    requires forall i :: 0 <= i < |digits| ==> rest[i] == digits[i] + b * rest[i + 1]
    ensures rest[0] == Eval(b, digits) + Power(b, |digits|) * rest[|digits|]
  {
    if digits != [] {
      Chain(b, digits[1..], rest[1..]);
      var e, p, r := Eval(b, digits[1..]), Power(b, |digits| - 1), rest[|digits|];
      assert b * (e + p * r) == b * e + (b * p) * r;
    }
  }

  /** Two stretches of digits, one above the other. */
  lemma Join(base: nat, x: int, a: seq<int>, y: int, b: seq<int>, z: int)
    requires x == Eval(base, a) + Power(base, |a|) * y && y == Eval(base, b) + Power(base, |b|) * z
    ensures x == Eval(base, a + b) + Power(base, |a + b|) * z
  {
    hide Eval, Power;
    EvalAppend(base, a, b);
    PowerAdd(base, |a|, |b|);
    Nest(Power(base, |a|), Eval(base, b), Power(base, |b|), z);
  }

  lemma Nest(p: int, e: int, q: int, z: int)
    ensures p * (e + q * z) == p * e + (p * q) * z
  {
    assert p * (q * z) == (p * q) * z;
  }

  lemma EvalEight(b: nat, e: seq<int>)
    requires |e| == 8
    ensures Eval(b, e) == e[0] + b * (e[1] + b * (e[2] + b * (e[3] + b * (e[4] + b * (e[5] + b * (e[6] + b * e[7]))))))
  {
    Chain(b, e, [e[0] + b * (e[1] + b * (e[2] + b * (e[3] + b * (e[4] + b * (e[5] + b * (e[6] + b * e[7])))))),
      e[1] + b * (e[2] + b * (e[3] + b * (e[4] + b * (e[5] + b * (e[6] + b * e[7]))))),
      e[2] + b * (e[3] + b * (e[4] + b * (e[5] + b * (e[6] + b * e[7])))),
      e[3] + b * (e[4] + b * (e[5] + b * (e[6] + b * e[7]))),
      e[4] + b * (e[5] + b * (e[6] + b * e[7])), e[5] + b * (e[6] + b * e[7]), e[6] + b * e[7], e[7], 0]);
  }

  lemma {:induction false} EvalZeros(b: nat, s: seq<int>)
    requires forall i :: 0 <= i < |s| ==> s[i] == 0
    ensures Eval(b, s) == 0
  {
    if s != [] { EvalZeros(b, s[1..]); }
  }

  lemma MulMono(b: nat, x: int, y: int)
    requires x <= y
    ensures b * x <= b * y
  {
  }

  lemma DigitBound(b: nat, d: int, e: int, p: int)
    requires 0 <= d < b && 0 <= e < p
    ensures 0 <= d + b * e < b * p
  {
    MulMono(b, 0, e);
    MulMono(b, e + 1, p);
  }

  lemma {:induction false} EvalBound(b: nat, s: seq<int>)
    requires Digits(b, s)
    ensures 0 <= Eval(b, s) < Power(b, |s|)
  {
    if s != [] {
      EvalBound(b, s[1..]);
      DigitBound(b, s[0], Eval(b, s[1..]), Power(b, |s| - 1));
    }
  }

  lemma DigitUnique(b: nat, x: int, e: int, y: int, f: int)
    requires 0 <= x < b && 0 <= y < b && x + b * e == y + b * f
    ensures x == y && e == f
  {
    if e < f { MulMono(b, e + 1, f); }
    if f < e { MulMono(b, f + 1, e); }
  }

  lemma {:induction false} EvalInjective(b: nat, s: seq<int>, t: seq<int>)
    requires |s| == |t| && Digits(b, s) && Digits(b, t)
    requires Eval(b, s) == Eval(b, t)
    ensures s == t
  {
    if s != [] {
      DigitUnique(b, s[0], Eval(b, s[1..]), t[0], Eval(b, t[1..]));
      EvalInjective(b, s[1..], t[1..]);
      assert s == [s[0]] + s[1..] && t == [t[0]] + t[1..];
    }
  }

  lemma DivUnique(v: int, k: int, q: int)
    requires 0 < k && k * q <= v < k * q + k
    ensures v / k == q
  {
    var d, r := v / k, v % k;
    if d < q { MulMono(k, d + 1, q); }
    if q < d { MulMono(k, q + 1, d); }
  }

  lemma DivDiv(v: int, k: int, m: int)
    requires 0 < k && 0 < m
    ensures 0 < m * k && v / k / m == v / (m * k)
  {
    var d, e := v / k, v / k / m;
    MulMono(k, m * e, d);
    MulMono(k, d + 1, m * e + m);
    MulMono(k, 1, m);
    assert k * (m * e) == (m * k) * e;
    assert k * (m * e + m) == (m * k) * e + m * k;
    assert k * (d + 1) == k * d + k;
    DivUnique(v, m * k, e);
  }

  /** The `len` lowest little-endian bytes of `n`. */
  function ToBytes(n: nat, len: nat): (s: seq<Byte>)
    ensures |s| == len
  {
    if len == 0 then [] else [n % 256] + ToBytes(n / 256, len - 1)
  }

  /** `ToBytes` inverts `Eval(256, _)` on every number that fits. */
  lemma {:induction false} EvalToBytes(n: nat, len: nat)
    requires n < Power(256, len)
    ensures Eval(256, ToBytes(n, len)) == n
  {
    if len != 0 {
      EvalToBytes(n / 256, len - 1);
      assert ToBytes(n, len)[1..] == ToBytes(n / 256, len - 1);
    }
  }

  lemma BytesUnique(s: seq<Byte>, n: nat)
    requires Eval(256, s) == n
    ensures n < Power(256, |s|) && s == ToBytes(n, |s|)
  {
    EvalBound(256, s);
    EvalToBytes(n, |s|);
    EvalInjective(256, s, ToBytes(n, |s|));
  }
}
