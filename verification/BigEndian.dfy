/** Big-endian digits: the block arithmetic of Base58, with base 256 on one side and base 58 on the other. */
module BigEndian {
  import opened Positional

  function FromBig(b: nat, s: seq<int>): int
  {
    if s == [] then 0 else b * FromBig(b, s[..|s| - 1]) + s[|s| - 1]
  }

  function ToBig(b: nat, v: int, k: nat): (s: seq<int>)
    requires b > 0
    ensures |s| == k
    decreases k
  {
    if k == 0 then [] else ToBig(b, v / b, k - 1) + [v % b]
  }

  lemma DivMod(b: nat, f: int, d: int)
    requires 0 <= d < b
    ensures (b * f + d) / b == f && (b * f + d) % b == d
  {
    DivUnique(b * f + d, b, f);
    ModOf(b * f + d, b);
  }

  lemma ModOf(v: int, b: nat)
    requires b > 0
    ensures v == b * (v / b) + v % b && 0 <= v % b < b
  {
  }

  lemma {:induction false} BigBound(b: nat, s: seq<int>)
    requires Digits(b, s)
    ensures 0 <= FromBig(b, s) < Power(b, |s|)
  {
    if s != [] {
      BigBound(b, s[..|s| - 1]);
      DigitBound(b, s[|s| - 1], FromBig(b, s[..|s| - 1]), Power(b, |s| - 1));
    }
  }

  /** Writing out and reading back. */
  lemma {:induction false} FromTo(b: nat, v: int, k: nat)
    requires b > 0 && 0 <= v < Power(b, k)
    ensures Digits(b, ToBig(b, v, k)) && FromBig(b, ToBig(b, v, k)) == v
    decreases k
  {
    if k > 0 {
      ModOf(v, b);
      QuotientBound(b, v, Power(b, k - 1));
      FromTo(b, v / b, k - 1);
      assert ToBig(b, v, k)[..k - 1] == ToBig(b, v / b, k - 1);
    }
  }

  lemma QuotientBound(b: nat, v: int, p: nat)
    requires b > 0 && 0 <= v < b * p
    ensures 0 <= v / b < p
  {
    ModOf(v, b);
    var q := v / b;
    if p <= q { MulMono(b, p, q); }
    if q < 0 { MulMono(b, q, -1); }
  }

  /** Reading and writing back. */
  lemma {:induction false} ToFrom(b: nat, s: seq<int>)
    requires b > 0 && Digits(b, s)
    ensures ToBig(b, FromBig(b, s), |s|) == s
  {
    if s != [] {
      var n := |s| - 1;
      ToFrom(b, s[..n]);
      DivMod(b, FromBig(b, s[..n]), s[n]);
      assert s == s[..n] + [s[n]];
    }
  }

  /** Reading digits from the last one on: what is to the left counts with weight b^k. */
  lemma {:induction false} FromBigSplit(b: nat, s: seq<int>, i: nat)
    requires i <= |s|
    ensures FromBig(b, s) == Power(b, |s| - i) * FromBig(b, s[..i]) + FromBig(b, s[i..])
    decreases |s|
  {
    var n := |s| - 1;
    if i == |s| {
      assert s[..i] == s && s[i..] == [];
    } else {
      FromBigSplit(b, s[..n], i);
      assert s[..n][..i] == s[..i] && s[..n][i..] == s[i..][..n - i];
      SplitStep(b, Power(b, n - i), FromBig(b, s[..i]), FromBig(b, s[..n][i..]), s[n]);
    }
  }

  lemma SplitStep(b: int, p: int, x: int, y: int, d: int)
    ensures b * (p * x + y) + d == (b * p) * x + (b * y + d)
  {
    assert b * (p * x) == (b * p) * x;
  }

  lemma SplitDigit(b: nat, x: int, p: nat, y: int)
    requires b > 0 && 0 <= y < b * p
    ensures (x * (b * p) + y) / b == x * p + y / b && (x * (b * p) + y) % b == y % b && 0 <= y / b < p
  {
    QuotientBound(b, y, p);
    ModOf(y, b);
    assert x * (b * p) == b * (x * p);
    assert x * (b * p) + y == b * (x * p + y / b) + y % b;
    DivMod(b, x * p + y / b, y % b);
  }

  /** The digits of a number put together from a high and a low part. */
  lemma {:induction false} ToBigSplit(b: nat, x: int, y: int, m: nat, n: nat)
    requires b > 0 && 0 <= y < Power(b, n)
    ensures ToBig(b, x * Power(b, n) + y, m + n) == ToBig(b, x, m) + ToBig(b, y, n)
    decreases n
  {
    if n == 0 {
      assert x * 1 == x;
    } else {
      var p := Power(b, n - 1);
      var v := x * Power(b, n) + y;
      SplitDigit(b, x, p, y);
      ToBigSplit(b, x, y / b, m, n - 1);
      assert ToBig(b, v, m + n) == ToBig(b, v / b, m + n - 1) + [v % b];
    }
  }

  function Reversed(s: seq<int>): (r: seq<int>)
    ensures |r| == |s|
  {
    seq(|s|, i requires 0 <= i < |s| => s[|s| - 1 - i])
  }

  /** Big-endian digits are the little-endian ones in reverse. */
  lemma {:induction false} BigIsReversed(b: nat, s: seq<int>)
    ensures FromBig(b, s) == Eval(b, Reversed(s))
  {
    if s != [] {
      var n := |s| - 1;
      BigIsReversed(b, s[..n]);
      assert Reversed(s)[0] == s[n] && Reversed(s)[1..] == Reversed(s[..n]);
    }
  }
}
