/** The branch-free tests `sc_check` (is the scalar below L?) and `sc_isnonzero`. */
module ScalarTests {
  import opened Positional
  import opened ScalarLimbs
  import opened ScalarBytes
  import opened Scalars

  const TWO63 := 0x8000_0000_0000_0000

  /** -1, 0 or 1, from two arithmetic shifts. */
  function Signum(a: int): (r: int)
    requires -TWO63 < a < TWO63
    ensures r == if a < 0 then -1 else if a == 0 then 0 else 1
  {
    a / TWO63 - (-a) / TWO63
  }

  /** The eight 32-bit words of L - 1, least significant first. */
  const LAST := [1559614444, 1477600026, 2734136534, 350157278, 0, 0, 0, 268435456]

  function Words(s: seq<Byte>): (w: seq<int>)
    requires |s| == 32
  {
    [Load4(s, 0), Load4(s, 4), Load4(s, 8), Load4(s, 12), Load4(s, 16), Load4(s, 20), Load4(s, 24), Load4(s, 28)]
  }

  /** The eight word-wise signs that `sc_check` weighs. */
  function WordSigns(w: seq<int>): (e: seq<int>)
    requires |w| == 8 && forall i :: 0 <= i < 8 ==> 0 <= w[i] < TWO32
  {
    [Signum(LAST[0] - w[0]), Signum(LAST[1] - w[1]), Signum(LAST[2] - w[2]), Signum(LAST[3] - w[3]),
     Signum(LAST[4] - w[4]), Signum(LAST[5] - w[5]), Signum(LAST[6] - w[6]), Signum(LAST[7] - w[7])]
  }

  function Weigh(e: seq<int>): int
    requires |e| == 8
  {
    (e[0] + e[1] * 2 + e[2] * 4 + e[3] * 8 + e[4] * 16 + e[5] * 32 + e[6] * 64 + e[7] * 128) / 256
  }

  /** 0 when the scalar is in range, -1 otherwise. */
  function ScCheck(s: seq<Byte>): (r: int)
    requires |s| == 32
  {
    Weigh(WordSigns(Words(s)))
  }

  ghost function Signs(d: seq<int>): (e: seq<int>)
    requires forall i :: 0 <= i < |d| ==> -TWO32 < d[i] < TWO32
    ensures |e| == |d|
  {
    seq(|d|, i requires 0 <= i < |d| => Signum(d[i]))
  }

  /** Weighting the word-wise signs by powers of two decides the comparison of the whole numbers. */
  lemma {:induction false} SignsDecide(d: seq<int>)
    requires forall i :: 0 <= i < |d| ==> -TWO32 < d[i] < TWO32
    ensures (Eval(2, Signs(d)) < 0 <==> Eval(TWO32, d) < 0) && (Eval(2, Signs(d)) == 0 <==> Eval(TWO32, d) == 0)
  {
    if d != [] {
      SignsDecide(d[1..]);
      assert Signs(d)[1..] == Signs(d[1..]);
    }
  }

  lemma WordStep(s: seq<Byte>, i: nat)
    requires i + 4 <= |s|
    ensures From(s, i) == Load4(s, i) + TWO32 * From(s, i + 4)
  {
    FromStep(s, i); FromStep(s, i + 1); FromStep(s, i + 2); FromStep(s, i + 3);
  }

  lemma {:induction false} WordsFrom(s: seq<Byte>, w: seq<int>, i: nat)
    requires |s| == 4 * |w| && i <= |w|
    requires forall j :: 0 <= j < |w| ==> w[j] == Load4(s, 4 * j)
    ensures Eval(TWO32, w[i..]) == From(s, 4 * i)
    decreases |w| - i
  {
    if i < |w| {
      WordsFrom(s, w, i + 1);
      WordStep(s, 4 * i);
      assert w[i..][1..] == w[i + 1..];
    }
  }

  lemma WordsValue(s: seq<Byte>)
    requires |s| == 32
    ensures Eval(TWO32, Words(s)) == Num(s)
  {
    WordsFrom(s, Words(s), 0);
    assert s[0..] == s && Words(s)[0..] == Words(s);
  }

  lemma LastValue()
    ensures Eval(TWO32, LAST) == L - 1
  {
    EvalEight(TWO32, LAST);
  }

  /** Word-wise distance to L - 1. */
  ghost function Gaps(w: seq<int>): (d: seq<int>)
    requires |w| == 8
    ensures |d| == 8
  {
    seq(8, i requires 0 <= i < 8 => LAST[i] - w[i])
  }

  lemma GapsValue(s: seq<Byte>)
    requires |s| == 32
    ensures Eval(TWO32, Gaps(Words(s))) == L - 1 - Num(s)
  {
    EvalLinear(TWO32, LAST, -1, Words(s), Gaps(Words(s)));
    WordsValue(s);
    LastValue();
  }

  /** `sc_check` accepts exactly the encodings of numbers below L. */
  lemma ScCheckExact(s: seq<Byte>)
    requires |s| == 32
    ensures ScCheck(s) == if Num(s) < L then 0 else -1
  {
    GapsValue(s);
    SignsDecide(Gaps(Words(s)));
    SignsAgree(Words(s));
    WeighSigns(Signs(Gaps(Words(s))));
  }

  lemma SignsAgree(w: seq<int>)
    requires |w| == 8 && forall i :: 0 <= i < 8 ==> 0 <= w[i] < TWO32
    ensures WordSigns(w) == Signs(Gaps(w))
  {
    var e, g := WordSigns(w), Gaps(w);
    var f := Signs(g);
    assert e[0] == f[0] && e[1] == f[1] && e[2] == f[2] && e[3] == f[3];
    assert e[4] == f[4] && e[5] == f[5] && e[6] == f[6] && e[7] == f[7];
  }

  lemma WeighSigns(e: seq<int>)
    requires |e| == 8 && forall i :: 0 <= i < 8 ==> -1 <= e[i] <= 1
    ensures Weigh(e) == if Eval(2, e) < 0 then -1 else 0
  {
    EvalEight(2, e);
  }

  /** Bitwise or of two `n`-bit numbers. */
  function BitOr(x: nat, y: nat, n: nat): (r: nat)
    requires x < Power(2, n) && y < Power(2, n)
    ensures r < Power(2, n) && (r == 0 <==> x == 0 && y == 0)
  {
    if n == 0 then 0
    else (if x % 2 == 1 || y % 2 == 1 then 1 else 0) + 2 * BitOr(x / 2, y / 2, n - 1)
  }

  /** 0 or 1, without branching on the bytes. */
  method ScIsNonzero(s: seq<Byte>) returns (r: int)
    requires |s| == 32
    ensures r == if Num(s) == 0 then 0 else 1
  {
    var bits: nat := 0;
    assert Power(2, 8) == 256;
    for i := 0 to 32
      invariant 0 <= bits < 256
      invariant bits == 0 <==> forall j :: 0 <= j < i ==> s[j] == 0
    {
      bits := BitOr(bits, s[i], 8);
    }
    r := (bits - 1) / 256 + 1;
    if bits == 0 {
      EvalZeros(256, s);
    } else {
      NonzeroDigit(s);
    }
  }

  lemma {:induction false} NonzeroDigit(s: seq<Byte>)
    requires exists j :: 0 <= j < |s| && s[j] != 0
    ensures Eval(256, s) > 0
  {
    EvalBound(256, s[1..]);
    if s[0] == 0 {
      assert exists j :: 0 <= j < |s[1..]| && s[1..][j] != 0 by {
        var j :| 0 <= j < |s| && s[j] != 0;
        assert s[1..][j - 1] != 0;
      }
      NonzeroDigit(s[1..]);
    }
  }
}
