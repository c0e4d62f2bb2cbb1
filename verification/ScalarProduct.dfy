/** The schoolbook product of `sc_mulsub`: column sums of 12 by 12 limbs. */
module ScalarProduct {
  import opened Positional
  import opened ScalarLimbs

  /** Contribution of limbs `i` of `a` and `k - i` of `b` to column `k`. */
  function Term(a: seq<int>, b: seq<int>, k: int, i: nat): int
    requires i < |a|
  {
    if 0 <= k - i < |b| then a[i] * b[k - i] else 0
  }

  /** Column `k` of the product, over the first `n` limbs of `a`. */
  function Column(a: seq<int>, b: seq<int>, k: int, n: nat): int
    requires n <= |a|
  {
    if n == 0 then 0 else Column(a, b, k, n - 1) + Term(a, b, k, n - 1)
  }

  lemma TermBound(a: seq<int>, b: seq<int>, k: int, i: nat)
    requires Narrow(a) && Narrow(b) && i < 12
    ensures 0 <= Term(a, b, k, i) <= if i < 11 then 0x4000_0000_0000 else 0x4_0000_0000_0000
  {
    if 0 <= k - i < 12 {
      var x, y := a[i], b[k - i];
      assert 0 <= y < 33554432;
      MulMono(x, y, 33554432);
      MulMono(x, 0, y);
    }
  }

  /** No partial sum of a column leaves the 64-bit range by a wide margin. */
  lemma {:induction false} ColumnBound(a: seq<int>, b: seq<int>, k: int, n: nat)
    requires Narrow(a) && Narrow(b) && n <= 12
    ensures 0 <= Column(a, b, k, n) <= if n < 12 then n * 0x4000_0000_0000 else 0x7_0000_0000_0000
  {
    if n != 0 {
      ColumnBound(a, b, k, n - 1);
      TermBound(a, b, k, n - 1);
    }
  }

  lemma {:induction false} ColumnBeyond(a: seq<int>, b: seq<int>, n: nat)
    requires n <= |a| == |b| == 12
    ensures Column(a, b, 23, n) == 0
  {
    if n != 0 { ColumnBeyond(a, b, n - 1); }
  }

  /** All columns over the first `n` limbs of `a`. */
  ghost function Columns(a: seq<int>, b: seq<int>, n: nat): (t: seq<int>)
    requires n <= |a| == |b| == 12
    ensures |t| == 24
  {
    seq(24, j requires 0 <= j < 24 => Column(a, b, j, n))
  }

  /** Row `i` of the product without its factor: `b` moved up `i` limbs. */
  ghost function Row(b: seq<int>, i: nat): (t: seq<int>)
    requires |b| == 12 && i < 12
    ensures |t| == 24
  {
    seq(i, _ => 0) + b + seq(12 - i, _ => 0)
  }

  lemma RowValue(b: seq<int>, i: nat)
    requires |b| == 12 && i < 12
    ensures Value(Row(b, i)) == Power(RADIX, i) * Value(b)
  {
    var z, y := seq(i, _ => 0), seq(12 - i, _ => 0);
    EvalZeros(RADIX, z);
    EvalZeros(RADIX, y);
    EvalAppend(RADIX, z, b);
    EvalAppend(RADIX, z + b, y);
  }

  lemma {:induction false} ColumnsPrefix(a: seq<int>, b: seq<int>, n: nat)
    requires n <= |a| == |b| == 12
    ensures Value(Columns(a, b, n)) == Value(a[..n]) * Value(b)
  {
    if n == 0 {
      EvalZeros(RADIX, Columns(a, b, 0));
    } else {
      var i := n - 1;
      ColumnsPrefix(a, b, i);
      forall j | 0 <= j < 24 ensures Columns(a, b, n)[j] == Columns(a, b, i)[j] + a[i] * Row(b, i)[j] {
        assert Row(b, i)[j] == if 0 <= j - i < 12 then b[j - i] else 0;
      }
      EvalLinear(RADIX, Columns(a, b, i), a[i], Row(b, i), Columns(a, b, n));
      RowValue(b, i);
      assert a[..n] == a[..i] + [a[i]];
      EvalAppend(RADIX, a[..i], [a[i]]);
      RowStep(Value(a[..i]), Power(RADIX, i), a[i], Value(b));
    }
  }

  lemma RowStep(v: int, p: int, x: int, w: int)
    ensures v * w + x * (p * w) == (v + p * x) * w
  {
    assert (v + p * x) * w == v * w + (p * x) * w;
    assert x * (p * w) == (p * x) * w;
  }

  /** The columns of c - a*b spell c - ab. */
  lemma ColumnsValue(c: seq<int>, a: seq<int>, b: seq<int>, s: seq<int>)
    requires |a| == |b| == 12 && |c| == |s| == 24
    requires forall j :: 0 <= j < 24 ==> s[j] == c[j] - Column(a, b, j, 12)
    ensures Value(s) == Value(c) - Value(a) * Value(b)
  {
    ColumnsPrefix(a, b, 12);
    assert a[..12] == a;
    EvalLinear(RADIX, c, -1, Columns(a, b, 12), s);
  }
}
