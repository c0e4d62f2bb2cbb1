/** `fe_sq` and `fe_sq2`: each pair of limbs is multiplied once, and the columns are still those of `fe_mul`. */
module FieldSquare {
  import opened Positional
  import opened FieldLimbs
  import opened FieldMul
  import ScalarLimbs

  /** The multiple of the lower limb `i` in a product with limb `j`: one or two. */
  function Low(i: nat, j: nat, wraps: bool): int
  {
    if i == j then (if i % 2 == 1 && !wraps then 2 else 1)
    else if wraps && j % 2 == 1 then (if i % 2 == 1 then 2 else 1)
    else 2
  }

  /** The multiple of the upper limb `j`: 19 or 38 past the modulus. */
  function High(i: nat, j: nat, wraps: bool): int
  {
    if wraps then (if j % 2 == 1 then 38 else 19)
    else if i != j && i % 2 == 1 && j % 2 == 1 then 2 else 1
  }

  /** The one product of `fe_sq` for limbs `i` and its partner, none where the partner is the lower. */
  function SquareProduct(f: seq<int>, k: nat, i: nat): int
    requires |f| == 10 && k < 10 && i < 10
  {
    var j := Partner(k, i);
    if i > j then 0 else (Low(i, j, i > k) * f[i]) * (High(i, j, i > k) * f[j])
  }

  function SquareColumn(f: seq<int>, k: nat, n: nat): int
    requires |f| == 10 && k < 10 && n <= 10
  {
    if n == 0 then 0 else SquareColumn(f, k, n - 1) + SquareProduct(f, k, n - 1)
  }

  /** Multiples of limbs fit in 32 bits and products in a tenth of the 64-bit column. */
  lemma SquareFits(f: seq<int>, k: nat, i: nat)
    requires Input(f) && k < 10 && i < 10
    ensures var j := Partner(k, i); Int32(Low(i, j, i > k) * f[i]) && Int32(High(i, j, i > k) * f[j])
    ensures -480000000000000000 <= SquareProduct(f, k, i) <= 480000000000000000
  {
    var j := Partner(k, i);
    var x, y := Low(i, j, i > k) * f[i], High(i, j, i > k) * f[j];
    assert -110729625 <= f[i] <= 110729625 && -2103862875 <= y <= 2103862875;
    ScalarLimbs.ProductBound(x, y, 221459250, 2103862875);
  }

  /** Every partial sum of a column fits 64 bits, also after doubling. */
  lemma {:induction false} SquareColumnBound(f: seq<int>, k: nat, n: nat)
    requires Input(f) && k < 10 && n <= 10
    ensures -(n * 480000000000000000) <= SquareColumn(f, k, n) <= n * 480000000000000000 && Int64(SquareColumn(f, k, n))
  {
    if n > 0 {
      SquareColumnBound(f, k, n - 1);
      SquareFits(f, k, n - 1);
    }
  }

  /** All the 64-bit sums of `fe_sq`. */
  ghost predicate SquareSumsFit(f: seq<int>)
    requires |f| == 10
  {
    forall k, n :: 0 <= k < 10 && 0 <= n <= 10 ==> Int64(SquareColumn(f, k, n))
  }

  lemma SquareSums(f: seq<int>)
    requires Input(f)
    ensures SquareSumsFit(f)
  {
    forall k, n | 0 <= k < 10 && 0 <= n <= 10 ensures Int64(SquareColumn(f, k, n)) {
      SquareColumnBound(f, k, n);
    }
  }

  lemma PartnerTwice(k: nat, i: nat)
    requires k < 10 && i < 10
    ensures Partner(k, Partner(k, i)) == i && (i > k <==> Partner(k, i) > k)
  {
  }

  /** The factor with which a pair of limbs enters its column. */
  function Factor(i: nat, j: nat, wraps: bool): int
  {
    Two(i, j) * if wraps then 19 else 1
  }

  lemma Commute(a: int, x: int, b: int, y: int)
    ensures (a * x) * (b * y) == (a * b) * (x * y)
  {
    assert (a * x) * (b * y) == a * (x * (b * y)) == a * (b * (x * y));
  }

  lemma ProductPair(f: seq<int>, k: nat, i: nat)
    requires |f| == 10 && k < 10 && i < 10
    ensures var j := Partner(k, i); Product(f, f, k, i) == Factor(i, j, i > k) * (f[i] * f[j])
  {
    var j := Partner(k, i);
    Commute(Two(i, j), f[i], if i > k then 19 else 1, f[j]);
  }

  lemma SquarePair(f: seq<int>, k: nat, i: nat)
    requires |f| == 10 && k < 10 && i < 10
    ensures var j := Partner(k, i);
      SquareProduct(f, k, i) == (if i > j then 0 else if i == j then 1 else 2) * (Factor(i, j, i > k) * (f[i] * f[j]))
  {
    var j := Partner(k, i);
    if i <= j {
      Multiples(i, j, i > k);
      Commute(Low(i, j, i > k), f[i], High(i, j, i > k), f[j]);
    }
  }

  lemma Multiples(i: nat, j: nat, wraps: bool)
    ensures Low(i, j, wraps) * High(i, j, wraps) == (if i == j then 1 else 2) * Factor(i, j, wraps)
  {
  }

  /** A pair multiplied once and doubled is the pair multiplied both ways. */
  lemma Doubled(f: seq<int>, k: nat, i: nat)
    requires |f| == 10 && k < 10 && i < 10
    ensures var j := Partner(k, i);
      Product(f, f, k, i) - SquareProduct(f, k, i) == -(Product(f, f, k, j) - SquareProduct(f, k, j))
  {
    hide Product, SquareProduct, Factor;
    var j := Partner(k, i);
    PartnerTwice(k, i);
    ProductPair(f, k, i);
    ProductPair(f, k, j);
    SquarePair(f, k, i);
    SquarePair(f, k, j);
    Symmetric(i, j, i > k);
    assert f[i] * f[j] == f[j] * f[i];
  }

  lemma Symmetric(i: nat, j: nat, wraps: bool)
    ensures Factor(i, j, wraps) == Factor(j, i, wraps)
  {
  }

  function Sum(d: seq<int>, n: nat): int
    requires n <= |d|
  {
    if n == 0 then 0 else Sum(d, n - 1) + d[n - 1]
  }

  /** Terms that cancel against their partners. */
  lemma Cancels(d: seq<int>, k: nat)
    requires |d| == 10 && k < 10 && forall i :: 0 <= i < 10 ==> d[i] == -d[Partner(k, i)]
    ensures Sum(d, 10) == 0
  {
    SumTen(d);
    assert d[0] == -d[Partner(k, 0)] && d[1] == -d[Partner(k, 1)] && d[2] == -d[Partner(k, 2)] &&
      d[3] == -d[Partner(k, 3)];
    assert d[4] == -d[Partner(k, 4)] && d[5] == -d[Partner(k, 5)] && d[6] == -d[Partner(k, 6)] &&
      d[7] == -d[Partner(k, 7)];
    assert d[8] == -d[Partner(k, 8)] && d[9] == -d[Partner(k, 9)];
  }

  lemma SumTen(d: seq<int>)
    requires |d| == 10
    ensures Sum(d, 10) == d[0] + d[1] + d[2] + d[3] + d[4] + d[5] + d[6] + d[7] + d[8] + d[9]
  {
    SumStep(d, 0); SumStep(d, 1); SumStep(d, 2); SumStep(d, 3); SumStep(d, 4);
    SumStep(d, 5); SumStep(d, 6); SumStep(d, 7); SumStep(d, 8); SumStep(d, 9);
  }

  lemma SumStep(d: seq<int>, n: nat)
    requires n < |d|
    ensures Sum(d, n + 1) == Sum(d, n) + d[n] && Sum(d, 0) == 0
  {
  }

  function Differences(f: seq<int>, k: nat): (d: seq<int>)
    requires |f| == 10 && k < 10
    ensures |d| == 10
  {
    seq(10, i requires 0 <= i < 10 => Product(f, f, k, i) - SquareProduct(f, k, i))
  }

  lemma {:induction false} ColumnDifference(f: seq<int>, k: nat, n: nat)
    requires |f| == 10 && k < 10 && n <= 10
    ensures Column(f, f, k, n) == SquareColumn(f, k, n) + Sum(Differences(f, k), n)
  {
    hide Product, SquareProduct;
    if n > 0 { ColumnDifference(f, k, n - 1); }
  }

  /** The columns of `fe_sq` are those of `fe_mul` with both factors equal. */
  lemma SquareIsProduct(f: seq<int>, k: nat)
    requires |f| == 10 && k < 10
    ensures SquareColumn(f, k, 10) == Column(f, f, k, 10)
  {
    hide Product, SquareProduct, Column, SquareColumn, Sum;
    forall i | 0 <= i < 10 ensures Differences(f, k)[i] == -Differences(f, k)[Partner(k, i)] {
      Doubled(f, k, i);
    }
    Cancels(Differences(f, k), k);
    ColumnDifference(f, k, 10);
  }

  function SquareColumns(f: seq<int>): (h: seq<int>)
    requires |f| == 10
    ensures |h| == 10
  {
    seq(10, k requires 0 <= k < 10 => SquareColumn(f, k, 10))
  }

  lemma SquareColumnsValue(f: seq<int>)
    requires |f| == 10
    ensures SquareColumns(f) == Columns(f, f, 10)
  {
    hide SquareColumn, Column;
    forall k | 0 <= k < 10 ensures SquareColumns(f)[k] == Columns(f, f, 10)[k] {
      SquareIsProduct(f, k);
    }
  }

  /** The square of `fe_sq` before it is stored. */
  method Square(f: seq<int>) returns (h: seq<int>)
    requires Input(f)
    ensures SquareSumsFit(f) && Output(h) && Cong(Value(h), Value(f) * Value(f))
  {
    hide Value, Columns, SquareColumns, Excess, Output, Cong, SquareSumsFit;
    ghost var q;
    SquareSums(f);
    h := SquareColumns(f);
    SquareColumnsValue(f);
    ColumnsBounded(f, f);
    ProductValue(f, f);
    Weaken(h, seq(10, _ => FIRST / 2), seq(10, _ => FIRST));
    h, q := CarryAll(h);
    CongIntro(Value(f) * Value(f), Value(h), q + Excess(f, f, 10));
    CongSym(Value(f) * Value(f), Value(h));
  }

  /** `fe_sq`, in place or not. */
  method FeSq(h: array<int>, f: array<int>)
    requires h.Length == f.Length == 10 && Input(f[..])
    modifies h
    ensures SquareSumsFit(old(f[..])) && Output(h[..]) && Cong(Value(h[..]), Value(old(f[..])) * Value(old(f[..])))
  {
    var s := Square(f[..]);
    WriteLimbs(h, s);
  }

  /** Every column added to itself. */
  function Twice(s: seq<int>): (t: seq<int>)
    ensures |t| == |s|
  {
    seq(|s|, i requires 0 <= i < |s| => s[i] + s[i])
  }

  lemma TwiceValue(s: seq<int>)
    requires |s| == 10
    ensures Value(Twice(s)) == 2 * Value(s)
    ensures Bounded(s, seq(10, _ => FIRST / 2)) ==> Bounded(Twice(s), seq(10, _ => FIRST))
  {
    ValueIs(s);
    ValueIs(Twice(s));
  }

  /** Twice the square, before it is stored. */
  method SquareTwice(f: seq<int>) returns (h: seq<int>)
    requires Input(f)
    ensures SquareSumsFit(f) && Output(h) && Cong(Value(h), 2 * (Value(f) * Value(f)))
  {
    hide Value, Columns, SquareColumns, Excess, Output, Twice, Cong, SquareSumsFit;
    ghost var q;
    SquareSums(f);
    h := SquareColumns(f);
    SquareColumnsValue(f);
    ColumnsBounded(f, f);
    ProductValue(f, f);
    TwiceValue(h);
    h, q := CarryAll(Twice(h));
    CongIntro(2 * (Value(f) * Value(f)), Value(h), q + 2 * Excess(f, f, 10));
    CongSym(2 * (Value(f) * Value(f)), Value(h));
  }

  /** `fe_sq2`, in place or not. */
  method FeSq2(h: array<int>, f: array<int>)
    requires h.Length == f.Length == 10 && Input(f[..])
    modifies h
    ensures SquareSumsFit(old(f[..])) && Output(h[..])
    ensures Cong(Value(h[..]), 2 * (Value(old(f[..])) * Value(old(f[..]))))
  {
    var s := SquareTwice(f[..]);
    WriteLimbs(h, s);
  }
}
