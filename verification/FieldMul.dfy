/** `fe_mul`: schoolbook columns modulo 2^255 - 19 and the twelve carries that follow. */
module FieldMul {
  import opened Positional
  import opened FieldLimbs
  import ScalarLimbs

  /** Both odd limbs sit half a bit above their nominal weight. */
  function Two(i: int, j: int): int
  {
    if i % 2 == 1 && j % 2 == 1 then 2 else 1
  }

  /** `g` moved up `i` limbs: what stays below 2^255. */
  function Plain(g: seq<int>, i: nat): (t: seq<int>)
    requires |g| == 10 && i < 10
    ensures |t| == 10
  {
    seq(10, k requires 0 <= k < 10 => if k >= i then Two(i, k - i) * g[k - i] else 0)
  }

  /** What moves past 2^255, in units of it. */
  function Wrapped(g: seq<int>, i: nat): (t: seq<int>)
    requires |g| == 10 && i < 10
    ensures |t| == 10
  {
    seq(10, k requires 0 <= k < 10 => if k < i then Two(i, k + 10 - i) * g[k + 10 - i] else 0)
  }

  /** Limb `i` starts at bit 25.5 i, rounded up. */
  function Start(i: nat): nat
  {
    51 * (i / 2) + 26 * (i % 2)
  }

  lemma StartStep(i: nat)
    ensures Start(i + 1) == Start(i) + if i % 2 == 0 then 26 else 25
    ensures Start(0) == 0 && Start(9) == 230
  {
    var k := i / 2;
    assert i == 2 * k + i % 2;
  }

  lemma StartSum(i: nat, j: nat)
    ensures Start(i) + Start(j) == Two(i, j) - 1 + Start(i + j)
    ensures i + j >= 10 ==> Start(i + j) == 255 + Start(i + j - 10)
  {
    var a, b := i / 2, j / 2;
    assert i == 2 * a + i % 2 && j == 2 * b + j % 2;
  }

  lemma LimbRadix(i: nat)
    ensures Radix(i) == Power(2, if i % 2 == 0 then 26 else 25)
  {
    assert Power(2, 13) == 8192 && Power(2, 12) == 4096;
    hide Power;
    PowerAdd(2, 12, 13);
    PowerAdd(2, 13, 13);
  }

  lemma OneBit()
    ensures Power(2, 0) == 1 && Power(2, 1) == 2 && Weight(0) == 1
  {
  }

  lemma {:induction false} WeightPower(i: nat)
    requires i < 10
    ensures Weight(i) == Power(2, Start(i))
  {
    hide Weight, Power, Start, Radix;
    if i == 0 {
      StartStep(0);
      OneBit();
    } else {
      WeightPower(i - 1);
      NextWeight(i - 1);
      StartStep(i - 1);
      LimbRadix(i - 1);
      PowerAdd(2, if (i - 1) % 2 == 0 then 26 else 25, Start(i - 1));
    }
  }

  lemma Modulus()
    ensures Power(2, 255) == P + 19
  {
    hide Power, Start;
    WeightPower(9);
    StartStep(9);
    LimbRadix(1);
    PowerAdd(2, 230, 25);
  }

  lemma TwoPower(i: nat, j: nat)
    ensures Power(2, Two(i, j) - 1) == Two(i, j)
  {
  }

  /** Where the product of two limbs goes. */
  lemma WeightProduct(i: nat, j: nat)
    requires i < 10 && j < 10
    ensures Weight(i) * Weight(j) == Two(i, j) * if i + j < 10 then Weight(i + j) else (P + 19) * Weight(i + j - 10)
  {
    hide Weight, Power, Start;
    TwoPower(i, j);
    var k := if i + j < 10 then i + j else i + j - 10;
    WeightPower(i);
    WeightPower(j);
    WeightPower(k);
    StartSum(i, j);
    PowerAdd(2, Start(i), Start(j));
    PowerAdd(2, Two(i, j) - 1, Start(i + j));
    if i + j >= 10 {
      Modulus();
      PowerAdd(2, 255, Start(k));
    }
  }

  /** The first `n` limbs of `g`, the rest cleared. */
  function Front(g: seq<int>, n: nat): (t: seq<int>)
    requires |g| == 10
    ensures |t| == 10
  {
    seq(10, k requires 0 <= k < 10 => if k < n then g[k] else 0)
  }

  ghost predicate Shifts(g: seq<int>, i: nat)
    requires |g| == 10 && i < 10
  {
    Weight(i) * Value(g) == Value(Plain(g, i)) + (P + 19) * Value(Wrapped(g, i))
  }

  lemma NothingShifts(g: seq<int>, i: nat)
    requires |g| == 10 && i < 10 && forall k :: 0 <= k < 10 ==> g[k] == 0
    ensures Shifts(g, i)
  {
    hide Weight, Value;
    assert Plain(g, i) == g && Wrapped(g, i) == g;
    assert Value(g) == 0 by { ValueIs(g); }
  }

  lemma {:induction false} ShiftFront(g: seq<int>, i: nat, n: nat)
    requires |g| == 10 && i < 10 && n <= 10
    ensures Shifts(Front(g, n), i)
  {
    hide Shifts;
    if n == 0 {
      NothingShifts(Front(g, n), i);
    } else {
      var j, a, b := n - 1, Front(g, n - 1), Front(g, n);
      ShiftFront(g, i, j);
      assert b == a[j := a[j] + g[j]];
      OneLimb(a, i, j, g[j]);
    }
  }

  lemma OneLimb(a: seq<int>, i: nat, j: nat, x: int)
    requires |a| == 10 && i < 10 && j < 10 && Shifts(a, i)
    ensures Shifts(a[j := a[j] + x], i)
  {
    hide Value, Weight, Two;
    var b := a[j := a[j] + x];
    ValueUpdate(a, j, x);
    WeightProduct(i, j);
    var y := Two(i, j) * x;
    if i + j < 10 {
      ValueUpdate(Plain(a, i), i + j, y);
      PlainLimb(a, i, j, x);
      Balance(Weight(i), Value(a), Weight(j), x, Value(Plain(a, i)), Value(Wrapped(a, i)), Weight(i + j), 0, Two(i, j));
    } else {
      var k := i + j - 10;
      ValueUpdate(Wrapped(a, i), k, y);
      WrappedLimb(a, i, j, x);
      Balance(Weight(i), Value(a), Weight(j), x, Value(Plain(a, i)), Value(Wrapped(a, i)), 0, Weight(k), Two(i, j));
    }
  }

  lemma PlainLimb(a: seq<int>, i: nat, j: nat, x: int)
    requires |a| == 10 && i + j < 10
    ensures var b, p := a[j := a[j] + x], Plain(a, i);
      Plain(b, i) == p[i + j := p[i + j] + Two(i, j) * x] && Wrapped(b, i) == Wrapped(a, i)
  {
    hide Two;
    assert Two(i, j) * (a[j] + x) == Two(i, j) * a[j] + Two(i, j) * x;
  }

  lemma WrappedLimb(a: seq<int>, i: nat, j: nat, x: int)
    requires |a| == 10 && i < 10 && j < 10 <= i + j
    ensures var b, w, k := a[j := a[j] + x], Wrapped(a, i), i + j - 10;
      Wrapped(b, i) == w[k := w[k] + Two(i, j) * x] && Plain(b, i) == Plain(a, i)
  {
    hide Two;
    assert Two(i, j) * (a[j] + x) == Two(i, j) * a[j] + Two(i, j) * x;
  }

  lemma Balance(wi: int, va: int, wj: int, x: int, vp: int, vw: int, p: int, q: int, t: int)
    requires wi * va == vp + (P + 19) * vw && wi * wj == t * (p + (P + 19) * q)
    ensures wi * (va + wj * x) == (vp + p * (t * x)) + (P + 19) * (vw + q * (t * x))
  {
    assert wi * (va + wj * x) == wi * va + (wi * wj) * x;
    var y := t * x;
    assert (t * (p + (P + 19) * q)) * x == (p + (P + 19) * q) * y;
    assert (p + (P + 19) * q) * y == p * y + (P + 19) * (q * y);
  }

  /** Multiplying by the weight of limb `i` moves the limbs up, around the modulus. */
  lemma Shift(g: seq<int>, i: nat)
    requires |g| == 10 && i < 10
    ensures Shifts(g, i)
  {
    hide Shifts;
    ShiftFront(g, i, 10);
    assert Front(g, 10) == g;
  }

  /** The stated input range: 1.65 * 2^26 for even limbs, 1.65 * 2^25 for odd ones. */
  predicate Input(f: seq<int>)
  {
    |f| == 10 && forall i :: 0 <= i < 10 ==> var b := if i % 2 == 0 then 110729625 else 55364812; -b <= f[i] <= b
  }

  /** The stated output range: 1.01 * 2^25 for even limbs, 1.01 * 2^24 for odd ones. */
  predicate Output(h: seq<int>)
  {
    |h| == 10 && forall i :: 0 <= i < 10 ==> var b := if i % 2 == 0 then 33889976 else 16944988; -b <= h[i] <= b
  }

  /** The partner of limb `i` in column `k`. */
  function Partner(k: nat, i: nat): (j: nat)
    requires k < 10 && i < 10
    ensures j < 10
  {
    if k >= i then k - i else k + 10 - i
  }

  /** One product of `fe_mul`: twice the limb of `f`, 19 times the limb of `g`, as precomputed in 32 bits. */
  function Product(f: seq<int>, g: seq<int>, k: nat, i: nat): int
    requires |f| == |g| == 10 && k < 10 && i < 10
  {
    var j := Partner(k, i);
    (if i % 2 == 1 && j % 2 == 1 then 2 * f[i] else f[i]) * (if i > k then 19 * g[j] else g[j])
  }

  lemma ProductFits(f: seq<int>, g: seq<int>, k: nat, i: nat)
    requires Input(f) && Input(g) && k < 10 && i < 10
    ensures Int32(2 * f[i]) || i % 2 == 0
    ensures Int32(19 * g[Partner(k, i)])
    ensures -240000000000000000 <= Product(f, g, k, i) <= 240000000000000000
  {
    var j := Partner(k, i);
    var x, y := if i % 2 == 1 && j % 2 == 1 then 2 * f[i] else f[i], if i > k then 19 * g[j] else g[j];
    assert -110729625 <= g[j] <= 110729625;
    ScalarLimbs.ProductBound(x, y, 110729625, 2103862875);
  }

  /** Column `k`, summed over the first `n` limbs of `f`. */
  function Column(f: seq<int>, g: seq<int>, k: nat, n: nat): int
    requires |f| == |g| == 10 && k < 10 && n <= 10
  {
    if n == 0 then 0 else Column(f, g, k, n - 1) + Product(f, g, k, n - 1)
  }

  lemma {:induction false} ColumnBound(f: seq<int>, g: seq<int>, k: nat, n: nat)
    requires Input(f) && Input(g) && k < 10 && n <= 10
    ensures -(n * 240000000000000000) <= Column(f, g, k, n) <= n * 240000000000000000
    ensures Int64(Column(f, g, k, n))
  {
    if n > 0 {
      ColumnBound(f, g, k, n - 1);
      ProductFits(f, g, k, n - 1);
    }
  }

  function Columns(f: seq<int>, g: seq<int>, n: nat): (h: seq<int>)
    requires |f| == |g| == 10 && n <= 10
    ensures |h| == 10
  {
    seq(10, k requires 0 <= k < 10 => Column(f, g, k, n))
  }

  lemma ValueLinear(a: seq<int>, x: int, b: seq<int>, y: int, c: seq<int>, d: seq<int>)
    requires |a| == |b| == |c| == |d| == 10 && forall k :: 0 <= k < 10 ==> d[k] == a[k] + x * b[k] + y * c[k]
    ensures Value(d) == Value(a) + x * Value(b) + y * Value(c)
  {
    ValueIs(a);
    ValueIs(b);
    ValueIs(c);
    ValueIs(d);
  }

  lemma ProductSplit(f: seq<int>, g: seq<int>, k: nat, i: nat)
    requires |f| == |g| == 10 && k < 10 && i < 10
    ensures Product(f, g, k, i) == f[i] * Plain(g, i)[k] + (19 * f[i]) * Wrapped(g, i)[k]
  {
    var j, x := Partner(k, i), f[i];
    var y := g[j];
    assert (2 * x) * y == x * (2 * y) && (2 * x) * (19 * y) == (19 * x) * (2 * y) && x * (19 * y) == (19 * x) * y;
  }

  /** How often the modulus was taken out by folding the columns. */
  ghost function Excess(f: seq<int>, g: seq<int>, n: nat): int
    requires |f| == |g| == 10 && n <= 10
  {
    if n == 0 then 0 else Excess(f, g, n - 1) + f[n - 1] * Value(Wrapped(g, n - 1))
  }

  lemma AddRow(v: int, w: int, x: int, vg: int, vp: int, vw: int, e: int)
    requires w * vg == vp + (P + 19) * vw
    ensures (v * vg - P * e) + x * vp + (19 * x) * vw == (v + w * x) * vg - P * (e + x * vw)
  {
    assert (v + w * x) * vg == v * vg + x * (w * vg);
    assert x * (vp + (P + 19) * vw) == x * vp + P * (x * vw) + (19 * x) * vw;
    assert P * (e + x * vw) == P * e + P * (x * vw);
  }

  /** The columns stand for the product, up to a multiple of the modulus. */
  lemma {:induction false} ColumnsValue(f: seq<int>, g: seq<int>, n: nat)
    requires |f| == |g| == 10 && n <= 10
    ensures Value(Columns(f, g, n)) == Value(Front(f, n)) * Value(g) - P * Excess(f, g, n)
  {
    if n == 0 {
      ValueIs(Columns(f, g, 0));
      ValueIs(Front(f, 0));
    } else {
      var i := n - 1;
      ColumnsValue(f, g, i);
      NextColumns(f, g, i);
    }
  }

  lemma NextColumns(f: seq<int>, g: seq<int>, i: nat)
    requires |f| == |g| == 10 && i < 10
    requires Value(Columns(f, g, i)) == Value(Front(f, i)) * Value(g) - P * Excess(f, g, i)
    ensures Value(Columns(f, g, i + 1)) == Value(Front(f, i + 1)) * Value(g) - P * Excess(f, g, i + 1)
  {
    hide Value, Weight, Plain, Wrapped, Product;
    forall k | 0 <= k < 10
      ensures Columns(f, g, i + 1)[k] == Columns(f, g, i)[k] + f[i] * Plain(g, i)[k] + (19 * f[i]) * Wrapped(g, i)[k]
    {
      ProductSplit(f, g, k, i);
    }
    ValueLinear(Columns(f, g, i), f[i], Plain(g, i), 19 * f[i], Wrapped(g, i), Columns(f, g, i + 1));
    Shift(g, i);
    assert Front(f, i + 1) == Front(f, i)[i := Front(f, i)[i] + f[i]];
    ValueUpdate(Front(f, i), i, f[i]);
    AddRow(Value(Front(f, i)), Weight(i), f[i], Value(g), Value(Plain(g, i)), Value(Wrapped(g, i)), Excess(f, g, i));
  }

  lemma ProductValue(f: seq<int>, g: seq<int>)
    requires |f| == |g| == 10
    ensures Value(Columns(f, g, 10)) == Value(f) * Value(g) - P * Excess(f, g, 10)
  {
    hide Value, Excess;
    ColumnsValue(f, g, 10);
    assert Front(f, 10) == f;
  }

  /** Twice what ten products can sum to. */
  const FIRST := 4800000000000000000

  lemma ColumnsBounded(f: seq<int>, g: seq<int>)
    requires Input(f) && Input(g)
    ensures Bounded(Columns(f, g, 10), seq(10, _ => FIRST / 2))
  {
    forall k | 0 <= k < 10 ensures -(FIRST / 2) <= Columns(f, g, 10)[k] <= FIRST / 2 {
      ColumnBound(f, g, k, 10);
    }
  }

  lemma Weaken(s: seq<int>, a: seq<int>, b: seq<int>)
    requires Bounded(s, a) && |b| == 10 && forall j :: 0 <= j < 10 ==> a[j] <= b[j]
    ensures Bounded(s, b)
  {
  }

  /** One carry: exact up to the modulus, and within the bounds. */
  method CarryLimb(s: seq<int>, i: nat, ghost bs: seq<int>, ghost q: int) returns (t: seq<int>, ghost r: int)
    requires Bounded(s, bs) && i < 10 && bs[i] <= 0x4800_0000_0000_0000 && bs[(i + 1) % 10] <= 0x4800_0000_0000_0000
    ensures |s| == 10 && CarryFits(s, i) && Bounded(t, Next(bs, i)) && Value(t) + P * r == Value(s) + P * q
  {
    hide Value, Rounded, Radix, CarryFits;
    CarryBounds(s, bs, i);
    CarryValue(s, i);
    t := Carry(s, i);
    r := if i == 9 then q + Rounded(s, 9) else q;
  }

  const LATER := 4800000150000000000

  /** Bounds after the carries out of limbs 0, 4, 1, 5. */
  const AFTER4 := [33554432, 16777216, LATER, FIRST, 33554432, 16777216, LATER, FIRST, FIRST, FIRST]

  /** Bounds after the carries out of limbs 2, 6, 3, 7. */
  const AFTER8 := [33554432, 16777216, 33554432, 16777216, 160000000000, 16777216, 33554432, 16777216, LATER, FIRST]

  /** Bounds after the carries out of limbs 4, 8, 9, 0. */
  const AFTER12 := [33554432, 16944988, 33554432, 16777216, 33554432, 16944988, 33554432, 16777216, 33554432, 16777216]

  lemma Bounds4(bs: seq<int>)
    requires |bs| == 10 && forall j :: 0 <= j < 10 ==> bs[j] == FIRST
    ensures var c := Next(Next(Next(Next(bs, 0), 4), 1), 5); forall j :: 0 <= j < 10 ==> c[j] <= AFTER4[j]
    ensures Next(bs, 0)[4] == Next(bs, 0)[5] == FIRST && Next(Next(bs, 0), 4)[1] <= LATER
    ensures Next(Next(bs, 0), 4)[2] == FIRST
    ensures Next(Next(Next(bs, 0), 4), 1)[5] <= LATER && Next(Next(Next(bs, 0), 4), 1)[6] == FIRST
  {
  }

  method CarryFirst(s: seq<int>, ghost bs: seq<int>) returns (t: seq<int>, ghost q: int)
    requires Bounded(s, bs) && forall j :: 0 <= j < 10 ==> bs[j] == FIRST
    ensures Bounded(t, AFTER4) && Value(t) + P * q == Value(s)
  {
    hide Value, Next;
    Bounds4(bs);
    t, q := CarryLimb(s, 0, bs, 0);
    t, q := CarryLimb(t, 4, Next(bs, 0), q);
    t, q := CarryLimb(t, 1, Next(Next(bs, 0), 4), q);
    t, q := CarryLimb(t, 5, Next(Next(Next(bs, 0), 4), 1), q);
    Weaken(t, Next(Next(Next(Next(bs, 0), 4), 1), 5), AFTER4);
  }

  lemma Bounds8()
    ensures var c := Next(Next(Next(Next(AFTER4, 2), 6), 3), 7); forall j :: 0 <= j < 10 ==> c[j] <= AFTER8[j]
    ensures Next(AFTER4, 2)[6] == LATER && Next(AFTER4, 2)[7] == FIRST
    ensures Next(Next(AFTER4, 2), 6)[3] <= LATER && Next(Next(AFTER4, 2), 6)[4] == 33554432
    ensures Next(Next(Next(AFTER4, 2), 6), 3)[7] <= LATER && Next(Next(Next(AFTER4, 2), 6), 3)[8] == FIRST
  {
  }

  method CarrySecond(s: seq<int>) returns (t: seq<int>, ghost q: int)
    requires Bounded(s, AFTER4)
    ensures Bounded(t, AFTER8) && Value(t) + P * q == Value(s)
  {
    hide Value, Next;
    Bounds8();
    t, q := CarryLimb(s, 2, AFTER4, 0);
    t, q := CarryLimb(t, 6, Next(AFTER4, 2), q);
    t, q := CarryLimb(t, 3, Next(Next(AFTER4, 2), 6), q);
    t, q := CarryLimb(t, 7, Next(Next(Next(AFTER4, 2), 6), 3), q);
    Weaken(t, Next(Next(Next(Next(AFTER4, 2), 6), 3), 7), AFTER8);
  }

  lemma Bounds12()
    ensures var c := Next(Next(Next(Next(AFTER8, 4), 8), 9), 0); forall j :: 0 <= j < 10 ==> c[j] <= AFTER12[j]
    ensures Next(AFTER8, 4)[8] == LATER && Next(AFTER8, 4)[9] == FIRST
    ensures Next(Next(AFTER8, 4), 8)[9] <= LATER && Next(Next(AFTER8, 4), 8)[0] == 33554432
    ensures Next(Next(Next(AFTER8, 4), 8), 9)[0] <= LATER && Next(Next(Next(AFTER8, 4), 8), 9)[1] == 16777216
  {
  }

  method CarryThird(s: seq<int>) returns (t: seq<int>, ghost q: int)
    requires Bounded(s, AFTER8)
    ensures Bounded(t, AFTER12) && Value(t) + P * q == Value(s)
  {
    hide Value, Next;
    Bounds12();
    t, q := CarryLimb(s, 4, AFTER8, 0);
    t, q := CarryLimb(t, 8, Next(AFTER8, 4), q);
    t, q := CarryLimb(t, 9, Next(Next(AFTER8, 4), 8), q);
    t, q := CarryLimb(t, 0, Next(Next(Next(AFTER8, 4), 8), 9), q);
    Weaken(t, Next(Next(Next(Next(AFTER8, 4), 8), 9), 0), AFTER12);
  }

  /** The twelve carries in the order of the source. */
  method CarryAll(s: seq<int>) returns (t: seq<int>, ghost q: int)
    requires Bounded(s, seq(10, _ => FIRST))
    ensures |t| == 10 && Output(t) && Value(t) + P * q == Value(s)
  {
    hide Value;
    ghost var q1, q2, q3;
    t, q1 := CarryFirst(s, seq(10, _ => FIRST));
    t, q2 := CarrySecond(t);
    t, q3 := CarryThird(t);
    q := q1 + q2 + q3;
  }

  /** The product of `fe_mul` before it is stored. */
  method Multiply(f: seq<int>, g: seq<int>) returns (h: seq<int>)
    requires Input(f) && Input(g)
    ensures Output(h) && Cong(Value(h), Value(f) * Value(g))
  {
    hide Value, Columns, Excess, Output, Cong;
    ghost var q;
    h := Columns(f, g, 10);
    ColumnsBounded(f, g);
    ProductValue(f, g);
    Weaken(h, seq(10, _ => FIRST / 2), seq(10, _ => FIRST));
    h, q := CarryAll(h);
    CongIntro(Value(f) * Value(g), Value(h), q + Excess(f, g, 10));
    CongSym(Value(f) * Value(g), Value(h));
  }

  /** `fe_mul`, which may overwrite either factor: the product modulo 2^255 - 19, and small limbs again. */
  method FeMul(h: array<int>, f: array<int>, g: array<int>)
    requires h.Length == f.Length == g.Length == 10 && Input(f[..]) && Input(g[..])
    modifies h
    ensures Output(h[..])
    ensures Cong(Value(h[..]), Value(old(f[..])) * Value(old(g[..])))
  {
    var s := Multiply(f[..], g[..]);
    WriteLimbs(h, s);
  }

  method WriteLimbs(h: array<int>, s: seq<int>)
    requires h.Length == |s|
    modifies h
    ensures h[..] == s
  {
    for i := 0 to h.Length
      invariant forall j :: 0 <= j < i ==> h[j] == s[j]
    {
      h[i] := s[i];
    }
  }
}
