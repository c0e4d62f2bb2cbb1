/** The table-driven scalar multiplications of the curve library, over any abelian group. Projective
    coordinate systems and conversions between them collapse to group elements here. */
module ScalarMult {
  import opened Positional
  import opened Groups
  import opened Slide
  import opened Radix16

  /** A table of P, 3P, 5P, ..., 15P. */
  ghost predicate OddMultiples<G(!new)>(g: Group<G>, t: seq<G>, p: G)
  {
    |t| == 8 && forall i :: 0 <= i < 8 ==> t[i] == Mul(g, 2 * i + 1, p)
  }

  /** `ge_dsm_precomp` */
  method Precompute<G(!new)>(g: Group<G>, p: G) returns (t: seq<G>)
    requires Abelian(g)
    ensures OddMultiples(g, t, p)
  {
    t := [p];
    MulOne(g, p);
    var twice := g.add(p, p);
    for i := 1 to 8
      invariant |t| == i && forall j :: 0 <= j < i ==> t[j] == Mul(g, 2 * j + 1, p)
    {
      MulAdd(g, 2, 2 * i - 1, p);
      t := t + [g.add(twice, t[i - 1])];
    }
  }

  /** Add or subtract the table entry for one window digit. */
  method AddDigit<G(!new)>(g: Group<G>, x: G, d: int, t: seq<G>, ghost p: G) returns (y: G)
    requires Abelian(g) && WindowDigit(d) && OddMultiples(g, t, p)
    ensures y == g.add(x, Mul(g, d, p))
  {
    if d > 0 {
      assert 2 * (d / 2) + 1 == d;
      y := g.add(x, t[d / 2]);
    } else if d < 0 {
      assert 2 * (-d / 2) + 1 == -d;
      MulNeg(g, -d, p);
      y := g.add(x, g.neg(t[-d / 2]));
    } else {
      ZeroLeft(g, x);
      y := x;
    }
  }

  lemma HornerStep<G(!new)>(g: Group<G>, m: int, n: int, d: int, e: int, p: G, q: G)
    requires Abelian(g)
    ensures var r := g.add(Mul(g, m, p), Mul(g, n, q));
      g.add(g.add(g.add(r, r), Mul(g, d, p)), Mul(g, e, q)) == g.add(Mul(g, d + 2 * m, p), Mul(g, e + 2 * n, q))
  {
    var a, b := Mul(g, m, p), Mul(g, n, q);
    Exchange(g, a, b, a, b);
    Double(g, m, p);
    Double(g, n, q);
    var c, f, x, y := Mul(g, 2 * m, p), Mul(g, 2 * n, q), Mul(g, d, p), Mul(g, e, q);
    Laws(g, g.add(c, f), x, y);
    Exchange(g, c, f, x, y);
    MulAdd(g, 2 * m, d, p);
    MulAdd(g, 2 * n, e, q);
  }

  lemma EvalTail(b: nat, s: seq<int>, i: nat)
    requires i < |s|
    ensures Eval(b, s[i..]) == s[i] + b * Eval(b, s[i + 1..])
  {
    assert s[i..][1..] == s[i + 1..];
  }

  /** The common loop of `ge_double_scalarmult_base_vartime` and `ge_double_scalarmult_precomp_vartime`. The
      carries lost in the recoding are those of `SlideScalar`, none for scalars below 2^255. */
  method DoubleScalarMul<G(!new)>(g: Group<G>, a: seq<Byte>, p: G, b: seq<Byte>, table: seq<G>, ghost q: G)
    returns (r: G, ghost lostA: nat, ghost lostB: nat)
    requires Abelian(g) && |a| == |b| == 32 && OddMultiples(g, table, q)
    ensures r == g.add(Mul(g, Eval(256, a) - lostA * Power(2, 8 * |a|), p),
      Mul(g, Eval(256, b) - lostB * Power(2, 8 * |b|), q))
    ensures (a[31] <= 127 ==> lostA == 0) && (b[31] <= 127 ==> lostB == 0)
  {
    hide Mul, Eval, Power;
    var aslide, bslide := new int[256], new int[256];
    lostA := SlideScalar(aslide, a);
    lostB := SlideScalar(bslide, b);
    var own := Precompute(g, p);
    r := RunWindows(g, aslide[..], own, p, bslide[..], table, q);
  }

  ghost predicate WindowDigits(a: seq<int>)
  {
    forall i :: 0 <= i < |a| ==> WindowDigit(a[i])
  }

  /** The value of the loop variable before position `i` is processed. */
  ghost predicate Reached<G(!new)>(g: Group<G>, r: G, a: seq<int>, p: G, b: seq<int>, q: G, i: nat)
    requires i <= |a| == |b|
  {
    r == g.add(Mul(g, Eval(2, a[i..]), p), Mul(g, Eval(2, b[i..]), q))
  }

  /** One double-and-add step of both windows. */
  method WindowStep<G(!new)>(g: Group<G>, r: G, a: seq<int>, own: seq<G>, ghost p: G,
                             b: seq<int>, table: seq<G>, ghost q: G, i: nat) returns (t: G)
    requires Abelian(g) && OddMultiples(g, own, p) && OddMultiples(g, table, q)
    requires |a| == |b| == 256 && WindowDigits(a) && WindowDigits(b) && i < 256 && Reached(g, r, a, p, b, q, i + 1)
    ensures Reached(g, t, a, p, b, q, i)
  {
    hide Eval, Mul, WindowDigit, OddMultiples;
    HornerStep(g, Eval(2, a[i + 1..]), Eval(2, b[i + 1..]), a[i], b[i], p, q);
    EvalTail(2, a, i);
    EvalTail(2, b, i);
    t := g.add(r, r);
    t := AddDigit(g, t, a[i], own, p);
    t := AddDigit(g, t, b[i], table, q);
  }

  /** One past the highest position where either scalar has a digit. */
  method TopWindow(a: seq<int>, b: seq<int>) returns (i: nat)
    requires |a| == |b| == 256
    ensures i <= 256 && forall j :: i <= j < 256 ==> a[j] == 0 && b[j] == 0
  {
    i := 256;
    while i > 0
      invariant i <= 256
      invariant forall j :: i <= j < 256 ==> a[j] == 0 && b[j] == 0
    {
      if a[i - 1] != 0 || b[i - 1] != 0 { break; }
      i := i - 1;
    }
  }

  method RunWindows<G(!new)>(g: Group<G>, a: seq<int>, own: seq<G>, ghost p: G,
                             b: seq<int>, table: seq<G>, ghost q: G) returns (r: G)
    requires Abelian(g) && OddMultiples(g, own, p) && OddMultiples(g, table, q)
    requires |a| == |b| == 256 && WindowDigits(a) && WindowDigits(b)
    ensures r == g.add(Mul(g, Eval(2, a), p), Mul(g, Eval(2, b), q))
  {
    hide *;
    var i := TopWindow(a, b);
    r := g.zero;
    StartAtZero(g, a, p, b, q, i);
    while i > 0
      invariant 0 <= i <= 256 && Reached(g, r, a, p, b, q, i)
    {
      i := i - 1;
      r := WindowStep(g, r, a, own, p, b, table, q, i);
    }
    FullReach(g, r, a, p, b, q);
  }

  lemma StartAtZero<G(!new)>(g: Group<G>, a: seq<int>, p: G, b: seq<int>, q: G, i: nat)
    requires Abelian(g) && i <= |a| == |b| && forall j :: i <= j < |a| ==> a[j] == 0 && b[j] == 0
    ensures Reached(g, g.zero, a, p, b, q, i)
  {
    hide Eval;
    EvalZeros(2, a[i..]);
    EvalZeros(2, b[i..]);
    ZeroLeft(g, g.zero);
  }

  lemma FullReach<G(!new)>(g: Group<G>, r: G, a: seq<int>, p: G, b: seq<int>, q: G)
    requires |a| == |b| && Reached(g, r, a, p, b, q, 0)
    ensures r == g.add(Mul(g, Eval(2, a), p), Mul(g, Eval(2, b), q))
  {
    hide Eval, Mul;
    assert a[0..] == a && b[0..] == b;
  }

  /** A table of P, 2P, ..., 8P. */
  ghost predicate FirstMultiples<G(!new)>(g: Group<G>, t: seq<G>, p: G)
  {
    |t| == 8 && forall i :: 0 <= i < 8 ==> t[i] == Mul(g, i + 1, p)
  }

  /** Constant-time table look-up: conditional moves over all eight entries, then a conditional negation. */
  method Select<G(!new)>(g: Group<G>, t: seq<G>, b: int, ghost p: G) returns (y: G)
    requires Abelian(g) && FirstMultiples(g, t, p) && -8 <= b <= 8
    ensures y == Mul(g, b, p)
  {
    var babs := if b < 0 then -b else b;
    y := g.zero;
    for j := 1 to 9
      invariant y == if babs < j then Mul(g, babs, p) else g.zero
    {
      if babs == j { y := t[j - 1]; }
    }
    MulNeg(g, babs, p);
    if b < 0 { y := g.neg(y); }
  }

  method FourDoublings<G(!new)>(g: Group<G>, x: G, ghost n: int, ghost p: G) returns (y: G)
    requires Abelian(g) && x == Mul(g, n, p)
    ensures y == Mul(g, 16 * n, p)
  {
    y := x;
    Double(g, n, p);
    y := g.add(y, y);
    Double(g, 2 * n, p);
    y := g.add(y, y);
    Double(g, 4 * n, p);
    y := g.add(y, y);
    Double(g, 8 * n, p);
    y := g.add(y, y);
  }

  /** The eight multiples `ge_scalarmult` selects from. */
  method SmallTable<G(!new)>(g: Group<G>, p: G) returns (t: seq<G>)
    requires Abelian(g)
    ensures FirstMultiples(g, t, p)
  {
    t := [p];
    MulOne(g, p);
    for i := 0 to 7
      invariant |t| == i + 1 && forall j :: 0 <= j <= i ==> t[j] == Mul(g, j + 1, p)
    {
      MulAdd(g, 1, i + 1, p);
      t := t + [g.add(p, t[i])];
    }
  }

  ghost predicate Covers<G(!new)>(g: Group<G>, r: G, e: seq<int>, p: G, i: nat)
    requires i <= |e|
  {
    r == Mul(g, Eval(16, e[i..]), p)
  }

  /** `ge_scalarmult` */
  method ScalarMul<G(!new)>(g: Group<G>, a: seq<Byte>, p: G) returns (r: G)
    requires Abelian(g) && |a| == 32 && a[31] <= 127
    ensures r == Mul(g, Eval(256, a), p)
  {
    hide *;
    var e := RecodeStream(a);
    var t := SmallTable(g, p);
    r := g.zero;
    CoversEnds(g, r, e, p);
    var i := 64;
    while i > 0
      invariant 0 <= i <= 64 && Covers(g, r, e, p, i)
    {
      i := i - 1;
      r := RadixStep(g, r, e, t, p, i);
    }
    CoversEnds(g, r, e, p);
  }

  lemma CoversEnds<G(!new)>(g: Group<G>, r: G, e: seq<int>, p: G)
    ensures r == g.zero ==> Covers(g, r, e, p, |e|)
    ensures Covers(g, r, e, p, 0) ==> r == Mul(g, Eval(16, e), p)
  {
    EvalZeros(16, e[|e|..]);
    hide Eval;
    assert e[0..] == e;
  }

  /** One step of the radix-16 loop. */
  method RadixStep<G(!new)>(g: Group<G>, x: G, e: seq<int>, t: seq<G>, ghost p: G, i: nat) returns (r: G)
    requires Abelian(g) && FirstMultiples(g, t, p) && i < |e| && SignedDigits(e) && Covers(g, x, e, p, i + 1)
    ensures Covers(g, r, e, p, i)
  {
    hide Mul, Eval, FirstMultiples, Abelian;
    ghost var n := Eval(16, e[i + 1..]);
    EvalTail(16, e, i);
    var u := FourDoublings(g, x, n, p);
    var cur := Select(g, t, e[i], p);
    MulAdd(g, 16 * n, e[i], p);
    r := g.add(u, cur);
  }

  /** The meaning of the base-point table: entry `[pos][j]` is (j + 1) * 256^pos * B. */
  ghost predicate BaseTable<G(!new)>(g: Group<G>, t: seq<seq<G>>, base: G)
  {
    |t| == 32 && forall pos :: 0 <= pos < 32 ==> FirstMultiples(g, t[pos], Mul(g, Power(256, pos), base))
  }

  /** Every second digit, starting at `from`. */
  ghost function Alternate(e: seq<int>, from: nat): (h: seq<int>)
    requires |e| == 64 && from < 2
    ensures |h| == 32
  {
    seq(32, k requires 0 <= k < 32 => e[2 * k + from])
  }

  lemma {:induction false} EvenOdd(e: seq<int>, even: seq<int>, odd: seq<int>)
    requires |e| == 2 * |even| && |odd| == |even|
    requires forall k :: 0 <= k < |even| ==> even[k] == e[2 * k] && odd[k] == e[2 * k + 1]
    ensures Eval(16, e) == Eval(256, even) + 16 * Eval(256, odd)
  {
    if even != [] {
      forall k | 0 <= k < |even| - 1 ensures even[1..][k] == e[2..][2 * k] && odd[1..][k] == e[2..][2 * k + 1] {
        assert even[k + 1] == e[2 * (k + 1)] && odd[k + 1] == e[2 * (k + 1) + 1];
      }
      EvenOdd(e[2..], even[1..], odd[1..]);
      assert e[1..][1..] == e[2..] && e[1..][0] == e[1];
      assert even[0] == e[2 * 0] && odd[0] == e[2 * 0 + 1];
    }
  }

  /** Half of the comb: add the entries selected by the digits at `from`, `from` + 2, ... */
  method AddHalf<G(!new)>(g: Group<G>, h: G, e: seq<int>, from: nat, t: seq<seq<G>>, ghost base: G, ghost n: int)
    returns (r: G)
    requires Abelian(g) && BaseTable(g, t, base) && |e| == 64 && SignedDigits(e) && from < 2 && h == Mul(g, n, base)
    ensures r == Mul(g, n + Eval(256, Alternate(e, from)), base)
  {
    hide Mul, Eval, Power, FirstMultiples, Abelian;
    ghost var d := Alternate(e, from);
    EvalZeros(256, d[..0]);
    r := h;
    for k := 0 to 32
      invariant r == Mul(g, n + Eval(256, d[..k]), base)
    {
      ghost var b := Mul(g, Power(256, k), base);
      var cur := Select(g, t[k], e[2 * k + from], b);
      assert d[..k + 1] == d[..k] + [d[k]];
      CombStep(g, n, d[..k], d[k], base);
      r := g.add(r, cur);
    }
    assert d[..32] == d;
  }

  lemma CombStep<G(!new)>(g: Group<G>, n: int, d: seq<int>, x: int, base: G)
    requires Abelian(g)
    ensures g.add(Mul(g, n + Eval(256, d), base), Mul(g, x, Mul(g, Power(256, |d|), base)))
         == Mul(g, n + Eval(256, d + [x]), base)
  {
    var p := Power(256, |d|);
    EvalAppend(256, d, [x]);
    assert Eval(256, [x]) == x;
    MulMul(g, x, p, base);
    MulAdd(g, n + Eval(256, d), x * p, base);
    assert n + Eval(256, d) + x * p == n + Eval(256, d + [x]);
  }

  /** `ge_scalarmult_base` */
  method ScalarMulBase<G(!new)>(g: Group<G>, a: seq<Byte>, t: seq<seq<G>>, ghost base: G) returns (h: G)
    requires Abelian(g) && |a| == 32 && a[31] <= 127 && BaseTable(g, t, base)
    ensures h == Mul(g, Eval(256, a), base)
  {
    hide Eval;
    var e := RecodeInPlace(a);
    ghost var odd, even := Alternate(e, 1), Alternate(e, 0);
    h := AddHalf(g, g.zero, e, 1, t, base, 0);
    h := FourDoublings(g, h, Eval(256, odd), base);
    h := AddHalf(g, h, e, 0, t, base, 16 * Eval(256, odd));
    EvenOdd(e, even, odd);
  }
}
