/** The scalar routines of the curve library: reduction, addition, subtraction and multiply-subtract modulo
    the group order L, and the two range tests. */
module Scalars {
  import opened Positional
  import opened ScalarLimbs
  import opened ScalarBytes
  import opened ScalarPack
  import opened ScalarReduce
  import opened ScalarProduct

  /** The number spelled by little-endian bytes. */
  ghost function Num(s: seq<Byte>): (n: int)
    ensures 0 <= n < Power(256, |s|)
  {
    EvalBound(256, s);
    Eval(256, s)
  }

  /** The 32-byte encoding of a number modulo L. */
  ghost function Scalar(x: int): (s: seq<Byte>)
    ensures |s| == 32 && Num(s) == x % L
  {
    LFits();
    EvalToBytes(x % L, 32);
    ToBytes(x % L, 32)
  }

  lemma LFits()
    ensures L < Power(256, 32)
  {
    assert Power(256, 8) == 0x1_0000_0000_0000_0000;
    PowerAdd(256, 8, 8);
    PowerAdd(256, 16, 16);
  }

  lemma ScalarUnique(s: seq<Byte>, x: int)
    requires |s| == 32 && Num(s) == x % L
    ensures s == Scalar(x)
  {
    BytesUnique(s, x % L);
  }

  lemma {:induction false} LimbBounds32(s: seq<Byte>)
    requires |s| == 32
    ensures var t := LoadLimbs32(s); (forall i :: 0 <= i < 11 ==> 0 <= t[i] < RADIX) && 0 <= t[11] < 33554432
  {
  }

  lemma LimbBounds64(s: seq<Byte>)
    requires |s| == 64
    ensures var t := LoadLimbs64(s); (forall i :: 0 <= i < 23 ==> 0 <= t[i] < RADIX) && 0 <= t[23] < 536870912
  {
  }

  /** Pack what `Finish` and `FinishWide` leave behind. */
  method Store(t: seq<int>, ghost x: int) returns (s: seq<Byte>)
    requires |t| == 13 && Value(t) == x % L && t[12] == 0
    requires (forall j :: 0 <= j < 11 ==> 0 <= t[j] < RADIX) && 0 <= t[11] < 2 * RADIX
    ensures s == Scalar(x)
  {
    s := Pack(t[..12]);
    PackValue(t[..12]);
    TopLimbs(t);
    ScalarUnique(s, x);
  }

  lemma AppendZero(t: seq<int>)
    ensures Value(t + [0]) == Value(t)
  {
    EvalAppend(RADIX, t, [0]);
    EvalZeros(RADIX, [0]);
  }

  /** `sc_reduce`: the first 32 bytes become s mod L, the last 32 are left alone. */
  method ScReduce(s: array<Byte>)
    requires s.Length == 64
    modifies s
    ensures s[..] == Scalar(Num(old(s[..]))) + old(s[32..])
  {
    ghost var was := s[..];
    var t := LoadLimbs64(s[..]);
    LoadLimbs64Value(s[..]);
    LimbBounds64(s[..]);
    t := FinishWide(t);
    var r := Store(t, Num(s[..]));
    Overwrite(s, r);
    assert s[..] == r + was[32..];
  }

  /** `sc_reduce32`: s becomes s mod L. */
  method ScReduce32(s: array<Byte>)
    requires s.Length == 32
    modifies s
    ensures s[..] == Scalar(Num(old(s[..])))
  {
    ghost var was := s[..];
    var t := LoadLimbs32(s[..]) + [0];
    LoadLimbs32Value(s[..]);
    LimbBounds32(s[..]);
    AppendZero(LoadLimbs32(s[..]));
    t := Finish(t);
    var r := Store(t, Num(s[..]));
    Overwrite(s, r);
    assert s[..] == r + was[32..];
  }

  method Overwrite(s: array<Byte>, r: seq<Byte>)
    requires |r| == 32 <= s.Length
    modifies s
    ensures s[..] == r + old(s[32..])
  {
    for i := 0 to 32
      invariant forall j :: 0 <= j < i ==> s[j] == r[j]
      invariant forall j :: i <= j < s.Length ==> s[j] == old(s[j])
    {
      s[i] := r[i];
    }
  }

  /** Limb-wise `a + f * b`, the first step of `sc_add` (f = 1) and `sc_sub` (f = -1). */
  method AddLimbs(a: seq<int>, b: seq<int>, f: int) returns (t: seq<int>)
    requires |a| == |b| == 12 && (f == 1 || f == -1)
    requires Within(a, 0, 12, 0x4000_0000) && Within(b, 0, 12, 0x4000_0000)
    ensures |t| == 12 && Value(t) == Value(a) + f * Value(b) && Within(t, 0, 12, 0x8000_0000)
  {
    assert forall j :: 0 <= j < 12 ==> Int64(f * b[j]) && Int64(a[0 + j] + f * b[j]);
    t := AddMultiple(a, 0, f, b);
    AddMultipleValue(a, 0, f, b);
    forall j | 0 <= j < 12 ensures -0x8000_0000 <= t[j] <= 0x8000_0000 {
      AddMultipleAt(a, 0, f, b, j);
    }
    assert Power(RADIX, 0) == 1;
  }

  method ScAdd(a: seq<Byte>, b: seq<Byte>) returns (s: seq<Byte>)
    requires |a| == |b| == 32
    ensures s == Scalar(Num(a) + Num(b))
  {
    LoadLimbs32Value(a); LoadLimbs32Value(b);
    LimbBounds32(a); LimbBounds32(b);
    var t := AddLimbs(LoadLimbs32(a), LoadLimbs32(b), 1);
    AppendZero(t);
    t := Finish(t + [0]);
    s := Store(t, Num(a) + Num(b));
  }

  method ScSub(a: seq<Byte>, b: seq<Byte>) returns (s: seq<Byte>)
    requires |a| == |b| == 32
    ensures s == Scalar(Num(a) - Num(b))
  {
    LoadLimbs32Value(a); LoadLimbs32Value(b);
    LimbBounds32(a); LimbBounds32(b);
    var t := AddLimbs(LoadLimbs32(a), LoadLimbs32(b), -1);
    AppendZero(t);
    t := Finish(t + [0]);
    s := Store(t, Num(a) - Num(b));
  }

  /** The columns of c - a*b, with a zero on top. */
  method ColumnLimbs(c: seq<int>, a: seq<int>, b: seq<int>) returns (t: seq<int>)
    requires Narrow(a) && Narrow(b) && Narrow(c)
    ensures |t| == 24 && Within(t, 0, 23, 0x7_8000_0000_0000) && t[23] == 0
    ensures forall j :: 0 <= j < 24 ==> t[j] == (if j < 12 then c[j] else 0) - Column(a, b, j, 12)
  {
    hide Column;
    t := [];
    for k := 0 to 23
      invariant |t| == k && Within(t, 0, k, 0x7_8000_0000_0000)
      invariant forall j :: 0 <= j < k ==> t[j] == (if j < 12 then c[j] else 0) - Column(a, b, j, 12)
    {
      ColumnBound(a, b, k, 12);
      t := t + [(if k < 12 then c[k] else 0) - Column(a, b, k, 12)];
    }
    ColumnBeyond(a, b, 12);
    t := t + [0];
  }

  /** The product step of `sc_mulsub` and the two balanced passes that make it fit `FinishWide`. */
  method ProductLimbs(c: seq<int>, a: seq<int>, b: seq<int>) returns (t: seq<int>)
    requires Narrow(a) && Narrow(b) && Narrow(c)
    ensures |t| == 24 && Value(t) == Value(c) - Value(a) * Value(b) && Within(t, 0, 24, 0x8000_0000)
  {
    hide Column, Eval, Narrow;
    t := ColumnLimbs(c, a, b);
    WideColumns(c, a, b, t);
    t := RoundPass(t, 0, 22, 0x4000_0001);
    t := RoundPass(t, 1, 21, 0x4000_0001);
  }

  lemma WideColumns(c: seq<int>, a: seq<int>, b: seq<int>, t: seq<int>)
    requires Narrow(a) && Narrow(b) && Narrow(c) && |t| == 24
    requires forall j :: 0 <= j < 24 ==> t[j] == (if j < 12 then c[j] else 0) - Column(a, b, j, 12)
    ensures Value(t) == Value(c) - Value(a) * Value(b)
  {
    hide Column, Eval;
    var wide := c + seq(12, _ => 0);
    DropZeros(wide, 12);
    assert wide[..12] == c;
    ColumnsValue(wide, a, b, t);
  }

  /** c - ab, as numbers. */
  ghost function MulSub(a: seq<Byte>, b: seq<Byte>, c: seq<Byte>): int
  {
    Num(c) - Num(a) * Num(b)
  }

  method ScMulSub(a: seq<Byte>, b: seq<Byte>, c: seq<Byte>) returns (s: seq<Byte>)
    requires |a| == |b| == |c| == 32
    ensures s == Scalar(MulSub(a, b, c))
  {
    LoadLimbs32Value(a); LoadLimbs32Value(b); LoadLimbs32Value(c);
    LimbBounds32(a); LimbBounds32(b); LimbBounds32(c);
    var t := ProductLimbs(LoadLimbs32(c), LoadLimbs32(a), LoadLimbs32(b));
    t := FinishWide(t);
    s := Store(t, Num(c) - Num(a) * Num(b));
  }
}
