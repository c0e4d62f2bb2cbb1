/** `slide`: rewriting a 256-bit scalar in place into odd signed digits of a sliding window. */
module Slide {
  import opened Positional

  /** Bit `i` of little-endian bytes. */
  function Bit(a: seq<Byte>, i: nat): (d: int)
    requires i < 8 * |a|
    ensures d == 0 || d == 1
  {
    a[i / 8] / Power(2, i % 8) % 2
  }

  ghost function BitSeq(a: seq<Byte>): (d: seq<int>)
    ensures |d| == 8 * |a|
  {
    seq(8 * |a|, i requires 0 <= i < 8 * |a| => Bit(a, i))
  }

  lemma SmallPowers()
    ensures Power(2, 0) == 1 && Power(2, 1) == 2 && Power(2, 2) == 4 && Power(2, 3) == 8
    ensures Power(2, 4) == 16 && Power(2, 5) == 32 && Power(2, 6) == 64 && Power(2, 7) == 128
    ensures Power(2, 8) == 256
  {
    assert Power(2, 4) == 2 * Power(2, 3);
  }

  lemma FirstBits(a: seq<Byte>, i: nat)
    requires |a| > 0 && i < 8
    ensures BitSeq(a)[i] == a[0] / Power(2, i) % 2
  {
  }

  lemma FirstByte(a: seq<Byte>)
    requires |a| > 0
    ensures Eval(2, BitSeq(a)[..8]) == a[0]
  {
    var d := BitSeq(a)[..8];
    forall i | 0 <= i < 8 ensures d[i] == a[0] / Power(2, i) % 2 { FirstBits(a, i); }
    EightBits(d, a[0]);
  }

  lemma EightBits(d: seq<int>, x: int)
    requires |d| == 8 && 0 <= x < 256 && forall i :: 0 <= i < 8 ==> d[i] == x / Power(2, i) % 2
    ensures Eval(2, d) == x
  {
    var rest := seq(9, i requires 0 <= i < 9 => x / Power(2, i));
    assert rest[0] == x && rest[8] == 0 by { SmallPowers(); }
    hide Eval;
    forall i | 0 <= i < 8 ensures rest[i] == d[i] + 2 * rest[i + 1] {
      Halve(x, i);
    }
    Chain(2, d, rest);
  }

  lemma Halve(x: int, i: nat)
    ensures x / Power(2, i) == x / Power(2, i) % 2 + 2 * (x / Power(2, i + 1))
  {
    DivDiv(x, Power(2, i), 2);
  }

  lemma {:induction false} BitSeqValue(a: seq<Byte>)
    ensures Eval(2, BitSeq(a)) == Eval(256, a)
  {
    if a != [] {
      BitSeqValue(a[1..]);
      FirstByte(a);
      assert BitSeq(a)[8..] == BitSeq(a[1..]) by {
        forall i | 0 <= i < 8 * |a| - 8 ensures Bit(a, i + 8) == Bit(a[1..], i) {
          assert (i + 8) / 8 == i / 8 + 1 && (i + 8) % 8 == i % 8;
        }
      }
      EvalSplit(2, BitSeq(a), 8);
      SmallPowers();
    }
  }

  method LoadBits(r: array<int>, a: seq<Byte>)
    requires r.Length == 256 && |a| == 32
    modifies r
    ensures r[..] == BitSeq(a) && Eval(2, r[..]) == Eval(256, a)
  {
    for i := 0 to 256
      invariant forall j :: 0 <= j < i ==> r[j] == Bit(a, j)
    {
      r[i] := Bit(a, i);
    }
    assert r[..] == BitSeq(a);
    BitSeqValue(a);
  }

  ghost predicate BitsFrom(r: seq<int>, i: nat)
  {
    forall j :: i <= j < |r| ==> r[j] == 0 || r[j] == 1
  }

  /** The odd digits a window may hold. */
  ghost predicate WindowDigit(d: int)
  {
    d == 0 || (d % 2 == 1 && -15 <= d <= 15)
  }

  /** The four places above `i` are empty. */
  ghost predicate Gap(r: seq<int>, i: nat)
  {
    forall j :: i < j < i + 5 && j < |r| ==> r[j] == 0
  }

  /** No carry can run off the end: the top bit is clear, or everything between is. */
  ghost predicate TopFree(r: seq<int>, i: nat)
    requires |r| == 256
  {
    r[255] == 0 || forall j :: i <= j < 255 ==> r[j] == 0
  }

  /** Add one at position `from`, whose bit is set; `lost` tells whether the carry ran past position 255. */
  method Carry(r: array<int>, from: nat) returns (ghost lost: bool)
    requires r.Length == 256 && from < 256 && BitsFrom(r[..], from) && r[from] == 1
    modifies r
    ensures (forall j :: 0 <= j < from ==> r[j] == old(r[j])) && BitsFrom(r[..], from) && r[from] == 0
    ensures Eval(2, r[..]) + (if lost then Power(2, r.Length) else 0) == old(Eval(2, r[..])) + Power(2, from)
    ensures old(r[255]) == 0 ==> !lost && TopFree(r[..], from)
  {
    var k := from;
    while k < 256
      invariant from <= k <= 256
      invariant forall j :: 0 <= j < 256 && !(from <= j < k) ==> r[j] == old(r[j])
      invariant forall j :: from <= j < k ==> r[j] == 0 && old(r[j]) == 1
      invariant Eval(2, r[..]) + Power(2, k) == old(Eval(2, r[..])) + Power(2, from)
    {
      ghost var was := r[..];
      if r[k] == 0 {
        EvalUpdate(2, was, k, 1);
        r[k] := 1;
        assert r[..] == was[k := 1];
        return false;
      }
      EvalUpdate(2, was, k, 0);
      r[k] := 0;
      assert r[..] == was[k := 0];
      k := k + 1;
    }
    lost := true;
  }

  /** A window at `i` still growing: it holds the bits below `i + b`, all cleared from their places. */
  ghost predicate Open(r: seq<int>, i: nat, b: nat)
    requires i < |r|
  {
    && 0 < r[i] < Power(2, b) && r[i] <= 15 && r[i] % 2 == 1
    && (forall j :: i < j < i + b && j < |r| ==> r[j] == 0)
    && BitsFrom(r, i + 1)
  }

  /** A window at `i` that has turned negative and takes no more bits. */
  ghost predicate Shut(r: seq<int>, i: nat)
    requires i < |r|
  {
    -15 <= r[i] < 0 && r[i] % 2 == 1 && BitsFrom(r, i + 1) && Gap(r, i)
  }

  lemma Step(b: nat)
    requires 1 <= b <= 6
    ensures b <= 3 ==> Power(2, b) <= 8
    ensures b == 4 ==> Power(2, b) == 16
    ensures b >= 5 ==> Power(2, b) >= 32
    ensures Power(2, b) % 2 == 0 && Power(2, b + 1) == 2 * Power(2, b)
  {
    SmallPowers();
  }

  /** Move the set bit at `i + b` down into the window digit at `i`. */
  method Merge(r: array<int>, i: nat, b: nat)
    requires r.Length == 256 && 1 <= b <= 6 && i + b < 256 && r[i + b] == 1
    requires Open(r[..], i, b) && r[i] + Power(2, b) <= 15
    modifies r
    ensures Open(r[..], i, b + 1) && r[..i] == old(r[..i]) && (old(r[255]) == 0 ==> r[255] == 0)
    ensures Eval(2, r[..]) == old(Eval(2, r[..]))
  {
    ghost var was := r[..];
    Step(b);
    MergeValue(was, i, b);
    hide Eval, Power;
    r[i] := r[i] + Power(2, b);
    r[i + b] := 0;
    assert r[..] == was[i := was[i] + Power(2, b)][i + b := 0];
  }

  lemma MergeValue(r: seq<int>, i: nat, b: nat)
    requires b > 0 && i + b < |r| && r[i + b] == 1
    ensures Eval(2, r[i := r[i] + Power(2, b)][i + b := 0]) == Eval(2, r)
  {
    hide Eval, Power;
    EvalUpdate(2, r, i, r[i] + Power(2, b));
    EvalUpdate(2, r[i := r[i] + Power(2, b)], i + b, 0);
    PowerAdd(2, b, i);
    assert Power(2, i) * Power(2, b) == Power(2, b) * Power(2, i);
  }

  /** Make the digit at `i` negative and carry into position `i + b`; this happens only four places up. */
  method Borrow(r: array<int>, i: nat, b: nat) returns (ghost lost: bool)
    requires r.Length == 256 && 1 <= b <= 6 && i + b < 256 && r[i + b] == 1
    requires Open(r[..], i, b) && r[i] + Power(2, b) > 15 && r[i] - Power(2, b) >= -15
    modifies r
    ensures b == 4 && Shut(r[..], i) && r[..i] == old(r[..i])
    ensures Eval(2, r[..]) + (if lost then Power(2, r.Length) else 0) == old(Eval(2, r[..]))
    ensures old(r[255]) == 0 ==> !lost && TopFree(r[..], i + 1)
  {
    ghost var was := r[..];
    Step(b);
    LowerDigit(was, i, b);
    r[i] := r[i] - Power(2, b);
    ghost var mid := r[..];
    assert mid == was[i := was[i] - Power(2, b)];
    lost := Carry(r, i + b);
    assert forall j :: 0 <= j < i + b ==> r[j] == mid[j];
  }

  lemma LowerDigit(r: seq<int>, i: nat, b: nat)
    requires i + b < |r|
    ensures Eval(2, r[i := r[i] - Power(2, b)]) == Eval(2, r) - Power(2, i + b)
  {
    EvalUpdate(2, r, i, r[i] - Power(2, b));
    PowerAdd(2, b, i);
  }

  /** The window that starts at the set bit `i`. */
  method Absorb(r: array<int>, i: nat) returns (ghost lost: bool)
    requires r.Length == 256 && i < 256 && BitsFrom(r[..], i) && r[i] == 1
    modifies r
    ensures r[..i] == old(r[..i]) && WindowDigit(r[i]) && BitsFrom(r[..], i + 1) && Gap(r[..], i)
    ensures Eval(2, r[..]) + (if lost then Power(2, r.Length) else 0) == old(Eval(2, r[..]))
    ensures old(r[255]) == 0 || i == 255 ==> !lost && TopFree(r[..], i + 1)
  {
    SmallPowers();
    lost := false;
    var b := 1;
    while b <= 6 && i + b < 256
      invariant 1 <= b <= 7 && i + b <= 256
      invariant r[..i] == old(r[..i])
      invariant (Open(r[..], i, b) && !lost) || (Shut(r[..], i) && b >= 5)
      invariant Eval(2, r[..]) + (if lost then Power(2, r.Length) else 0) == old(Eval(2, r[..]))
      invariant old(r[255]) == 0 ==> !lost && if r[i] > 0 then r[255] == 0 else TopFree(r[..], i + 1)
    {
      Step(b);
      if r[i + b] != 0 {
        if r[i] + Power(2, b) <= 15 {
          Merge(r, i, b);
        } else if r[i] - Power(2, b) >= -15 {
          lost := Borrow(r, i, b);
        } else {
          break;
        }
      }
      b := b + 1;
    }
  }

  /** `slide`: odd signed digits in [-15, 15], at least five places apart, that spell the scalar. `lost` counts the
      carries that ran past position 255; a scalar below 2^255 loses none. */
  method SlideScalar(r: array<int>, a: seq<Byte>) returns (ghost lost: nat)
    requires r.Length == 256 && |a| == 32
    modifies r
    ensures forall i :: 0 <= i < 256 ==> WindowDigit(r[i]) && (r[i] != 0 ==> Gap(r[..], i))
    ensures Eval(2, r[..]) + lost * Power(2, r.Length) == Eval(256, a)
    ensures a[31] <= 127 ==> lost == 0 && Eval(2, r[..]) == Eval(256, a)
  {
    hide Eval, Power;
    LoadBits(r, a);
    lost := 0;
    assert a[31] <= 127 ==> r[255] == 0 by { TopBit(a); assert r[255] == r[..][255]; }
    assert BitsFrom(r[..], 0);
    for i := 0 to 256
      invariant forall j :: 0 <= j < i ==> WindowDigit(r[j]) && (r[j] != 0 ==> Gap(r[..], j))
      invariant BitsFrom(r[..], i)
      invariant Eval(2, r[..]) + lost * Power(2, r.Length) == Eval(256, a)
      invariant a[31] <= 127 ==> lost == 0 && TopFree(r[..], i)
    {
      if r[i] != 0 {
        ghost var was := r[..];
        ghost var gone := Absorb(r, i);
        assert forall j :: 0 <= j < i ==> r[j] == r[..i][j] == was[..i][j] == was[j];
        assert forall j :: 0 <= j < i && was[j] != 0 ==> j + 5 <= i;
        LoseOne(lost, Power(2, r.Length));
        lost := if gone then lost + 1 else lost;
      }
    }
  }

  lemma LoseOne(n: nat, p: int)
    ensures (n + 1) * p == n * p + p
  {
  }

  lemma TopBit(a: seq<Byte>)
    requires |a| == 32
    ensures Bit(a, 255) == a[31] / 128
  {
    SmallPowers();
  }

  /** No digit string spells the power of two just above it. */
  lemma {:induction false} NotThePower(r: seq<int>)
    requires forall i :: 0 <= i < |r| ==> WindowDigit(r[i])
    ensures Eval(2, r) != Power(2, |r|)
  {
    if r != [] {
      assert WindowDigit(r[0]);
      NotThePower(r[1..]);
    }
  }

  function AllOnes(): seq<Byte> { seq(32, _ => 255) }

  lemma {:induction false} OnesValue(s: seq<Byte>)
    requires forall i :: 0 <= i < |s| ==> s[i] == 255
    ensures Eval(256, s) + 1 == Power(256, |s|)
  {
    if s != [] { OnesValue(s[1..]); }
  }

  lemma {:induction false} BytePower(n: nat)
    ensures Power(2, 8 * n) == Power(256, n)
  {
    if n > 0 {
      BytePower(n - 1);
      SmallPowers();
      PowerAdd(2, 8, 8 * (n - 1));
    }
  }

  lemma FirstFive(r: seq<int>)
    requires |r| > 4 && Gap(r, 0)
    ensures Eval(2, r) == r[0] + 32 * Eval(2, r[5..])
  {
    assert r[1..][1..] == r[2..] && r[2..][1..] == r[3..] && r[3..][1..] == r[4..] && r[4..][1..] == r[5..];
    assert Eval(2, r[4..]) == 2 * Eval(2, r[5..]) && Eval(2, r[3..]) == 2 * Eval(2, r[4..]);
    assert Eval(2, r[2..]) == 2 * Eval(2, r[3..]) && Eval(2, r[1..]) == 2 * Eval(2, r[2..]);
  }

  lemma OddFirst(d: int, e: int, f: int, p: int)
    requires WindowDigit(d) && d + 2 * e == 32 * p - 1 && (d != 0 ==> d + 32 * f == 32 * p - 1)
    ensures f == p
  {
  }

  /** Digits of the promised form do not spell a power of two less one. */
  lemma NotAllOnes(r: seq<int>, p: int)
    requires |r| > 5 && WindowDigit(r[0]) && (r[0] != 0 ==> Gap(r, 0)) && p == Power(2, |r| - 5)
    requires forall i :: 0 <= i < |r[5..]| ==> WindowDigit(r[5..][i])
    ensures Eval(2, r) != 32 * p - 1
  {
    hide Power, Gap, WindowDigit;
    NotThePower(r[5..]);
    if Eval(2, r) == 32 * p - 1 {
      if r[0] != 0 { FirstFive(r); }
      OddFirst(r[0], Eval(2, r[1..]), Eval(2, r[5..]), p);
    }
  }

  /** On the scalar 2^256 - 1 a carry is lost: no digits of the promised form spell it. */
  lemma CarryIsLost(r: seq<int>, lost: nat)
    requires |r| == 256 && forall i :: 0 <= i < |r| ==> WindowDigit(r[i]) && (r[i] != 0 ==> Gap(r, i))
    requires Eval(2, r) + lost * Power(2, |r|) == Eval(256, AllOnes())
    ensures lost > 0
  {
    hide Power, Eval, Gap, WindowDigit;
    OnesValue(AllOnes());
    BytePower(32);
    SmallPowers();
    PowerAdd(2, 5, |r| - 5);
    assert WindowDigit(r[0]);
    assert forall i :: 0 <= i < |r[5..]| ==> r[5..][i] == r[i + 5];
    NotAllOnes(r, Power(2, |r| - 5));
  }
}
