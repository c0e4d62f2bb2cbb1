/** The carry passes and folds of the `sc_*` routines, as loops over limbs, and the common tail that
    brings twelve balanced limbs into [0, L). */
module ScalarReduce {
  import opened Positional
  import opened ScalarLimbs

  lemma ModShift(x: int, q: int)
    ensures (x - L * q) % L == x % L
  {
  }

  lemma ModUnique(x: int, y: int)
    requires 0 <= x < L && x % L == y % L
    ensures x == y % L
  {
  }

  /** Balanced carries out of limbs `first`, `first + 2`, ..., `last`. Each leaves a limb in
      [-2^20, 2^20) and changes its upper neighbour by at most `c`. */
  method RoundPass(s: seq<int>, first: nat, last: nat, ghost c: int) returns (t: seq<int>)
    requires first <= last < |s| - 1 && (last - first) % 2 == 0
    requires 1 <= c <= 0x100_0000_0000
    requires Within(s, first, last + 1, (c - 1) * RADIX) && Within(s, last + 1, last + 2, 0x1000_0000_0000_0000)
    requires (c - 1) * RADIX <= 0x1000_0000_0000_0000
    ensures |t| == |s| && Value(t) == Value(s)
    ensures forall j :: 0 <= j < |s| ==>
      if first <= j <= last && (j - first) % 2 == 0 then -HALF <= t[j] < HALF
      else if first <= j <= last + 1 then s[j] - c <= t[j] <= s[j] + c
      else t[j] == s[j]
  {
    t := s;
    var i := first;
    while i <= last
      invariant first <= i <= last + 2 && (i - first) % 2 == 0
      invariant |t| == |s| && Value(t) == Value(s)
      invariant forall j :: 0 <= j < |s| ==>
        if first <= j < i && (j - first) % 2 == 0 then -HALF <= t[j] < HALF
        else if first <= j < i then s[j] - c <= t[j] <= s[j] + c
        else t[j] == s[j]
    {
      var carry := (t[i] + HALF) / RADIX;
      assert t[i] == s[i] && t[i + 1] == s[i + 1] && -c <= carry <= c;
      CarryValue(t, i, carry);
      t := CarryBy(t, i, carry);
      i := i + 2;
    }
  }

  /** Floor carries out of limbs 0, 1, ..., `last`, each leaving a limb in [0, 2^21). */
  method FloorChain(s: seq<int>, last: nat) returns (t: seq<int>)
    requires last < |s| - 1 && Within(s, 0, last + 2, 0x800_0000_0000_0000)
    ensures |t| == |s| && Value(t) == Value(s)
    ensures forall j :: 0 <= j <= last ==> 0 <= t[j] < RADIX
    ensures forall j :: last + 1 < j < |s| ==> t[j] == s[j]
  {
    t := s;
    var i := 0;
    while i <= last
      invariant 0 <= i <= last + 1
      invariant |t| == |s| && Value(t) == Value(s)
      invariant forall j :: 0 <= j < i ==> 0 <= t[j] < RADIX
      invariant s[i] - 0x100_0000_0000 <= t[i] <= s[i] + 0x100_0000_0000
      invariant forall j :: i < j < |s| ==> t[j] == s[j]
    {
      var carry := t[i] / RADIX;
      CarryValue(t, i, carry);
      t := CarryBy(t, i, carry);
      i := i + 1;
    }
  }

  /** One fold changes each of its six targets by at most 2^20 times the folded limb. */
  lemma FoldAt(s: seq<int>, k: nat, c: int, j: nat)
    requires 12 <= k < |s| && j < |s| && 0 <= c
    requires Within(s, k - 12, k - 6, 0x1000_0000_0000_0000) && Within(s, k, k + 1, 0x100_0000_0000)
    requires -c <= s[k] <= c
    ensures if j == k then Fold(s, k)[j] == 0
            else if k - 12 <= j < k - 6 then s[j] - HALF * c <= Fold(s, k)[j] <= s[j] + HALF * c
            else Fold(s, k)[j] == s[j]
  {
    ResidueFits(s, k - 12, s[k]);
    AddMultipleAt(s, k - 12, s[k], RESIDUE, j);
    if k - 12 <= j < k - 6 {
      ProductBound(s[k], RESIDUE[j - (k - 12)], c, HALF);
    }
  }

  /** Fold limb `k`, of magnitude at most `c`; every target moves by at most `d`. */
  method FoldLimb(s: seq<int>, k: nat, ghost c: int, ghost d: int) returns (t: seq<int>)
    requires 12 <= k < |s| && 0 <= c <= 0x100_0000_0000 && d == HALF * c
    requires Within(s, k - 12, k - 6, 0x1000_0000_0000_0000) && Within(s, k, k + 1, c)
    ensures |t| == |s| && Value(t) == Value(s) - L * (s[k] * Power(RADIX, k - 12))
    ensures forall j :: 0 <= j < |s| ==>
      if j == k then t[j] == 0
      else if k - 12 <= j < k - 6 then s[j] - d <= t[j] <= s[j] + d
      else t[j] == s[j]
  {
    FoldValue(s, k);
    t := Fold(s, k);
    forall j: nat | j < |s|
      ensures if j == k then t[j] == 0
              else if k - 12 <= j < k - 6 then s[j] - d <= t[j] <= s[j] + d
              else t[j] == s[j]
    {
      FoldAt(s, k, c, j);
    }
  }

  lemma SixSteps(n: int, d: int)
    requires 0 <= n < 6 && 0 <= d
    ensures (n + 1) * d == n * d + d && 0 <= (n + 1) * d <= 6 * d
  {
    MulMono(d, n + 1, 6);
  }

  /** Fold limbs `hi` down to `lo` into the limbs below `lo`; `d` bounds the effect of one fold. */
  method FoldRange(s: seq<int>, hi: nat, lo: nat, ghost c: int, ghost d: int) returns (t: seq<int>)
    requires 12 <= lo <= hi < |s| && hi < lo + 6
    requires 0 <= c <= 0x100_0000_0000 && d == HALF * c && 6 * d <= 0x800_0000_0000_0000
    requires Within(s, lo, hi + 1, c) && Within(s, lo - 12, lo, 0x800_0000_0000_0000)
    ensures |t| == |s| && Value(t) % L == Value(s) % L
    ensures forall j :: 0 <= j < |s| ==>
      if lo <= j <= hi then t[j] == 0
      else if lo - 12 <= j < hi - 6 then s[j] - 6 * d <= t[j] <= s[j] + 6 * d
      else t[j] == s[j]
  {
    t := s;
    var k := hi;
    ghost var slack := 0;
    while lo <= k
      invariant lo - 1 <= k <= hi && slack == (hi - k) * d && 0 <= slack <= 6 * d
      invariant |t| == |s| && Value(t) % L == Value(s) % L
      invariant forall j :: 0 <= j < |s| ==>
        if k < j <= hi then t[j] == 0
        else if lo - 12 <= j < hi - 6 then s[j] - slack <= t[j] <= s[j] + slack
        else t[j] == s[j]
    {
      ModShift(Value(t), t[k] * Power(RADIX, k - 12));
      t := FoldLimb(t, k, c, d);
      SixSteps(hi - k, d);
      slack := slack + d;
      k := k - 1;
    }
  }

  lemma {:induction false} ValueMagnitude(s: seq<int>, m: int)
    requires 0 <= m && forall i :: 0 <= i < |s| ==> -m <= s[i] <= m
    ensures m - m * Power(RADIX, |s|) <= Value(s) <= m * Power(RADIX, |s|) - m
  {
    if s != [] {
      ValueMagnitude(s[1..], m);
      var p := Power(RADIX, |s| - 1);
      assert m * (RADIX * p) == RADIX * (m * p);
    }
  }

  lemma RadixTo10()
    ensures Power(RADIX, 10) == 0x4_0000_0000_0000_0000_0000_0000_0000_0000_0000_0000_0000_0000_0000
  {
    assert Power(RADIX, 5) == RADIX * RADIX * RADIX * RADIX * RADIX;
    PowerAdd(RADIX, 5, 5);
  }

  /** The top limbs of thirteen, spelled out. */
  lemma TopLimbs(s: seq<int>)
    requires |s| == 13
    ensures Value(s) == Value(s[..10]) + Power(RADIX, 10) * (s[10] + RADIX * (s[11] + RADIX * s[12]))
    ensures Value(s) == Value(s[..11]) + Power(RADIX, 11) * (s[11] + RADIX * s[12])
    ensures Value(s) == Value(s[..12]) + TWO252 * s[12]
  {
    EvalSplit(RADIX, s, 10);
    EvalSplit(RADIX, s, 11);
    EvalSplit(RADIX, s, 12);
    RadixTo12();
    assert s[12..] == [s[12]] && s[12..][1..] == [];
    assert s[11..][0] == s[11] && s[11..][1..] == s[12..];
    assert s[10..][0] == s[10] && s[10..][1..] == s[11..];
  }

  /** Twelve balanced limbs stay well inside (-2^252, 2^252). */
  lemma BalancedBound(s: seq<int>)
    requires |s| == 13 && Within(s, 0, 11, 0x40_0000_0000) && -HALF <= s[11] <= HALF
    ensures -3 * TWO252 <= 4 * (Value(s) - TWO252 * s[12]) <= 3 * TWO252
  {
    TopLimbs(s);
    ValueMagnitude(s[..10], 0x40_0000_0000);
    RadixTo10();
  }

  /** After the floor chain the top limb is the sign of the value. */
  lemma FloorTop(s: seq<int>)
    requires |s| == 13 && (forall j :: 0 <= j < 12 ==> 0 <= s[j] < RADIX)
    requires -TWO252 <= Value(s) < TWO252
    ensures s[12] == if Value(s) < 0 then -1 else 0
  {
    TopLimbs(s);
    EvalBound(RADIX, s[..12]);
    RadixTo12();
  }

  lemma FinalTop(s: seq<int>)
    requires |s| == 13 && (forall j :: 0 <= j < 11 ==> 0 <= s[j] < RADIX) && s[12] == 0
    requires 0 <= Value(s) < L
    ensures 0 <= s[11] < 2 * RADIX
  {
    TopLimbs(s);
    EvalBound(RADIX, s[..11]);
    RadixTo12();
    assert Power(RADIX, 12) == RADIX * Power(RADIX, 11);
  }

  /** First half of the tail: two balanced passes and a fold give a value in (-2^252, 2^252). */
  method Balance(s: seq<int>) returns (t: seq<int>)
    requires |s| == 13 && s[12] == 0 && Within(s, 0, 12, 0x200_0000_0000_0000)
    ensures |t| == 13 && Value(t) % L == Value(s) % L
    ensures Within(t, 0, 12, 0x401_0000_0000_0000) && t[12] == 0 && -TWO252 <= Value(t) < TWO252
  {
    t := RoundPass(s, 0, 10, 0x10_0000_0001);
    t := RoundPass(t, 1, 11, 0x20_0000_0001);
    BalancedBound(t);
    ghost var v, y := Value(t), t[12];
    assert Within(t, 0, 12, 0x40_0000_0000) && Within(t, 12, 13, 0x40_0000_0000);
    t := FoldLimb(t, 12, 0x40_0000_0000, 0x400_0000_0000_0000);
    assert Power(RADIX, 0) == 1;
    ModShift(v, y);
    FoldedBound(v, y, Value(t));
  }

  lemma FoldedBound(v: int, y: int, w: int)
    requires -3 * TWO252 <= 4 * (v - TWO252 * y) <= 3 * TWO252
    requires -0x40_0000_0000 <= y <= 0x40_0000_0000 && w == v - L * y
    ensures -TWO252 <= w < TWO252
  {
  }

  /** Second half: floor carries, a fold of the sign limb, floor carries. */
  method Settle(s: seq<int>) returns (t: seq<int>)
    requires |s| == 13 && Within(s, 0, 12, 0x401_0000_0000_0000) && s[12] == 0 && -TWO252 <= Value(s) < TWO252
    ensures |t| == 13 && Value(t) == Value(s) % L
    ensures (forall j :: 0 <= j < 11 ==> 0 <= t[j] < RADIX) && 0 <= t[11] < 2 * RADIX && t[12] == 0
  {
    assert Within(s, 0, 13, 0x401_0000_0000_0000);
    t := FloorChain(s, 11);
    FloorTop(t);
    ghost var w, z := Value(t), t[12];
    assert Within(t, 0, 12, RADIX);
    t := FoldLimb(t, 12, 1, HALF);
    assert Power(RADIX, 0) == 1;
    ModShift(w, z);
    assert Within(t, 0, 12, 0x40_0000);
    t := FloorChain(t, 10);
    FinalTop(t);
    ModUnique(Value(t), Value(s));
  }

  /** The tail common to all five routines. */
  method Finish(s: seq<int>) returns (t: seq<int>)
    requires |s| == 13 && s[12] == 0 && Within(s, 0, 12, 0x200_0000_0000_0000)
    ensures |t| == 13 && Value(t) == Value(s) % L
    ensures (forall j :: 0 <= j < 11 ==> 0 <= t[j] < RADIX) && 0 <= t[11] < 2 * RADIX && t[12] == 0
  {
    t := Balance(s);
    t := Settle(t);
  }

  /** Limbs 18..23 folded away and limbs 6..16 brought back to moderate size. */
  method FoldTop(s: seq<int>) returns (t: seq<int>)
    requires |s| == 24 && Within(s, 0, 24, 0x8000_0000)
    ensures |t| == 24 && Value(t) % L == Value(s) % L
    ensures Within(t, 0, 18, 0x4_0000_0000) && forall j :: 18 <= j < 24 ==> t[j] == 0
  {
    t := FoldRange(s, 23, 18, 0x8000_0000, 0x8_0000_0000_0000);
    assert Within(t, 0, 6, 0x8000_0000) && Within(t, 6, 17, 0x40_0000_0000_0000);
    t := RoundPass(t, 6, 16, 0x2_0000_0001);
    t := RoundPass(t, 7, 15, 0x2_0000_0001);
  }

  lemma DropZeros(t: seq<int>, n: nat)
    requires n <= |t| && forall j :: n <= j < |t| ==> t[j] == 0
    ensures Value(t[..n]) == Value(t)
  {
    EvalSplit(RADIX, t, n);
    EvalZeros(RADIX, t[n..]);
  }

  /** The path of `sc_reduce` and `sc_mulsub`: 24 limbs folded down to thirteen, then `Finish`. */
  method FinishWide(s: seq<int>) returns (t: seq<int>)
    requires |s| == 24 && Within(s, 0, 24, 0x8000_0000)
    ensures |t| == 13 && Value(t) == Value(s) % L
    ensures (forall j :: 0 <= j < 11 ==> 0 <= t[j] < RADIX) && 0 <= t[11] < 2 * RADIX && t[12] == 0
  {
    t := FoldTop(s);
    assert Within(t, 12, 18, 0x4_0000_0000) && Within(t, 0, 12, 0x4_0000_0000);
    t := FoldRange(t, 17, 12, 0x4_0000_0000, 0x40_0000_0000_0000);
    DropZeros(t, 13);
    t := t[..13];
    assert Within(t, 0, 12, 0x200_0000_0000_0000);
    t := Finish(t);
  }
}
