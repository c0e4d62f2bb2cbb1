/** The carry-and-fold core shared by `sc_reduce`, `sc_reduce32`, `sc_add`, `sc_sub` and `sc_mulsub`:
    signed 21-bit limbs held in 64-bit integers, reduced modulo the group order. */
module ScalarLimbs {
  import opened Positional

  /** The order of the base point, section 5.1 of RFC 8032. */
  const L := 7237005577332262213973186563042994240857116359379907606001950938285454250989
  const TWO252 := 7237005577332262213973186563042994240829374041602535252466099000494570602496
  const RADIX := 2097152
  const HALF := 1048576

  /** 2^252 modulo L, as six signed limbs. */
  const RESIDUE := [666643, 470296, 654183, -997805, 136657, -683901]

  ghost function Value(s: seq<int>): int { Eval(RADIX, s) }

  /** Limbs `from..to` all have magnitude at most `bound`. */
  ghost predicate Within(s: seq<int>, from: nat, to: nat, bound: int)
  {
    to <= |s| && forall i :: from <= i < to ==> -bound <= s[i] <= bound
  }

  /** Twelve limbs as they are loaded from 32 bytes and as they are packed: 21 bits each, 25 in the top one. */
  ghost predicate Narrow(t: seq<int>)
  {
    |t| == 12 && (forall i :: 0 <= i < 11 ==> 0 <= t[i] < RADIX) && 0 <= t[11] < 33554432
  }

  /** Move `c` units out of limb `i` into limb `i + 1`; no 64-bit operation overflows. */
  function CarryBy(s: seq<int>, i: nat, c: int): (t: seq<int>)
    requires i + 1 < |s|
    requires Int64(s[i + 1] + c) && Int64(c * RADIX) && Int64(s[i] - c * RADIX)
  {
    s[i + 1 := s[i + 1] + c][i := s[i] - c * RADIX]
  }

  ghost predicate AddFits(s: seq<int>, i: nat, y: int, m: seq<int>)
  {
    && i + |m| <= |s|
    && forall j :: 0 <= j < |m| ==> Int64(y * m[j]) && Int64(s[i + j] + y * m[j])
  }

  /** `s[i + j] += y * m[j]` for every `j`; neither a product nor a sum overflows. */
  function AddMultiple(s: seq<int>, i: nat, y: int, m: seq<int>): (t: seq<int>)
    requires AddFits(s, i, y, m)
    ensures |t| == |s|
    decreases |m|
  {
    if m == [] then s else AddMultiple(s[i := s[i] + y * m[0]], i + 1, y, m[1..])
  }

  lemma {:induction false} AddMultipleAt(s: seq<int>, i: nat, y: int, m: seq<int>, j: nat)
    requires AddFits(s, i, y, m) && j < |s|
    ensures AddMultiple(s, i, y, m)[j] == s[j] + if i <= j < i + |m| then y * m[j - i] else 0
    decreases |m|
  {
    if m != [] {
      AddMultipleAt(s[i := s[i] + y * m[0]], i + 1, y, m[1..], j);
    }
  }

  lemma CarryValue(s: seq<int>, i: nat, c: int)
    requires i + 1 < |s|
    requires Int64(s[i + 1] + c) && Int64(c * RADIX) && Int64(s[i] - c * RADIX)
    ensures Value(CarryBy(s, i, c)) == Value(s)
  {
    var t := s[i + 1 := s[i + 1] + c];
    EvalUpdate(RADIX, s, i + 1, s[i + 1] + c);
    EvalUpdate(RADIX, t, i, s[i] - c * RADIX);
    var p := Power(RADIX, i);
    assert Power(RADIX, i + 1) == RADIX * p;
    assert c * (RADIX * p) + (-c * RADIX) * p == 0;
  }

  lemma {:induction false} AddMultipleValue(s: seq<int>, i: nat, y: int, m: seq<int>)
    requires AddFits(s, i, y, m)
    ensures Value(AddMultiple(s, i, y, m)) == Value(s) + (y * Power(RADIX, i)) * Eval(RADIX, m)
    decreases |m|
  {
    if m != [] {
      var t := s[i := s[i] + y * m[0]];
      AddMultipleValue(t, i + 1, y, m[1..]);
      EvalUpdate(RADIX, s, i, s[i] + y * m[0]);
      Spread(y, Power(RADIX, i), m[0], Eval(RADIX, m[1..]));
    }
  }

  lemma Spread(y: int, p: int, d: int, e: int)
    ensures (y * d) * p + (y * (RADIX * p)) * e == (y * p) * (d + RADIX * e)
  {
    assert (y * d) * p == (y * p) * d;
    assert (y * (RADIX * p)) * e == RADIX * ((y * p) * e) == (y * p) * (RADIX * e);
  }

  lemma ProductBound(y: int, m: int, b: int, c: int)
    requires -b <= y <= b && -c <= m <= c
    ensures -(b * c) <= y * m <= b * c
  {
    if 0 <= m { MulMono(m, y, b); MulMono(m, -b, y); MulMono(b, m, c); }
    else { MulMono(-m, y, b); MulMono(-m, -b, y); MulMono(b, -m, c); }
  }

  lemma ResidueFits(s: seq<int>, i: nat, y: int)
    requires i + 6 <= |s| && Within(s, i, i + 6, 0x1000_0000_0000_0000) && -0x100_0000_0000 <= y <= 0x100_0000_0000
    ensures AddFits(s, i, y, RESIDUE)
  {
    forall j | 0 <= j < 6 ensures Int64(y * RESIDUE[j]) && Int64(s[i + j] + y * RESIDUE[j]) {
      ProductBound(y, RESIDUE[j], 0x100_0000_0000, HALF);
      assert -0x1000_0000_0000_0000 <= s[i + j] <= 0x1000_0000_0000_0000;
    }
  }

  /** Replace limb `k` by its residue modulo L, twelve limbs lower. */
  function Fold(s: seq<int>, k: nat): (t: seq<int>)
    requires 12 <= k < |s|
    requires Within(s, k - 12, k - 6, 0x1000_0000_0000_0000) && Within(s, k, k + 1, 0x100_0000_0000)
    ensures |t| == |s| && t[k] == 0
  {
    ResidueFits(s, k - 12, s[k]);
    AddMultiple(s, k - 12, s[k], RESIDUE)[k := 0]
  }

  lemma ResidueValue()
    ensures Eval(RADIX, RESIDUE) == TWO252 - L
  {
    assert RESIDUE[1..] == [470296, 654183, -997805, 136657, -683901];
    assert RESIDUE[1..][1..] == [654183, -997805, 136657, -683901];
    assert RESIDUE[1..][1..][1..] == [-997805, 136657, -683901];
    assert RESIDUE[1..][1..][1..][1..] == [136657, -683901];
  }

  lemma RadixTo12()
    ensures Power(RADIX, 12) == TWO252
  {
    assert Power(RADIX, 6) == RADIX * RADIX * RADIX * RADIX * RADIX * RADIX;
    PowerAdd(RADIX, 6, 6);
  }

  lemma AddResidueValue(s: seq<int>, i: nat, y: int)
    requires i + 6 <= |s| && Within(s, i, i + 6, 0x1000_0000_0000_0000) && -0x100_0000_0000 <= y <= 0x100_0000_0000
    ensures AddFits(s, i, y, RESIDUE)
    ensures Value(AddMultiple(s, i, y, RESIDUE)) == Value(s) + (TWO252 - L) * (y * Power(RADIX, i))
  {
    ResidueFits(s, i, y);
    AddMultipleValue(s, i, y, RESIDUE);
    ResidueValue();
  }

  lemma ClearLimb(t: seq<int>, k: nat)
    requires 12 <= k < |t|
    ensures Value(t[k := 0]) == Value(t) - TWO252 * (t[k] * Power(RADIX, k - 12))
  {
    EvalUpdate(RADIX, t, k, 0);
    RadixPast12(k - 12, t[k]);
  }

  lemma RadixPast12(n: nat, y: int)
    ensures (0 - y) * Power(RADIX, n + 12) == -(TWO252 * (y * Power(RADIX, n)))
  {
    PowerAdd(RADIX, 12, n);
    RadixTo12();
    var p := Power(RADIX, n);
    assert y * (TWO252 * p) == TWO252 * (y * p);
  }

  /** Folding limb `k` subtracts a multiple of L. */
  lemma FoldValue(s: seq<int>, k: nat)
    requires 12 <= k < |s|
    requires Within(s, k - 12, k - 6, 0x1000_0000_0000_0000) && Within(s, k, k + 1, 0x100_0000_0000)
    ensures Value(Fold(s, k)) == Value(s) - L * (s[k] * Power(RADIX, k - 12))
  {
    hide AddMultiple, AddFits, Power, Eval;
    AddResidueValue(s, k - 12, s[k]);
    AddMultipleAt(s, k - 12, s[k], RESIDUE, k);
    ClearLimb(AddMultiple(s, k - 12, s[k], RESIDUE), k);
  }
}
