/** The field element in 32 bytes: loads, the canonicity test and the carries of `fe_frombytes`. */
module FieldFromBytes {
  import opened Positional
  import opened FieldLimbs
  import opened FieldMul
  import opened FieldBytes
  import opened FieldOps
  import opened ScalarBytes

  /** The low 255 bits. */
  ghost function Low(s: seq<Byte>): int
    requires |s| == 32
  {
    Eval(256, s) - TWO255 * (s[31] / 128)
  }

  /** The ten overlapping loads, shifted to the start of their limbs. */
  function LoadLimbs(s: seq<Byte>): (h: Fe)
    requires |s| == 32
  {
    [Load4(s, 0), Load3(s, 4) * 64, Load3(s, 7) * 32, Load3(s, 10) * 8, Load3(s, 13) * 4,
     Load4(s, 16), Load3(s, 20) * 128, Load3(s, 23) * 32, Load3(s, 26) * 16, Load3(s, 29) % 8388608 * 4]
  }

  lemma Past3(s: seq<Byte>, i: nat)
    requires i + 3 <= |s|
    ensures From(s, i) == Load3(s, i) + 16777216 * From(s, i + 3)
  {
    FromStep(s, i);
    FromStep(s, i + 1);
    FromStep(s, i + 2);
  }

  lemma Past4(s: seq<Byte>, i: nat)
    requires i + 4 <= |s|
    ensures From(s, i) == Load4(s, i) + 4294967296 * From(s, i + 4)
  {
    Past3(s, i);
    FromStep(s, i + 3);
  }

  lemma TopLoad(s: seq<Byte>)
    requires |s| == 32
    ensures From(s, 29) == Load3(s, 29) == Load3(s, 29) % 8388608 + 8388608 * (s[31] as int / 128)
  {
    Past3(s, 29);
    assert s[32..] == [];
  }

  /** The loads spell the low 255 bits. */
  lemma LoadValue(s: seq<Byte>)
    requires |s| == 32
    ensures Value(LoadLimbs(s)) == Low(s)
  {
    hide From, Load3, Load4;
    Past4(s, 0); Past3(s, 4); Past3(s, 7); Past3(s, 10); Past3(s, 13);
    Past4(s, 16); Past3(s, 20); Past3(s, 23); Past3(s, 26);
    TopLoad(s);
    WholeFrom(s);
    ValueIs(LoadLimbs(s));
  }

  lemma WholeFrom(s: seq<Byte>)
    ensures From(s, 0) == Eval(256, s)
  {
    assert s[0..] == s;
  }

  /** The test against encodings of 2^255 - 19 and above. */
  predicate TooLarge(h: Fe)
  {
    && h[9] == 33554428 && h[8] == 268435440 && h[7] == 536870880 && h[6] == 2147483520 && h[5] == 4294967295
    && h[4] == 67108860 && h[3] == 134217720 && h[2] == 536870880 && h[1] == 1073741760 && h[0] >= 4294967277
  }

  lemma LoadRange(s: seq<Byte>, i: nat)
    ensures i + 3 <= |s| ==> 0 <= Load3(s, i) <= 16777215
    ensures i + 4 <= |s| ==> 0 <= Load4(s, i) <= 4294967295
  {
  }

  /** It rejects exactly those. */
  lemma TooLargeExactly(s: seq<Byte>)
    requires |s| == 32
    ensures TooLarge(LoadLimbs(s)) <==> Low(s) >= P
  {
    LoadValue(s);
    ValueIs(LoadLimbs(s));
    hide Load3, Load4, Low;
    LoadRange(s, 0); LoadRange(s, 4); LoadRange(s, 7); LoadRange(s, 10); LoadRange(s, 13);
    LoadRange(s, 16); LoadRange(s, 20); LoadRange(s, 23); LoadRange(s, 26); LoadRange(s, 29);
  }

  const LOADED := [4294967296, 1073741824, 536870912, 134217728, 67108864, 4294967296, 2147483648,
    536870912, 268435456, 33554432]

  lemma LoadBounded(s: seq<Byte>)
    requires |s| == 32
    ensures Bounded(LoadLimbs(s), LOADED)
  {
    hide Load3, Load4;
    LoadRange(s, 0); LoadRange(s, 4); LoadRange(s, 7); LoadRange(s, 10); LoadRange(s, 13);
    LoadRange(s, 16); LoadRange(s, 20); LoadRange(s, 23); LoadRange(s, 26); LoadRange(s, 29);
  }

  // Bounds after each of the carries out of limbs 9, 1, 3, 5, 7.
  const ODD1 := [4294967334, 1073741824, 536870912, 134217728, 67108864, 4294967296, 2147483648,
    536870912, 268435456, 16777216]
  const ODD2 := [4294967334, 16777216, 536870945, 134217728, 67108864, 4294967296, 2147483648,
    536870912, 268435456, 16777216]
  const ODD3 := [4294967334, 16777216, 536870945, 16777216, 67108869, 4294967296, 2147483648,
    536870912, 268435456, 16777216]
  const ODD4 := [4294967334, 16777216, 536870945, 16777216, 67108869, 16777216, 2147483777, 536870912,
    268435456, 16777216]
  const ODD5 := [4294967334, 16777216, 536870945, 16777216, 67108869, 16777216, 2147483777, 16777216,
    268435473, 16777216]

  lemma OddBounds()
    ensures Next(LOADED, 9) == ODD1
    ensures Next(ODD1, 1) == ODD2
    ensures Next(ODD2, 3) == ODD3
    ensures Next(ODD3, 5) == ODD4
    ensures Next(ODD4, 7) == ODD5
  {
  }

  method CarryOdd(s: seq<int>) returns (t: seq<int>, ghost q: int)
    requires Bounded(s, LOADED)
    ensures Bounded(t, ODD5) && Value(t) + P * q == Value(s)
  {
    hide Value, Next;
    OddBounds();
    t, q := CarryLimb(s, 9, LOADED, 0);
    t, q := CarryLimb(t, 1, ODD1, q);
    t, q := CarryLimb(t, 3, ODD2, q);
    t, q := CarryLimb(t, 5, ODD3, q);
    t, q := CarryLimb(t, 7, ODD4, q);
  }

  // Bounds after each of the carries out of limbs 0, 2, 4, 6, 8.
  const EVEN1 := [33554432, 16777281, 536870945, 16777216, 67108869, 16777216, 2147483777, 16777216,
    268435473, 16777216]
  const EVEN2 := [33554432, 16777281, 33554432, 16777225, 67108869, 16777216, 2147483777, 16777216, 268435473, 16777216]
  const EVEN3 := [33554432, 16777281, 33554432, 16777225, 33554432, 16777218, 2147483777, 16777216, 268435473, 16777216]
  const EVEN4 := [33554432, 16777281, 33554432, 16777225, 33554432, 16777218, 33554432, 16777249, 268435473, 16777216]
  const EVEN5 := [33554432, 16777281, 33554432, 16777225, 33554432, 16777218, 33554432, 16777249, 33554432, 16777221]

  lemma EvenBounds()
    ensures Next(ODD5, 0) == EVEN1
    ensures Next(EVEN1, 2) == EVEN2
    ensures Next(EVEN2, 4) == EVEN3
    ensures Next(EVEN3, 6) == EVEN4
    ensures Next(EVEN4, 8) == EVEN5
  {
  }

  method CarryEven(s: seq<int>) returns (t: seq<int>, ghost q: int)
    requires Bounded(s, ODD5)
    ensures Bounded(t, EVEN5) && Value(t) + P * q == Value(s)
  {
    hide Value, Next;
    EvenBounds();
    t, q := CarryLimb(s, 0, ODD5, 0);
    t, q := CarryLimb(t, 2, EVEN1, q);
    t, q := CarryLimb(t, 4, EVEN2, q);
    t, q := CarryLimb(t, 6, EVEN3, q);
    t, q := CarryLimb(t, 8, EVEN4, q);
  }

  /** The part of `ge_frombytes_vartime` that is `fe_frombytes`: refuses exactly the encodings of 2^255 - 19 and
      above. */
  method FeFromBytes(s: seq<Byte>) returns (ok: bool, y: Fe)
    requires |s| == 32
    ensures ok <==> Low(s) < P
    ensures ok ==> Size(y, 1, 0) && Cong(Value(y), Low(s))
  {
    hide Value, Low, LoadLimbs, TooLarge, Cong;
    TooLargeExactly(s);
    LoadValue(s);
    LoadBounded(s);
    y := LoadLimbs(s);
    if TooLarge(y) {
      return false, y;
    }
    ghost var q, r;
    var h;
    h, q := CarryOdd(y);
    h, r := CarryEven(h);
    CongIntro(Low(s), Value(h), q + r);
    CongSym(Low(s), Value(h));
    y := h;
    ok := true;
  }

  lemma LoadPositive(s: seq<Byte>)
    requires |s| == 32
    ensures Value(LoadLimbs(s)) >= 0
  {
    hide Load3, Load4;
    ValueIs(LoadLimbs(s));
    LoadRange(s, 0); LoadRange(s, 4); LoadRange(s, 7); LoadRange(s, 10); LoadRange(s, 13);
    LoadRange(s, 16); LoadRange(s, 20); LoadRange(s, 23); LoadRange(s, 26); LoadRange(s, 29);
  }

  lemma LoadBelow(s: seq<Byte>)
    requires |s| == 32
    ensures Value(LoadLimbs(s)) < TWO255
  {
    hide Load3, Load4;
    ValueIs(LoadLimbs(s));
    LoadRange(s, 0); LoadRange(s, 4); LoadRange(s, 7); LoadRange(s, 10); LoadRange(s, 13);
    LoadRange(s, 16); LoadRange(s, 20); LoadRange(s, 23); LoadRange(s, 26); LoadRange(s, 29);
  }
}
