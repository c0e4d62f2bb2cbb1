/** Unpacking little-endian bytes into 21-bit limbs and packing them back, as every `sc_*` routine does. */
module ScalarBytes {
  import opened Positional
  import opened ScalarLimbs

  function Load3(s: seq<Byte>, i: nat): int
    requires i + 3 <= |s|
  {
    (s[i] as int) + 256 * (s[i + 1] as int) + 65536 * (s[i + 2] as int)
  }

  function Load4(s: seq<Byte>, i: nat): int
    requires i + 4 <= |s|
  {
    Load3(s, i) + 16777216 * (s[i + 3] as int)
  }

  /** The first three of every eight limbs; eight limbs span 21 bytes. */
  function ThreeLimbs(s: seq<Byte>, o: nat): (t: seq<int>)
    requires o + 8 <= |s|
    ensures |t| == 3
  {
    [Load3(s, o) % RADIX, Load4(s, o + 2) / 32 % RADIX, Load3(s, o + 5) / 4 % RADIX]
  }

  /** The next four of every eight limbs. */
  function FourLimbs(s: seq<Byte>, o: nat): (t: seq<int>)
    requires o + 19 <= |s|
    ensures |t| == 4
  {
    [Load4(s, o + 7) / 128 % RADIX, Load4(s, o + 10) / 16 % RADIX, Load3(s, o + 13) / 2 % RADIX,
     Load4(s, o + 15) / 64 % RADIX]
  }

  function EightLimbs(s: seq<Byte>, o: nat): (t: seq<int>)
    requires o + 21 <= |s|
    ensures |t| == 8
  {
    ThreeLimbs(s, o) + FourLimbs(s, o) + [Load3(s, o + 18) / 8 % RADIX]
  }

  function LoadLimbs32(s: seq<Byte>): (t: seq<int>)
    requires |s| == 32
    ensures |t| == 12
  {
    EightLimbs(s, 0) + ThreeLimbs(s, 21) + [Load4(s, 28) / 128]
  }

  function LoadLimbs64(s: seq<Byte>): (t: seq<int>)
    requires |s| == 64
    ensures |t| == 24
  {
    EightLimbs(s, 0) + EightLimbs(s, 21) + ThreeLimbs(s, 42) + FourLimbs(s, 42) + [Load4(s, 60) / 8]
  }

  ghost predicate IsByte(x: int) { 0 <= x < 256 }

  // One limb extraction: the bits from the starting bit on are the 21-bit window plus 2^21 times the
  // bits that follow it. Lemmas are named after the number of bytes loaded and the starting bit.

  lemma Window4At4(a: int, b: int, c: int, d: int, e: int)
    requires IsByte(a) && IsByte(b) && IsByte(c) && IsByte(d)
    ensures (a + 256 * b + 65536 * c + 16777216 * (d + 256 * e)) / 16
         == (a + 256 * b + 65536 * c + 16777216 * d) / 16 % RADIX + RADIX * ((d + 256 * e) / 2)
  {
    assert (a + 256 * b + 65536 * c + 16777216 * d) / 16 == a / 16 + 16 * b + 4096 * c + 1048576 * d;
    assert (a + 256 * b + 65536 * c + 16777216 * d) / 16 % RADIX == a / 16 + 16 * b + 4096 * c + 1048576 * (d % 2);
    assert (d + 256 * e) / 2 == d / 2 + 128 * e;
  }

  lemma Window4At5(a: int, b: int, c: int, d: int, e: int)
    requires IsByte(a) && IsByte(b) && IsByte(c) && IsByte(d)
    ensures (a + 256 * b + 65536 * c + 16777216 * (d + 256 * e)) / 32
         == (a + 256 * b + 65536 * c + 16777216 * d) / 32 % RADIX + RADIX * ((d + 256 * e) / 4)
  {
    assert (a + 256 * b + 65536 * c + 16777216 * d) / 32 == a / 32 + 8 * b + 2048 * c + 524288 * d;
    assert (a + 256 * b + 65536 * c + 16777216 * d) / 32 % RADIX == a / 32 + 8 * b + 2048 * c + 524288 * (d % 4);
    assert (d + 256 * e) / 4 == d / 4 + 64 * e;
  }

  lemma Window4At6(a: int, b: int, c: int, d: int, e: int)
    requires IsByte(a) && IsByte(b) && IsByte(c) && IsByte(d)
    ensures (a + 256 * b + 65536 * c + 16777216 * (d + 256 * e)) / 64
         == (a + 256 * b + 65536 * c + 16777216 * d) / 64 % RADIX + RADIX * ((d + 256 * e) / 8)
  {
    assert (a + 256 * b + 65536 * c + 16777216 * d) / 64 == a / 64 + 4 * b + 1024 * c + 262144 * d;
    assert (a + 256 * b + 65536 * c + 16777216 * d) / 64 % RADIX == a / 64 + 4 * b + 1024 * c + 262144 * (d % 8);
    assert (d + 256 * e) / 8 == d / 8 + 32 * e;
  }

  lemma Window4At7(a: int, b: int, c: int, d: int, e: int)
    requires IsByte(a) && IsByte(b) && IsByte(c) && IsByte(d)
    ensures (a + 256 * b + 65536 * c + 16777216 * (d + 256 * e)) / 128
         == (a + 256 * b + 65536 * c + 16777216 * d) / 128 % RADIX + RADIX * ((d + 256 * e) / 16)
  {
    assert (a + 256 * b + 65536 * c + 16777216 * d) / 128 == a / 128 + 2 * b + 512 * c + 131072 * d;
    assert (a + 256 * b + 65536 * c + 16777216 * d) / 128 % RADIX == a / 128 + 2 * b + 512 * c + 131072 * (d % 16);
    assert (d + 256 * e) / 16 == d / 16 + 16 * e;
  }

  lemma Window3At0(a: int, b: int, c: int, e: int)
    requires IsByte(a) && IsByte(b) && IsByte(c)
    ensures (a + 256 * b + 65536 * (c + 256 * e)) / 1
         == (a + 256 * b + 65536 * c) / 1 % RADIX + RADIX * ((c + 256 * e) / 32)
  {
    assert (a + 256 * b + 65536 * c) / 1 == a / 1 + 256 * b + 65536 * c;
    assert (a + 256 * b + 65536 * c) / 1 % RADIX == a / 1 + 256 * b + 65536 * (c % 32);
    assert (c + 256 * e) / 32 == c / 32 + 8 * e;
  }

  lemma Window3At1(a: int, b: int, c: int, e: int)
    requires IsByte(a) && IsByte(b) && IsByte(c)
    ensures (a + 256 * b + 65536 * (c + 256 * e)) / 2
         == (a + 256 * b + 65536 * c) / 2 % RADIX + RADIX * ((c + 256 * e) / 64)
  {
    assert (a + 256 * b + 65536 * c) / 2 == a / 2 + 128 * b + 32768 * c;
    assert (a + 256 * b + 65536 * c) / 2 % RADIX == a / 2 + 128 * b + 32768 * (c % 64);
    assert (c + 256 * e) / 64 == c / 64 + 4 * e;
  }

  lemma Window3At2(a: int, b: int, c: int, e: int)
    requires IsByte(a) && IsByte(b) && IsByte(c)
    ensures (a + 256 * b + 65536 * (c + 256 * e)) / 4
         == (a + 256 * b + 65536 * c) / 4 % RADIX + RADIX * ((c + 256 * e) / 128)
  {
    assert (a + 256 * b + 65536 * c) / 4 == a / 4 + 64 * b + 16384 * c;
    assert (a + 256 * b + 65536 * c) / 4 % RADIX == a / 4 + 64 * b + 16384 * (c % 128);
    assert (c + 256 * e) / 128 == c / 128 + 2 * e;
  }

  lemma Window3At3(a: int, b: int, c: int, e: int)
    requires IsByte(a) && IsByte(b) && IsByte(c)
    ensures (a + 256 * b + 65536 * (c + 256 * e)) / 8
         == (a + 256 * b + 65536 * c) / 8 % RADIX + RADIX * ((c + 256 * e) / 256)
  {
    assert (a + 256 * b + 65536 * c) / 8 == a / 8 + 32 * b + 8192 * c;
    assert (a + 256 * b + 65536 * c) / 8 % RADIX == a / 8 + 32 * b + 8192 * (c % 256);
    assert (c + 256 * e) / 256 == c / 256 + 1 * e;
  }

  /** The number in the bytes from `i` on. */
  ghost function From(s: seq<Byte>, i: nat): int
    requires i <= |s|
  {
    Eval(256, s[i..])
  }

  lemma FromStep(s: seq<Byte>, i: nat)
    requires i < |s|
    ensures From(s, i) == s[i] + 256 * From(s, i + 1)
  {
    assert s[i..][1..] == s[i + 1..];
  }

  lemma Limb3At0(s: seq<Byte>, i: nat)
    requires i + 3 <= |s|
    ensures From(s, i) == Load3(s, i) % RADIX + RADIX * (From(s, i + 2) / 32)
  {
    FromStep(s, i); FromStep(s, i + 1); FromStep(s, i + 2);
    Window3At0(s[i], s[i + 1], s[i + 2], From(s, i + 3));
  }

  lemma Limb4At5(s: seq<Byte>, i: nat)
    requires i + 4 <= |s|
    ensures From(s, i) / 32 == Load4(s, i) / 32 % RADIX + RADIX * (From(s, i + 3) / 4)
  {
    FromStep(s, i); FromStep(s, i + 1); FromStep(s, i + 2); FromStep(s, i + 3);
    Window4At5(s[i], s[i + 1], s[i + 2], s[i + 3], From(s, i + 4));
  }

  lemma Limb3At2(s: seq<Byte>, i: nat)
    requires i + 3 <= |s|
    ensures From(s, i) / 4 == Load3(s, i) / 4 % RADIX + RADIX * (From(s, i + 2) / 128)
  {
    FromStep(s, i); FromStep(s, i + 1); FromStep(s, i + 2);
    Window3At2(s[i], s[i + 1], s[i + 2], From(s, i + 3));
  }

  lemma Limb4At7(s: seq<Byte>, i: nat)
    requires i + 4 <= |s|
    ensures From(s, i) / 128 == Load4(s, i) / 128 % RADIX + RADIX * (From(s, i + 3) / 16)
  {
    FromStep(s, i); FromStep(s, i + 1); FromStep(s, i + 2); FromStep(s, i + 3);
    Window4At7(s[i], s[i + 1], s[i + 2], s[i + 3], From(s, i + 4));
  }

  lemma Limb4At4(s: seq<Byte>, i: nat)
    requires i + 4 <= |s|
    ensures From(s, i) / 16 == Load4(s, i) / 16 % RADIX + RADIX * (From(s, i + 3) / 2)
  {
    FromStep(s, i); FromStep(s, i + 1); FromStep(s, i + 2); FromStep(s, i + 3);
    Window4At4(s[i], s[i + 1], s[i + 2], s[i + 3], From(s, i + 4));
  }

  lemma Limb3At1(s: seq<Byte>, i: nat)
    requires i + 3 <= |s|
    ensures From(s, i) / 2 == Load3(s, i) / 2 % RADIX + RADIX * (From(s, i + 2) / 64)
  {
    FromStep(s, i); FromStep(s, i + 1); FromStep(s, i + 2);
    Window3At1(s[i], s[i + 1], s[i + 2], From(s, i + 3));
  }

  lemma Limb4At6(s: seq<Byte>, i: nat)
    requires i + 4 <= |s|
    ensures From(s, i) / 64 == Load4(s, i) / 64 % RADIX + RADIX * (From(s, i + 3) / 8)
  {
    FromStep(s, i); FromStep(s, i + 1); FromStep(s, i + 2); FromStep(s, i + 3);
    Window4At6(s[i], s[i + 1], s[i + 2], s[i + 3], From(s, i + 4));
  }

  lemma Limb3At3(s: seq<Byte>, i: nat)
    requires i + 3 <= |s|
    ensures From(s, i) / 8 == Load3(s, i) / 8 % RADIX + RADIX * (From(s, i + 3))
  {
    FromStep(s, i); FromStep(s, i + 1); FromStep(s, i + 2);
    Window3At3(s[i], s[i + 1], s[i + 2], From(s, i + 3));
  }

  lemma ThreeRest(s: seq<Byte>, o: nat)
    requires o + 8 <= |s|
    ensures From(s, o) == Value(ThreeLimbs(s, o)) + Power(RADIX, 3) * (From(s, o + 7) / 128)
  {
    Limb3At0(s, o);
    Limb4At5(s, o + 2);
    Limb3At2(s, o + 5);
    Chain(RADIX, ThreeLimbs(s, o), [From(s, o), From(s, o + 2) / 32, From(s, o + 5) / 4, From(s, o + 7) / 128]);
  }

  lemma FourRest(s: seq<Byte>, o: nat)
    requires o + 19 <= |s|
    ensures From(s, o + 7) / 128 == Value(FourLimbs(s, o)) + Power(RADIX, 4) * (From(s, o + 18) / 8)
  {
    Limb4At7(s, o + 7);
    Limb4At4(s, o + 10);
    Limb3At1(s, o + 13);
    Limb4At6(s, o + 15);
    Chain(RADIX, FourLimbs(s, o),
      [From(s, o + 7) / 128, From(s, o + 10) / 16, From(s, o + 13) / 2, From(s, o + 15) / 64, From(s, o + 18) / 8]);
  }

  lemma JoinOne(y: int, d: int, z: int)
    requires y == d + RADIX * z
    ensures y == Value([d]) + Power(RADIX, |[d]|) * z
  {
    Chain(RADIX, [d], [y, z]);
  }

  lemma EightRest(s: seq<Byte>, o: nat)
    requires o + 21 <= |s|
    ensures From(s, o) == Value(EightLimbs(s, o)) + Power(RADIX, |EightLimbs(s, o)|) * From(s, o + 21)
  {
    var a, b, d := ThreeLimbs(s, o), FourLimbs(s, o), Load3(s, o + 18) / 8 % RADIX;
    ThreeRest(s, o);
    FourRest(s, o);
    Limb3At3(s, o + 18);
    JoinOne(From(s, o + 18) / 8, d, From(s, o + 21));
    Join(RADIX, From(s, o), a, From(s, o + 7) / 128, b, From(s, o + 18) / 8);
    Join(RADIX, From(s, o), a + b, From(s, o + 18) / 8, [d], From(s, o + 21));
  }

  lemma LastLoad(s: seq<Byte>, i: nat)
    requires i + 4 == |s|
    ensures From(s, i) == Load4(s, i)
  {
    FromStep(s, i); FromStep(s, i + 1); FromStep(s, i + 2); FromStep(s, i + 3);
  }

  /** Unpacking 32 bytes keeps the number they spell; the top limb keeps all remaining bits. */
  lemma LoadLimbs32Value(s: seq<Byte>)
    requires |s| == 32
    ensures Value(LoadLimbs32(s)) == Eval(256, s)
  {
    hide Eval, Power, EightLimbs, ThreeLimbs, FourLimbs, Load4;
    var a, b, d := EightLimbs(s, 0), ThreeLimbs(s, 21), Load4(s, 28) / 128;
    EightRest(s, 0);
    ThreeRest(s, 21);
    LastLoad(s, 28);
    JoinOne(From(s, 28) / 128, d, 0);
    Join(RADIX, From(s, 0), a, From(s, 21), b, From(s, 28) / 128);
    Join(RADIX, From(s, 0), a + b, From(s, 28) / 128, [d], 0);
    assert s[0..] == s;
  }

  lemma LoadLimbs64Value(s: seq<Byte>)
    requires |s| == 64
    ensures Value(LoadLimbs64(s)) == Eval(256, s)
  {
    hide Eval, Power, EightLimbs, ThreeLimbs, FourLimbs, Load4;
    var a, b, c, d, e := EightLimbs(s, 0), EightLimbs(s, 21), ThreeLimbs(s, 42), FourLimbs(s, 42), Load4(s, 60) / 8;
    EightRest(s, 0);
    EightRest(s, 21);
    ThreeRest(s, 42);
    FourRest(s, 42);
    LastLoad(s, 60);
    JoinOne(From(s, 60) / 8, e, 0);
    Join(RADIX, From(s, 0), a, From(s, 21), b, From(s, 42));
    Join(RADIX, From(s, 0), a + b, From(s, 42), c, From(s, 49) / 128);
    Join(RADIX, From(s, 0), a + b + c, From(s, 49) / 128, d, From(s, 60) / 8);
    Join(RADIX, From(s, 0), a + b + c + d, From(s, 60) / 8, [e], 0);
    assert s[0..] == s;
  }
}
