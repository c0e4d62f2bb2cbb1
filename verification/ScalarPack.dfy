/** Packing twelve reduced limbs into 32 little-endian bytes, as every `sc_*` routine does on its way out. */
module ScalarPack {
  import opened Positional
  import opened ScalarLimbs
  import opened Packing

  function PackThree(t: seq<int>, i: nat): (b: seq<Byte>)
    requires Narrow(t) && i < 9
  {
    Three(t[i], 1, 32, t[i + 1]) + Three(t[i + 1], 8, 4, t[i + 2]) + Two(t[i + 2], 64, 128, t[i + 3])
  }

  function PackFour(t: seq<int>): (b: seq<Byte>)
    requires Narrow(t)
  {
    Three(t[3], 2, 16, t[4]) + Three(t[4], 16, 2, t[5]) + Two(t[5], 128, 64, t[6]) + Three(t[6], 4, 8, t[7])
  }

  function PackSeven(t: seq<int>): (b: seq<Byte>)
    requires Narrow(t)
  {
    [Low8(t[7] / 32), Low8(t[7] / 8192)]
  }

  function PackEleven(t: seq<int>): (b: seq<Byte>)
    requires Narrow(t)
  {
    [Low8(t[11] / 2), Low8(t[11] / 512), Low8(t[11] / 131072)]
  }

  function Pack(t: seq<int>): (b: seq<Byte>)
    requires Narrow(t)
    ensures |b| == 32
  {
    PackThree(t, 0) + PackFour(t) + PackSeven(t) + PackThree(t, 8) + PackEleven(t)
  }

  ghost function Above(t: seq<int>, i: nat): int
    requires i <= |t|
  {
    Value(t[i..])
  }

  lemma AboveStep(t: seq<int>, i: nat)
    requires i < |t|
    ensures Above(t, i) == t[i] + RADIX * Above(t, i + 1)
  {
    assert t[i..][1..] == t[i + 1..];
  }

  lemma TwoAt(t: seq<int>, i: nat, k: int, m: int, q: int)
    requires Narrow(t) && i < 11
    requires 0 < k && 256 * k * m == RADIX && 0 < m && m * q == 256 && q != 0
    ensures Above(t, i) / k
         == Eval(256, Two(t[i], k, m, t[i + 1])) + Power(256, |Two(t[i], k, m, t[i + 1])|) * (Above(t, i + 1) / q)
  {
    AboveStep(t, i);
    AboveStep(t, i + 1);
    TwoBytes(t[i], RADIX, t[i + 1], RADIX, Above(t, i + 2), k, m, q);
    assert Power(256, 2) == 65536;
  }

  lemma ThreeAt(t: seq<int>, i: nat, k: int, m: int, q: int)
    requires Narrow(t) && i < 11
    requires 0 < k && 256 * (256 * k) * m == RADIX && 0 < m && m * q == 256 && q != 0
    ensures Above(t, i) / k
         == Eval(256, Three(t[i], k, m, t[i + 1])) + Power(256, |Three(t[i], k, m, t[i + 1])|) * (Above(t, i + 1) / q)
  {
    AboveStep(t, i);
    AboveStep(t, i + 1);
    ThreeBytes(t[i], RADIX, t[i + 1], RADIX, Above(t, i + 2), k, m, q);
    assert Power(256, 3) == 16777216;
  }

  /** The eighth limb ends on a byte boundary. */
  lemma SevenAt(t: seq<int>)
    requires Narrow(t)
    ensures Above(t, 7) / 32 == Eval(256, PackSeven(t)) + Power(256, |PackSeven(t)|) * Above(t, 8)
  {
    var b, w := PackSeven(t), Above(t, 8);
    AboveStep(t, 7);
    InnerByte(t[7], RADIX, w, 32, 256);
    InnerByte(t[7], RADIX, w, 8192, 1);
    Shift(t[7], RADIX, w, RADIX, 1);
    EvalTwo(b);
    assert Power(256, 2) == 65536;
    Gather(Above(t, 7) / 32, b[0], Above(t, 7) / 8192, b[1], w);
  }

  lemma ElevenAt(t: seq<int>)
    requires Narrow(t)
    ensures Above(t, 11) / 2 == Eval(256, PackEleven(t)) + Power(256, |PackEleven(t)|) * 0
  {
    AboveStep(t, 11);
    assert t[12..] == [];
    EvalTwo(PackEleven(t)[1..]);
    DivDiv(t[11], 2, 256);
    DivDiv(t[11], 512, 256);
  }

  lemma PackThreeAt(t: seq<int>, i: nat)
    requires Narrow(t) && i < 9
    ensures Above(t, i) == Eval(256, PackThree(t, i)) + Power(256, |PackThree(t, i)|) * (Above(t, i + 3) / 2)
  {
    var a, b, c := Three(t[i], 1, 32, t[i + 1]), Three(t[i + 1], 8, 4, t[i + 2]), Two(t[i + 2], 64, 128, t[i + 3]);
    ThreeAt(t, i, 1, 32, 8);
    ThreeAt(t, i + 1, 8, 4, 64);
    TwoAt(t, i + 2, 64, 128, 2);
    Join(256, Above(t, i), a, Above(t, i + 1) / 8, b, Above(t, i + 2) / 64);
    Join(256, Above(t, i), a + b, Above(t, i + 2) / 64, c, Above(t, i + 3) / 2);
  }

  lemma PackFourAt(t: seq<int>)
    requires Narrow(t)
    ensures Above(t, 3) / 2 == Eval(256, PackFour(t)) + Power(256, |PackFour(t)|) * (Above(t, 7) / 32)
  {
    var a, b, c, d := Three(t[3], 2, 16, t[4]), Three(t[4], 16, 2, t[5]), Two(t[5], 128, 64, t[6]),
      Three(t[6], 4, 8, t[7]);
    ThreeAt(t, 3, 2, 16, 16);
    ThreeAt(t, 4, 16, 2, 128);
    TwoAt(t, 5, 128, 64, 4);
    ThreeAt(t, 6, 4, 8, 32);
    Join(256, Above(t, 3) / 2, a, Above(t, 4) / 16, b, Above(t, 5) / 128);
    Join(256, Above(t, 3) / 2, a + b, Above(t, 5) / 128, c, Above(t, 6) / 4);
    Join(256, Above(t, 3) / 2, a + b + c, Above(t, 6) / 4, d, Above(t, 7) / 32);
  }

  /** Packing keeps the number the limbs spell. */
  lemma PackValue(t: seq<int>)
    requires Narrow(t)
    ensures Eval(256, Pack(t)) == Value(t)
  {
    var a, b, c, d, e := PackThree(t, 0), PackFour(t), PackSeven(t), PackThree(t, 8), PackEleven(t);
    PackThreeAt(t, 0);
    PackFourAt(t);
    SevenAt(t);
    PackThreeAt(t, 8);
    ElevenAt(t);
    Join(256, Above(t, 0), a, Above(t, 3) / 2, b, Above(t, 7) / 32);
    Join(256, Above(t, 0), a + b, Above(t, 7) / 32, c, Above(t, 8));
    Join(256, Above(t, 0), a + b + c, Above(t, 8), d, Above(t, 11) / 2);
    Join(256, Above(t, 0), a + b + c + d, Above(t, 11) / 2, e, 0);
    assert t[0..] == t;
  }
}
