/** Bytes cut out of limbs: a limb of radix `r` sits below a neighbour whose radix `s` is a multiple of 256. */
module Packing {
  import opened Positional

  /** `low | (high * unit)` where `unit` is a power of two above `low`, so the operands share no bit. */
  function Or(low: int, high: int, unit: int): int
    requires 0 <= low < unit
  {
    low + high * unit
  }

  /** Truncation of a non-negative integer to an unsigned char. */
  function Low8(x: int): Byte { x % 256 }

  /** The last two bytes that start inside limb `x`: one inside it, one shared with its neighbour `y`. */
  function Two(x: int, k: int, m: int, y: int): (b: seq<Byte>)
    requires 0 < k && 0 <= x < 256 * k * m
    ensures |b| == 2
  {
    ShiftedBound(x, 256 * k, m);
    [Low8(x / k), Low8(Or(x / (256 * k), y, m))]
  }

  function Three(x: int, k: int, m: int, y: int): (b: seq<Byte>)
    requires 0 < k && 0 <= x < 256 * (256 * k) * m
    ensures |b| == 3
  {
    [Low8(x / k)] + Two(x, 256 * k, m, y)
  }

  function Four(x: int, k: int, m: int, y: int): (b: seq<Byte>)
    requires 0 < k && 0 <= x < 256 * (256 * (256 * k)) * m
    ensures |b| == 4
  {
    [Low8(x / k)] + Three(x, 256 * k, m, y)
  }

  lemma ShiftedBound(x: int, k: int, m: int)
    requires 0 < k && 0 <= x < k * m
    ensures 0 <= x / k < m
  {
    if m <= x / k { MulMono(k, m, x / k); }
  }

  /** Shifting a limb and everything above it. */
  lemma Shift(x: int, r: int, w: int, k: int, m: int)
    requires 0 < k && k * m == r
    ensures (x + r * w) / k == x / k + m * w
  {
    assert k * (x / k + m * w) == k * (x / k) + r * w by { assert k * (m * w) == (k * m) * w; }
    DivUnique(x + r * w, k, x / k + m * w);
  }

  /** A byte wholly inside a limb. */
  lemma InnerByte(x: int, r: int, w: int, k: int, n: int)
    requires 0 < k && 256 * k * n == r
    ensures (x + r * w) / k == Low8(x / k) + 256 * ((x + r * w) / (256 * k))
  {
    Shift(x, r, w, k, 256 * n);
    DivDiv(x + r * w, k, 256);
    assert (256 * n) * w == 256 * (n * w);
    ModShift(x / k, n * w);
  }

  /** A byte shared by a limb and its upper neighbour. */
  lemma SharedByte(x: int, r: int, y: int, s: int, z: int, k: int, m: int, q: int)
    requires 0 <= x < r && 0 < k && k * m == r && 0 < m && m * q == 256 && s % 256 == 0
    ensures x / k < m && 0 < q
    ensures var w := y + s * z;
      (x + r * w) / k == Low8(Or(x / k, y, m)) + 256 * (w / q)
  {
    ShiftedBound(x, k, m);
    Shift(x, r, y + s * z, k, m);
    SharedDiv(x / k, y + s * z, m, q);
    SharedMod(x / k, y, s, z, m);
  }

  lemma SharedDiv(a: int, w: int, m: int, q: int)
    requires 0 <= a < m && m * q == 256
    ensures 0 < q && (a + m * w) / 256 == w / q
  {
    if q <= 0 { MulMono(m, q, 0); }
    var d, r := w / q, w % q;
    assert m * w == (m * q) * d + m * r by { assert m * (q * d + r) == m * (q * d) + m * r; }
    MulMono(m, r + 1, q);
    MulMono(m, 0, r);
    assert m * (r + 1) == m * r + m;
  }

  lemma SharedMod(a: int, y: int, s: int, z: int, m: int)
    requires s % 256 == 0
    ensures (a + m * (y + s * z)) % 256 == (a + y * m) % 256
  {
    var t := s / 256;
    var e := t * (m * z);
    assert s == 256 * t;
    assert m * (y + s * z) == y * m + 256 * e by {
      assert m * (s * z) == s * (m * z) == 256 * (t * (m * z));
    }
    ModShift(a + y * m, e);
  }

  lemma ModShift(x: int, e: int)
    ensures (x + 256 * e) % 256 == x % 256
  {
  }

  lemma EvalTwo(b: seq<Byte>)
    requires |b| == 2
    ensures Eval(256, b) == b[0] as int + 256 * (b[1] as int)
  {
    assert Eval(256, b[1..]) == b[1] + 256 * Eval(256, b[1..][1..]);
  }

  lemma EvalCons(b: seq<Byte>)
    requires b != []
    ensures Eval(256, b) == b[0] as int + 256 * Eval(256, b[1..])
  {
  }

  lemma Gather(v: int, a: int, u: int, b: int, c: int)
    requires v == a + 256 * u && u == b + 256 * c
    ensures v == a + 256 * b + 65536 * c
  {
  }

  lemma TwoBytes(x: int, r: int, y: int, s: int, z: int, k: int, m: int, q: int)
    requires 0 <= x < r && 0 < k && 256 * k * m == r && 0 < m && m * q == 256 && q != 0 && s % 256 == 0
    ensures var w := y + s * z;
      (x + r * w) / k == Eval(256, Two(x, k, m, y)) + 65536 * (w / q)
  {
    var w := y + s * z;
    EvalTwo(Two(x, k, m, y));
    ShiftedBound(x, 256 * k, m);
    InnerByte(x, r, w, k, m);
    SharedByte(x, r, y, s, z, 256 * k, m, q);
    Gather((x + r * w) / k, Low8(x / k), (x + r * w) / (256 * k), Low8(Or(x / (256 * k), y, m)), w / q);
  }

  lemma ThreeBytes(x: int, r: int, y: int, s: int, z: int, k: int, m: int, q: int)
    requires 0 <= x < r && 0 < k && 256 * (256 * k) * m == r && 0 < m && m * q == 256 && q != 0 && s % 256 == 0
    ensures var w := y + s * z;
      (x + r * w) / k == Eval(256, Three(x, k, m, y)) + 16777216 * (w / q)
  {
    var w := y + s * z;
    var b := Three(x, k, m, y);
    assert b[1..] == Two(x, 256 * k, m, y);
    InnerByte(x, r, w, k, 256 * m);
    TwoBytes(x, r, y, s, z, 256 * k, m, q);
    EvalCons(b);
  }

  lemma FourBytes(x: int, r: int, y: int, s: int, z: int, k: int, m: int, q: int)
    requires 0 <= x < r && 0 < k && 256 * (256 * (256 * k)) * m == r && 0 < m && m * q == 256 && q != 0 && s % 256 == 0
    ensures var w := y + s * z;
      (x + r * w) / k == Eval(256, Four(x, k, m, y)) + 4294967296 * (w / q)
  {
    var w := y + s * z;
    var b := Four(x, k, m, y);
    assert b[1..] == Three(x, 256 * k, m, y);
    InnerByte(x, r, w, k, 65536 * m);
    ThreeBytes(x, r, y, s, z, 256 * k, m, q);
    EvalCons(b);
  }

  /** Three bytes that end with the limb. */
  function Last(x: int, k: int): (b: seq<Byte>)
    requires 0 < k
    ensures |b| == 3
  {
    [Low8(x / k), Low8(x / (256 * k)), Low8(x / (65536 * k))]
  }

  lemma LastBytes(x: int, r: int, w: int, k: int)
    requires 0 <= x && 0 < k && 16777216 * k == r
    ensures (x + r * w) / k == Eval(256, Last(x, k)) + 16777216 * ((x + r * w) / r)
  {
    var b := Last(x, k);
    InnerByte(x, r, w, k, 65536);
    InnerByte(x, r, w, 256 * k, 256);
    InnerByte(x, r, w, 65536 * k, 1);
    EvalCons(b);
    EvalTwo(b[1..]);
  }
}
