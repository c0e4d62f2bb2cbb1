/** BLAKE-256 around its compression function: padding, the message-length counter and the block buffer. */
module Blake256 {
  import opened Positional

  type Word32 = x: int | 0 <= x < TWO32

  /** The two counter words `t[0]` and `t[1]`. */
  datatype Counter = Counter(lo: Word32, hi: Word32)

  function Value(c: Counter): nat
  {
    c.lo + TWO32 * c.hi
  }

  /** Adding 512 bits; the carry is noticed by the low word becoming zero. */
  function Tick(c: Counter): Counter
  {
    var lo := (c.lo + 512) % TWO32;
    Counter(lo, if lo == 0 then (c.hi + 1) % TWO32 else c.hi)
  }

  function Sub(c: Counter, n: nat): Counter
  {
    c.(lo := (c.lo - n) % TWO32)
  }

  /** On multiples of 512 the test for zero is the carry. */
  lemma TickExact(c: Counter)
    requires c.lo % 512 == 0 && Value(c) + 512 < TWO32 * TWO32
    ensures Value(Tick(c)) == Value(c) + 512 && Tick(c).lo % 512 == 0
  {
  }

  /** The final block: taking the padding off first and adding 512 counts the message bits alone. */
  lemma TickBack(c: Counter, n: nat)
    requires c.lo % 512 == 0 && 0 < n < 512
    ensures Tick(Sub(c, 512 - n)) == c.(lo := c.lo + n) && Value(Tick(Sub(c, 512 - n))) == Value(c) + n
  {
  }

  lemma SubSub(c: Counter, m: nat, n: nat)
    ensures Sub(Sub(c, m), n) == Sub(c, m + n)
  {
  }

  /** What one compression sees. */
  datatype Step = Step(block: seq<Byte>, counter: nat)

  type Compression<!H> = (H, seq<Byte>, nat) -> H

  function Fold<H>(f: Compression<H>, h: H, steps: seq<Step>): H
    decreases |steps|
  {
    if steps == [] then h else Fold(f, f(h, steps[0].block, steps[0].counter), steps[1..])
  }

  lemma {:induction false} FoldAppend<H>(f: Compression<H>, h: H, a: seq<Step>, b: seq<Step>)
    ensures Fold(f, h, a + b) == Fold(f, Fold(f, h, a), b)
    decreases |a|
  {
    if a == [] {
      assert a + b == b;
    } else {
      assert (a + b)[1..] == a[1..] + b;
      FoldAppend(f, f(h, a[0].block, a[0].counter), a[1..], b);
    }
  }

  /** The counter as the compression uses it. */
  function Shown(c: Counter, nullt: bool): nat
  {
    if nullt then 0 else Value(c)
  }

  /** Compressing the whole blocks of `s` one after the other. */
  function Steps(c: Counter, nullt: bool, s: seq<Byte>): seq<Step>
    decreases |s|
  {
    if |s| < 64 then [] else [Step(s[..64], Shown(Tick(c), nullt))] + Steps(Tick(c), nullt, s[64..])
  }

  function TickAll(c: Counter, n: nat): Counter
    decreases n
  {
    if n == 0 then c else TickAll(Tick(c), n - 1)
  }

  function Whole(s: seq<Byte>): (w: seq<Byte>)
    ensures |w| % 64 == 0 && |w| <= |s|
  {
    s[..|s| - |s| % 64]
  }

  function Left(s: seq<Byte>): (w: seq<Byte>)
    ensures |w| == |s| % 64
  {
    s[|s| - |s| % 64..]
  }

  /** When an update of `n` bytes on top of `left` buffered ones keeps all bytes in order. */
  predicate Straight(left: nat, n: nat)
  {
    left == 0 || n % 64 >= 64 - left || 0 < n < 64
  }

  /** What an update compresses, and what it leaves in the buffer. */
  function Absorb(buffered: seq<Byte>, data: seq<Byte>): (seq<Byte>, seq<Byte>)
  {
    if Straight(|buffered|, |data|) then (Whole(buffered + data), Left(buffered + data))
    else (Whole(data), if |data| % 64 == 0 then [] else buffered + Left(data))
  }

  /** An update amounts to appending, whatever the bytes, exactly for the straight lengths. */
  lemma AppendsExactly(left: nat, n: nat)
    requires left < 64
    ensures Straight(left, n) <==> forall b: seq<Byte>, d: seq<Byte> :: |b| == left && |d| == n ==>
      Absorb(b, d) == (Whole(b + d), Left(b + d))
  {
    if !Straight(left, n) {
      var b: seq<Byte>, d: seq<Byte> := seq(left, _ => 1), seq(n, _ => 0);
      assert Absorb(b, d) != (Whole(b + d), Left(b + d)) by { OutOfOrder(b, d); }
    }
  }

  lemma OutOfOrder(b: seq<Byte>, d: seq<Byte>)
    requires 0 < |b| < 64 && !Straight(|b|, |d|) && b[0] == 1 && forall i :: 0 <= i < |d| ==> d[i] == 0
    ensures Absorb(b, d) != (Whole(b + d), Left(b + d))
  {
    if |d| == 0 {
      assert Absorb(b, d).1 == [] && |Left(b + d)| == |b|;
    } else {
      assert Whole(d)[0] == 0 && Whole(b + d)[0] == 1;
    }
  }
}
