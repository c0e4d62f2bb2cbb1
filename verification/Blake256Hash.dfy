/** The padding of BLAKE-256 as section 2.1 of its SHA-3 proposal defines it, and the proof that the
    finalization feeds the compression exactly those blocks and counters. */
module Blake256Hash {
  import opened Positional
  import opened BigEndian
  import opened Blake256
  import opened Blake256State

  /** A one bit, zero bits and a closing one bit: k + 1 bytes. `pa` is both ones in a single byte. */
  function Filler(k: nat, pa: Byte, pb: Byte): (s: seq<Byte>)
    ensures |s| == k + 1
  {
    if k == 0 then [pa] else [0x80] + Zeros(k - 1) + [pb]
  }

  function Length(bits: nat): (s: seq<Byte>)
    requires bits < TWO32 * TWO32
    ensures |s| == 8
  {
    assert Power(256, 8) == TWO32 * TWO32;
    FromTo(256, bits, 8);
    ToBig(256, bits, 8)
  }

  /** `s` with its filler up to eight bytes short of a block, and the message length in those. */
  function Closed(s: seq<Byte>, pa: Byte, pb: Byte, bits: nat): (r: seq<Byte>)
    requires bits < TWO32 * TWO32
    ensures |r| % 64 == 0
  {
    s + Filler((55 - |s|) % 64, pa, pb) + Length(bits)
  }

  /** The padded message. */
  function Pad(m: seq<Byte>): seq<Byte>
    requires |m| < 0x2000_0000_0000_0000
  {
    Closed(m, 0x81, 0x01, 8 * |m|)
  }

  /** The filler read as one number: a one, zeros, and a one. */
  lemma FillerBits(k: nat)
    ensures FromBig(256, Filler(k, 0x81, 0x01)) == Power(2, 8 * k + 7) + 1
  {
    SevenBits(k);
    if k == 0 {
      assert Filler(0, 0x81, 0x01)[..0] == [];
    } else {
      var f, front := Filler(k, 0x81, 0x01), [0x80] + Zeros(k - 1);
      assert f[..k] == front && f[k] == 1;
      FrontValue(k - 1);
    }
  }

  lemma SevenBits(k: nat)
    ensures Power(2, 8 * k + 7) == 128 * Power(256, k)
    decreases k
  {
    assert Power(2, 7) == 128;
    if k > 0 {
      SevenBits(k - 1);
      PowerAdd(2, 8, 8 * (k - 1) + 7);
      assert Power(2, 8) == 256;
    }
  }

  lemma {:induction false} FrontValue(k: nat)
    ensures FromBig(256, [0x80] + Zeros(k)) == 128 * Power(256, k)
  {
    var s := [0x80] + Zeros(k);
    if k == 0 {
      assert s == [0x80] && s[..0] == [];
    } else {
      FrontValue(k - 1);
      assert s[..k] == [0x80] + Zeros(k - 1) && s[k] == 0;
    }
  }

  /** The padded message is the message, the bits 1, 0, ..., 0, 1 and the number of message bits in 64 bits, and ends
      with the first block boundary where that has room. */
  lemma PadShape(m: seq<Byte>)
    requires |m| < 0x2000_0000_0000_0000
    ensures var p, n := Pad(m), |Pad(m)| - |m| - 8;
      && |p| % 64 == 0 && 1 <= n <= 64
      && p[..|m|] == m
      && FromBig(256, p[|m|..|m| + n]) == Power(2, 8 * n - 1) + 1
      && FromBig(256, p[|m| + n..]) == 8 * |m|
  {
    hide Filler, FromBig, ToBig;
    var k := (55 - |m|) % 64;
    var f, l, p := Filler(k, 0x81, 0x01), Length(8 * |m|), Pad(m);
    assert p == m + f + l;
    assert p[|m|..|m| + |f|] == f && p[|m| + |f|..] == l;
    FillerBits(k);
    assert Power(256, 8) == TWO32 * TWO32;
    FromTo(256, 8 * |m|, 8);
  }

  /** Message bits up to the end of block `i`, but zero for a block without any. */
  function Count(i: nat, bits: nat): nat
  {
    if 512 * i >= bits then 0 else if 512 * (i + 1) <= bits then 512 * (i + 1) else bits
  }

  /** The compressions of the padded message from block `i` on. */
  function Blocks(s: seq<Byte>, bits: nat, i: nat): seq<Step>
    decreases |s|
  {
    if |s| < 64 then [] else [Step(s[..64], Count(i, bits))] + Blocks(s[64..], bits, i + 1)
  }

  /** Different messages are padded differently. */
  lemma PadInjective(m: seq<Byte>, n: seq<Byte>)
    requires |m| < 0x2000_0000_0000_0000 && |n| < 0x2000_0000_0000_0000 && Pad(m) == Pad(n)
    ensures m == n
  {
    var x, y := Length(8 * |m|), Length(8 * |n|);
    LengthSuffix(m);
    LengthSuffix(n);
    assert Power(256, 8) == TWO32 * TWO32;
    hide Power, Pad;
    FromTo(256, 8 * |m|, 8);
    FromTo(256, 8 * |n|, 8);
  }

  lemma LengthSuffix(m: seq<Byte>)
    requires |m| < 0x2000_0000_0000_0000
    ensures |Pad(m)| >= 8 && Pad(m)[|Pad(m)| - 8..] == Length(8 * |m|) && m <= Pad(m)
  {
    hide Filler, Length;
  }

  lemma OneBlock<H>(f: Compression<H>, h: H, s: seq<Byte>, bits: nat, i: nat)
    requires |s| == 64
    ensures Fold(f, h, Blocks(s, bits, i)) == f(h, s, Count(i, bits))
  {
    assert s[..64] == s && Blocks(s, bits, i) == [Step(s, Count(i, bits))];
    assert [Step(s, Count(i, bits))][1..] == [];
  }

  lemma TwoBlocks<H>(f: Compression<H>, h: H, a: seq<Byte>, b: seq<Byte>, bits: nat, i: nat)
    requires |a| == 64 && |b| == 64
    ensures Fold(f, h, Blocks(a + b, bits, i)) == f(f(h, a, Count(i, bits)), b, Count(i + 1, bits))
  {
    hide Count;
    assert (a + b)[..64] == a && (a + b)[64..] == b;
    var st := Blocks(a + b, bits, i);
    assert st[1..] == Blocks(b, bits, i + 1);
    OneBlock(f, f(h, a, Count(i, bits)), b, bits, i + 1);
  }

  /** Updates that stay within one block. */
  lemma Within(t: Counter, nullt: bool, b: seq<Byte>, data: seq<Byte>)
    requires 0 < |data| && |b| + |data| < 64
    ensures Absorb(b, data) == ([], b + data) && Steps(t, nullt, []) == [] && TickAll(t, 0) == t
  {
    assert Whole(b + data) == [] && Left(b + data) == b + data;
  }

  lemma Exactly<H>(f: Compression<H>, h: H, t: Counter, nullt: bool, b: seq<Byte>, data: seq<Byte>)
    requires 0 < |data| && |b| + |data| == 64
    ensures Absorb(b, data) == (b + data, []) && TickAll(t, 1) == Tick(t)
    ensures Fold(f, h, Steps(t, nullt, b + data)) == f(h, b + data, Shown(Tick(t), nullt))
  {
    hide Tick, Shown;
    var s := b + data;
    assert Whole(s) == s && Left(s) == [] && s[..64] == s && |s[64..]| == 0;
    assert Steps(Tick(t), nullt, s[64..]) == [];
    var st := Steps(t, nullt, s);
    assert st == [Step(s, Shown(Tick(t), nullt))] && st[1..] == [];
    assert TickAll(t, 1) == TickAll(Tick(t), 0);
  }

  /** More bytes for a block that stays open. */
  method Extend<H>(s: State<H>, data: seq<Byte>)
    requires s.Valid() && 0 < |data| && |s.Buffered()| + |data| < 64
    modifies s`h, s`t, s`buflen, s.buf
    ensures s.Valid() && s.Buffered() == old(s.Buffered()) + data && s.h == old(s.h) && s.t == old(s.t)
  {
    hide Absorb, Steps, TickAll;
    Within(s.t, s.nullt, s.Buffered(), data);
    s.Update(data);
  }

  /** The bytes that complete a block. */
  method Complete<H>(s: State<H>, data: seq<Byte>)
    requires s.Valid() && 0 < |data| && |s.Buffered()| + |data| == 64
    modifies s`h, s`t, s`buflen, s.buf
    ensures s.Valid() && s.Buffered() == [] && s.t == Tick(old(s.t))
    ensures s.h == s.compress(old(s.h), old(s.Buffered()) + data, Shown(s.t, s.nullt))
  {
    hide Absorb, Steps, TickAll, Fold, Tick, Shown;
    Exactly(s.compress, s.h, s.t, s.nullt, s.Buffered(), data);
    s.Update(data);
  }

  /** The two counter words as eight big-endian bytes. */
  function Bytes4(v: Word32): (s: seq<Byte>)
    ensures |s| == 4
  {
    [v / 0x100_0000, v / 0x1_0000 % 256, v / 256 % 256, v % 256]
  }

  lemma Bytes4Big(v: Word32)
    ensures Bytes4(v) == ToBig(256, v, 4)
  {
    assert ToBig(256, v, 1) == [v % 256];
  }

  lemma CounterBytes(c: Counter)
    requires Value(c) < TWO32 * TWO32
    ensures Bytes4(c.hi) + Bytes4(c.lo) == Length(Value(c))
  {
    Bytes4Big(c.hi);
    Bytes4Big(c.lo);
    assert Power(256, 4) == TWO32;
    ToBigSplit(256, c.hi, c.lo, 4, 4);
  }

  /** The three cases share their end: the length completes the block. */
  method AddLength<H>(s: State<H>, msglen: seq<Byte>)
    requires s.Valid() && |s.Buffered()| == 56 && |msglen| == 8
    modifies s`h, s`t, s`buflen, s.buf
    ensures s.h == s.compress(old(s.h), old(s.Buffered()) + msglen, Shown(Tick(Sub(old(s.t), 64)), s.nullt))
  {
    hide Tick, Shown, Sub;
    s.t := Sub(s.t, 64);
    Complete(s, msglen);
  }

  /** One padding byte. */
  method FinishExact<H>(s: State<H>, pa: Byte, msglen: seq<Byte>)
    requires s.Valid() && |s.Buffered()| == 55 && |msglen| == 8
    modifies s`h, s`t, s`buflen, s.buf
    ensures s.h == s.compress(old(s.h), old(s.Buffered()) + [pa] + msglen, Shown(Tick(Sub(old(s.t), 72)), s.nullt))
  {
    hide Tick, Shown, Sub;
    SubSub(s.t, 8, 64);
    s.t := Sub(s.t, 8);
    Extend(s, [pa]);
    AddLength(s, msglen);
  }

  /** The bytes taken from the padding table. */
  lemma PaddingTable(n: nat)
    requires 1 <= n <= 64
    ensures var padding := [0x80] + Zeros(63); padding[..n] == [0x80] + Zeros(n - 1) && padding[1..56] == Zeros(55)
  {
  }

  /** Enough space to fill the block. */
  method FinishShort<H>(s: State<H>, pb: Byte, msglen: seq<Byte>)
    requires s.Valid() && |s.Buffered()| < 55 && |msglen| == 8 && !s.nullt
    modifies s`h, s`t, s`buflen, s`nullt, s.buf
    ensures var b := old(s.Buffered()); var c := Tick(Sub(old(s.t), 512 - old(s.buflen)));
      s.h == s.compress(old(s.h), b + [0x80] + Zeros(54 - |b|) + [pb] + msglen, Shown(c, b == []))
  {
    hide Tick, Shown, Sub, Zeros;
    ghost var b := s.Buffered();
    if s.buflen == 0 {
      s.nullt := true;
    }
    var pad := 440 - s.buflen;
    SubSub(s.t, pad, 8);
    SubSub(s.t, pad + 8, 64);
    s.t := Sub(s.t, pad);
    var padding := [0x80] + Zeros(63);
    PaddingTable(55 - |b|);
    Extend(s, padding[..pad / 8]);
    Extend(s, [pb]);
    s.t := Sub(s.t, 8);
    assert s.Buffered() == b + [0x80] + Zeros(54 - |b|) + [pb];
    AddLength(s, msglen);
  }

  /** Two compressions, the second without message bits. */
  method FinishLong<H>(s: State<H>, pb: Byte, msglen: seq<Byte>)
    requires s.Valid() && |s.Buffered()| > 55 && |msglen| == 8 && !s.nullt
    modifies s`h, s`t, s`buflen, s`nullt, s.buf
    ensures var b := old(s.Buffered()); var c := Tick(Sub(old(s.t), 512 - old(s.buflen)));
      s.h == s.compress(s.compress(old(s.h), b + [0x80] + Zeros(63 - |b|), Value(c)), Zeros(55) + [pb] + msglen, 0)
  {
    hide Tick, Sub, Zeros;
    ghost var b := s.Buffered();
    var pad := 512 - s.buflen;
    s.t := Sub(s.t, pad);
    var padding := [0x80] + Zeros(63);
    PaddingTable(64 - |b|);
    assert b + ([0x80] + Zeros(63 - |b|)) == b + [0x80] + Zeros(63 - |b|);
    Complete(s, padding[..pad / 8]);
    CloseEmpty(s, pb, msglen);
  }

  /** The block after the message: zeros, the closing bit and the length, with the counter off. */
  method CloseEmpty<H>(s: State<H>, pb: Byte, msglen: seq<Byte>)
    requires s.Valid() && s.Buffered() == [] && |msglen| == 8
    modifies s`h, s`t, s`buflen, s`nullt, s.buf
    ensures s.h == s.compress(old(s.h), Zeros(55) + [pb] + msglen, 0)
  {
    hide Tick, Sub, Zeros;
    s.t := Sub(s.t, 440);
    var padding := [0x80] + Zeros(63);
    PaddingTable(64);
    Extend(s, padding[1..56]);
    s.nullt := true;
    Extend(s, [pb]);
    s.t := Sub(s.t, 8);
    assert s.Buffered() == Zeros(55) + [pb];
    AddLength(s, msglen);
  }

  /** The counter stands at a block boundary and the message length still fits. */
  predicate Aligned(c: Counter, buflen: nat)
  {
    c.lo % 512 == 0 && buflen < 512 && Value(c) + buflen < TWO32 * TWO32
  }

  lemma BlockIndex(c: Counter, buflen: nat)
    requires Aligned(c, buflen)
    ensures 512 * (Value(c) / 512) == Value(c)
    ensures Count(Value(c) / 512, Value(c) + buflen) == (if buflen == 0 then 0 else Value(c) + buflen)
    ensures Count(Value(c) / 512 + 1, Value(c) + buflen) == 0
  {
  }

  /** The code's three ways to close a message are the one filler. */
  lemma ClosedExact(b: seq<Byte>, pa: Byte, pb: Byte, bits: nat)
    requires |b| == 55 && bits < TWO32 * TWO32
    ensures Closed(b, pa, pb, bits) == b + [pa] + Length(bits)
  {
  }

  lemma ClosedShort(b: seq<Byte>, pa: Byte, pb: Byte, bits: nat)
    requires |b| < 55 && bits < TWO32 * TWO32
    ensures Closed(b, pa, pb, bits) == b + [0x80] + Zeros(54 - |b|) + [pb] + Length(bits)
  {
    hide Length, Zeros;
    assert (55 - |b|) % 64 == 55 - |b|;
    var z := Zeros(54 - |b|);
    assert b + ([0x80] + z + [pb]) == b + [0x80] + z + [pb];
  }

  lemma ClosedLong(b: seq<Byte>, pa: Byte, pb: Byte, bits: nat)
    requires 55 < |b| < 64 && bits < TWO32 * TWO32
    ensures Closed(b, pa, pb, bits) == (b + [0x80] + Zeros(63 - |b|)) + (Zeros(55) + [pb] + Length(bits))
  {
    hide Length;
    assert (55 - |b|) % 64 == 119 - |b|;
    assert Zeros(118 - |b|) == Zeros(63 - |b|) + Zeros(55);
  }

  lemma MessageLength(c: Counter, buflen: nat)
    requires Aligned(c, buflen)
    ensures c.lo + buflen < TWO32 && Bytes4(c.hi) + Bytes4(c.lo + buflen) == Length(Value(c) + buflen)
  {
    hide Bytes4, Length;
    LowFits(c, buflen);
    CounterBytes(Counter(c.lo + buflen, c.hi));
  }

  lemma LowFits(c: Counter, buflen: nat)
    requires c.lo % 512 == 0 && buflen < 512
    ensures c.lo + buflen < TWO32
  {
  }

  /** `blake256_final_h` */
  method FinalH<H>(s: State<H>, pa: Byte, pb: Byte) returns (digest: H)
    requires s.Valid() && !s.nullt && Aligned(s.t, s.buflen)
    modifies s`h, s`t, s`buflen, s`nullt, s.buf
    ensures var bits := Value(old(s.t)) + old(s.buflen);
      digest == Fold(s.compress, old(s.h), Blocks(Closed(old(s.Buffered()), pa, pb, bits), bits, Value(old(s.t)) / 512))
  {
    hide Tick, Sub, Value, Fold, Blocks, Closed, Length, Bytes4, Count;
    var lo, hi := (s.t.lo + s.buflen) % TWO32, s.t.hi;
    if lo < s.buflen {
      hi := (hi + 1) % TWO32;
    }
    MessageLength(s.t, s.buflen);
    BlockIndex(s.t, s.buflen);
    var msglen := Bytes4(hi) + Bytes4(lo);
    ghost var b, bits, i := s.Buffered(), Value(s.t) + s.buflen, Value(s.t) / 512;
    ghost var f, h := s.compress, s.h;
    if s.buflen > 0 { TickBack(s.t, s.buflen); }
    if s.buflen == 440 {
      ClosedExact(b, pa, pb, bits);
      OneBlock(f, h, b + [pa] + msglen, bits, i);
      FinishExact(s, pa, msglen);
    } else if s.buflen < 440 {
      ClosedShort(b, pa, pb, bits);
      OneBlock(f, h, b + [0x80] + Zeros(54 - |b|) + [pb] + msglen, bits, i);
      FinishShort(s, pb, msglen);
    } else {
      ClosedLong(b, pa, pb, bits);
      TwoBlocks(f, h, b + [0x80] + Zeros(63 - |b|), Zeros(55) + [pb] + msglen, bits, i);
      FinishLong(s, pb, msglen);
    }
    digest := s.h;
  }

  lemma {:induction false} BlocksAppend(a: seq<Byte>, b: seq<Byte>, bits: nat, i: nat)
    requires |a| % 64 == 0
    ensures Blocks(a + b, bits, i) == Blocks(a, bits, i) + Blocks(b, bits, i + |a| / 64)
    decreases |a|
  {
    hide Count;
    if a == [] {
      assert a + b == b;
    } else {
      assert (a + b)[..64] == a[..64] && (a + b)[64..] == a[64..] + b;
      BlocksAppend(a[64..], b, bits, i + 1);
    }
  }

  /** Blocks full of message: the running counter is the number of bits so far. */
  lemma {:induction false} MessageBlocks(c: Counter, s: seq<Byte>, bits: nat, i: nat)
    requires |s| % 64 == 0 && Value(c) == 512 * i && c.lo % 512 == 0 && 512 * i + 8 * |s| <= bits < TWO32 * TWO32
    ensures Steps(c, false, s) == Blocks(s, bits, i)
    ensures var d := TickAll(c, |s| / 64); d.lo % 512 == 0 && Value(d) == 512 * i + 8 * |s|
    decreases |s|
  {
    hide Tick, Value;
    if s != [] {
      TickExact(c);
      MessageBlocks(Tick(c), s[64..], bits, i + 1);
    }
  }

  lemma PadSplit(m: seq<Byte>)
    requires |m| < 0x2000_0000_0000_0000
    ensures Pad(m) == Whole(m) + Closed(Left(m), 0x81, 0x01, 8 * |m|)
  {
    hide Filler, Length;
    assert m == Whole(m) + Left(m);
    assert (55 - |m|) % 64 == (55 - |Left(m)|) % 64;
  }

  lemma WholeThenClosed<H>(f: Compression<H>, iv: H, m: seq<Byte>)
    requires |m| < 0x2000_0000_0000_0000
    ensures var bits, c := 8 * |m|, TickAll(Counter(0, 0), |Whole(m)| / 64);
      && c.lo % 512 == 0 && Value(c) + 8 * |Left(m)| == bits
      && Fold(f, iv, Blocks(Pad(m), bits, 0))
         == Fold(f, Fold(f, iv, Steps(Counter(0, 0), false, Whole(m))),
           Blocks(Closed(Left(m), 0x81, 0x01, bits), bits, Value(c) / 512))
  {
    hide Fold, Blocks, Closed, Pad, Steps, TickAll;
    var bits, k, last := 8 * |m|, |Whole(m)| / 64, Closed(Left(m), 0x81, 0x01, 8 * |m|);
    MessageBlocks(Counter(0, 0), Whole(m), bits, 0);
    PadSplit(m);
    BlocksAppend(Whole(m), last, bits, 0);
    FoldAppend(f, iv, Blocks(Whole(m), bits, 0), Blocks(last, bits, k));
  }

  /** `blake256_hash`: the chaining value after exactly the padded blocks with exactly their counters. */
  method Hash<H>(f: Compression<H>, iv: H, m: seq<Byte>) returns (digest: H)
    requires |m| < 0x2000_0000_0000_0000
    ensures digest == Fold(f, iv, Blocks(Pad(m), 8 * |m|, 0))
  {
    hide Fold, Blocks, Closed, Pad, Steps, TickAll, Whole, Left, Value;
    var s := new State(f, iv);
    s.Update(m);
    assert [] + m == m && Absorb([], m) == (Whole(m), Left(m));
    WholeThenClosed(f, iv, m);
    digest := FinalH(s, 0x81, 0x01);
  }
}
