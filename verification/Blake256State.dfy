/** The hash state and its update. */
module Blake256State {
  import opened Positional
  import opened Blake256

  /** `buflen` counts bits. */
  class State<H> {
    const compress: Compression<H>
    var h: H
    var t: Counter
    const buf: array<Byte>
    var buflen: nat
    var nullt: bool

    ghost predicate Valid()
      reads this, buf
    {
      buf.Length == 64 && buflen % 8 == 0 && buflen < 512
    }

    ghost function Buffered(): (s: seq<Byte>)
      requires Valid()
      reads this, buf
      ensures 8 * |s| == buflen
    {
      buf[..buflen / 8]
    }

    /** `blake256_init` */
    constructor (f: Compression<H>, iv: H)
      ensures Valid() && fresh(buf) && compress == f && h == iv
      ensures t == Counter(0, 0) && Buffered() == [] && !nullt
    {
      compress, h, t, buflen, nullt := f, iv, Counter(0, 0), 0, false;
      buf := new Byte[64](_ => 0);
    }

    /** Counting and compressing one block. */
    method AddBlock(block: seq<Byte>)
      requires |block| == 64
      modifies this`h, this`t
      ensures t == Tick(old(t)) && h == compress(old(h), block, Shown(t, nullt))
    {
      t := Tick(t);
      h := compress(h, block, Shown(t, nullt));
    }

    /** The loop over whole blocks. */
    method AddBlocks(data: seq<Byte>) returns (rest: seq<Byte>)
      modifies this`h, this`t
      ensures rest == Left(data) && t == TickAll(old(t), |data| / 64)
      ensures h == Fold(compress, old(h), Steps(old(t), nullt, data))
    {
      rest := data;
      while |rest| >= 64
        invariant Left(rest) == Left(data)
        invariant TickAll(t, |rest| / 64) == TickAll(old(t), |data| / 64)
        invariant Fold(compress, h, Steps(t, nullt, rest)) == Fold(compress, old(h), Steps(old(t), nullt, data))
        decreases |rest|
      {
        FirstStep(compress, h, t, nullt, rest);
        AddBlock(rest[..64]);
        rest := rest[64..];
      }
    }

    /** `blake256_update`, for whole bytes. */
    method Update(data: seq<Byte>)
      requires Valid()
      modifies this`h, this`t, this`buflen, buf
      ensures Valid()
      ensures var (done, kept) := Absorb(old(Buffered()), data);
        && h == Fold(compress, old(h), Steps(old(t), nullt, done))
        && Buffered() == kept && t == TickAll(old(t), |done| / 64)
    {
      hide Absorb, Steps, Fold, TickAll, Left, Whole, Tick, Shown;
      ghost var b := Buffered();
      var left := buflen / 8;
      var fill := 64 - left;
      var rest := data;
      if left != 0 && |data| % 64 >= fill {
        TopUp(compress, h, t, nullt, b, data);
        Copy(left, data[..fill]);
        assert buf[..] == b + data[..fill];
        AddBlock(buf[..]);
        rest := data[fill..];
        left := 0;
      } else {
        Direct(t, nullt, b, data);
      }
      rest := AddBlocks(rest);
      if |rest| > 0 {
        Copy(left, rest);
        buflen := 8 * left + 8 * |rest|;
      } else {
        buflen := 0;
      }
    }

    /** `memcpy` into the buffer. */
    method Copy(at: nat, s: seq<Byte>)
      requires Valid() && at + |s| <= 64
      modifies buf
      ensures buf[..at + |s|] == old(buf[..at]) + s
    {
      forall i | 0 <= i < |s| {
        buf[at + i] := s[i];
      }
    }
  }

  lemma FirstStep<H>(f: Compression<H>, h: H, t: Counter, nullt: bool, s: seq<Byte>)
    requires |s| >= 64
    ensures Fold(f, h, Steps(t, nullt, s))
      == Fold(f, f(h, s[..64], Shown(Tick(t), nullt)), Steps(Tick(t), nullt, s[64..]))
    ensures TickAll(t, |s| / 64) == TickAll(Tick(t), |s[64..]| / 64)
    ensures Left(s) == Left(s[64..])
  {
    hide Tick, Shown;
    assert Steps(t, nullt, s)[1..] == Steps(Tick(t), nullt, s[64..]);
    assert |s| / 64 == |s[64..]| / 64 + 1 && |s| % 64 == |s[64..]| % 64;
  }

  lemma {:induction false} StepsWhole(t: Counter, nullt: bool, s: seq<Byte>)
    ensures Steps(t, nullt, Whole(s)) == Steps(t, nullt, s) && |Whole(s)| / 64 == |s| / 64
    decreases |s|
  {
    hide Tick, Shown;
    if |s| >= 64 {
      StepsWhole(Tick(t), nullt, s[64..]);
      assert Whole(s)[64..] == Whole(s[64..]) && Whole(s)[..64] == s[..64];
    }
  }

  /** The buffered bytes and the first new ones make a block. */
  lemma TopUp<H>(f: Compression<H>, h: H, t: Counter, nullt: bool, b: seq<Byte>, data: seq<Byte>)
    requires 0 < |b| < 64 && |data| % 64 >= 64 - |b|
    ensures var (done, kept) := Absorb(b, data);
      var rest := data[64 - |b|..];
      && Fold(f, h, Steps(t, nullt, done))
        == Fold(f, f(h, b + data[..64 - |b|], Shown(Tick(t), nullt)), Steps(Tick(t), nullt, rest))
      && kept == Left(rest) && TickAll(t, |done| / 64) == TickAll(Tick(t), |rest| / 64)
  {
    hide Tick, Shown, Steps, Fold, TickAll, Left, Whole;
    var s := b + data;
    FirstStep(f, h, t, nullt, s);
    StepsWhole(t, nullt, s);
    assert s[..64] == b + data[..64 - |b|] && s[64..] == data[64 - |b|..];
  }

  /** Otherwise new blocks are compressed as they are. */
  lemma Direct(t: Counter, nullt: bool, b: seq<Byte>, data: seq<Byte>)
    requires |b| < 64 && !(|b| != 0 && |data| % 64 >= 64 - |b|)
    ensures var (done, kept) := Absorb(b, data);
      && Steps(t, nullt, done) == Steps(t, nullt, data) && |done| / 64 == |data| / 64
      && kept == if Left(data) == [] then [] else b + Left(data)
  {
    hide Steps, Left, Whole;
    StepsWhole(t, nullt, data);
    if |b| == 0 {
      assert b + data == data;
      EmptyLeft(data);
    } else if 0 < |data| < 64 {
      Short(t, nullt, data);
      Short(t, nullt, b + data);
    } else {
      EmptyLeft(data);
    }
  }

  lemma EmptyLeft(s: seq<Byte>)
    ensures Left(s) == [] <==> |s| % 64 == 0
    ensures [] + Left(s) == Left(s)
  {
  }

  lemma Short(t: Counter, nullt: bool, s: seq<Byte>)
    requires |s| < 64
    ensures Left(s) == s && Whole(s) == [] && Steps(t, nullt, s) == Steps(t, nullt, []) == []
  {
  }
}
