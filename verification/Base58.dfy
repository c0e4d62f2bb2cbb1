/** Whole Base58 strings, block after block. */
module Base58 {
  import opened Options
  import opened Positional
  import opened Base58Alphabet
  import opened Base58Blocks
  import opened Base58BlockCodec

  /** The text of a byte string: full blocks of eight bytes, then what is left. */
  function Enc(data: seq<Byte>): (s: string)
    ensures data == [] <==> s == []
  {
    if |data| < 8 then EncBlock(data) else EncBlock(data[..8]) + Enc(data[8..])
  }

  /** The byte string of a text: blocks of eleven letters, then what is left. */
  ghost function Dec(s: string): (r: Option<seq<Byte>>)
  {
    if s == [] then Some([])
    else if |s| < 11 then DecBlock(s)
    else
      var first, rest := DecBlock(s[..11]), Dec(s[11..]);
      if first.Some? && rest.Some? then Some(first.value + rest.value) else None
  }

  /** A text decodes to a byte string exactly when it is that byte string's text. */
  lemma {:induction false} DecodesExactly(s: string, d: seq<Byte>)
    ensures Dec(s) == Some(d) <==> Enc(d) == s
  {
    if Dec(s) == Some(d) { AcceptedReencodes(s, d); }
    if Enc(d) == s { EncodedDecodesBack(d); }
  }

  lemma {:induction false} AcceptedReencodes(s: string, d: seq<Byte>)
    requires Dec(s) == Some(d)
    ensures Enc(d) == s
  {
    hide EncBlock, DecBlock, ENCODED_SIZES;
    if s != [] && |s| < 11 {
      BlockInverse(s, d);
      SizesInverse(|d|, |s|);
      FullBlock();
    } else if s != [] {
      var first, rest := DecBlock(s[..11]).value, Dec(s[11..]).value;
      BlockInverse(s[..11], first);
      SizesInverse(8, 11);
      SizesInverse(|first|, 11);
      AcceptedReencodes(s[11..], rest);
      assert d[..8] == first && d[8..] == rest;
      assert s == s[..11] + s[11..];
    }
  }

  lemma FullBlock()
    ensures Size(8) == 11 && Size(0) == 0
  {
  }

  lemma {:induction false} EncodedDecodesBack(d: seq<Byte>)
    ensures Dec(Enc(d)) == Some(d)
  {
    hide EncBlock, DecBlock, ENCODED_SIZES;
    FullBlock();
    if 0 < |d| < 8 {
      BlockInverse(EncBlock(d), d);
      SizesInverse(|d|, Size(|d|));
    } else if |d| >= 8 {
      var first, rest := EncBlock(d[..8]), Enc(d[8..]);
      BlockInverse(first, d[..8]);
      EncodedDecodesBack(d[8..]);
      assert (first + rest)[..11] == first && (first + rest)[11..] == rest;
      assert d == d[..8] + d[8..];
    }
  }

  /** The first `i` blocks are written, the rest still holds the letter for zero. */
  ghost predicate Written(data: seq<Byte>, r: string, i: nat)
  {
    && 8 * i <= |data| && 11 * i <= |r|
    && Enc(data) == r[..11 * i] + Enc(data[8 * i..])
    && forall j :: 11 * i <= j < |r| ==> r[j] == At(0)
  }

  ghost predicate OnlyBetween(r: string, r': string, lo: int, hi: int)
  {
    |r| == |r'| && forall j :: 0 <= j < |r| && !(lo <= j < hi) ==> r'[j] == r[j]
  }

  lemma NextBlock(data: seq<Byte>, r: string, r': string, i: nat)
    requires Written(data, r, i) && 8 * (i + 1) <= |data| && 11 * (i + 1) <= |r|
    requires OnlyBetween(r, r', 11 * i, 11 * (i + 1)) && r'[11 * i..11 * (i + 1)] == EncBlock(data[8 * i..8 * (i + 1)])
    ensures Written(data, r', i + 1)
  {
    hide EncBlock, At;
    var rest := data[8 * i..];
    assert rest[..8] == data[8 * i..8 * (i + 1)] && rest[8..] == data[8 * (i + 1)..];
    assert r'[..11 * (i + 1)] == r[..11 * i] + r'[11 * i..11 * (i + 1)];
  }

  lemma LastBlock(data: seq<Byte>, r: string, r': string, i: nat)
    requires Written(data, r, i) && |data| < 8 * (i + 1) && OnlyBetween(r, r', 11 * i, |r|)
    requires r'[11 * i..] == EncBlock(data[8 * i..])
    ensures r' == Enc(data)
  {
    hide EncBlock, At, Enc, ENCODED_SIZES;
    ShortText(data[8 * i..]);
    assert r' == r'[..11 * i] + r'[11 * i..] && r'[..11 * i] == r[..11 * i];
  }

  lemma ShortText(d: seq<Byte>)
    requires |d| < 8
    ensures Enc(d) == EncBlock(d)
  {
  }

  /** `encode` */
  method Encode(data: seq<Byte>) returns (s: string)
    ensures s == Enc(data)
  {
    hide EncBlock, At, Enc, Written, ENCODED_SIZES;
    if data == [] {
      return [];
    }
    FullBlock();
    var count, last := |data| / 8, |data| % 8;
    var res := new char[11 * count + Size(last)](_ => At(0));
    NothingWritten(data, res[..]);
    for i := 0 to count
      invariant Written(data, res[..], i)
    {
      EncodeNext(data, i, 8, res);
    }
    ghost var r := res[..];
    if 0 < last {
      EncodeNext(data, count, last, res);
    } else {
      LastBlock(data, r, r, count);
    }
    s := res[..];
  }

  lemma NothingWritten(data: seq<Byte>, r: string)
    requires forall j :: 0 <= j < |r| ==> r[j] == At(0)
    ensures Written(data, r, 0)
  {
    assert data[0..] == data;
  }

  /** One block of `encode`. */
  method EncodeNext(data: seq<Byte>, i: nat, size: nat, res: array<char>)
    requires 1 <= size <= 8 && 8 * i + size <= |data| && 11 * i + Size(size) <= res.Length && Written(data, res[..], i)
    requires size < 8 ==> 8 * i + size == |data| && 11 * i + Size(size) == res.Length
    modifies res
    ensures size == 8 ==> Written(data, res[..], i + 1)
    ensures size < 8 ==> res[..] == Enc(data)
  {
    hide EncBlock, At, Enc, ENCODED_SIZES;
    FullBlock();
    ghost var before := res[..];
    EncodeBlock(data[8 * i..8 * i + size], res, 11 * i);
    if size == 8 {
      NextBlock(data, before, res[..], i);
    } else {
      assert data[8 * i..] == data[8 * i..8 * i + size] && res[11 * i..] == res[11 * i..11 * i + Size(size)];
      LastBlock(data, before, res[..], i);
    }
  }

  /** No byte string has a text of this length. */
  lemma {:induction false} BadLength(s: string)
    requires DecodedSize(|s| % 11) < 0
    ensures Dec(s) == None
  {
    if |s| >= 11 {
      assert |s[11..]| % 11 == |s| % 11;
      BadLength(s[11..]);
    }
  }

  /** The first `i` blocks of `enc` decode to `done`, so all depends on the rest. */
  ghost predicate Behind(enc: string, done: seq<Byte>, i: nat)
  {
    && 11 * i <= |enc|
    && var rest := Dec(enc[11 * i..]);
       Dec(enc) == if rest.Some? then Some(done + rest.value) else None
  }

  lemma NothingBehind(enc: string)
    ensures Behind(enc, [], 0)
  {
    assert enc[0..] == enc;
    if Dec(enc).Some? { assert [] + Dec(enc).value == Dec(enc).value; }
  }

  lemma BlockBehind(enc: string, done: seq<Byte>, i: nat)
    requires Behind(enc, done, i) && 11 * (i + 1) <= |enc|
    ensures var block := DecBlock(enc[11 * i..11 * (i + 1)]);
      if block.Some? then Behind(enc, done + block.value, i + 1) else Dec(enc) == None
  {
    hide DecBlock;
    var rest := enc[11 * i..];
    var block, later := DecBlock(enc[11 * i..11 * (i + 1)]), Dec(enc[11 * (i + 1)..]);
    assert rest[..11] == enc[11 * i..11 * (i + 1)] && rest[11..] == enc[11 * (i + 1)..];
    if block.Some? && later.Some? {
      assert done + (block.value + later.value) == (done + block.value) + later.value;
    }
  }

  lemma ShortRest(enc: string, done: seq<Byte>, i: nat)
    requires Behind(enc, done, i) && |enc| < 11 * (i + 1)
    ensures |enc| == 11 * i ==> Dec(enc) == Some(done)
    ensures |enc| > 11 * i ==> var block := DecBlock(enc[11 * i..]);
      Dec(enc) == if block.Some? then Some(done + block.value) else None
  {
    assert |enc| == 11 * i ==> done + [] == done;
  }

  /** `decode` */
  method Decode(enc: string) returns (r: Option<seq<Byte>>)
    ensures r == Dec(enc)
  {
    hide DecBlock, Dec, Behind, DecodedSize;
    NothingBehind(enc);
    if enc == [] {
      ShortRest(enc, [], 0);
      return Some([]);
    }
    var count, last := |enc| / 11, |enc| % 11;
    var lastSize := DecodedSize(last);
    if lastSize < 0 {
      BadLength(enc);
      return None;
    }
    var data := new Byte[8 * count + lastSize](_ => 0);
    assert data[..0] == [];
    FullSize(last);
    for i := 0 to count
      invariant Behind(enc, data[..8 * i], i)
    {
      BlockBehind(enc, data[..8 * i], i);
      ghost var before := data[..8 * i];
      var ok := DecodeBlock(enc[11 * i..11 * (i + 1)], data, 8 * i);
      if !ok {
        return None;
      }
      assert data[..8 * (i + 1)] == before + DecBlock(enc[11 * i..11 * (i + 1)]).value;
    }
    ghost var done := data[..8 * count];
    ShortRest(enc, done, count);
    if 0 < last {
      var block := enc[11 * count..];
      assert |block| == last && data[8 * count + lastSize..] == [];
      var ok := DecodeBlock(block, data, 8 * count);
      if !ok {
        return None;
      }
      assert data[..] == done + DecBlock(block).value;
    }
    assert last == 0 ==> data[..] == done;
    r := Some(data[..]);
  }

  lemma FullSize(n: nat)
    ensures DecodedSize(11) == 8 && (DecodedSize(n) == 0 <==> n == 0)
  {
  }
}
