/** One Base58 block: up to eight bytes as a big-endian number, rewritten in base 58 at a fixed width. */
module Base58Blocks {
  import opened Options
  import opened Positional
  import opened BigEndian
  import opened Base58Alphabet

  const ENCODED_SIZES := [0, 2, 3, 5, 6, 7, 9, 10, 11]

  function Size(k: nat): (n: nat)
    requires k <= 8
  {
    ENCODED_SIZES[k]
  }

  /** How many bytes a block of `n` letters holds, -1 when no block has that many letters. */
  function DecodedSize(n: nat): int
  {
    if n == 0 then 0 else if n == 2 then 1 else if n == 3 then 2 else if n == 5 then 3 else if n == 6 then 4
    else if n == 7 then 5 else if n == 9 then 6 else if n == 10 then 7 else if n == 11 then 8 else -1
  }

  lemma SizesInverse(k: nat, n: nat)
    requires k <= 8
    ensures DecodedSize(n) == k <==> Size(k) == n
    ensures 0 < k < 8 ==> 2 <= Size(k) <= 10
    ensures -1 <= DecodedSize(n) <= 8
  {
  }

  /** `decoded_block_sizes` */
  method SizeTable() returns (t: seq<int>)
    ensures |t| == 12 && forall n :: 0 <= n < 12 ==> t[n] == DecodedSize(n)
  {
    t := seq(12, _ => -1);
    for i := 0 to 9
      invariant |t| == 12
      invariant forall n :: 0 <= n < 12 ==> t[n] == if 0 <= DecodedSize(n) < i then DecodedSize(n) else -1
    {
      t := t[ENCODED_SIZES[i] := i];
    }
  }

  /** Every number of `k` bytes has its base-58 digits within the block. */
  lemma Fits(k: nat)
    requires k <= 8
    ensures Power(256, k) <= Power(58, Size(k)) && Power(256, k) <= TWO64
  {
    assert Power(256, 8) == TWO64;
    if k == 1 { assert Power(58, 2) == 3364; }
    if k == 2 { assert Power(58, 3) == 195112; }
    if k == 3 { assert Power(58, 5) == 656356768; }
    if k == 4 { assert Power(58, 6) == 38068692544; }
    if k == 5 { assert Power(58, 7) == 2207984167552; }
    if k == 6 { assert Power(58, 9) == 7427658739644928; }
    if k == 7 { assert Power(58, 10) == 430804206899405824; }
    if k == 8 { assert Power(58, 11) == 24986644000165537792; }
    PowerMono(256, k, 8);
  }

  function Spell(ds: seq<int>): (s: string)
    requires Digits(58, ds)
    ensures |s| == |ds|
  {
    seq(|ds|, i requires 0 <= i < |ds| => At(ds[i]))
  }

  function Values(s: string): (ds: seq<int>)
    ensures |ds| == |s|
  {
    seq(|s|, i requires 0 <= i < |s| => Digit(s[i]))
  }

  lemma ValuesSpell(ds: seq<int>)
    requires Digits(58, ds)
    ensures Values(Spell(ds)) == ds
  {
    forall i | 0 <= i < |ds| ensures Values(Spell(ds))[i] == ds[i] {
      Letter(ds[i]);
    }
  }

  lemma SpellValues(s: string)
    requires Digits(58, Values(s))
    ensures Spell(Values(s)) == s
  {
    forall i | 0 <= i < |s| ensures Spell(Values(s))[i] == s[i] {
      assert Values(s)[i] >= 0;
      DigitLetter(s[i]);
    }
  }

  /** The text of a block. */
  function EncBlock(b: seq<Byte>): (s: string)
    requires |b| <= 8
    ensures |s| == Size(|b|)
  {
    BigBound(256, b);
    Fits(|b|);
    FromTo(58, FromBig(256, b), Size(|b|));
    Spell(ToBig(58, FromBig(256, b), Size(|b|)))
  }

  /** The block a text stands for: a known length, letters only, and a number that fits in its bytes. */
  ghost function DecBlock(s: string): Option<seq<Byte>>
  {
    var k := DecodedSize(|s|);
    if k <= 0 || !Digits(58, Values(s)) || FromBig(58, Values(s)) >= Power(256, k) then None
    else
      BigBound(58, Values(s));
      FromTo(256, FromBig(58, Values(s)), k);
      Some(ToBig(256, FromBig(58, Values(s)), k))
  }

  /** A text decodes to exactly the block it is the text of. */
  lemma BlockInverse(s: string, b: seq<Byte>)
    ensures DecBlock(s) == Some(b) <==> 1 <= |b| <= 8 && EncBlock(b) == s
  {
    if DecBlock(s) == Some(b) { DecodedReencodes(s, b); }
    if 1 <= |b| <= 8 && EncBlock(b) == s { EncodedDecodes(b); }
  }

  lemma EncodedDecodes(b: seq<Byte>)
    requires 1 <= |b| <= 8
    ensures DecBlock(EncBlock(b)) == Some(b)
  {
    hide Power, FromBig, ToBig, Spell, Values;
    SizesInverse(|b|, Size(|b|));
    BigBound(256, b);
    Fits(|b|);
    FromTo(58, FromBig(256, b), Size(|b|));
    ValuesSpell(ToBig(58, FromBig(256, b), Size(|b|)));
    ToFrom(256, b);
  }

  lemma DecodedReencodes(s: string, b: seq<Byte>)
    requires DecBlock(s) == Some(b)
    ensures 1 <= |b| <= 8 && EncBlock(b) == s
  {
    hide Power, FromBig, ToBig, Spell, Values, ENCODED_SIZES;
    var v := FromBig(58, Values(s));
    SizesInverse(|b|, |s|);
    BigBound(58, Values(s));
    FromTo(256, v, |b|);
    ToFrom(58, Values(s));
    SpellValues(s);
  }

  /** A block and its text are the same number: the bytes in base 256 and the letters' digits in base 58, with the most
      significant one in front. */
  lemma SameNumber(b: seq<Byte>)
    requires |b| <= 8
    ensures Eval(58, Reversed(Values(EncBlock(b)))) == Eval(256, Reversed(b))
  {
    hide Power, FromBig, ToBig, Eval, Spell, Values, Reversed;
    var v, n := FromBig(256, b), Size(|b|);
    BigBound(256, b);
    Fits(|b|);
    FromTo(58, v, n);
    ValuesSpell(ToBig(58, v, n));
    BigIsReversed(58, Values(EncBlock(b)));
    BigIsReversed(256, b);
  }

  /** A single byte is written as the letters of its quotient and its remainder by 58. */
  lemma OneByte(x: Byte)
    ensures EncBlock([x]) == [At(x / 58), At(x % 58)]
  {
    assert [x][..0] == [];
    assert FromBig(256, [x]) == x;
    var ds := ToBig(58, x, 2);
    assert ToBig(58, x / 58, 1) == [x / 58] && ds == [x / 58, x % 58];
  }
}
