/** The in-place block writers of Base58, each proved to touch its own block only. */
module Base58BlockCodec {
  import opened Options
  import opened Positional
  import opened BigEndian
  import opened WideArithmetic
  import opened Base58Alphabet
  import opened Base58Blocks

  /** `uint_8be_to_64` */
  method ReadBig(block: seq<Byte>) returns (num: Word)
    requires 1 <= |block| <= 8
    ensures num == FromBig(256, block)
  {
    num := 0;
    for i := 0 to |block|
      invariant num == FromBig(256, block[..i])
    {
      var rest := block[..i + 1];
      assert rest[..i] == block[..i];
      BigBound(256, rest);
      Fits(i + 1);
      num := num * 256 + block[i];
    }
    assert block[..|block|] == block;
  }

  /** The low digits of a longer expansion are the shorter expansion. */
  lemma {:induction false} LowDigits(b: nat, v: int, k: nat, m: nat)
    requires b > 0 && k <= m
    ensures ToBig(b, v, m)[m - k..] == ToBig(b, v, k)
    decreases k
  {
    if k > 0 {
      LowDigits(b, v / b, k - 1, m - 1);
      assert ToBig(b, v, m)[m - k..] == ToBig(b, v / b, m - 1)[m - k..] + [v % b];
    }
  }

  lemma ByteDigits(v: Word, k: nat)
    requires k <= 8
    ensures Digits(256, ToBig(256, v, k))
  {
    Fits(8);
    assert Power(256, 8) == TWO64;
    FromTo(256, v, 8);
    LowDigits(256, v, k, 8);
  }

  lemma {:induction false} LeadingZeros(b: nat, k: nat)
    requires b > 0
    ensures forall i :: 0 <= i < k ==> ToBig(b, 0, k)[i] == 0
    decreases k
  {
    if k > 0 {
      LeadingZeros(b, k - 1);
      assert 0 / b == 0 && 0 % b == 0;
    }
  }

  /** `whole` still has the digits of `num` in front of the ones from `i` on. */
  ghost predicate Pending(whole: seq<int>, num: nat, i: nat)
  {
    i <= |whole| && num < Power(58, i) && whole == ToBig(58, num, i) + whole[i..]
  }

  lemma TakeDigit(whole: seq<int>, num: nat, i: nat)
    requires Pending(whole, num, i) && num > 0
    ensures i > 0 && whole[i - 1] == num % 58 && 0 <= num / 58 < num && Pending(whole, num / 58, i - 1)
  {
    QuotientBound(58, num, Power(58, i - 1));
    ModOf(num, 58);
    assert whole[i - 1] == ToBig(58, num, i)[i - 1];
    assert whole[i - 1..] == [whole[i - 1]] + whole[i..];
  }

  lemma NoMoreDigits(whole: seq<int>, i: nat)
    requires Pending(whole, 0, i)
    ensures forall j :: 0 <= j < i ==> whole[j] == 0
  {
    LeadingZeros(58, i);
    assert forall j :: 0 <= j < i ==> whole[j] == ToBig(58, 0, i)[j];
  }

  /** `encode_block`: digits from the right until the number runs out, the rest left at the letter for zero. */
  method EncodeBlock(block: seq<Byte>, res: array<char>, off: nat)
    requires 1 <= |block| <= 8 && off + Size(|block|) <= res.Length
    requires forall i :: off <= i < off + Size(|block|) ==> res[i] == At(0)
    modifies res
    ensures forall i :: 0 <= i < res.Length && !(off <= i < off + Size(|block|)) ==> res[i] == old(res[i])
    ensures res[off..off + Size(|block|)] == EncBlock(block)
  {
    hide At, Digit, ENCODED_SIZES, Power, FromBig, ToBig;
    var num := ReadBig(block);
    BigBound(256, block);
    Fits(|block|);
    FromTo(58, num, Size(|block|));
    WriteDigits(num, Size(|block|), ToBig(58, num, Size(|block|)), res, off);
    assert res[off..off + Size(|block|)] == EncBlock(block);
  }

  method WriteDigits(number: nat, size: nat, ghost whole: seq<int>, res: array<char>, off: nat)
    requires |whole| == size && Pending(whole, number, size) && Digits(58, whole) && off + |whole| <= res.Length
    requires forall j :: off <= j < off + |whole| ==> res[j] == At(0)
    modifies res
    ensures forall i :: 0 <= i < res.Length && !(off <= i < off + |whole|) ==> res[i] == old(res[i])
    ensures forall j :: off <= j < off + |whole| ==> res[j] == At(whole[j - off])
  {
    hide At, Pending;
    var num := number;
    var i := size;
    while 0 < num
      invariant 0 <= i <= |whole| && Pending(whole, num, i)
      invariant forall j :: off <= j < off + i ==> res[j] == At(0)
      invariant forall j :: off + i <= j < off + |whole| ==> res[j] == At(whole[j - off])
      invariant forall j :: 0 <= j < res.Length && !(off <= j < off + |whole|) ==> res[j] == old(res[j])
      decreases num
    {
      TakeDigit(whole, num, i);
      var remainder := num % 58;
      i := i - 1;
      num := num / 58;
      res[off + i] := At(remainder);
    }
    NoMoreDigits(whole, i);
  }

  /** One more digit in front. */
  lemma LeadDigit(b: nat, s: seq<int>)
    requires |s| > 0
    ensures FromBig(b, s) == Power(b, |s| - 1) * s[0] + FromBig(b, s[1..])
  {
    FromBigSplit(b, s, 1);
    assert s[..1][..0] == [] && FromBig(b, s[..1]) == s[0];
  }

  lemma TailBelow(b: nat, s: seq<int>, i: nat)
    requires i <= |s| && Digits(b, s)
    ensures FromBig(b, s[i..]) <= FromBig(b, s)
  {
    FromBigSplit(b, s, i);
    BigBound(b, s[..i]);
    MulMono(Power(b, |s| - i), 0, FromBig(b, s[..i]));
  }

  lemma NoDigits(b: nat)
    ensures FromBig(b, []) == 0 && Power(b, 0) == 1
  {
  }

  lemma OrderFits(j: nat)
    requires j <= 10
    ensures Power(58, j) < TWO64
  {
    PowerMono(58, j, 10);
    assert Power(58, 10) == 430804206899405824;
  }

  /** The digit loop of `decode_block`: exact, or refused for a foreign character or a value of 2^64 or more. */
  method ReadDigits(block: string) returns (ok: bool, num: Word)
    requires 1 <= |block| <= 11
    ensures ok <==> Digits(58, Values(block)) && FromBig(58, Values(block)) < TWO64
    ensures ok ==> num == FromBig(58, Values(block))
  {
    hide Power, FromBig, Digit;
    ghost var ds := Values(block);
    num := 0;
    var order: Word := 1;
    var i := |block|;
    NoDigits(58);
    assert ds[i..] == [];
    while i > 0
      invariant 0 <= i <= |block|
      invariant i > 0 ==> order == Power(58, |block| - i)
      invariant Digits(58, ds[i..]) && num == FromBig(58, ds[i..])
    {
      i := i - 1;
      var digit := Digit(block[i]);
      DigitLetter(block[i]);
      assert ds[i] == digit;
      if digit < 0 {
        return false, num;
      }
      assert ds[i..] == [digit] + ds[i + 1..];
      LeadDigit(58, ds[i..]);
      var hi, lo := Mul128(order, digit);
      var tmp := Add(num, lo);
      if tmp < num || hi != 0 {
        assert FromBig(58, ds[i..]) >= TWO64;
        if Digits(58, ds) { TailBelow(58, ds, i); }
        return false, num;
      }
      num := tmp;
      order := (order * 58) % TWO64;
      NextOrder(|block| - i);
    }
    assert ds[0..] == ds;
    ok := true;
  }

  lemma NextOrder(j: nat)
    requires 0 < j
    ensures Power(58, j) == 58 * Power(58, j - 1)
    ensures j <= 10 ==> Power(58, j) % TWO64 == Power(58, j)
  {
    if j <= 10 { OrderFits(j); }
  }

  /** `decode_block` */
  method DecodeBlock(block: string, data: array<Byte>, off: nat) returns (ok: bool)
    requires 1 <= |block| <= 11
    requires DecodedSize(|block|) > 0 ==> off + DecodedSize(|block|) <= data.Length
    modifies data
    ensures ok <==> DecBlock(block).Some?
    ensures !ok ==> data[..] == old(data[..])
    ensures ok ==> data[..] == old(data[..off]) + DecBlock(block).value + old(data[off + DecodedSize(|block|)..])
  {
    hide Power, FromBig, ToBig, Values, Digit, At;
    var size := DecodedSize(|block|);
    if size <= 0 {
      return false;
    }
    var num;
    ok, num := ReadDigits(block);
    Fits(size);
    if !ok {
      return false;
    }
    ByteLimit(size);
    if size < 8 && Power(256, size) <= num {
      return false;
    }
    ByteDigits(num, 8);
    LowDigits(256, num, size, 8);
    var bytes: seq<Byte> := ToBig(256, num, 8)[8 - size..];
    forall j | 0 <= j < size {
      data[off + j] := bytes[j];
    }
    assert data[off..off + size] == bytes;
    assert data[..off] == old(data[..off]) && data[off + size..] == old(data[off + size..]);
  }

  lemma ByteLimit(k: nat)
    ensures k == 8 ==> Power(256, k) == TWO64
  {
  }
}
