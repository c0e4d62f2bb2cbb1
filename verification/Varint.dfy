/** Variable-length integers: the writers, the canonical stream reader at four widths and the
    address-tag reader that stops quietly at the end of its input. */
module Varint {
  import opened Positional

  /** Seven bits per byte, least significant first, the top bit marking that more follows. */
  function Encode(n: nat): (s: seq<Byte>)
    ensures |s| > 0
  {
    if n < 128 then [n] else [n % 128 + 128] + Encode(n / 128)
  }

  /** `write_varint`, `writeVarint` */
  method Write(n: nat) returns (s: seq<Byte>)
    ensures s == Encode(n)
  {
    s := [];
    var i := n;
    while i >= 128
      invariant s + Encode(i) == Encode(n)
    {
      assert s + Encode(i) == s + [i % 128 + 128] + Encode(i / 128);
      s := s + [i % 128 + 128];
      i := i / 128;
    }
    s := s + [i];
  }

  datatype Result = Ok(value: nat, read: nat) | EndOfInput | Overflow | NotCanonical

  predicate Width(w: nat) { w == 8 || w == 16 || w == 32 || w == 64 }

  /** What reading at bit position `shift` of a `w`-bit integer yields for the remaining value. */
  function Read(w: nat, s: seq<Byte>, shift: nat): (r: Result)
    requires shift < w
    decreases w - shift
  {
    if s == [] then EndOfInput
    else if shift >= w - 7 && s[0] >= Power(2, w - shift) then Overflow
    else if s[0] < 128 then
      if s[0] == 0 && shift != 0 then NotCanonical else Ok(s[0], 1)
    else
      LastPiece(w - shift);
      match Read(w, s[1..], shift + 7)
      case Ok(v, k) => Ok(s[0] - 128 + 128 * v, k + 1)
      case e => e
  }

  lemma LastPiece(k: nat)
    ensures k <= 7 ==> Power(2, k) <= 128
    ensures Power(2, k + 7) == 128 * Power(2, k)
  {
    assert Power(2, 7) == 128;
    if k <= 7 { PowerMono(2, k, 7); }
    PowerAdd(2, 7, k);
  }

  /** Every value that fits is read back, and only its own bytes are consumed. */
  lemma {:induction false} ReadEncoded(w: nat, n: nat, rest: seq<Byte>, shift: nat)
    requires shift < w && n < Power(2, w - shift) && (shift == 0 || n > 0)
    ensures Read(w, Encode(n) + rest, shift) == Ok(n, |Encode(n)|)
    decreases n
  {
    LastPiece(w - shift);
    if n >= 128 {
      assert w - shift > 7;
      LastPiece(w - shift - 7);
      ReadEncoded(w, n / 128, rest, shift + 7);
      assert (Encode(n) + rest)[1..] == Encode(n / 128) + rest;
    }
  }

  /** Whatever is accepted is the one encoding of a value that fits. */
  lemma {:induction false} AcceptedIsEncoded(w: nat, s: seq<Byte>, shift: nat)
    requires shift < w && Read(w, s, shift).Ok?
    ensures var r := Read(w, s, shift);
      r.read <= |s| && s[..r.read] == Encode(r.value) && r.value < Power(2, w - shift) && (shift == 0 || r.value > 0)
    decreases w - shift
  {
    LastPiece(w - shift);
    var r := Read(w, s, shift);
    if s[0] >= 128 {
      AcceptedIsEncoded(w, s[1..], shift + 7);
      var t := Read(w, s[1..], shift + 7);
      LastPiece(w - shift - 7);
      assert r.value / 128 == t.value && r.value % 128 == s[0] - 128;
      assert s[..r.read] == [s[0]] + s[1..][..t.read];
    } else {
      PowerMono(2, 0, w - shift);
      if w - shift > 7 { PowerMono(2, 7, w - shift); }
      assert s[..1] == [s[0]];
    }
  }

  /** The reader accepts exactly one byte sequence per value of its width. */
  lemma ReadExactly(w: nat, s: seq<Byte>, n: nat, k: nat)
    requires Width(w)
    ensures Read(w, s, 0) == Ok(n, k) <==> n < Power(2, w) && Encode(n) <= s && k == |Encode(n)|
  {
    hide Read, Encode, Power;
    if Read(w, s, 0) == Ok(n, k) {
      AcceptedIsEncoded(w, s, 0);
    }
    if n < Power(2, w) && Encode(n) <= s {
      ReadEncoded(w, n, s[|Encode(n)|..], 0);
      assert Encode(n) + s[|Encode(n)|..] == s;
    }
  }

  /** `value | (x << shift)` for a `value` below `unit` = 2^shift, so the operands share no bit. */
  function Place(value: nat, unit: nat, x: nat): nat
  {
    value + unit * x
  }

  /** The result of the whole read, when `value` and `pos` bytes are behind and `r` is ahead. */
  ghost function Ahead(value: nat, unit: nat, pos: nat, r: Result): Result
  {
    if r.Ok? then Ok(Place(value, unit, r.value), pos + r.read) else r
  }

  lemma AheadStep(value: nat, unit: nat, pos: nat, x: nat, r: Result)
    ensures Ahead(value, unit, pos, Ahead(x, 128, 1, r)) == Ahead(Place(value, unit, x), 128 * unit, pos + 1, r)
  {
    if r.Ok? {
      assert unit * (x + 128 * r.value) == unit * x + (128 * unit) * r.value;
    }
  }

  lemma StartRead(w: nat, s: seq<Byte>)
    requires 0 < w
    ensures Ahead(0, Power(2, 0), 0, Read(w, s[0..], 0)) == Read(w, s, 0)
  {
    assert s[0..] == s;
  }

  /** One continuation byte moves from ahead to behind. */
  lemma Advance(w: nat, s: seq<Byte>, pos: nat, shift: nat, value: nat)
    requires shift < w && pos < |s| && s[pos] >= 128 && !(shift >= w - 7 && s[pos] >= Power(2, w - shift))
    ensures shift + 7 < w
    ensures Ahead(value, Power(2, shift), pos, Read(w, s[pos..], shift))
         == Ahead(Place(value, Power(2, shift), s[pos] - 128), Power(2, shift + 7), pos + 1,
                  Read(w, s[pos + 1..], shift + 7))
  {
    LastPiece(w - shift);
    LastPiece(shift);
    hide Power;
    var r := Read(w, s[pos + 1..], shift + 7);
    assert s[pos..][1..] == s[pos + 1..];
    assert Read(w, s[pos..], shift) == Ahead(s[pos] - 128, 128, 1, r);
    AheadStep(value, Power(2, shift), pos, s[pos] - 128, r);
  }

  /** `readVarint` for unsigned integers of `w` bits. */
  method ReadStream(w: nat, s: seq<Byte>) returns (r: Result)
    requires Width(w)
    ensures r == Read(w, s, 0)
  {
    StartRead(w, s);
    hide Place, Power;
    var temp: nat, shift: nat, pos: nat := 0, 0, 0;
    while true
      invariant shift < w && pos <= |s|
      invariant Ahead(temp, Power(2, shift), pos, Read(w, s[pos..], shift)) == Read(w, s, 0)
      decreases w - shift
    {
      if pos == |s| { return EndOfInput; }
      var piece := s[pos];
      if shift >= w - 7 && piece >= Power(2, w - shift) { return Overflow; }
      if piece < 128 {
        if piece == 0 && shift != 0 { return NotCanonical; }
        temp := Place(temp, Power(2, shift), piece);
        return Ok(temp, pos + 1);
      }
      Advance(w, s, pos, shift, temp);
      temp := Place(temp, Power(2, shift), piece - 128);
      shift, pos := shift + 7, pos + 1;
    }
  }

  /** Only continuation bytes, and too few of them to overflow 64 bits. */
  predicate Truncated(s: seq<Byte>)
  {
    |s| <= 9 && forall i :: 0 <= i < |s| ==> s[i] >= 128
  }

  lemma {:induction false} EndOfInputExactly(s: seq<Byte>, shift: nat)
    requires shift < 64 && shift % 7 == 0
    ensures Read(64, s, shift) == EndOfInput
       <==> |s| <= (63 - shift) / 7 && forall i :: 0 <= i < |s| ==> s[i] >= 128
    decreases 64 - shift
  {
    LastPiece(64 - shift);
    if s != [] && s[0] >= 128 && shift < 57 {
      EndOfInputExactly(s[1..], shift + 7);
      assert forall i :: 0 <= i < |s[1..]| ==> s[1..][i] == s[i + 1];
    }
  }

  /** Reading completes exactly on a complete encoding in front, and runs out exactly inside one. */
  lemma TagAccepted(s: seq<Byte>)
    ensures Read(64, s, 0).Ok? <==> exists n: nat :: n < Power(2, 64) && Encode(n) <= s
    ensures Read(64, s, 0).EndOfInput? <==> Truncated(s)
  {
    EndOfInputExactly(s, 0);
    var r := Read(64, s, 0);
    if r.Ok? { ReadExactly(64, s, r.value, r.read); }
    forall n: nat | n < Power(2, 64) && Encode(n) <= s ensures r.Ok? {
      ReadExactly(64, s, n, |Encode(n)|);
    }
  }

  /** The number that the low seven bits of the bytes spell. */
  function Groups(s: seq<Byte>): nat
  {
    if s == [] then 0 else s[0] % 128 + 128 * Groups(s[1..])
  }

  /** The encoding of a number spells it in groups of seven bits, and marks every byte but the last. */
  lemma {:induction false} EncodeSpells(n: nat)
    ensures var e := Encode(n);
      Groups(e) == n && forall i :: 0 <= i < |e| ==> (e[i] >= 128 <==> i < |e| - 1)
  {
    if n >= 128 {
      EncodeSpells(n / 128);
      assert Encode(n)[1..] == Encode(n / 128);
      assert forall i :: 1 <= i < |Encode(n)| ==> Encode(n)[i] == Encode(n / 128)[i - 1];
    }
  }

  lemma GroupsStep(s: seq<Byte>, pos: nat, shift: nat, value: nat)
    requires pos < |s| && s[pos] >= 128
    ensures Place(value, Power(2, shift), Groups(s[pos..]))
         == Place(Place(value, Power(2, shift), s[pos] - 128), Power(2, shift + 7), Groups(s[pos + 1..]))
  {
    LastPiece(shift);
    hide Power;
    var unit, x, rest := Power(2, shift), s[pos] - 128, Groups(s[pos + 1..]);
    assert s[pos..][1..] == s[pos + 1..];
    assert unit * (x + 128 * rest) == unit * x + (128 * unit) * rest;
  }

  lemma GroupsEnds(s: seq<Byte>, value: nat)
    ensures Place(0, Power(2, 0), Groups(s[0..])) == Groups(s)
    ensures forall unit: nat :: Place(value, unit, Groups(s[|s|..])) == value
  {
    assert s[0..] == s;
  }

  /** `k` marked bytes and then a zero, all within the width. */
  predicate ZeroBehind(w: nat, s: seq<Byte>, shift: nat, k: nat)
  {
    k < |s| && shift + 7 * k < w && s[k] == 0 && forall i :: 0 <= i < k ==> s[i] >= 128
  }

  /** The two refusals: a last group of zero bits is not canonical, and everything that neither ends early nor is the
      encoding of a value that fits is an overflow. */
  lemma {:induction false} NotCanonicalExactly(w: nat, s: seq<Byte>, shift: nat)
    requires shift < w
    ensures Read(w, s, shift) == NotCanonical <==>
      exists k: nat :: ZeroBehind(w, s, shift, k) && (k > 0 || shift > 0)
    decreases w - shift
  {
    LastPiece(w - shift);
    hide Power;
    if s != [] && s[0] >= 128 && shift + 7 < w {
      NotCanonicalExactly(w, s[1..], shift + 7);
      if Read(w, s, shift) == NotCanonical {
        var k: nat :| ZeroBehind(w, s[1..], shift + 7, k);
        BehindFirst(w, s, shift, k);
      }
      if k: nat :| ZeroBehind(w, s, shift, k) && (k > 0 || shift > 0) {
        BehindFirst(w, s, shift, k - 1);
      }
    } else if s != [] && s[0] == 0 {
      assert ZeroBehind(w, s, shift, 0);
      PowerPositive(w - shift);
    }
  }

  lemma BehindFirst(w: nat, s: seq<Byte>, shift: nat, k: nat)
    requires s != [] && s[0] >= 128
    ensures ZeroBehind(w, s, shift, k + 1) <==> ZeroBehind(w, s[1..], shift + 7, k)
  {
    if ZeroBehind(w, s, shift, k + 1) {
      assert forall i :: 0 <= i < k ==> s[1..][i] == s[i + 1];
    }
    if ZeroBehind(w, s[1..], shift + 7, k) {
      assert forall i :: 1 <= i < k + 1 ==> s[i] == s[1..][i - 1];
    }
  }

  lemma PowerPositive(k: nat)
    ensures Power(2, k) > 0
  {
  }

  /** `read_varint` for a 64-bit tag: a count of bytes, or -1 (overflow) or -2 (not canonical). Input that
      ends early is not an error: the count of bytes seen and the value of their bits come back. So the count is
      positive exactly when a complete encoding stands in front or some input was cut off inside one. */
  method ReadTag(s: seq<Byte>) returns (read: int, value: nat)
    ensures var r := Read(64, s, 0);
      && (r.Ok? ==> read == r.read && value == r.value)
      && (r.Overflow? ==> read == -1) && (r.NotCanonical? ==> read == -2)
      && (r.EndOfInput? ==> read == |s| && value == Groups(s))
    ensures read > 0 <==> (exists n: nat :: n < Power(2, 64) && Encode(n) <= s) || (s != [] && Truncated(s))
  {
    TagAccepted(s);
    ghost var r := Read(64, s, 0);
    if r.Ok? { ReadExactly(64, s, r.value, r.read); }
    read, value := ScanTag(s);
  }

  /** The loop of `read_varint`. */
  method ScanTag(s: seq<Byte>) returns (read: int, value: nat)
    ensures var r := Read(64, s, 0);
      && (r.Ok? ==> read == r.read && value == r.value)
      && (r.Overflow? ==> read == -1) && (r.NotCanonical? ==> read == -2)
      && (r.EndOfInput? ==> read == |s| && value == Groups(s))
  {
    StartRead(64, s);
    GroupsEnds(s, 0);
    hide Place, Power;
    read, value := 0, 0;
    var shift: nat := 0;
    while true
      invariant shift < 64 && 0 <= read <= |s|
      invariant Ahead(value, Power(2, shift), read, Read(64, s[read..], shift)) == Read(64, s, 0)
      invariant Place(value, Power(2, shift), Groups(s[read..])) == Groups(s)
      decreases 64 - shift
    {
      if read == |s| {
        GroupsEnds(s, value);
        return;
      }
      var byte := s[read];
      if shift + 7 >= 64 && byte >= Power(2, 64 - shift) { read := -1; return; }
      if byte == 0 && shift != 0 { read := -2; return; }
      if byte < 128 {
        read, value := read + 1, Place(value, Power(2, shift), byte);
        return;
      }
      Advance(64, s, read, shift, value);
      GroupsStep(s, read, shift, value);
      value := Place(value, Power(2, shift), byte - 128);
      read, shift := read + 1, shift + 7;
    }
  }

  /** The byte 0x80 alone is taken for a one-byte tag although no value is encoded that way. */
  lemma CutOffTagAccepted()
    ensures Read(64, [0x80], 0).EndOfInput? && !exists n: nat :: n < Power(2, 64) && Encode(n) <= [0x80]
  {
    TagAccepted([0x80]);
    assert Truncated([0x80]);
  }

  lemma {:induction false} EncodeLength(n: nat, k: nat)
    requires 0 < k && n < Power(128, k)
    ensures |Encode(n)| <= k
  {
    if n >= 128 {
      EncodeLength(n / 128, k - 1);
    }
  }

  /** A 64-bit value takes at most ten bytes, the size of the buffers it is written to. */
  lemma TenBytes(n: nat)
    requires n < 0x1_0000_0000_0000_0000
    ensures |Encode(n)| <= 10
  {
    assert Power(128, 5) == 34359738368;
    PowerAdd(128, 5, 5);
    EncodeLength(n, 10);
  }

  lemma SquareOf(m: nat, x: nat)
    requires Power(2, m) == x
    ensures Power(2, m + m) == x * x
  {
    PowerAdd(2, m, m);
  }

  lemma SixtyFourBits()
    ensures Power(2, 64) == 0x1_0000_0000_0000_0000
  {
    assert Power(2, 8) == 256;
    hide Power;
    SquareOf(8, 256);
    SquareOf(16, 65536);
    SquareOf(32, 0x1_0000_0000);
  }
}
