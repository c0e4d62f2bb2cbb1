/** The bytes of a file-mapped vector: prefix, capacity, size, element slots, suffix. */
module VectorLayout {
  import opened Positional

  /** One element of plain old data. */
  type Elem = seq<Byte>

  /** A mapped file, cut into its parts. `slots` has one entry per unit of capacity; the first `size` are in use. */
  datatype Image = Image(prefix: seq<Byte>, size: nat, slots: seq<Elem>, suffix: seq<Byte>)

  ghost predicate Sized(slots: seq<Elem>, width: nat)
  {
    forall i :: 0 <= i < |slots| ==> |slots[i]| == width
  }

  /** A well-formed image whose file size fits a 64-bit integer. */
  ghost predicate Valid(v: Image, width: nat)
  {
    && v.size <= |v.slots| < TWO64 && Sized(v.slots, width)
    && |v.prefix| + 16 + |v.slots| * width + |v.suffix| < TWO64
  }

  function Flat(slots: seq<Elem>): seq<Byte>
  {
    if slots == [] then [] else slots[0] + Flat(slots[1..])
  }

  function Cut(b: seq<Byte>, width: nat, n: nat): (slots: seq<Elem>)
    requires |b| >= n * width
    ensures |slots| == n
  {
    if n == 0 then [] else CutFits(n, width); [b[..width]] + Cut(b[width..], width, n - 1)
  }

  lemma CutFits(n: nat, width: nat)
    requires n > 0
    ensures n * width == width + (n - 1) * width && (n - 1) * width >= 0
  {
  }

  lemma {:induction false} FlatLength(slots: seq<Elem>, width: nat)
    requires Sized(slots, width)
    ensures |Flat(slots)| == |slots| * width
  {
    if slots != [] {
      FlatLength(slots[1..], width);
      CutFits(|slots|, width);
    }
  }

  lemma {:induction false} CutFlat(slots: seq<Elem>, width: nat, rest: seq<Byte>)
    requires Sized(slots, width)
    ensures |Flat(slots) + rest| >= |slots| * width
    ensures Cut(Flat(slots) + rest, width, |slots|) == slots
  {
    FlatLength(slots, width);
    if slots != [] {
      CutFits(|slots|, width);
      FlatLength(slots[1..], width);
      CutFlat(slots[1..], width, rest);
      var b := Flat(slots) + rest;
      assert b[..width] == slots[0] && b[width..] == Flat(slots[1..]) + rest;
    }
  }

  lemma {:induction false} FlatCut(b: seq<Byte>, width: nat, n: nat)
    requires |b| >= n * width
    ensures Sized(Cut(b, width, n), width) && n * width >= 0 && Flat(Cut(b, width, n)) == b[..n * width]
  {
    if n > 0 {
      CutFits(n, width);
      FlatCut(b[width..], width, n - 1);
      var s := Cut(b, width, n);
      assert s[1..] == Cut(b[width..], width, n - 1);
      assert b[..n * width] == b[..width] + b[width..][..(n - 1) * width];
    }
  }

  /** The file that `create` lays out and `open` reads back. */
  function Layout(v: Image): seq<Byte>
  {
    v.prefix + ToBytes(|v.slots|, 8) + ToBytes(v.size, 8) + Flat(v.slots) + v.suffix
  }

  /** `WrappedHeader`: accepted although the 64-bit product of a corrupt capacity and the element size wrapped. */
  datatype Opened = Ok(image: Image) | TooSmall | SizeAboveCapacity | BadFileSize | WrappedHeader

  /** The number stored in eight bytes. */
  function Word(b: seq<Byte>): (n: nat)
    requires |b| == 8
    ensures n < TWO64
  {
    EvalBound(256, b);
    assert Power(256, 8) == TWO64;
    Eval(256, b)
  }

  lemma WordOfBytes(n: nat)
    requires n < TWO64
    ensures Word(ToBytes(n, 8)) == n
  {
    assert Power(256, 8) == TWO64;
    EvalToBytes(n, 8);
  }

  /** `open` on an existing file: three tests, then the suffix is whatever remains. Sizes are 64-bit. */
  function Open(b: seq<Byte>, prefixSize: nat, width: nat): Opened
    requires |b| < TWO64 && prefixSize + 16 < TWO64
  {
    if |b| < prefixSize + 16 then TooSmall
    else
      var capacity := Word(b[prefixSize..prefixSize + 8]);
      var size := Word(b[prefixSize + 8..prefixSize + 16]);
      var needed := prefixSize + 16 + Product(capacity, width);
      if size > capacity then SizeAboveCapacity
      else if |b| < needed % TWO64 then BadFileSize
      else if needed >= TWO64 then WrappedHeader
      else
        var data := b[prefixSize + 16..];
        Ok(Image(b[..prefixSize], size, Cut(data, width, capacity), data[capacity * width..]))
  }

  function Product(m: nat, n: nat): nat
  {
    m * n
  }

  /** Opening what was laid out gives back every part. */
  lemma OpenLayout(v: Image, width: nat)
    requires Valid(v, width)
    ensures |Layout(v)| < TWO64 && Open(Layout(v), |v.prefix|, width) == Ok(v)
  {
    hide Flat, Cut, ToBytes, Power, Eval, Word;
    var b, p := Layout(v), |v.prefix|;
    FlatLength(v.slots, width);
    LayoutParts(v);
    WordOfBytes(|v.slots|);
    WordOfBytes(v.size);
    CutFlat(v.slots, width, v.suffix);
    assert (Flat(v.slots) + v.suffix)[|Flat(v.slots)|..] == v.suffix;
  }

  lemma LayoutParts(v: Image)
    ensures var b, p := Layout(v), |v.prefix|;
      && |b| == p + 16 + |Flat(v.slots)| + |v.suffix|
      && b[..p] == v.prefix && b[p..p + 8] == ToBytes(|v.slots|, 8) && b[p + 8..p + 16] == ToBytes(v.size, 8)
      && b[p + 16..] == Flat(v.slots) + v.suffix
  {
    hide Flat, ToBytes;
  }

  /** Slot `i` starts `i * width` bytes into the data. */
  lemma {:induction false} SlotAt(slots: seq<Elem>, width: nat, i: nat)
    requires Sized(slots, width) && i < |slots|
    ensures 0 <= i * width <= i * width + width <= |Flat(slots)|
    ensures Flat(slots)[i * width..i * width + width] == slots[i]
  {
    FlatLength(slots, width);
    FlatLength(slots[1..], width);
    if i > 0 {
      CutFits(i, width);
      SlotAt(slots[1..], width, i - 1);
      assert Flat(slots)[i * width..i * width + width] == Flat(slots[1..])[(i - 1) * width..(i - 1) * width + width];
    }
  }

  /** Where everything is in the file: the prefix, the capacity, the size, each slot, and the suffix at the end. */
  lemma Offsets(v: Image, width: nat, i: nat)
    requires Valid(v, width) && i < |v.slots|
    ensures var b, p, data := Layout(v), |v.prefix|, |v.prefix| + 16;
      && |b| == data + |v.slots| * width + |v.suffix|
      && b[..p] == v.prefix && Word(b[p..p + 8]) == |v.slots| && Word(b[p + 8..data]) == v.size
      && 0 <= i * width && data + i * width + width <= |b| - |v.suffix|
      && b[data + i * width..data + i * width + width] == v.slots[i] && b[|b| - |v.suffix|..] == v.suffix
  {
    hide Flat, ToBytes, Word;
    var b, data, flat := Layout(v), |v.prefix| + 16, Flat(v.slots);
    LayoutParts(v);
    WordOfBytes(|v.slots|);
    WordOfBytes(v.size);
    FlatLength(v.slots, width);
    SlotAt(v.slots, width, i);
    hide Layout;
    assert b[data..] == flat + v.suffix;
    assert b[data + i * width..data + i * width + width] == b[data..][i * width..i * width + width];
    assert b[|b| - |v.suffix|..] == b[data..][|flat|..];
  }

  /** And whatever opens is the layout of the image it opens to. */
  lemma LayoutOpen(b: seq<Byte>, prefixSize: nat, width: nat)
    requires |b| < TWO64 && prefixSize + 16 < TWO64 && Open(b, prefixSize, width).Ok?
    ensures var v := Open(b, prefixSize, width).image; |v.prefix| == prefixSize && Layout(v) == b && Valid(v, width)
  {
    hide Flat, Cut, ToBytes, Power;
    var v := Open(b, prefixSize, width).image;
    var c, data := |v.slots|, b[prefixSize + 16..];
    FlatCut(data, width, c);
    FlatLength(v.slots, width);
    BytesUnique(b[prefixSize..prefixSize + 8], c);
    BytesUnique(b[prefixSize + 8..prefixSize + 16], v.size);
    hide Eval;
    assert Flat(v.slots) + v.suffix == data;
    Reassemble(b, prefixSize);
    assert Layout(v) == b[..prefixSize] + b[prefixSize..prefixSize + 8] + b[prefixSize + 8..prefixSize + 16] +
      (Flat(v.slots) + v.suffix);
  }

  /** Exactly the laid-out files open; a file whose header wraps is accepted without being one. */
  lemma OpensExactly(b: seq<Byte>, prefixSize: nat, width: nat)
    requires |b| < TWO64 && prefixSize + 16 < TWO64
    ensures Open(b, prefixSize, width).Ok? <==>
      exists v :: Valid(v, width) && |v.prefix| == prefixSize && Layout(v) == b
  {
    hide Valid, Layout;
    if Open(b, prefixSize, width).Ok? {
      LayoutOpen(b, prefixSize, width);
    } else if v :| Valid(v, width) && |v.prefix| == prefixSize && Layout(v) == b {
      OpenLayout(v, width);
    }
  }

  /** Sixteen bytes that pass the size test although they claim 2^60 slots of sixteen bytes each. */
  lemma HeaderWraps()
    ensures var b := ToBytes(0x1000_0000_0000_0000, 8) + ToBytes(0, 8);
      |b| == 16 && Open(b, 0, 16) == WrappedHeader
  {
    hide ToBytes, Word;
    var b := ToBytes(0x1000_0000_0000_0000, 8) + ToBytes(0, 8);
    WordOfBytes(0x1000_0000_0000_0000);
    WordOfBytes(0);
    assert b[0..8] == ToBytes(0x1000_0000_0000_0000, 8) && b[8..16] == ToBytes(0, 8);
  }

  lemma Reassemble(b: seq<Byte>, p: nat)
    requires p + 16 <= |b|
    ensures b == b[..p] + b[p..p + 8] + b[p + 8..p + 16] + b[p + 16..]
  {
  }
}
