/** The two signed radix-16 recodings of `ge_scalarmult_base` and `ge_scalarmult`. */
module Radix16 {
  import opened Positional

  ghost function Nibbles(a: seq<Byte>): (e: seq<int>)
    ensures |e| == 2 * |a|
  {
    if a == [] then [] else [a[0] % 16, a[0] / 16 % 16] + Nibbles(a[1..])
  }

  lemma {:induction false} NibblesValue(a: seq<Byte>)
    ensures Eval(16, Nibbles(a)) == Eval(256, a)
  {
    if a != [] {
      NibblesValue(a[1..]);
      var e := Nibbles(a);
      assert e[1..][1..] == Nibbles(a[1..]);
      assert Eval(16, e[1..]) == e[1] + 16 * Eval(16, e[1..][1..]);
    }
  }

  lemma {:induction false} NibblesAt(a: seq<Byte>, i: nat)
    requires i < |a|
    ensures Nibbles(a)[2 * i] == a[i] % 16 && Nibbles(a)[2 * i + 1] == a[i] / 16 % 16
  {
    if i > 0 {
      NibblesAt(a[1..], i - 1);
      assert Nibbles(a)[2 * i] == Nibbles(a[1..])[2 * (i - 1)];
      assert Nibbles(a)[2 * i + 1] == Nibbles(a[1..])[2 * (i - 1) + 1];
    }
  }

  ghost predicate SignedDigits(e: seq<int>)
  {
    forall i :: 0 <= i < |e| ==> -8 <= e[i] <= 8
  }

  method LoadNibbles(a: seq<Byte>) returns (e: seq<int>)
    requires |a| == 32
    ensures e == Nibbles(a) && |e| == 64 && (forall i :: 0 <= i < 64 ==> 0 <= e[i] < 16) && e[63] == a[31] / 16
  {
    e := [];
    for i := 0 to 32
      invariant |e| == 2 * i
      invariant forall j :: 0 <= j < i ==> e[2 * j] == a[j] % 16 && e[2 * j + 1] == a[j] / 16 % 16
      invariant forall j :: 0 <= j < 2 * i ==> e[j] == Nibbles(a)[j] && 0 <= e[j] < 16
    {
      NibblesAt(a, i);
      e := e + [a[i] % 16, a[i] / 16 % 16];
    }
    assert e == Nibbles(a);
  }

  /** In-place recoding of `ge_scalarmult_base`: load nibbles, then push carries upward. */
  method RecodeInPlace(a: seq<Byte>) returns (e: seq<int>)
    requires |a| == 32
    ensures |e| == 64 && Eval(16, e) == Eval(256, a)
    ensures a[31] <= 127 ==> SignedDigits(e)
  {
    e := LoadNibbles(a);
    NibblesValue(a);
    var carry := 0;
    for i := 0 to 63
      invariant |e| == 64 && 0 <= carry <= 1
      invariant forall j :: 0 <= j < i ==> -8 <= e[j] <= 7
      invariant (forall j :: i <= j < 64 ==> 0 <= e[j] < 16) && e[63] == a[31] / 16
      invariant Eval(16, e) + carry * Power(16, i) == Eval(256, a)
    {
      ghost var was := e;
      var c := (e[i] + carry + 8) / 16;
      EvalUpdate(16, e, i, e[i] + carry - 16 * c);
      CarryUp(was[i], carry, c, Power(16, i));
      e := e[i := e[i] + carry];
      carry := (e[i] + 8) / 16;
      e := e[i := e[i] - carry * 16];
      assert e == was[i := was[i] + (e[i] - was[i])];
    }
    EvalUpdate(16, e, 63, e[63] + carry);
    e := e[63 := e[63] + carry];
  }

  lemma CarryUp(x: int, carry: int, c: int, p: int)
    ensures ((x + carry - 16 * c) - x) * p + c * (16 * p) == carry * p
  {
    assert (carry - 16 * c) * p == carry * p - 16 * (c * p);
    assert c * (16 * p) == 16 * (c * p);
  }

  /** Recoding of `ge_scalarmult`, two digits per byte with the carry in front. */
  method RecodeStream(a: seq<Byte>) returns (e: seq<int>)
    requires |a| == 32
    ensures |e| == 64 && Eval(16, e) == Eval(256, a)
    ensures a[31] <= 127 ==> SignedDigits(e)
  {
    assert Power(16, 0) == 1;
    hide Power;
    var carry := 0;
    e := [];
    for i := 0 to 31
      invariant |e| == 2 * i && 0 <= carry <= 1
      invariant forall j :: 0 <= j < 2 * i ==> -8 <= e[j] <= 7
      invariant Eval(16, e) + Power(16, 2 * i) * (carry + Eval(256, a[i..])) == Eval(256, a)
    {
      assert a[i..][1..] == a[i + 1..];
      ghost var rest, before := Eval(256, a[i + 1..]), carry;
      carry := carry + a[i];
      var carry2 := (carry + 8) / 16;
      ghost var d0 := carry - carry2 * 16;
      ghost var was := e;
      e := e + [carry - carry2 * 16];
      carry := (carry2 + 8) / 16;
      ghost var d1 := carry2 - carry * 16;
      e := e + [carry2 - carry * 16];
      TwoDigits(Eval(256, a), was, e, d0, d1, carry + rest, before + Eval(256, a[i..]));
    }
    assert a[31..] == [a[31]] && a[31..][1..] == [];
    ghost var was := e;
    carry := carry + a[31];
    var carry2 := (carry + 8) / 16;
    e := e + [carry - carry2 * 16] + [carry2];
    TwoDigits(Eval(256, a), was, e, carry - carry2 * 16, carry2, 0, carry);
  }

  /** Moving two digits from the remainder to the end of the digits. */
  lemma TwoDigits(total: int, e: seq<int>, f: seq<int>, x: int, y: int, rest: int, tail: int)
    requires f == e + [x] + [y] && tail == x + 16 * y + 256 * rest && total == Eval(16, e) + Power(16, |e|) * tail
    ensures total == Eval(16, f) + Power(16, |f|) * rest
  {
    assert f == e + [x, y];
    PairRest(x, y, rest);
    Join(16, total, e, tail, [x, y], rest);
  }

  lemma PairRest(x: int, y: int, rest: int)
    ensures x + 16 * y + 256 * rest == Eval(16, [x, y]) + Power(16, |[x, y]|) * rest
  {
    Chain(16, [x, y], [x + 16 * (y + 16 * rest), y + 16 * rest, rest]);
  }
}
