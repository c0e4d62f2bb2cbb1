/** Points as 32 bytes: `ge_tobytes`, `ge_p3_tobytes`. */
module PointEncoding {
  import opened Positional
  import opened FieldLimbs
  import opened FieldBytes
  import opened FieldOps
  import opened FieldPowers
  import opened EdwardsPoints

  /** The low bit of the least nonnegative representative, which decides the sign of x. */
  ghost function Parity(x: int): int { Residue(x) % 2 }

  /** The y coordinate below 2^255 - 19 and the parity of x above it: section 5.1.2 of RFC 8032. */
  ghost function Encoded(x: int, y: int): int
  {
    Residue(y) + TWO255 * Parity(x)
  }

  /** Fermat's little theorem at `f`. */
  ghost predicate Invertible(f: Fe)
  {
    Cong(Value(f) * Power(Base(f), P - 2), 1)
  }

  lemma SizeFreezes(f: Fe, n: nat, slack: nat)
    requires Size(f, n, slack) && n + slack <= 5
    ensures Freezable(f)
  {
  }

  /** Dividing by Z. */
  lemma Affine(a: int, z: int, inv: int, recip: int, num: int, quotient: int)
    requires Cong(num, a * z) && Cong(recip, inv) && Cong(z * inv, 1) && Cong(quotient, num * recip)
    ensures Cong(quotient, a)
  {
    hide Cong;
    CongProduct(num, a * z, recip, inv);
    assert (a * z) * inv == a * (z * inv);
    CongRefl(a);
    CongProduct(a, a, z * inv, 1);
    CongTrans(num * recip, a * (z * inv), a * 1);
    CongTrans(quotient, num * recip, a);
  }

  lemma TopByteFree(s: seq<Byte>)
    requires |s| == 32 && Eval(256, s) < TWO255
    ensures s[31] < 128
  {
    hide Eval, Power;
    EvalSplit(256, s, 31);
    EvalBound(256, s[..31]);
    assert s[31..] == [s[31]];
    OneDigit(s[31]);
    TopWeight();
    if s[31] >= 128 { MulMono(Power(256, 31), 128, s[31]); }
  }

  lemma OneDigit(x: int)
    ensures Eval(256, [x]) == x
  {
  }

  lemma TopWeight()
    ensures 128 * Power(256, 31) == TWO255
  {
    assert Power(256, 7) == 72057594037927936;
    hide Power;
    PowerAdd(256, 7, 7);
    PowerAdd(256, 14, 14);
    assert Power(256, 28) == 26959946667150639794667015087019630673637144422540572481103610249216;
    ThreeBytes();
    PowerAdd(256, 28, 3);
  }

  lemma ThreeBytes()
    ensures Power(256, 3) == 16777216
  {
  }

  /** Setting the sign bit, which the low 255 bits leave free. */
  method SetSign(s: seq<Byte>, sign: int) returns (t: seq<Byte>)
    requires |s| == 32 && Eval(256, s) < TWO255 && 0 <= sign <= 1
    ensures |t| == 32 && Eval(256, t) == Eval(256, s) + TWO255 * sign
  {
    TopByteFree(s);
    t := s[31 := s[31] + 128 * sign];
    EvalUpdate(256, s, 31, s[31] + 128 * sign);
    TopWeight();
  }

  /** `ge_tobytes` and `ge_p3_tobytes` */
  method GeToBytes(p: P2) returns (s: seq<Byte>)
    requires Fits2(p)
    ensures |s| == 32
    ensures forall x, y :: Is2(p, x, y) && Invertible(p.Z) ==> Eval(256, s) == Encoded(x, y)
  {
    hide Cong, Value, Size, Base, Power, Freezable, Eval;
    Multiplied();
    var recip := FeInvert(p.Z);
    Slack(recip); Slack(p.X); Slack(p.Y);
    var x := Mul(p.X, recip, 1, 1);
    var y := Mul(p.Y, recip, 1, 1);
    SizeFreezes(x, 1, 0);
    SizeFreezes(y, 1, 0);
    s := FeToBytes(y);
    var sign := FeIsNegative(x);
    Residues(Value(x), Value(y));
    ResidueIs(Value(x));
    ResidueIs(Value(y));
    s := SetSign(s, sign);
    ghost var inv := Power(Base(p.Z), P - 2);
    forall ax, ay | Is2(p, ax, ay) && Invertible(p.Z) ensures Eval(256, s) == Encoded(ax, ay) {
      Affine(ax, Value(p.Z), inv, Value(recip), Value(p.X), Value(x));
      Affine(ay, Value(p.Z), inv, Value(recip), Value(p.Y), Value(y));
      SameResidue(Value(x), ax);
      SameResidue(Value(y), ay);
    }
  }

  lemma Residues(x: int, y: int)
    ensures 0 <= Parity(x) <= 1 && 0 <= Residue(y) < TWO255
  {
  }

  lemma SameResidue(a: int, b: int)
    requires Cong(a, b)
    ensures Residue(a) == Residue(b)
  {
    ResidueIs(a);
    ResidueIs(b);
    CongExactly(a, b);
  }
}
