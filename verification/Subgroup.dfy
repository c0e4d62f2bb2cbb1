/** `ge_check_subgroup_precomp_vartime`: a fixed addition chain that multiplies a point by the group order. */
module Subgroup {
  import opened Positional
  import opened ScalarLimbs
  import opened Groups
  import opened Slide
  import opened ScalarMult

  /** One stage of the chain: a run of doublings, then one window digit. */
  datatype Stage = Stage(doublings: nat, digit: int)

  const CHAIN := [
    Stage(126, 5), Stage(5, 7), Stage(5, -1), Stage(7, -3), Stage(4, -1), Stage(8, -11), Stage(5, 3), Stage(5, -1),
    Stage(6, -3), Stage(7, -13), Stage(5, 11), Stage(6, 11), Stage(10, 9), Stage(4, 3), Stage(5, 3), Stage(7, 13),
    Stage(4, 3), Stage(5, -3), Stage(7, -5), Stage(7, -11), Stage(8, -5), Stage(2, 1)]

  /** The multiples of the point reached after each stage, starting from 15P + P. */
  const MULTIPLES: seq<int> := [
    16,
    1361129467683753853853498429727072845829,
    43556142965880123323311949751266331066535,
    1393796574908163946345982392040522594129119,
    178405961588244985132285746181186892048527229,
    2854495385411919762116571938898990272776435663,
    730750818665451459101842416358141509830767529717,
    23384026197294446691258957323460528314584560950947,
    748288838313422294120286634350736906066705950430303,
    47890485652059026823698344598447161988269180827539389,
    6129982163463555433433388108601236734498455145925041779,
    196159429230833773869868419475239575503950564669601336939,
    12554203470773361527671578846415332832252836138854485564107,
    12855504354071922204335696738729300820226904206186993217645577,
    205688069665150755269371147819668813123630467298991891482329235,
    6582018229284824168619876730229402019956174953567740527434535523,
    842498333348457493583344221469363458554390394056670787511620546957,
    13479973333575319897333507543509815336870246304906732600185928751315,
    431359146674410236714672241392314090779847881757015443205949720042077,
    55213970774324510299478046898216203619820528864897976730361564165385851,
    7067388259113537318333190002971674063337027694706941021486280213169388917,
    1809251394333065553493296640760748560214279089844976901500487734571363562747,
    7237005577332262213973186563042994240857116359379907606001950938285454250989]

  ghost predicate StageTo(from: int, s: Stage, to: int)
  {
    WindowDigit(s.digit) && to == from * Power(2, s.doublings) + s.digit
  }

  lemma SmallShifts()
    ensures Power(2, 2) == 4 && Power(2, 4) == 16 && Power(2, 5) == 32 && Power(2, 6) == 64 && Power(2, 7) == 128
    ensures Power(2, 8) == 256 && Power(2, 10) == 1024
  {
  }

  lemma PowerTo(m: nat, x: int, n: nat, y: int, k: nat)
    requires Power(2, m) == x && Power(2, n) == y && k == m + n
    ensures Power(2, k) == x * y
  {
    hide Power;
    PowerAdd(2, m, n);
  }

  lemma BigShift()
    ensures Power(2, 126) == 85070591730234615865843651857942052864
  {
    hide Power;
    SmallShifts();
    PowerTo(7, 128, 7, 128, 14);
    PowerTo(14, 16384, 14, 16384, 28);
    PowerTo(28, 268435456, 28, 268435456, 56);
    PowerTo(56, 72057594037927936, 56, 72057594037927936, 112);
    PowerTo(112, 5192296858534827628530496329220096, 14, 16384, 126);
  }

  /** The chain computes exactly the group order. */
  lemma ChainIsOrder()
    ensures |MULTIPLES| == |CHAIN| + 1 && MULTIPLES[0] == 16 && MULTIPLES[|CHAIN|] == L
    ensures forall i :: 0 <= i < |CHAIN| ==> StageTo(MULTIPLES[i], CHAIN[i], MULTIPLES[i + 1])
  {
    hide Power;
    SmallShifts();
    BigShift();
    forall i | 0 <= i < |CHAIN| ensures StageTo(MULTIPLES[i], CHAIN[i], MULTIPLES[i + 1]) {
    }
  }

  method Doublings<G(!new)>(g: Group<G>, x: G, k: nat, ghost n: int, ghost p: G) returns (y: G)
    requires Abelian(g) && x == Mul(g, n, p)
    ensures y == Mul(g, n * Power(2, k), p)
  {
    y := x;
    ghost var m := n;
    for i := 0 to k
      invariant m == n * Power(2, i) && y == Mul(g, m, p)
    {
      Double(g, m, p);
      y := g.add(y, y);
      m := 2 * m;
      assert n * (2 * Power(2, i)) == 2 * (n * Power(2, i));
    }
  }

  method RunStage<G(!new)>(g: Group<G>, x: G, s: Stage, t: seq<G>, ghost p: G, ghost from: int, ghost to: int)
    returns (y: G)
    requires Abelian(g) && OddMultiples(g, t, p) && StageTo(from, s, to) && x == Mul(g, from, p)
    ensures y == Mul(g, to, p)
  {
    hide Mul, OddMultiples, Abelian, WindowDigit;
    y := Doublings(g, x, s.doublings, from, p);
    MulAdd(g, from * Power(2, s.doublings), s.digit, p);
    y := AddDigit(g, y, s.digit, t, p);
  }

  /** 0 exactly when the point is in the subgroup of order L. */
  method CheckSubgroup<G(!new, ==)>(g: Group<G>, t: seq<G>, ghost p: G) returns (r: int)
    requires Abelian(g) && OddMultiples(g, t, p)
    ensures r == if Mul(g, L, p) == g.zero then 0 else 1
  {
    ChainIsOrder();
    var s := g.add(g.zero, t[7]);
    ZeroLeft(g, t[7]);
    s := g.add(s, t[0]);
    MulAdd(g, 15, 1, p);
    assert s == Mul(g, MULTIPLES[0], p);
    hide *;
    for i := 0 to |CHAIN|
      invariant s == Mul(g, MULTIPLES[i], p)
    {
      s := RunStage(g, s, CHAIN[i], t, p, MULTIPLES[i], MULTIPLES[i + 1]);
    }
    r := if s == g.zero then 0 else 1;
  }
}
