/** The sparse Fisher-Yates generator and the dense swap array it stands for. */
module Shuffle {
  import opened Options

  /** 0, 1, ..., n - 1 */
  function Identity(n: nat): (s: seq<nat>)
    ensures |s| == n && forall i :: 0 <= i < n ==> s[i] == i
  {
    seq(n, i => i)
  }

  /** The dense step: the last entry fills the hole at `r` and the array shrinks by one. */
  function Take(dense: seq<nat>, r: nat): (rest: seq<nat>)
    requires r < |dense|
    ensures |rest| == |dense| - 1
  {
    dense[r := dense[|dense| - 1]][..|dense| - 1]
  }

  /** The values drawn by successive choices, each an index into what is left. */
  ghost function Drawn(dense: seq<nat>, choices: seq<nat>): (out: seq<nat>)
    requires |choices| <= |dense| && InRange(choices, |dense|)
    ensures |out| == |choices|
    decreases |choices|
  {
    if choices == [] then [] else
      RangeTail(choices, |dense|);
      [dense[choices[0]]] + Drawn(Take(dense, choices[0]), choices[1..])
  }

  /** Choice `k` is below the number of values still there. */
  ghost predicate InRange(choices: seq<nat>, n: nat)
  {
    forall k :: 0 <= k < |choices| ==> choices[k] < n - k
  }

  lemma RangeTail(choices: seq<nat>, n: nat)
    requires choices != [] && InRange(choices, n)
    ensures choices[0] < n && InRange(choices[1..], n - 1)
  {
  }

  class ShuffleGenerator {
    const n: nat
    var count: nat
    var selected: map<nat, nat>

    ghost predicate Valid()
      reads this
    {
      count <= n
    }

    /** Entry `i` of the dense array: what the map says, or `i` itself. */
    function At(i: nat): nat
      reads this
    {
      if i in selected then selected[i] else i
    }

    /** The dense array the map stands for. */
    ghost function Dense(): (d: seq<nat>)
      reads this
      ensures |d| == count
    {
      seq(count, i requires 0 <= i < count reads this => At(i))
    }

    constructor (n: nat)
      ensures Valid() && this.n == n && count == n && Dense() == Identity(n)
    {
      this.n := n;
      this.count := n;
      this.selected := map[];
    }

    /** One call with random choice `r`; the choice is what Random::randomValue(0, count - 1) returned.
        An exhausted generator throws and stays as it is. */
    method Next(r: nat) returns (v: Option<nat>)
      requires Valid() && (count > 0 ==> r < count)
      modifies this
      ensures Valid()
      ensures old(count) == 0 ==> v == None && count == 0 && selected == old(selected)
      ensures old(count) > 0 ==> v == Some(old(Dense())[r]) && Dense() == Take(old(Dense()), r)
    {
      if count == 0 { return None; }
      ghost var dense := Dense();
      count := count - 1;
      var rval := At(count);
      var value := r;
      if r in selected {
        value := selected[r];
        selected := selected[r := rval];
      } else {
        selected := selected[value := rval];
      }
      assert Dense() == Take(dense, r);
      v := Some(value);
    }

    /** `reset` */
    method Reset()
      requires Valid()
      modifies this
      ensures Valid() && count == n && Dense() == Identity(n)
    {
      count := n;
      selected := map[];
    }
  }

  lemma TakeKeeps(dense: seq<nat>, r: nat)
    requires r < |dense|
    ensures multiset(Take(dense, r)) + multiset{dense[r]} == multiset(dense)
  {
    var last := |dense| - 1;
    var swapped := dense[r := dense[last]];
    assert dense == dense[..last] + [dense[last]];
    assert swapped == swapped[..last] + [swapped[last]];
    if r < last {
      assert multiset(swapped) == multiset(dense) - multiset{dense[r]} + multiset{dense[last]};
    }
  }

  /** Nothing is lost and nothing invented, whatever the choices. */
  lemma {:induction false} DrawnConserves(dense: seq<nat>, choices: seq<nat>)
    requires |choices| == |dense| && InRange(choices, |dense|)
    ensures multiset(Drawn(dense, choices)) == multiset(dense)
    decreases |choices|
  {
    if choices != [] {
      RangeTail(choices, |dense|);
      TakeKeeps(dense, choices[0]);
      DrawnConserves(Take(dense, choices[0]), choices[1..]);
    } else {
      assert dense == [];
    }
  }

  /** Over n calls every number below n comes out exactly once, whatever the random choices. */
  lemma EachExactlyOnce(n: nat, choices: seq<nat>)
    requires |choices| == n && InRange(choices, n)
    ensures var out := Drawn(Identity(n), choices);
      && (forall v :: 0 <= v < n ==> v in out)
      && (forall i :: 0 <= i < n ==> out[i] < n)
      && (forall i, j :: 0 <= i < j < n ==> out[i] != out[j])
  {
    DrawnConserves(Identity(n), choices);
    SamePermutation(n, Drawn(Identity(n), choices));
  }

  lemma SamePermutation(n: nat, out: seq<nat>)
    requires |out| == n && multiset(out) == multiset(Identity(n))
    ensures (forall v :: 0 <= v < n ==> v in out) && (forall i :: 0 <= i < n ==> out[i] < n)
    ensures forall i, j :: 0 <= i < j < n ==> out[i] != out[j]
  {
    var id := Identity(n);
    forall v | 0 <= v < n ensures v in out { assert id[v] == v; assert v in multiset(id); }
    forall i | 0 <= i < n ensures out[i] < n { assert out[i] in multiset(out); }
    forall i, j | 0 <= i < j < n ensures out[i] != out[j] {
      if out[i] == out[j] {
        Twice(out, i, j);
        Once(n, out[i]);
      }
    }
  }

  lemma Twice(s: seq<nat>, i: nat, j: nat)
    requires i < j < |s| && s[i] == s[j]
    ensures multiset(s)[s[i]] >= 2
  {
    assert s == s[..i + 1] + s[i + 1..];
    assert s[i] in s[..i + 1] && s[i + 1..][j - i - 1] == s[j];
    assert s[j] in s[i + 1..];
  }

  lemma {:induction false} Once(n: nat, v: nat)
    ensures multiset(Identity(n))[v] <= 1
  {
    if n > 0 {
      Once(n - 1, v);
      assert Identity(n) == Identity(n - 1) + [n - 1];
      if v == n - 1 { assert v !in Identity(n - 1); }
    }
  }

  /** A generator run for `n` calls, collecting what it returns. */
  method DrawAll(g: ShuffleGenerator, choices: seq<nat>) returns (out: seq<nat>)
    requires g.Valid() && g.count == |choices| && InRange(choices, |choices|)
    modifies g
    ensures out == Drawn(old(g.Dense()), choices) && g.Valid() && g.count == 0
  {
    out := [];
    ghost var start := g.Dense();
    for k := 0 to |choices|
      invariant g.Valid() && g.count == |choices| - k
      invariant InRange(choices[k..], g.count) && |g.Dense()| == g.count
      invariant Drawn(start, choices) == out + Drawn(g.Dense(), choices[k..])
    {
      RangeTail(choices[k..], g.count);
      assert choices[k..][1..] == choices[k + 1..];
      var v := g.Next(choices[k]);
      out := out + [v.value];
    }
  }
}
