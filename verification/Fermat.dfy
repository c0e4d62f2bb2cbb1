/** Fermat's little theorem: modulo a prime, a nonzero residue to the power p - 1 is 1. */
module Fermat {
  import opened Positional

  ghost predicate DividesProduct(p: nat, a: int, b: int)
    requires p > 0
  {
    (a * b) % p == 0
  }

  /** A modulus without zero divisors. */
  ghost predicate Prime(p: nat)
  {
    p > 1 && forall a, b :: 0 < a < p && 0 < b < p ==> !DividesProduct(p, a, b)
  }

  function Product(s: seq<int>): int
  {
    if s == [] then 1 else s[0] * Product(s[1..])
  }

  function Factorial(n: nat): int
  {
    if n == 0 then 1 else n * Factorial(n - 1)
  }

  ghost predicate Distinct(s: seq<int>, n: nat)
  {
    && (forall i :: 0 <= i < |s| ==> 1 <= s[i] <= n)
    && (forall i, j :: 0 <= i < j < |s| ==> s[i] != s[j])
  }

  function Without(s: seq<int>, j: nat): seq<int>
    requires j < |s|
  {
    s[..j] + s[j + 1..]
  }

  lemma {:induction false} ProductWithout(s: seq<int>, j: nat)
    requires j < |s|
    ensures Product(s) == s[j] * Product(Without(s, j))
  {
    if j == 0 {
      assert Without(s, 0) == s[1..];
    } else {
      ProductWithout(s[1..], j - 1);
      assert Without(s, j)[1..] == Without(s[1..], j - 1);
      var a, b, r := s[0], s[j], Product(Without(s[1..], j - 1));
      assert a * (b * r) == b * (a * r);
    }
  }

  lemma WithoutDistinct(s: seq<int>, j: nat, n: nat)
    requires Distinct(s, n) && j < |s| && n > 0 && s[j] == n
    ensures Distinct(Without(s, j), n - 1)
  {
    var t := Without(s, j);
    forall i | 0 <= i < |t| ensures 1 <= t[i] <= n - 1 {
      assert t[i] == s[if i < j then i else i + 1];
    }
    forall i, k | 0 <= i < k < |t| ensures t[i] != t[k] {
      assert t[i] == s[if i < j then i else i + 1] && t[k] == s[if k < j then k else k + 1];
    }
  }

  /** Distinct numbers up to n: at most n of them, and if there are n, their product is n factorial. */
  lemma {:induction false} DistinctProduct(s: seq<int>, n: nat)
    requires Distinct(s, n)
    ensures |s| <= n && (|s| == n ==> Product(s) == Factorial(n))
    decreases n
  {
    if s == [] {
      assert n == 0 ==> Factorial(n) == 1;
    } else if j :| 0 <= j < |s| && s[j] == n {
      WithoutDistinct(s, j, n);
      DistinctProduct(Without(s, j), n - 1);
      ProductWithout(s, j);
    } else {
      assert 1 <= s[0] <= n;
      DistinctProduct(s, n - 1);
    }
  }

  /** a, 2a, ..., na, reduced. */
  function Multiples(p: nat, a: nat, n: nat): (s: seq<int>)
    requires p > 0
    ensures |s| == n
  {
    seq(n, i requires 0 <= i < n => ((i + 1) * a) % p)
  }

  lemma ModProduct(p: nat, x: int, y: int)
    requires p > 0
    ensures ((x % p) * y) % p == (x * y) % p
  {
    var q := x / p;
    assert x == q * p + x % p;
    assert x * y == (x % p) * y + (q * y) * p;
    ModAdd(p, (x % p) * y, q * y);
  }

  lemma ModAdd(p: nat, x: int, k: int)
    requires p > 0
    ensures (x + k * p) % p == x % p
  {
    DivUnique(x + k * p, p, x / p + k);
  }

  lemma {:induction false} ProductAppend(s: seq<int>, x: int)
    ensures Product(s + [x]) == Product(s) * x
  {
    if s == [] {
      assert s + [x] == [x] && [x][1..] == [];
    } else {
      ProductAppend(s[1..], x);
      assert (s + [x])[1..] == s[1..] + [x];
      assert s[0] * (Product(s[1..]) * x) == (s[0] * Product(s[1..])) * x;
    }
  }

  /** The product of the multiples, before and after reduction. */
  lemma {:induction false} MultiplesProduct(p: nat, a: nat, n: nat)
    requires p > 0
    ensures Product(Multiples(p, a, n)) % p == (Power(a, n) * Factorial(n)) % p
    decreases n
  {
    if n > 0 {
      var s, x := Multiples(p, a, n - 1), n * a;
      MultiplesProduct(p, a, n - 1);
      assert Multiples(p, a, n) == s + [x % p];
      ProductAppend(s, x % p);
      MultiplesStep(p, Product(s), x, Power(a, n - 1), Factorial(n - 1), a, n);
    }
  }

  lemma MultiplesStep(p: nat, u: int, x: int, w: int, f: int, a: int, n: int)
    requires p > 0 && u % p == (w * f) % p && x == n * a
    ensures (u * (x % p)) % p == ((a * w) * (n * f)) % p
  {
    ModProduct(p, x, u);
    assert (x % p) * u == u * (x % p) && x * u == u * x;
    ModProduct(p, u, x);
    ModProduct(p, w * f, x);
    assert (w * f) * (n * a) == (a * w) * (n * f);
  }

  lemma MultiplesDistinct(p: nat, a: nat)
    requires Prime(p) && 0 < a < p
    ensures Distinct(Multiples(p, a, p - 1), p - 1)
  {
    var s := Multiples(p, a, p - 1);
    forall i | 0 <= i < p - 1 ensures 1 <= s[i] <= p - 1 {
      assert !DividesProduct(p, i + 1, a);
    }
    forall i, j | 0 <= i < j < p - 1 ensures s[i] != s[j] {
      assert !DividesProduct(p, j - i, a);
      Difference(p, (j + 1) * a, (i + 1) * a);
      assert (j + 1) * a - (i + 1) * a == (j - i) * a;
    }
  }

  lemma Difference(p: nat, x: int, y: int)
    requires p > 0
    ensures x % p == y % p ==> (x - y) % p == 0
  {
    if x % p == y % p {
      DivUnique(x - y, p, x / p - y / p);
    }
  }

  lemma {:induction false} FactorialNonzero(p: nat, n: nat)
    requires Prime(p) && n < p
    ensures Factorial(n) % p != 0
  {
    if n > 0 {
      FactorialNonzero(p, n - 1);
      var f := Factorial(n - 1);
      var r := f % p;
      assert !DividesProduct(p, r, n);
      hide Prime;
      ModProduct(p, f, n);
      assert n * f == f * n;
    }
  }

  lemma FermatLittle(p: nat, a: nat)
    requires Prime(p) && 0 < a < p
    ensures Power(a, p - 1) % p == 1
  {
    var f, w := Factorial(p - 1), Power(a, p - 1);
    MultiplesDistinct(p, a);
    DistinctProduct(Multiples(p, a, p - 1), p - 1);
    MultiplesProduct(p, a, p - 1);
    FactorialNonzero(p, p - 1);
    Cancel(p, w, f);
  }

  lemma Cancel(p: nat, w: int, f: int)
    requires Prime(p) && f % p == (w * f) % p && f % p != 0
    ensures w % p == 1
  {
    var v, r := (w - 1) % p, f % p;
    assert w * f - f == (w - 1) * f;
    Difference(p, w * f, f);
    ModProduct(p, w - 1, f);
    ModProduct(p, f, v);
    assert v * f == f * v && v * r == r * v;
    assert DividesProduct(p, r, v);
    DivUnique(w, p, (w - 1) / p);
  }
}
