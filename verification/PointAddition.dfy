/** For prime 2^255 - 19: the point operations of the source on points of the curve, without exceptions. */
module PointAddition {
  import opened FieldLimbs
  import opened Fermat
  import opened EdwardsLaw
  import opened EdwardsPoints
  import opened EdwardsComplete

  /** An affine point of the curve. */
  datatype Point = Point(x: int, y: int)

  ghost predicate Lies(a: Point) { OnCurve(D(), a.x, a.y) }

  /** `c` is the sum of `a` and `b`, all three on the curve. */
  ghost predicate Adds(a: Point, b: Point, c: Point)
  {
    Lies(a) && Lies(b) && Lies(c) && Sum(D(), a.x, a.y, b.x, b.y, c.x, c.y)
  }

  ghost predicate Shows(p: P3, a: Point) { Fits3(p) && Is3(p, a.x, a.y) && Lies(a) }

  ghost predicate Caches(q: Cached, a: Point) { FitsCached(q) && IsCached(q, a.x, a.y) && Lies(a) }

  /** `ge_add` and `ge_p1p1_to_p3` */
  method AddCached(p: P3, q: Cached, ghost a: Point, ghost b: Point) returns (r: P3, ghost c: Point)
    requires Prime(P) && Shows(p, a) && Caches(q, b)
    ensures Shows(r, c) && Adds(a, b, c)
  {
    hide Cong, Prime, Sum, OnCurve, D, Is3, IsCached, IsCompleted, Fits3, FitsCached, FitsCompleted;
    ghost var x, y := SumExists(a.x, a.y, b.x, b.y);
    c := Point(x, y);
    var t := GeAdd(p, q);
    r := ToP3(t);
  }

  /** `ge_p3_dbl` and `ge_p1p1_to_p3` */
  method Double(p: P3, ghost a: Point) returns (r: P3, ghost c: Point)
    requires Prime(P) && Shows(p, a)
    ensures Shows(r, c) && Adds(a, a, c)
  {
    hide Cong, Prime, Sum, OnCurve, D, Is3, IsCompleted, Fits3, FitsCompleted;
    ghost var x, y := SumExists(a.x, a.y, a.x, a.y);
    c := Point(x, y);
    var t := GeP3Dbl(p);
    r := ToP3(t);
  }

  method Cache(p: P3, ghost a: Point) returns (q: Cached)
    requires Shows(p, a)
    ensures Caches(q, a)
  {
    q := ToCached(p);
  }

  /** The first entries of the table: `a` and then each entry plus `twice`, cached. */
  ghost predicate Table(r: seq<Cached>, a: Point, twice: Point, odd: seq<Point>)
  {
    && |r| == |odd| > 0 && odd[0] == a
    && (forall i :: 0 <= i < |r| ==> Caches(r[i], odd[i]))
    && (forall i :: 0 <= i < |r| - 1 ==> Adds(twice, odd[i], odd[i + 1]))
  }

  /** `ge_dsm_precomp` in coordinates: the table holds s, 3s, 5s up to 15s, each made from the one before by adding
      2s, and all of them are points of the curve. */
  method DsmPrecomp(s: P3, ghost a: Point) returns (r: seq<Cached>, ghost twice: Point, ghost odd: seq<Point>)
    requires Prime(P) && Shows(s, a)
    ensures |r| == 8 && Adds(a, a, twice) && Table(r, a, twice, odd)
  {
    hide Prime, Shows, Caches, Adds;
    var q := Cache(s, a);
    r, odd := [q], [a];
    var s2;
    s2, twice := Double(s, a);
    for n := 1 to 8
      invariant |r| == n && Table(r, a, twice, odd)
    {
      ghost var c;
      var u;
      u, c := AddCached(s2, r[n - 1], twice, odd[n - 1]);
      q := Cache(u, c);
      r, odd := r + [q], odd + [c];
    }
  }
}
