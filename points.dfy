/** The point store (k-nn.hpp:21, `coors_t`) and squared Euclidean distance. */
module Points {

  /**
   * Every point has exactly `dims` coordinates, and there is at least one
   * dimension (the tree takes `level % dims` and splits on coordinate 0).
   * Coordinates are integers: an exactly ordered stand-in for IEEE floats.
   */
  predicate PointStore(pts: seq<seq<int>>, dims: nat)
  {
    dims >= 1 && forall i :: 0 <= i < |pts| ==> |pts[i]| == dims
  }

  /** Every entry of `s` indexes a point of `pts`. */
  predicate InStore(pts: seq<seq<int>>, s: seq<nat>)
  {
    forall i :: 0 <= i < |s| ==> s[i] < |pts|
  }

  function Square(x: int): nat
  {
    x * x
  }

  /**
   * Squared Euclidean distance. k-nn.hpp:248-256 returns its square root;
   * every use there only compares distances, and for non-negative reals
   * `sqrt a < sqrt b` exactly when `a < b`, so the square is used.
   */
  function SqDist(a: seq<int>, b: seq<int>): nat
    requires |a| == |b|
  {
    if |a| == 0 then 0 else Square(a[0] - b[0]) + SqDist(a[1..], b[1..])
  }

  /** The distance between two points is at least their gap on any one coordinate. */
  lemma {:induction false} SqDistCoordinate(a: seq<int>, b: seq<int>, i: nat)
    requires |a| == |b| && i < |a|
    ensures SqDist(a, b) >= Square(a[i] - b[i])
  {
    if i > 0 {
      SqDistCoordinate(a[1..], b[1..], i - 1);
    }
  }

  /** A point is at distance zero from itself. */
  lemma {:induction false} SqDistSelf(a: seq<int>)
    ensures SqDist(a, a) == 0
  {
    if |a| > 0 {
      SqDistSelf(a[1..]);
    }
  }

  /** Only a point itself is at distance zero from it. */
  lemma {:induction false} SqDistZero(a: seq<int>, b: seq<int>)
    requires |a| == |b| && SqDist(a, b) == 0
    ensures a == b
  {
    if |a| > 0 {
      SqDistZero(a[1..], b[1..]);
      assert a == [a[0]] + a[1..] && b == [b[0]] + b[1..];
    }
  }

  /** The further a value lies beyond `p` on the far side of `t`, the larger its gap to `t`. */
  lemma SquareMonotone(t: int, p: int, q: int)
    requires (t < p <= q) || (q < p <= t)
    ensures Square(t - q) >= Square(t - p)
  {
    if t < p {
      assert q - t >= p - t > 0;
      assert (q - t) * (q - t) >= (p - t) * (q - t) >= (p - t) * (p - t);
    } else {
      assert t - q > t - p >= 0;
      assert (t - q) * (t - q) >= (t - p) * (t - q) >= (t - p) * (t - p);
    }
  }

  /**
   * The coordinate compared at a given depth, cycling through the
   * dimensions (`level_ % dims_` at k-nn.hpp:199, `depth % dims_` at :283).
   */
  function DimAt(depth: nat, dims: nat): (r: nat)
    requires dims >= 1
    ensures r < dims
    ensures dims == 1 ==> r == 0
  {
    depth % dims
  }
}
