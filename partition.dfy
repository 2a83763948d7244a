/**
 * The partition selector of k-nn.hpp: the approximate median over a
 * sample (`Tree::sample_median_index`, k-nn.hpp:146-157) and the split of
 * an index list around a pivot (`Tree::split`, k-nn.hpp:160-178).
 */
module Partition {
  import opened Common
  import opened Points

  /** `MIN_SAMPLE_SIZE` (k-nn.hpp:24). */
  const MinSampleSize: nat := 80

  /** The coordinate of point `i` on dimension `dim` (`coor_[i][dim]`). */
  function Key(pts: seq<seq<int>>, i: nat, dim: nat): int
    requires i < |pts| && dim < |pts[i]|
  {
    pts[i][dim]
  }

  /** The key of index `x` is defined on `dim`. */
  predicate KeyedAt(pts: seq<seq<int>>, dim: nat, x: nat)
  {
    x < |pts| && dim < |pts[x]|
  }

  /** Keys of a list of indices are all defined on `dim`. */
  predicate Keyed(pts: seq<seq<int>>, dim: nat, s: seq<nat>)
  {
    forall i :: 0 <= i < |s| ==> KeyedAt(pts, dim, s[i])
  }

  /** `s` is `t` with some entries dropped and the order kept. */
  predicate IsSubsequence(s: seq<nat>, t: seq<nat>)
    decreases |t|
  {
    if s == [] then true
    else if t == [] then false
    else (s[0] == t[0] && IsSubsequence(s[1..], t[1..])) || IsSubsequence(s, t[1..])
  }

  /** What `std::sample` draws: `min(80, |indices|)` of the indices, without replacement. */
  predicate IsSample(s: seq<nat>, indices: seq<nat>)
  {
    |s| == Min(MinSampleSize, |indices|) && IsSubsequence(s, indices)
  }

  lemma {:induction false} SubsequenceMultiset(s: seq<nat>, t: seq<nat>)
    requires IsSubsequence(s, t)
    ensures multiset(s) <= multiset(t)
    decreases |t|
  {
    if s != [] {
      if s[0] == t[0] && IsSubsequence(s[1..], t[1..]) {
        SubsequenceMultiset(s[1..], t[1..]);
        assert s == [s[0]] + s[1..];
        assert t == [t[0]] + t[1..];
      } else {
        SubsequenceMultiset(s, t[1..]);
        assert t == [t[0]] + t[1..];
      }
    }
  }

  // ---------------------------------------------------------------------
  // Sorting the sample by key (the `std::sort` call of k-nn.hpp:152-154)
  // ---------------------------------------------------------------------

  predicate SortedByKey(pts: seq<seq<int>>, dim: nat, u: seq<nat>)
    requires Keyed(pts, dim, u)
  {
    forall i, j :: 0 <= i < j < |u| ==> Key(pts, u[i], dim) <= Key(pts, u[j], dim)
  }

  /** Number of entries of `u` whose key is below `v`. */
  function CountBelow(pts: seq<seq<int>>, dim: nat, u: seq<nat>, v: int): nat
    requires Keyed(pts, dim, u)
  {
    if u == [] then 0
    else (if Key(pts, u[0], dim) < v then 1 else 0) + CountBelow(pts, dim, u[1..], v)
  }

  /** Number of entries of `u` whose key is at most `v`. */
  function CountAtMost(pts: seq<seq<int>>, dim: nat, u: seq<nat>, v: int): nat
    requires Keyed(pts, dim, u)
  {
    if u == [] then 0
    else (if Key(pts, u[0], dim) <= v then 1 else 0) + CountAtMost(pts, dim, u[1..], v)
  }

  function InsertByKey(pts: seq<seq<int>>, dim: nat, x: nat, t: seq<nat>): (r: seq<nat>)
    requires KeyedAt(pts, dim, x) && Keyed(pts, dim, t)
    ensures Keyed(pts, dim, r) && multiset(r) == multiset{x} + multiset(t) && |r| == |t| + 1
  {
    if t == [] || Key(pts, x, dim) <= Key(pts, t[0], dim) then [x] + t
    else
      assert t == [t[0]] + t[1..];
      [t[0]] + InsertByKey(pts, dim, x, t[1..])
  }

  /** An insertion sort by key: one concrete sorted arrangement of the sample. */
  function SortByKey(pts: seq<seq<int>>, dim: nat, s: seq<nat>): (r: seq<nat>)
    requires Keyed(pts, dim, s)
    ensures Keyed(pts, dim, r) && multiset(r) == multiset(s) && |r| == |s|
  {
    if s == [] then []
    else
      assert s == [s[0]] + s[1..];
      InsertByKey(pts, dim, s[0], SortByKey(pts, dim, s[1..]))
  }

  lemma {:induction false} InsertLowerBound(pts: seq<seq<int>>, dim: nat, x: nat, t: seq<nat>, b: int)
    requires KeyedAt(pts, dim, x) && Keyed(pts, dim, t)
    requires Key(pts, x, dim) >= b && forall i :: 0 <= i < |t| ==> Key(pts, t[i], dim) >= b
    ensures forall i :: 0 <= i < |InsertByKey(pts, dim, x, t)| ==> Key(pts, InsertByKey(pts, dim, x, t)[i], dim) >= b
  {
    if t != [] && Key(pts, x, dim) > Key(pts, t[0], dim) {
      InsertLowerBound(pts, dim, x, t[1..], b);
      var r := InsertByKey(pts, dim, x, t[1..]);
      var full := InsertByKey(pts, dim, x, t);
      assert full == [t[0]] + r;
      forall i | 0 <= i < |full| ensures Key(pts, full[i], dim) >= b {
        if i > 0 {
          assert full[i] == r[i - 1];
          assert Key(pts, r[i - 1], dim) >= b;
        } else {
          assert full[i] == t[0];
        }
      }
    } else {
      var full := InsertByKey(pts, dim, x, t);
      assert full == [x] + t;
      forall i | 0 <= i < |full| ensures Key(pts, full[i], dim) >= b {
        if i > 0 {
          assert full[i] == t[i - 1];
        }
      }
    }
  }

  lemma {:induction false} InsertSorted(pts: seq<seq<int>>, dim: nat, x: nat, t: seq<nat>)
    requires KeyedAt(pts, dim, x) && Keyed(pts, dim, t) && SortedByKey(pts, dim, t)
    ensures SortedByKey(pts, dim, InsertByKey(pts, dim, x, t))
  {
    if t != [] && Key(pts, x, dim) > Key(pts, t[0], dim) {
      InsertSorted(pts, dim, x, t[1..]);
      var r := InsertByKey(pts, dim, x, t[1..]);
      InsertLowerBound(pts, dim, x, t[1..], Key(pts, t[0], dim));
      SortedCons(pts, dim, t[0], r);
      assert InsertByKey(pts, dim, x, t) == [t[0]] + r;
    } else {
      SortedCons(pts, dim, x, t);
      assert InsertByKey(pts, dim, x, t) == [x] + t;
    }
  }

  /** A key at most every key of a sorted list can go in front of it. */
  lemma SortedCons(pts: seq<seq<int>>, dim: nat, a: nat, r: seq<nat>)
    requires KeyedAt(pts, dim, a) && Keyed(pts, dim, r) && SortedByKey(pts, dim, r)
    requires r != [] ==> Key(pts, a, dim) <= Key(pts, r[0], dim)
    ensures Keyed(pts, dim, [a] + r) && SortedByKey(pts, dim, [a] + r)
  {
    var full := [a] + r;
    forall i, j | 0 <= i < j < |full| ensures Key(pts, full[i], dim) <= Key(pts, full[j], dim) {
      assert full[j] == r[j - 1];
      if i > 0 {
        assert full[i] == r[i - 1];
      } else {
        assert Key(pts, r[0], dim) <= Key(pts, r[j - 1], dim);
      }
    }
  }

  lemma {:induction false} SortSorted(pts: seq<seq<int>>, dim: nat, s: seq<nat>)
    requires Keyed(pts, dim, s)
    ensures SortedByKey(pts, dim, SortByKey(pts, dim, s))
  {
    if s != [] {
      SortSorted(pts, dim, s[1..]);
      InsertSorted(pts, dim, s[0], SortByKey(pts, dim, s[1..]));
    }
  }

  lemma {:induction false} InsertCounts(pts: seq<seq<int>>, dim: nat, x: nat, t: seq<nat>, v: int)
    requires KeyedAt(pts, dim, x) && Keyed(pts, dim, t)
    ensures CountBelow(pts, dim, InsertByKey(pts, dim, x, t), v) == CountBelow(pts, dim, [x] + t, v)
    ensures CountAtMost(pts, dim, InsertByKey(pts, dim, x, t), v) == CountAtMost(pts, dim, [x] + t, v)
  {
    if t != [] && Key(pts, x, dim) > Key(pts, t[0], dim) {
      InsertCounts(pts, dim, x, t[1..], v);
      assert ([x] + t)[1..] == t;
      assert ([x] + t[1..])[1..] == t[1..];
      assert ([t[0]] + InsertByKey(pts, dim, x, t[1..]))[1..] == InsertByKey(pts, dim, x, t[1..]);
    }
  }

  /** Sorting changes neither how many keys lie below a value nor how many lie at or below it. */
  lemma {:induction false} SortCounts(pts: seq<seq<int>>, dim: nat, s: seq<nat>, v: int)
    requires Keyed(pts, dim, s)
    ensures CountBelow(pts, dim, SortByKey(pts, dim, s), v) == CountBelow(pts, dim, s, v)
    ensures CountAtMost(pts, dim, SortByKey(pts, dim, s), v) == CountAtMost(pts, dim, s, v)
  {
    if s != [] {
      SortCounts(pts, dim, s[1..], v);
      InsertCounts(pts, dim, s[0], SortByKey(pts, dim, s[1..]), v);
      assert ([s[0]] + SortByKey(pts, dim, s[1..]))[1..] == SortByKey(pts, dim, s[1..]);
    }
  }

  lemma {:induction false} NoneBelow(pts: seq<seq<int>>, dim: nat, u: seq<nat>, v: int)
    requires Keyed(pts, dim, u)
    requires forall i :: 0 <= i < |u| ==> Key(pts, u[i], dim) >= v
    ensures CountBelow(pts, dim, u, v) == 0
  {
    if u != [] {
      NoneBelow(pts, dim, u[1..], v);
    }
  }

  /**
   * In a sorted list the entry at position `m` has at most `m` keys below
   * it and at least `m + 1` keys at or below it.
   */
  lemma {:induction false} SortedRank(pts: seq<seq<int>>, dim: nat, u: seq<nat>, m: nat)
    requires Keyed(pts, dim, u) && SortedByKey(pts, dim, u) && m < |u|
    ensures CountBelow(pts, dim, u, Key(pts, u[m], dim)) <= m
    ensures CountAtMost(pts, dim, u, Key(pts, u[m], dim)) >= m + 1
  {
    var v := Key(pts, u[m], dim);
    if m == 0 {
      NoneBelow(pts, dim, u, v);
    } else {
      assert u[1..][m - 1] == u[m];
      SortedRank(pts, dim, u[1..], m - 1);
    }
  }

  /**
   * `Tree::sample_median_index`: sort the sample `s` by coordinate `dim`
   * and take its middle entry. The sample is drawn by the caller (it is the
   * random part of the source). The result is an entry of the sample, and it is
   * a median of the sample: at most half of the sample lies strictly below
   * it and more than half lies at or below it.
   */
  function SampleMedianIndex(pts: seq<seq<int>>, indices: seq<nat>, dim: nat, s: seq<nat>): (r: nat)
    requires Keyed(pts, dim, indices) && |indices| >= 1 && IsSample(s, indices)
    ensures r in s && r in indices && KeyedAt(pts, dim, r)
    ensures Keyed(pts, dim, s)
    ensures CountBelow(pts, dim, s, Key(pts, r, dim)) <= |s| / 2 < CountAtMost(pts, dim, s, Key(pts, r, dim))
  {
    SubsequenceMultiset(s, indices);
    assert Keyed(pts, dim, s) by {
      forall i | 0 <= i < |s| ensures KeyedAt(pts, dim, s[i]) {
        assert s[i] in multiset(s);
        assert s[i] in multiset(indices);
      }
    }
    var sorted := SortByKey(pts, dim, s);
    var r := sorted[|s| / 2];
    SortSorted(pts, dim, s);
    SortedRank(pts, dim, sorted, |s| / 2);
    SortCounts(pts, dim, s, Key(pts, r, dim));
    assert r in multiset(sorted);
    assert r in multiset(s);
    assert r in multiset(indices);
    r
  }

  // ---------------------------------------------------------------------
  // Splitting around the pivot (k-nn.hpp:160-178)
  // ---------------------------------------------------------------------

  /** The non-pivot entries of `s`, in order, whose key is below the pivot's. */
  function Below(pts: seq<seq<int>>, dim: nat, pivot: nat, s: seq<nat>): seq<nat>
    requires KeyedAt(pts, dim, pivot) && Keyed(pts, dim, s)
  {
    if s == [] then []
    else
      var x := s[|s| - 1];
      Below(pts, dim, pivot, s[..|s| - 1])
        + (if x != pivot && Key(pts, x, dim) < Key(pts, pivot, dim) then [x] else [])
  }

  /** The non-pivot entries of `s`, in order, whose key is at or above the pivot's. */
  function AtOrAbove(pts: seq<seq<int>>, dim: nat, pivot: nat, s: seq<nat>): seq<nat>
    requires KeyedAt(pts, dim, pivot) && Keyed(pts, dim, s)
  {
    if s == [] then []
    else
      var x := s[|s| - 1];
      AtOrAbove(pts, dim, pivot, s[..|s| - 1])
        + (if x != pivot && Key(pts, x, dim) >= Key(pts, pivot, dim) then [x] else [])
  }

  /** `Tree::split`: bucket every non-pivot index by comparing its key with the pivot's. */
  method Split(pts: seq<seq<int>>, pivot: nat, indices: seq<nat>, dim: nat)
    returns (left: seq<nat>, right: seq<nat>)
    requires KeyedAt(pts, dim, pivot) && Keyed(pts, dim, indices)
    ensures left == Below(pts, dim, pivot, indices)
    ensures right == AtOrAbove(pts, dim, pivot, indices)
  {
    left, right := [], [];
    var pivotKey := pts[pivot][dim];
    var n := 0;
    while n < |indices|
      invariant 0 <= n <= |indices|
      invariant left == Below(pts, dim, pivot, indices[..n])
      invariant right == AtOrAbove(pts, dim, pivot, indices[..n])
    {
      var i := indices[n];
      assert indices[..n + 1][..n] == indices[..n];
      if i != pivot {
        var cur := pts[i][dim];
        if cur < pivotKey {
          left := left + [i];
        } else {
          right := right + [i];
        }
      }
      n := n + 1;
    }
    assert indices[..n] == indices;
  }

  /** Membership in the two halves, both directions. */
  lemma {:induction false} SplitMembers(pts: seq<seq<int>>, dim: nat, pivot: nat, s: seq<nat>, x: nat)
    requires KeyedAt(pts, dim, pivot) && Keyed(pts, dim, s)
    ensures x in Below(pts, dim, pivot, s) <==>
              x in s && x != pivot && KeyedAt(pts, dim, x) && Key(pts, x, dim) < Key(pts, pivot, dim)
    ensures x in AtOrAbove(pts, dim, pivot, s) <==>
              x in s && x != pivot && KeyedAt(pts, dim, x) && Key(pts, x, dim) >= Key(pts, pivot, dim)
  {
    if s != [] {
      SplitMembers(pts, dim, pivot, s[..|s| - 1], x);
      SplitLast(s);
    }
  }

  /**
   * Together the halves are exactly the input with every copy of the pivot
   * removed.
   */
  lemma {:induction false} SplitMultiset(pts: seq<seq<int>>, dim: nat, pivot: nat, s: seq<nat>)
    requires KeyedAt(pts, dim, pivot) && Keyed(pts, dim, s)
    ensures multiset(Below(pts, dim, pivot, s)) + multiset(AtOrAbove(pts, dim, pivot, s))
              == multiset(s)[pivot := 0]
  {
    var lhs := multiset(Below(pts, dim, pivot, s)) + multiset(AtOrAbove(pts, dim, pivot, s));
    forall y
      ensures lhs[y] == multiset(s)[pivot := 0][y]
    {
      SplitCountAt(pts, dim, pivot, s, y);
    }
  }

  /** How often `y` occurs in the two halves together: as often as in the input, unless it is the pivot. */
  lemma {:induction false} SplitCountAt(pts: seq<seq<int>>, dim: nat, pivot: nat, s: seq<nat>, y: nat)
    requires KeyedAt(pts, dim, pivot) && Keyed(pts, dim, s)
    ensures multiset(Below(pts, dim, pivot, s))[y] + multiset(AtOrAbove(pts, dim, pivot, s))[y]
              == if y == pivot then 0 else multiset(s)[y]
  {
    if s != [] {
      var init: seq<nat> := s[..|s| - 1];
      var x: nat := s[|s| - 1];
      SplitCountAt(pts, dim, pivot, init, y);
      SplitLast(s);
      assert multiset(s)[y] == multiset(init)[y] + multiset([x])[y];
      var lo := if x != pivot && Key(pts, x, dim) < Key(pts, pivot, dim) then [x] else [];
      var hi := if x != pivot && Key(pts, x, dim) >= Key(pts, pivot, dim) then [x] else [];
      assert multiset(Below(pts, dim, pivot, s)) == multiset(Below(pts, dim, pivot, init)) + multiset(lo);
      assert multiset(AtOrAbove(pts, dim, pivot, s)) == multiset(AtOrAbove(pts, dim, pivot, init)) + multiset(hi);
    }
  }

  /**
   * The count assertion of k-nn.hpp:172-176 holds whenever the pivot occurs
   * exactly once in the input.
   */
  lemma SplitCount(pts: seq<seq<int>>, dim: nat, pivot: nat, s: seq<nat>)
    requires KeyedAt(pts, dim, pivot) && Keyed(pts, dim, s)
    requires multiset(s)[pivot] == 1
    ensures |s| == |Below(pts, dim, pivot, s)| + |AtOrAbove(pts, dim, pivot, s)| + 1
  {
    SplitMultiset(pts, dim, pivot, s);
    var m := multiset(s);
    assert m == m[pivot := 0] + multiset{pivot};
    assert |m| == |s|;
  }

  /** Both halves keep the input order: splitting a concatenation splits each part. */
  lemma {:induction false} SplitConcat(pts: seq<seq<int>>, dim: nat, pivot: nat, s: seq<nat>, t: seq<nat>)
    requires KeyedAt(pts, dim, pivot) && Keyed(pts, dim, s) && Keyed(pts, dim, t)
    ensures Below(pts, dim, pivot, s + t) == Below(pts, dim, pivot, s) + Below(pts, dim, pivot, t)
    ensures AtOrAbove(pts, dim, pivot, s + t) == AtOrAbove(pts, dim, pivot, s) + AtOrAbove(pts, dim, pivot, t)
    decreases |t|
  {
    if t == [] {
      assert s + t == s;
    } else {
      var init := t[..|t| - 1];
      var x := t[|t| - 1];
      SplitConcat(pts, dim, pivot, s, init);
      var st := s + t;
      FrontOfConcat(s, t);
      var lo := if x != pivot && Key(pts, x, dim) < Key(pts, pivot, dim) then [x] else [];
      var hi := if x != pivot && Key(pts, x, dim) >= Key(pts, pivot, dim) then [x] else [];
      assert Below(pts, dim, pivot, st) == Below(pts, dim, pivot, s + init) + lo;
      assert Below(pts, dim, pivot, t) == Below(pts, dim, pivot, init) + lo;
      assert AtOrAbove(pts, dim, pivot, st) == AtOrAbove(pts, dim, pivot, s + init) + hi;
      assert AtOrAbove(pts, dim, pivot, t) == AtOrAbove(pts, dim, pivot, init) + hi;
      ConcatAssoc(Below(pts, dim, pivot, s), Below(pts, dim, pivot, init), lo);
      ConcatAssoc(AtOrAbove(pts, dim, pivot, s), AtOrAbove(pts, dim, pivot, init), hi);
    }
  }
}
