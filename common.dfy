/** Small shared vocabulary: an optional value, integer ranges and `min`. */
module Common {

  /** A value that may be absent (a null pointer, an empty child slot). */
  datatype Option<T> = None | Some(value: T)

  function Min(a: int, b: int): int
  {
    if a <= b then a else b
  }

  /** The indices `lo, lo + 1, ..., hi - 1` in increasing order (what `iota` fills in). */
  function Range(lo: nat, hi: nat): (r: seq<nat>)
    ensures |r| == if lo <= hi then hi - lo else 0
    ensures forall i :: 0 <= i < |r| ==> r[i] == lo + i
    decreases hi - lo
  {
    if lo >= hi then [] else [lo] + Range(lo + 1, hi)
  }

  /** Every index in a range occurs in it exactly once, and nothing else does. */
  lemma {:induction false} RangeCount(lo: nat, hi: nat, x: nat)
    ensures multiset(Range(lo, hi))[x] == if lo <= x < hi then 1 else 0
    decreases hi - lo
  {
    if lo < hi {
      var rest := Range(lo + 1, hi);
      RangeCount(lo + 1, hi, x);
      assert Range(lo, hi) == [lo] + rest;
      assert multiset([lo] + rest) == multiset([lo]) + multiset(rest);
    }
  }

  /** A range splits at any point in between. */
  lemma {:induction false} RangeSplit(lo: nat, mid: nat, hi: nat)
    requires lo <= mid <= hi
    ensures Range(lo, hi) == Range(lo, mid) + Range(mid, hi)
    decreases mid - lo
  {
    if lo < mid {
      RangeSplit(lo + 1, mid, hi);
    }
  }

  /** Extending a range by its next index appends that index. */
  lemma RangeAppend(done: seq<nat>, lo: nat, hi: nat)
    requires lo <= hi
    ensures done + Range(lo, hi + 1) == (done + Range(lo, hi)) + [hi]
  {
    RangeSplit(lo, hi, hi + 1);
    ConcatAssoc(done, Range(lo, hi), [hi]);
  }

  /** A non-empty sequence is its front followed by its last element. */
  lemma SplitLast<T>(s: seq<T>)
    requires s != []
    ensures s == s[..|s| - 1] + [s[|s| - 1]]
  {
  }

  /** Dropping the last element of `s + t`, for a non-empty `t`, drops the last element of `t`. */
  lemma FrontOfConcat<T>(s: seq<T>, t: seq<T>)
    requires t != []
    ensures (s + t)[..|s + t| - 1] == s + t[..|t| - 1]
    ensures (s + t)[|s + t| - 1] == t[|t| - 1]
  {
  }

  lemma ConcatAssoc<T>(a: seq<T>, b: seq<T>, c: seq<T>)
    ensures (a + b) + c == a + (b + c)
  {
  }

  /** The tail of `a + b`, for a non-empty `a`, is the tail of `a` followed by `b`. */
  lemma TailOfConcat<T>(a: seq<T>, b: seq<T>)
    requires a != []
    ensures (a + b)[0] == a[0] && (a + b)[1..] == a[1..] + b
  {
  }

  /** Updating an element and then dropping the last one is dropping first, for any element but the last. */
  lemma UpdateFront<T>(s: seq<T>, i: nat, v: T)
    requires i < |s|
    ensures i < |s| - 1 ==> s[i := v][..|s| - 1] == s[..|s| - 1][i := v]
    ensures i == |s| - 1 ==> s[i := v][..|s| - 1] == s[..|s| - 1]
  {
  }

  /** Two bags with the same count of every element are equal. */
  lemma BagExt<T>(a: multiset<T>, b: multiset<T>)
    requires forall y :: a[y] == b[y]
    ensures a == b
  {
  }
}
