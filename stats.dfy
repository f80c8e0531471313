/**
 * The numeric building blocks that the metrics computation takes from
 * pandas and numpy: sum and arithmetic mean of a column, the 95th percentile
 * by numpy's default "linear" method, the count of values strictly above a
 * threshold, and Python's `round(x, 2)`.
 *
 * Values are exact reals; see README for what that leaves out.
 */
module Stats {

  /** Sum of the values. */
  function Sum(s: seq<real>): real
  {
    if s == [] then 0.0 else s[0] + Sum(s[1..])
  }

  /** Arithmetic mean of a non-empty column (pandas `Series.mean`). */
  function Mean(s: seq<real>): (m: real)
    requires |s| > 0
  {
    Sum(s) / |s| as real
  }

  /** Smallest value of a non-empty column. */
  function Min(s: seq<real>): (m: real)
    requires |s| > 0
    ensures m in s
    ensures forall i :: 0 <= i < |s| ==> m <= s[i]
  {
    if |s| == 1 then s[0]
    else
      var m' := Min(s[1..]);
      if s[0] < m' then s[0] else m'
  }

  /** Largest value of a non-empty column. */
  function Max(s: seq<real>): (m: real)
    requires |s| > 0
    ensures m in s
    ensures forall i :: 0 <= i < |s| ==> s[i] <= m
  {
    if |s| == 1 then s[0]
    else
      var m' := Max(s[1..]);
      if s[0] > m' then s[0] else m'
  }

  /** Number of values strictly greater than `t` (`(latencies > threshold).sum()`). */
  function CountAbove(s: seq<real>, t: real): (c: nat)
    ensures c <= |s|
  {
    if s == [] then 0
    else (if s[0] > t then 1 else 0) + CountAbove(s[1..], t)
  }

  /** The indices whose value is strictly above `t`: an independent reading of CountAbove. */
  function IndicesAbove(s: seq<real>, t: real): set<int>
  {
    set i | 0 <= i < |s| && s[i] > t
  }

  ghost predicate Sorted(s: seq<real>)
  {
    forall i, j :: 0 <= i < j < |s| ==> s[i] <= s[j]
  }

  /** Inserts `x` into a sorted sequence, keeping it sorted. */
  function Insert(x: real, s: seq<real>): (r: seq<real>)
    ensures Sorted(s) ==> Sorted(r)
    ensures multiset(r) == multiset(s) + multiset{x}
    ensures |r| == |s| + 1
  {
    if s == [] || x <= s[0] then [x] + s
    else
      var tail := Insert(x, s[1..]);
      InsertBehindHead(x, s, tail);
      [s[0]] + tail
  }

  /** The ascending order numpy sorts a column into before taking a percentile. */
  function Sort(s: seq<real>): (r: seq<real>)
    ensures Sorted(r)
    ensures multiset(r) == multiset(s)
    ensures |r| == |s|
  {
    if s == [] then []
    else
      assert s == [s[0]] + s[1..];
      Insert(s[0], Sort(s[1..]))
  }

  /** Fractional rank of the 95th percentile among `n` sorted values: `0.95 * (n - 1)`. */
  function Rank95(n: nat): (h: real)
    requires n > 0
    ensures 0.0 <= h <= (n - 1) as real
  {
    0.95 * (n - 1) as real
  }

  /** floor(h) for the fractional rank h of the 95th percentile. */
  function Lower95(n: nat): (lo: nat)
    requires n > 0
    ensures lo as real <= Rank95(n) < lo as real + 1.0
    ensures lo < n
  {
    Rank95(n).Floor
  }

  /** ceil(h) for the fractional rank h of the 95th percentile. */
  function Upper95(n: nat): (hi: nat)
    requires n > 0
    ensures Rank95(n) <= hi as real < Rank95(n) + 1.0
    ensures hi == Lower95(n) || hi == Lower95(n) + 1
    ensures hi < n
  {
    var lo := Lower95(n);
    if lo as real == Rank95(n) then lo else lo + 1
  }

  /**
   * numpy's default ("linear") percentile at q = 95: sort, take the fractional
   * rank h, and interpolate between the neighbours at floor(h) and ceil(h).
   */
  function Percentile95(xs: seq<real>): real
    requires |xs| > 0
  {
    var s := Sort(xs);
    var h := Rank95(|s|);
    var lo := Lower95(|s|);
    var hi := Upper95(|s|);
    Lerp(s[lo], s[hi], h - lo as real)
  }

  /** numpy's linear interpolation between neighbours `a` and `b` with weight `g`. */
  function Lerp(a: real, b: real, g: real): real
  {
    a + g * (b - a)
  }

  /** Round half to even, the tie rule of Python's `round`. */
  function RoundHalfEven(y: real): (n: int)
    ensures -0.5 <= n as real - y <= 0.5
  {
    var f := y.Floor;
    var d := y - f as real;
    if d < 0.5 then f
    else if d > 0.5 then f + 1
    else if f % 2 == 0 then f
    else f + 1
  }

  /** Python's `round(x, 2)` on an exact value: the nearest multiple of 1/100. */
  function Round2(x: real): (r: real)
    ensures -0.005 <= r - x <= 0.005
  {
    RoundHalfEven(x * 100.0) as real / 100.0
  }

  // ---------------------------------------------------------------------------
  // Lemmas
  // ---------------------------------------------------------------------------

  /** Sum distributes over concatenation. */
  lemma {:induction false} SumAppend(a: seq<real>, b: seq<real>)
    ensures Sum(a + b) == Sum(a) + Sum(b)
  {
    if a == [] {
      assert a + b == b;
    } else {
      assert (a + b)[1..] == a[1..] + b;
      SumAppend(a[1..], b);
    }
  }

  /** Sum of a sequence that starts with `x`. */
  lemma SumCons(x: real, s: seq<real>)
    ensures Sum([x] + s) == x + Sum(s)
  {
    assert ([x] + s)[1..] == s;
  }

  /** Inserting adds exactly the inserted value to the sum. */
  lemma {:induction false} SumInsert(x: real, s: seq<real>)
    ensures Sum(Insert(x, s)) == x + Sum(s)
  {
    if s == [] || x <= s[0] {
      SumCons(x, s);
    } else {
      SumInsert(x, s[1..]);
      SumCons(s[0], Insert(x, s[1..]));
      SumCons(s[0], s[1..]);
      assert [s[0]] + s[1..] == s;
    }
  }

  /** Sorting does not change the sum. */
  lemma {:induction false} SumSort(s: seq<real>)
    ensures Sum(Sort(s)) == Sum(s)
  {
    if s != [] {
      SumSort(s[1..]);
      SumInsert(s[0], Sort(s[1..]));
    }
  }

  /** CountAbove distributes over concatenation. */
  lemma {:induction false} CountAboveAppend(a: seq<real>, b: seq<real>, t: real)
    ensures CountAbove(a + b, t) == CountAbove(a, t) + CountAbove(b, t)
  {
    if a == [] {
      assert a + b == b;
    } else {
      assert (a + b)[1..] == a[1..] + b;
      CountAboveAppend(a[1..], b, t);
    }
  }

  lemma CountAboveCons(x: real, s: seq<real>, t: real)
    ensures CountAbove([x] + s, t) == (if x > t then 1 else 0) + CountAbove(s, t)
  {
    assert ([x] + s)[1..] == s;
  }

  /** Inserting adds one to the count exactly when the value is above `t`. */
  lemma {:induction false} CountAboveInsert(x: real, s: seq<real>, t: real)
    ensures CountAbove(Insert(x, s), t) == (if x > t then 1 else 0) + CountAbove(s, t)
  {
    if s == [] || x <= s[0] {
      CountAboveCons(x, s, t);
    } else {
      CountAboveInsert(x, s[1..], t);
      CountAboveCons(s[0], Insert(x, s[1..]), t);
      CountAboveCons(s[0], s[1..], t);
      assert [s[0]] + s[1..] == s;
    }
  }

  /** Sorting does not change how many values are above a threshold. */
  lemma {:induction false} CountAboveSort(s: seq<real>, t: real)
    ensures CountAbove(Sort(s), t) == CountAbove(s, t)
  {
    if s != [] {
      CountAboveSort(s[1..], t);
      CountAboveInsert(s[0], Sort(s[1..]), t);
    }
  }

  /**
   * CountAbove is the number of indices holding a value strictly above `t`;
   * in particular a value equal to `t` is never counted.
   */
  lemma {:induction false} CountAboveIsIndexCount(s: seq<real>, t: real)
    ensures CountAbove(s, t) == |IndicesAbove(s, t)|
  {
    if s != [] {
      var n := |s| - 1;
      var p := s[..n];
      CountAboveIsIndexCount(p, t);
      assert s == p + [s[n]];
      CountAboveAppend(p, [s[n]], t);
      CountAboveCons(s[n], [], t);
      assert [s[n]] + [] == [s[n]];
      if s[n] > t {
        assert IndicesAbove(s, t) == IndicesAbove(p, t) + {n};
        assert n !in IndicesAbove(p, t);
      } else {
        assert IndicesAbove(s, t) == IndicesAbove(p, t);
      }
    }
  }

  /** A sorted sequence starts with an element no larger than any element of it. */
  lemma SortedHeadIsLeast(s: seq<real>, y: real)
    requires Sorted(s) && y in multiset(s)
    ensures s[0] <= y
  {
    assert y in s;
    var i :| 0 <= i < |s| && s[i] == y;
  }

  /** Dropping the first element drops one copy of it from the multiset. */
  lemma MultisetTail(s: seq<real>)
    requires s != []
    ensures multiset(s[1..]) == multiset(s) - multiset{s[0]}
  {
    assert s == [s[0]] + s[1..];
  }

  /**
   * Inserting behind a head smaller than x: the head followed by x inserted
   * into the rest is sorted when s is, and adds one copy of x.
   */
  lemma InsertBehindHead(x: real, s: seq<real>, tail: seq<real>)
    requires s != [] && s[0] < x
    requires Sorted(s[1..]) ==> Sorted(tail)
    requires multiset(tail) == multiset(s[1..]) + multiset{x}
    ensures Sorted(s) ==> Sorted([s[0]] + tail)
    ensures multiset([s[0]] + tail) == multiset(s) + multiset{x}
  {
    assert s == [s[0]] + s[1..];
    if Sorted(s) {
      BoundedByHead(s[0], s[1..], x, tail);
      SortedCons(s[0], tail);
    }
  }

  /**
   * A value no larger than x and than every element of `rest` is no larger
   * than any element of a rearrangement of `rest` with x added.
   */
  lemma BoundedByHead(h: real, rest: seq<real>, x: real, t: seq<real>)
    requires h <= x
    requires forall i :: 0 <= i < |rest| ==> h <= rest[i]
    requires multiset(t) == multiset(rest) + multiset{x}
    ensures forall j :: 0 <= j < |t| ==> h <= t[j]
  {
    forall j | 0 <= j < |t|
      ensures h <= t[j]
    {
      assert t[j] in multiset(rest) + multiset{x};
      if t[j] != x {
        assert t[j] in rest;
      }
    }
  }

  /** A sorted sequence stays sorted under a head no larger than its elements. */
  lemma SortedCons(h: real, t: seq<real>)
    requires Sorted(t)
    requires forall j :: 0 <= j < |t| ==> h <= t[j]
    ensures Sorted([h] + t)
  {
  }

  /** There is only one sorted arrangement of a multiset of values. */
  lemma {:induction false} SortedUnique(a: seq<real>, b: seq<real>)
    requires Sorted(a) && Sorted(b) && multiset(a) == multiset(b)
    ensures a == b
  {
    assert |a| == |multiset(a)| == |multiset(b)| == |b|;
    if a != [] {
      assert a[0] in multiset(a) && b[0] in multiset(b);
      SortedHeadIsLeast(a, b[0]);
      SortedHeadIsLeast(b, a[0]);
      assert a[0] == b[0];
      MultisetTail(a);
      MultisetTail(b);
      SortedUnique(a[1..], b[1..]);
    }
  }

  /** Sorting depends only on the multiset of values, not on their order. */
  lemma SortPermutation(a: seq<real>, b: seq<real>)
    requires multiset(a) == multiset(b)
    ensures Sort(a) == Sort(b)
  {
    SortedUnique(Sort(a), Sort(b));
  }

  /** A value no smaller than every other value sorts last. */
  lemma SortAppendGreatest(l: seq<real>, x: real)
    requires forall i :: 0 <= i < |l| ==> l[i] <= x
    ensures Sort(l + [x]) == Sort(l) + [x]
  {
    var s := Sort(l);
    forall i, j | 0 <= i < j < |s + [x]|
      ensures (s + [x])[i] <= (s + [x])[j]
    {
      if j == |s| {
        assert s[i] in multiset(l);
        assert s[i] in l;
      }
    }
    assert multiset(s + [x]) == multiset(l + [x]);
    SortedUnique(Sort(l + [x]), s + [x]);
  }

  /** The last sorted value is the value that bounds all others from above. */
  lemma SortLastIsGreatest(l: seq<real>, c: real)
    requires c in l
    requires forall i :: 0 <= i < |l| ==> l[i] <= c
    ensures |Sort(l)| == |l| && Sort(l)[|l| - 1] == c
  {
    var s := Sort(l);
    var n := |l| - 1;
    assert s[n] in multiset(l);
    assert s[n] in l;
    assert c in multiset(s);
    var k :| 0 <= k < |s| && s[k] == c;
    assert k == n || s[k] <= s[n];
  }

  /**
   * Appending a value c no smaller than the greatest value b of `l` makes b
   * and c the two last sorted values.
   */
  lemma SortTopTwo(l: seq<real>, b: real, c: real)
    requires b in l && b <= c
    requires forall i :: 0 <= i < |l| ==> l[i] <= b
    ensures |Sort(l + [c])| == |l| + 1
    ensures Sort(l + [c])[|l| - 1] == b && Sort(l + [c])[|l|] == c
  {
    SortAppendGreatest(l, c);
    SortLastIsGreatest(l, b);
  }

  /** Sum depends only on the multiset of values. */
  lemma SumPermutation(a: seq<real>, b: seq<real>)
    requires multiset(a) == multiset(b)
    ensures Sum(a) == Sum(b)
  {
    SortPermutation(a, b);
    SumSort(a);
    SumSort(b);
  }

  /** CountAbove depends only on the multiset of values. */
  lemma CountAbovePermutation(a: seq<real>, b: seq<real>, t: real)
    requires multiset(a) == multiset(b)
    ensures CountAbove(a, t) == CountAbove(b, t)
  {
    SortPermutation(a, b);
    CountAboveSort(a, t);
    CountAboveSort(b, t);
  }

  /** Every value bounded below by `lo` gives a sum of at least |s| * lo, and likewise above. */
  lemma {:induction false} SumBounds(s: seq<real>, lo: real, hi: real)
    requires forall i :: 0 <= i < |s| ==> lo <= s[i] <= hi
    ensures |s| as real * lo <= Sum(s) <= |s| as real * hi
  {
    if s != [] {
      SumBounds(s[1..], lo, hi);
    }
  }

  /** Dividing a total bounded by n * lo and n * hi by n gives a value between lo and hi. */
  lemma QuotientBounds(x: real, n: real, lo: real, hi: real)
    requires n > 0.0 && n * lo <= x <= n * hi
    ensures lo <= x / n <= hi
  {
    assert x / n - lo == (x - n * lo) / n;
    assert hi - x / n == (n * hi - x) / n;
  }

  /** A mean of values that all lie in [lo, hi] lies in [lo, hi]. */
  lemma MeanBounds(s: seq<real>, lo: real, hi: real)
    requires |s| > 0
    requires forall i :: 0 <= i < |s| ==> lo <= s[i] <= hi
    ensures lo <= Mean(s) <= hi
  {
    SumBounds(s, lo, hi);
    QuotientBounds(Sum(s), |s| as real, lo, hi);
  }

  /** The mean lies between the smallest and the largest value. */
  lemma MeanBetweenMinMax(s: seq<real>)
    requires |s| > 0
    ensures Min(s) <= Mean(s) <= Max(s)
  {
    MeanBounds(s, Min(s), Max(s));
  }

  /** The mean depends only on the multiset of values. */
  lemma MeanPermutation(a: seq<real>, b: seq<real>)
    requires |a| > 0 && multiset(a) == multiset(b)
    ensures |b| > 0 && Mean(a) == Mean(b)
  {
    assert |a| == |multiset(a)| == |multiset(b)| == |b|;
    SumPermutation(a, b);
  }

  /** Linear interpolation with a weight in [0, 1] stays between its two end points. */
  lemma LerpBetween(a: real, b: real, g: real)
    requires a <= b && 0.0 <= g <= 1.0
    ensures a <= Lerp(a, b, g) <= b
  {
    ProductNonNegative(g, b - a);
    ProductNonNegative(1.0 - g, b - a);
    assert g * (b - a) + (1.0 - g) * (b - a) == b - a;
  }

  lemma ProductNonNegative(x: real, y: real)
    requires 0.0 <= x && 0.0 <= y
    ensures 0.0 <= x * y
  {
  }

  /**
   * The 95th percentile interpolates between the sorted values at floor(h)
   * and ceil(h), h = 0.95 * (n - 1), and so lies between those two values.
   */
  lemma Percentile95Interpolates(xs: seq<real>)
    requires |xs| > 0
    ensures Lower95(|xs|) <= Upper95(|xs|) < |xs|
    ensures Sort(xs)[Lower95(|xs|)] <= Percentile95(xs) <= Sort(xs)[Upper95(|xs|)]
  {
    var s := Sort(xs);
    var lo, hi := Lower95(|xs|), Upper95(|xs|);
    var g := Rank95(|xs|) - lo as real;
    assert s[lo] <= s[hi] by {
      if lo < hi {
        assert Sorted(s);
      }
    }
    assert 0.0 <= g <= 1.0;
    assert Percentile95(xs) == Lerp(s[lo], s[hi], g);
    LerpBetween(s[lo], s[hi], g);
  }

  /** When every value lies in [lo, hi], so does the 95th percentile. */
  lemma Percentile95Within(xs: seq<real>, lo: real, hi: real)
    requires |xs| > 0
    requires forall i :: 0 <= i < |xs| ==> lo <= xs[i] <= hi
    ensures lo <= Percentile95(xs) <= hi
  {
    var s := Sort(xs);
    Percentile95Interpolates(xs);
    var a, b := s[Lower95(|xs|)], s[Upper95(|xs|)];
    assert a in multiset(xs) && b in multiset(xs) by {
      assert a in multiset(s) && b in multiset(s);
    }
    assert a in xs && b in xs;
  }

  /** The 95th percentile lies between the smallest and the largest value. */
  lemma Percentile95Bounds(xs: seq<real>)
    requires |xs| > 0
    ensures Min(xs) <= Percentile95(xs) <= Max(xs)
  {
    Percentile95Within(xs, Min(xs), Max(xs));
  }

  /** The 95th percentile depends only on the multiset of values. */
  lemma Percentile95Permutation(a: seq<real>, b: seq<real>)
    requires |a| > 0 && multiset(a) == multiset(b)
    ensures |b| > 0 && Percentile95(a) == Percentile95(b)
  {
    assert |a| == |multiset(a)| == |multiset(b)| == |b|;
    SortPermutation(a, b);
  }

  /** Rounding keeps zero, and the rounded value is a whole number of hundredths. */
  lemma Round2Properties(x: real)
    ensures Round2(0.0) == 0.0
    ensures (Round2(x) * 100.0).Floor as real == Round2(x) * 100.0
  {
    assert RoundHalfEven(0.0) == 0;
  }

  /** A whole number of hundredths is its own rounding, so rounding twice is rounding once. */
  lemma Round2Idempotent(x: real)
    ensures Round2(Round2(x)) == Round2(x)
  {
    var n := RoundHalfEven(x * 100.0);
    assert Round2(x) * 100.0 == n as real;
    assert RoundHalfEven(n as real) == n;
  }
}
