/**
 * The three reductions defined inside `calculateStats`: `mean`, `median` and
 * `standardDeviation`, over a column of numbers. JavaScript numbers are
 * modelled as exact reals; `Math.sqrt` is a parameter `sqrt` that is assumed
 * to be a square root only in the lemmas that say so (`IsSqrt`).
 */
module Statistics {
  import opened Seqs

  // ---------------------------------------------------------------------
  // Products. Multiplication of two unknowns is kept behind `Product` so that
  // the facts the proofs need about it are stated once, in the lemmas below.

  /** Plain multiplication: `Product(a, b)` is `a * b` (see `MeanTimesCount`). */
  function Product(a: real, b: real): real
  {
    a * b
  }

  /** `Math.pow(d, 2)`. */
  function Square(d: real): real
  {
    Product(d, d)
  }

  lemma ProductStep(n: real, a: real)
    ensures Product(n + 1.0, a) == Product(n, a) + a
  {
  }

  lemma ProductPositive(a: real, b: real)
    requires 0.0 < a && 0.0 < b
    ensures 0.0 < Product(a, b)
  {
  }

  lemma ProductMonotone(n: real, a: real, b: real)
    requires 0.0 < n
    ensures a < b ==> Product(n, a) < Product(n, b)
  {
    if a < b {
      assert Product(n, b) - Product(n, a) == n * (b - a);
      assert 0.0 < n * (b - a);
    }
  }

  /** A square is never negative, and it is zero only for zero. */
  lemma SquareSign(d: real)
    ensures 0.0 <= Square(d)
    ensures Square(d) == 0.0 <==> d == 0.0
  {
    if 0.0 < d {
      ProductPositive(d, d);
    } else if d < 0.0 {
      ProductPositive(-d, -d);
      assert Product(-d, -d) == Product(d, d);
    }
  }

  /** Squaring is strictly increasing on the non-negative numbers. */
  lemma SquareMonotone(x: real, y: real)
    requires 0.0 <= x < y
    ensures Square(x) < Square(y)
  {
    if x == 0.0 {
      SquareSign(x);
      SquareSign(y);
    } else {
      ProductMonotone(x, x, y);
      assert Product(x, y) == Product(y, x);
      ProductMonotone(y, x, y);
    }
  }

  /** Dividing by a positive count keeps bounds on the dividend. */
  lemma DivideByCount(x: real, lo: real, hi: real, n: real)
    requires 0.0 < n
    requires Product(n, lo) <= x <= Product(n, hi)
    ensures Product(x / n, n) == x
    ensures lo <= x / n <= hi
  {
    var q := x / n;
    assert q * n == x;
    ProductMonotone(n, lo, q);
    ProductMonotone(n, q, hi);
  }

  /** A non-negative quotient by a positive count, zero exactly when the dividend is. */
  lemma QuotientSign(x: real, n: real)
    requires 0.0 < n && 0.0 <= x
    ensures 0.0 <= x / n
    ensures x / n == 0.0 <==> x == 0.0
  {
    assert (x / n) * n == x;
  }

  // ---------------------------------------------------------------------
  // Sums

  /** `arr.reduce((a, b) => a + b, 0)`: a left fold of `+` seeded with 0. */
  function Sum(s: seq<real>): real
  {
    if |s| == 0 then 0.0 else Sum(s[..|s| - 1]) + s[|s| - 1]
  }

  /** `arr.reduce((a, b) => a + b)` with no seed: the fold starts from the first element. */
  function SumFromFirst(s: seq<real>): real
    requires |s| > 0
  {
    if |s| == 1 then s[0] else SumFromFirst(s[..|s| - 1]) + s[|s| - 1]
  }

  /** On a non-empty array the unseeded fold adds up to the seeded one. */
  lemma {:induction false} SumFromFirstIsSum(s: seq<real>)
    requires |s| > 0
    ensures SumFromFirst(s) == Sum(s)
    decreases |s|
  {
    if |s| == 1 {
      assert s[..0] == [];
    } else {
      SumFromFirstIsSum(s[..|s| - 1]);
    }
  }

  /** Appending one element adds it to the sum. */
  lemma SumAppend(a: seq<real>, x: real)
    ensures Sum(a + [x]) == Sum(a) + x
  {
    assert (a + [x])[..|a|] == a;
  }

  lemma {:induction false} SumConcat(a: seq<real>, b: seq<real>)
    ensures Sum(a + b) == Sum(a) + Sum(b)
    decreases |b|
  {
    if |b| == 0 {
      assert a + b == a;
    } else {
      assert (a + b)[..|a + b| - 1] == a + b[..|b| - 1];
      SumConcat(a, b[..|b| - 1]);
    }
  }

  /** A sum of `n` terms each between `lo` and `hi` lies between `n * lo` and `n * hi`. */
  lemma {:induction false} SumBounds(s: seq<real>, lo: real, hi: real)
    requires forall i :: 0 <= i < |s| ==> lo <= s[i] <= hi
    ensures Product(|s| as real, lo) <= Sum(s) <= Product(|s| as real, hi)
    decreases |s|
  {
    if |s| > 0 {
      var n := |s| - 1;
      SumBounds(s[..n], lo, hi);
      ProductStep(n as real, lo);
      ProductStep(n as real, hi);
    }
  }

  /** A sum of non-negative terms is non-negative, and zero exactly when every term is. */
  lemma {:induction false} SumNonNegative(s: seq<real>)
    requires forall i :: 0 <= i < |s| ==> 0.0 <= s[i]
    ensures 0.0 <= Sum(s)
    ensures Sum(s) == 0.0 <==> forall i :: 0 <= i < |s| ==> s[i] == 0.0
    decreases |s|
  {
    if |s| > 0 {
      var n := |s| - 1;
      SumNonNegative(s[..n]);
      if Sum(s) == 0.0 {
        assert Sum(s[..n]) == 0.0 && s[n] == 0.0;
        forall i | 0 <= i < |s| ensures s[i] == 0.0 {
          if i < n {
            assert s[..n][i] == s[i];
          }
        }
      }
    }
  }

  /** The sum only depends on the multiset of the terms. */
  lemma {:induction false} SumPermutation(s: seq<real>, t: seq<real>)
    requires multiset(s) == multiset(t)
    ensures Sum(s) == Sum(t)
    decreases |s|
  {
    if |s| == 0 {
      assert |t| == |multiset(t)| == 0;
    } else {
      var n := |s| - 1;
      var x := s[n];
      assert multiset(s[..n]) == multiset(s) - multiset{x} by {
        assert s == s[..n] + [x];
      }
      var k := RemoveOne(t, x);
      SumPermutation(s[..n], t[..k] + t[k + 1..]);
      SumRemove(t, k);
    }
  }

  /** Taking one element out of a sequence takes it out of the sum. */
  lemma SumRemove(t: seq<real>, k: nat)
    requires k < |t|
    ensures Sum(t) == Sum(t[..k] + t[k + 1..]) + t[k]
  {
    var x, front, back := t[k], t[..k], t[k + 1..];
    CutAt(t, k);
    calc {
      Sum(t);
      { SumConcat(front, [x] + back); }
      Sum(front) + Sum([x] + back);
      { SumConcat([x], back); }
      Sum(front) + Sum([x]) + Sum(back);
      { assert [x][..0] == []; }
      Sum(front) + Sum(back) + x;
      { SumConcat(front, back); }
      Sum(front + back) + x;
    }
  }

  // ---------------------------------------------------------------------
  // Smallest and largest element (used to state bounds)

  function Min(s: seq<real>): (m: real)
    requires |s| > 0
    ensures m in s
    ensures forall i :: 0 <= i < |s| ==> m <= s[i]
  {
    if |s| == 1 then s[0]
    else
      var rest := Min(s[1..]);
      assert forall i :: 1 <= i < |s| ==> s[1..][i - 1] == s[i];
      if s[0] <= rest then s[0] else rest
  }

  function Max(s: seq<real>): (m: real)
    requires |s| > 0
    ensures m in s
    ensures forall i :: 0 <= i < |s| ==> s[i] <= m
  {
    if |s| == 1 then s[0]
    else
      var rest := Max(s[1..]);
      assert forall i :: 1 <= i < |s| ==> s[1..][i - 1] == s[i];
      if rest <= s[0] then s[0] else rest
  }

  // ---------------------------------------------------------------------
  // mean

  /** `mean`: the sum divided by the count. The empty array (NaN) is excluded. */
  function Mean(s: seq<real>): real
    requires |s| > 0
  {
    Sum(s) / (|s| as real)
  }

  /** The mean times the count is the sum, and the mean lies between the smallest and the largest element. */
  lemma MeanBounds(s: seq<real>)
    requires |s| > 0
    ensures Product(Mean(s), |s| as real) == Sum(s)
    ensures Min(s) <= Mean(s) <= Max(s)
  {
    SumBounds(s, Min(s), Max(s));
    DivideByCount(Sum(s), Min(s), Max(s), |s| as real);
  }

  /** The mean times the count is the sum, written with plain multiplication. */
  lemma MeanTimesCount(s: seq<real>)
    requires |s| > 0
    ensures Mean(s) * (|s| as real) == Sum(s)
  {
    MeanBounds(s);
  }

  /** The mean of a column whose entries are all `c` is `c`. */
  lemma MeanOfConstant(s: seq<real>, c: real)
    requires |s| > 0
    requires forall i :: 0 <= i < |s| ==> s[i] == c
    ensures Mean(s) == c
  {
    MeanBounds(s);
  }

  /** Reordering the column does not change the mean. */
  lemma MeanPermutation(s: seq<real>, t: seq<real>)
    requires |s| > 0
    requires multiset(s) == multiset(t)
    ensures |t| == |s| && Mean(s) == Mean(t)
  {
    assert |t| == |multiset(t)| == |multiset(s)| == |s|;
    SumPermutation(s, t);
  }

  // ---------------------------------------------------------------------
  // Sorting, as `[...arr].sort((a, b) => a - b)`

  predicate Sorted(s: seq<real>)
  {
    forall i, j :: 0 <= i < j < |s| ==> s[i] <= s[j]
  }

  /** Inserts `x` in front of the first element not smaller than it. */
  function Insert(x: real, s: seq<real>): seq<real>
  {
    if |s| == 0 || x <= s[0] then [x] + s
    else [s[0]] + Insert(x, s[1..])
  }

  /** Inserting adds exactly one occurrence of `x`. */
  lemma {:induction false} InsertMultiset(x: real, s: seq<real>)
    ensures |Insert(x, s)| == |s| + 1
    ensures multiset(Insert(x, s)) == multiset(s) + multiset{x}
  {
    if |s| > 0 && s[0] < x {
      InsertMultiset(x, s[1..]);
      assert s == [s[0]] + s[1..];
    }
  }

  /** Inserting into an ascending sequence keeps it ascending. */
  lemma {:induction false} InsertSorted(x: real, s: seq<real>)
    requires Sorted(s)
    ensures Sorted(Insert(x, s))
  {
    if |s| > 0 && s[0] < x {
      var rest := Insert(x, s[1..]);
      InsertSorted(x, s[1..]);
      InsertMultiset(x, s[1..]);
      forall i | 0 <= i < |rest| ensures s[0] <= rest[i] {
        assert rest[i] in multiset(rest);
        if rest[i] != x {
          assert rest[i] in multiset(s[1..]);
          var j :| 0 <= j < |s[1..]| && s[1..][j] == rest[i];
          assert s[j + 1] == rest[i];
        }
      }
    }
  }

  /**
   * An ascending rearrangement of `s`. JavaScript's sort is a library routine;
   * which algorithm produces the rearrangement does not matter because an
   * ascending permutation is unique (`SortedUnique`).
   */
  function Sort(s: seq<real>): (r: seq<real>)
    ensures |r| == |s|
    ensures Sorted(r)
    ensures multiset(r) == multiset(s)
  {
    if |s| == 0 then []
    else
      var rest := Sort(s[1..]);
      InsertMultiset(s[0], rest);
      InsertSorted(s[0], rest);
      MultisetFirstRest(s);
      Insert(s[0], rest)
  }

  /** The first element of an ascending sequence is its least element. */
  lemma SortedFirstIsLeast(a: seq<real>, y: real)
    requires Sorted(a) && y in multiset(a)
    ensures a[0] <= y
  {
    var i :| 0 <= i < |a| && a[i] == y;
  }

  /** Dropping the first element of an ascending sequence leaves an ascending sequence of the other elements. */
  lemma SortedTail(a: seq<real>)
    requires Sorted(a) && |a| > 0
    ensures Sorted(a[1..])
    ensures multiset(a[1..]) == multiset(a) - multiset{a[0]}
  {
    assert a == [a[0]] + a[1..];
  }

  /** Sequences that agree on the first element and on the rest are equal. */
  lemma SameFirstAndRest(a: seq<real>, b: seq<real>)
    requires 0 < |a| && 0 < |b| && a[0] == b[0] && a[1..] == b[1..]
    ensures a == b
  {
    assert a == [a[0]] + a[1..];
    assert b == [b[0]] + b[1..];
  }

  /** Two ascending sequences with the same elements start with the same element. */
  lemma SortedSameFirst(a: seq<real>, b: seq<real>)
    requires Sorted(a) && Sorted(b) && 0 < |a| && 0 < |b|
    requires multiset(a) == multiset(b)
    ensures a[0] == b[0]
  {
    assert a[0] in multiset(a) && b[0] in multiset(b);
    SortedFirstIsLeast(a, b[0]);
    SortedFirstIsLeast(b, a[0]);
  }

  /** Two ascending sequences with the same elements are equal. */
  lemma {:induction false} SortedUnique(a: seq<real>, b: seq<real>)
    requires Sorted(a) && Sorted(b)
    requires multiset(a) == multiset(b)
    ensures a == b
    decreases |a|
  {
    assert |a| == |multiset(a)| == |multiset(b)| == |b|;
    if |a| > 0 {
      SortedSameFirst(a, b);
      SortedTail(a);
      SortedTail(b);
      SortedUnique(a[1..], b[1..]);
      SameFirstAndRest(a, b);
    }
  }

  /** Sorting depends only on the multiset of the input. */
  lemma SortPermutation(s: seq<real>, t: seq<real>)
    requires multiset(s) == multiset(t)
    ensures Sort(s) == Sort(t)
  {
    SortedUnique(Sort(s), Sort(t));
  }

  // ---------------------------------------------------------------------
  // median

  /**
   * `median`: sort a copy ascending; for an odd count take the middle element,
   * for an even count the average of the two central ones. The empty array
   * (an undefined index) is excluded.
   */
  function Median(s: seq<real>): real
    requires |s| > 0
  {
    var sorted := Sort(s);
    var mid := |sorted| / 2;
    if |sorted| % 2 != 0 then sorted[mid] else (sorted[mid - 1] + sorted[mid]) / 2.0
  }

  /** The median read off any ascending arrangement of the inputs. */
  lemma MedianFromSorted(s: seq<real>, t: seq<real>)
    requires |s| > 0
    requires Sorted(t) && multiset(s) == multiset(t)
    ensures |t| == |s|
    ensures Median(s) == if |t| % 2 != 0 then t[|t| / 2] else (t[|t| / 2 - 1] + t[|t| / 2]) / 2.0
  {
    assert |t| == |multiset(t)| == |multiset(s)| == |s|;
    SortedUnique(Sort(s), t);
  }

  /** For an odd count the median is one of the inputs. */
  lemma MedianOdd(s: seq<real>)
    requires |s| % 2 == 1
    ensures Median(s) in s
  {
    var sorted := Sort(s);
    assert sorted[|s| / 2] in multiset(sorted);
  }

  /** For an even count the median is the average of two of the inputs (two distinct occurrences). */
  lemma MedianEven(s: seq<real>) returns (a: real, b: real)
    requires |s| > 0 && |s| % 2 == 0
    ensures a <= b
    ensures multiset{a, b} <= multiset(s)
    ensures Median(s) == (a + b) / 2.0
  {
    var sorted := Sort(s);
    var mid := |s| / 2;
    a, b := sorted[mid - 1], sorted[mid];
    assert sorted == sorted[..mid - 1] + [a, b] + sorted[mid + 1..];
  }

  /** Every element lies between the smallest and the largest. */
  lemma BetweenExtremes(s: seq<real>, y: real)
    requires y in multiset(s)
    ensures Min(s) <= y <= Max(s)
  {
    var i :| 0 <= i < |s| && s[i] == y;
  }

  /** The median lies between the smallest and the largest input. */
  lemma MedianBounds(s: seq<real>)
    requires |s| > 0
    ensures Min(s) <= Median(s) <= Max(s)
  {
    var sorted := Sort(s);
    var mid := |s| / 2;
    assert sorted[mid] in multiset(sorted);
    BetweenExtremes(s, sorted[mid]);
    if |s| % 2 == 0 {
      assert sorted[mid - 1] in multiset(sorted);
      BetweenExtremes(s, sorted[mid - 1]);
    }
  }

  /** Reordering the column does not change the median. */
  lemma MedianPermutation(s: seq<real>, t: seq<real>)
    requires |s| > 0
    requires multiset(s) == multiset(t)
    ensures |t| == |s| && Median(s) == Median(t)
  {
    assert |t| == |multiset(t)| == |multiset(s)| == |s|;
    SortPermutation(s, t);
  }

  /** The tests "strictly below m" and "strictly above m". */
  function Below(m: real): real -> bool
  {
    x => x < m
  }

  function Above(m: real): real -> bool
  {
    x => x > m
  }

  lemma CountAtMostPrefix(r: seq<real>, p: real -> bool, k: nat)
    requires k <= |r|
    requires forall i :: k <= i < |r| ==> !p(r[i])
    ensures Count(r, p) <= k
  {
    assert r == r[..k] + r[k..];
    CountConcat(r[..k], r[k..], p);
    CountNone(r[k..], p);
  }

  lemma CountAtMostSuffix(r: seq<real>, p: real -> bool, k: nat)
    requires k <= |r|
    requires forall i :: 0 <= i < k ==> !p(r[i])
    ensures Count(r, p) <= |r| - k
  {
    assert r == r[..k] + r[k..];
    CountConcat(r[..k], r[k..], p);
    CountNone(r[..k], p);
  }

  /** In an ascending sequence, at most `k` elements lie strictly below `r[k]`. */
  lemma SortedBelow(r: seq<real>, k: nat, m: real)
    requires Sorted(r) && k < |r| && m <= r[k]
    ensures Count(r, Below(m)) <= k
  {
    forall i | k <= i < |r| ensures !Below(m)(r[i]) {
      assert r[k] <= r[i];
    }
    CountAtMostPrefix(r, Below(m), k);
  }

  /** In an ascending sequence, at most `|r| - 1 - k` elements lie strictly above `r[k]`. */
  lemma SortedAbove(r: seq<real>, k: nat, m: real)
    requires Sorted(r) && k < |r| && r[k] <= m
    ensures Count(r, Above(m)) <= |r| - 1 - k
  {
    forall i | 0 <= i < k + 1 ensures !Above(m)(r[i]) {
      assert r[i] <= r[k];
    }
    CountAtMostSuffix(r, Above(m), k + 1);
  }

  /**
   * What makes the median a middle value: at most half of the inputs are
   * strictly below it and at most half are strictly above it.
   */
  lemma MedianSplitsInHalf(s: seq<real>)
    requires |s| > 0
    ensures Count(s, Below(Median(s))) <= |s| / 2
    ensures Count(s, Above(Median(s))) <= |s| / 2
  {
    var r := Sort(s);
    var m := Median(s);
    var mid := |s| / 2;
    CountPermutation(s, r, Below(m));
    CountPermutation(s, r, Above(m));
    SortedBelow(r, mid, m);
    if |s| % 2 != 0 {
      SortedAbove(r, mid, m);
    } else {
      SortedAbove(r, mid - 1, m);
    }
  }

  // ---------------------------------------------------------------------
  // standardDeviation

  function SquaredDeviation(c: real): real -> real
  {
    x => Square(x - c)
  }

  /** `arr.map(x => Math.pow(x - c, 2))`. */
  function Squares(s: seq<real>, c: real): (r: seq<real>)
    ensures |r| == |s|
    ensures forall i :: 0 <= i < |s| ==> r[i] == Square(s[i] - c)
  {
    Map(s, SquaredDeviation(c))
  }

  /**
   * The quantity under the root in `standardDeviation`: the unseeded sum of
   * squared deviations from the mean, divided by the count (population
   * variance, divisor `arr.length`).
   */
  function Variance(s: seq<real>): real
    requires |s| > 0
  {
    SumFromFirst(Squares(s, Mean(s))) / (|s| as real)
  }

  /** `standardDeviation`: `Math.sqrt` of the variance. */
  function StandardDeviation(s: seq<real>, sqrt: real -> real): real
    requires |s| > 0
  {
    sqrt(Variance(s))
  }

  /** `sqrt` returns the non-negative square root of every non-negative argument. */
  ghost predicate IsSqrt(sqrt: real -> real)
  {
    forall x :: 0.0 <= x ==> 0.0 <= sqrt(x) && Square(sqrt(x)) == x
  }

  /** The variance is the average squared deviation from the mean (divisor `|s|`, not `|s| - 1`). */
  lemma VarianceIsAverageSquaredDeviation(s: seq<real>)
    requires |s| > 0
    ensures Product(Variance(s), |s| as real) == Sum(Squares(s, Mean(s)))
  {
    var q := Squares(s, Mean(s));
    SumFromFirstIsSum(q);
    assert Variance(s) == Sum(q) / (|s| as real);
    assert Variance(s) * (|s| as real) == Sum(q);
  }

  /** The variance times the count is the sum of squared deviations, written with plain multiplication. */
  lemma VarianceTimesCount(s: seq<real>)
    requires |s| > 0
    ensures Variance(s) * (|s| as real) == Sum(Squares(s, Mean(s)))
  {
    VarianceIsAverageSquaredDeviation(s);
  }

  /** The quantity under the root is never negative, and it is zero exactly when all inputs are equal. */
  lemma VarianceZeroIffConstant(s: seq<real>)
    requires |s| > 0
    ensures 0.0 <= Variance(s)
    ensures Variance(s) == 0.0 <==> forall i :: 0 <= i < |s| ==> s[i] == s[0]
  {
    var c := Mean(s);
    var q := Squares(s, c);
    var n := |s| as real;
    forall i | 0 <= i < |s| ensures 0.0 <= q[i] && (q[i] == 0.0 <==> s[i] == c) {
      SquareSign(s[i] - c);
    }
    SumNonNegative(q);
    SumFromFirstIsSum(q);
    QuotientSign(Sum(q), n);
    if forall i :: 0 <= i < |s| ==> s[i] == s[0] {
      MeanOfConstant(s, s[0]);
    }
  }

  /** Reordering the column does not change the variance. */
  lemma VariancePermutation(s: seq<real>, t: seq<real>)
    requires |s| > 0
    requires multiset(s) == multiset(t)
    ensures |t| == |s| && Variance(s) == Variance(t)
  {
    MeanPermutation(s, t);
    var c := Mean(s);
    MapPermutation(s, t, SquaredDeviation(c));
    SumFromFirstIsSum(Squares(s, c));
    SumFromFirstIsSum(Squares(t, c));
    SumPermutation(Squares(s, c), Squares(t, c));
  }

  /** Two non-negative numbers with the same square are equal. */
  lemma SquareInjective(x: real, y: real)
    requires 0.0 <= x && 0.0 <= y
    requires Square(x) == Square(y)
    ensures x == y
  {
    if x < y {
      SquareMonotone(x, y);
    } else if y < x {
      SquareMonotone(y, x);
    }
  }

  /**
   * Given a real square root, the standard deviation is the non-negative
   * number whose square is the variance, and it is zero exactly when all
   * inputs are equal.
   */
  lemma StandardDeviationSpec(s: seq<real>, sqrt: real -> real)
    requires |s| > 0
    requires IsSqrt(sqrt)
    ensures 0.0 <= StandardDeviation(s, sqrt)
    ensures Square(StandardDeviation(s, sqrt)) == Variance(s)
    ensures StandardDeviation(s, sqrt) == 0.0 <==> forall i :: 0 <= i < |s| ==> s[i] == s[0]
  {
    VarianceZeroIffConstant(s);
    SquareSign(StandardDeviation(s, sqrt));
  }

  /** Any two real square roots give the same standard deviation. */
  lemma StandardDeviationUnique(s: seq<real>, sqrt1: real -> real, sqrt2: real -> real)
    requires |s| > 0
    requires IsSqrt(sqrt1) && IsSqrt(sqrt2)
    ensures StandardDeviation(s, sqrt1) == StandardDeviation(s, sqrt2)
  {
    StandardDeviationSpec(s, sqrt1);
    StandardDeviationSpec(s, sqrt2);
    SquareInjective(StandardDeviation(s, sqrt1), StandardDeviation(s, sqrt2));
  }
}
