/** The reference definitions of the centroid step: for a point matrix x
    (p coordinates per point, column-major) and an assignment ind of every
    point to a group, how many points a group holds, the sum of their
    coordinates and their mean. Each is defined over the first n points. */
module Groups {
  import opened Doubles
  import Layout

  /** x holds one column of p coordinates per entry of ind. */
  predicate Fits(x: seq<real>, ind: seq<int>, p: nat)
  {
    |x| == |ind| * p
  }

  /** Every group number is a 0-based index below k. */
  predicate InRange(ind: seq<int>, k: nat)
  {
    forall i :: 0 <= i < |ind| ==> 0 <= ind[i] < k
  }

  /** The number of points among the first n that are assigned to group g. */
  function Count(ind: seq<int>, n: nat, g: int): (c: nat)
    requires n <= |ind|
    ensures c <= n
  {
    if n == 0 then 0
    else Count(ind, n - 1, g) + (if ind[n - 1] == g then 1 else 0)
  }

  /** Coordinate j summed over the points among the first n assigned to g. */
  function GroupSum(x: seq<real>, ind: seq<int>, p: nat, n: nat, g: int, j: nat): real
    requires Fits(x, ind, p) && n <= |ind| && j < p
  {
    if n == 0 then 0.0
    else
      Layout.CellInBounds(n - 1, j, |ind|, p);
      GroupSum(x, ind, p, n - 1, g, j) + (if ind[n - 1] == g then x[(n - 1) * p + j] else 0.0)
  }

  /** Coordinate j of the centroid of group g: the group's sum over its count
      in IEEE 754 double division, so an empty group gives 0/0, which is NaN. */
  function Mean(x: seq<real>, ind: seq<int>, p: nat, n: nat, g: int, j: nat): Double
    requires Fits(x, ind, p) && n <= |ind| && j < p
  {
    var c := Count(ind, n, g);
    if c == 0 then NaN else Num(GroupSum(x, ind, p, n, g, j) / c as real)
  }

  /** m is the p-by-k centroid matrix of the point set x under ind: entry
      (j, g) is coordinate j of the mean of group g. */
  predicate IsCentroidMatrix(m: seq<Double>, x: seq<real>, ind: seq<int>, p: nat, k: nat)
    requires Fits(x, ind, p)
  {
    && |m| == k * p
    && forall g, j | 0 <= g < k && 0 <= j < p ::
         g * p + j < |m| && m[g * p + j] == Mean(x, ind, p, |ind|, g, j)
  }

  /** Coordinate j summed over all of the first n points, regardless of group. */
  function CoordinateTotal(x: seq<real>, p: nat, n: nat, j: nat): real
    requires n * p <= |x| && j < p
  {
    if n == 0 then 0.0
    else
      Layout.CellInBounds(n - 1, j, n, p);
      CoordinateTotal(x, p, n - 1, j) + x[(n - 1) * p + j]
  }

  /** A point assigned to g makes g's count positive. */
  lemma {:induction false} CountPositive(ind: seq<int>, n: nat, g: int, i: nat)
    requires n <= |ind| && i < n && ind[i] == g
    ensures Count(ind, n, g) >= 1
  {
    if i < n - 1 {
      CountPositive(ind, n - 1, g, i);
    }
  }

  /** A group no point is assigned to sums to exactly zero. */
  lemma {:induction false} EmptyGroupSum(x: seq<real>, ind: seq<int>, p: nat, n: nat, g: int, j: nat)
    requires Fits(x, ind, p) && n <= |ind| && j < p
    requires Count(ind, n, g) == 0
    ensures GroupSum(x, ind, p, n, g, j) == 0.0
  {
    if n > 0 {
      EmptyGroupSum(x, ind, p, n - 1, g, j);
    }
  }

  /** A group holding exactly one point i sums to that point's coordinate. */
  lemma {:induction false} SingletonGroupSum(x: seq<real>, ind: seq<int>, p: nat, n: nat, g: int, j: nat, i: nat)
    requires Fits(x, ind, p) && n <= |ind| && j < p
    requires i < n && ind[i] == g && Count(ind, n, g) == 1
    ensures i * p + j < |x|
    ensures GroupSum(x, ind, p, n, g, j) == x[i * p + j]
  {
    Layout.CellInBounds(i, j, |ind|, p);
    if i == n - 1 {
      EmptyGroupSum(x, ind, p, n - 1, g, j);
    } else {
      CountPositive(ind, n - 1, g, i);
      SingletonGroupSum(x, ind, p, n - 1, g, j, i);
    }
  }

  /** A group holding exactly one point gets that point back as its centroid,
      with no error introduced by the division. */
  lemma SingletonMean(x: seq<real>, ind: seq<int>, p: nat, n: nat, g: int, j: nat, i: nat)
    requires Fits(x, ind, p) && n <= |ind| && j < p
    requires i < n && ind[i] == g && Count(ind, n, g) == 1
    ensures i * p + j < |x|
    ensures Mean(x, ind, p, n, g, j) == Num(x[i * p + j])
  {
    SingletonGroupSum(x, ind, p, n, g, j, i);
  }

  /** With every point in group 0 (k = 1), group 0 holds all n points and its
      sum is the sum of the whole point set. */
  lemma {:induction false} OneGroupSum(x: seq<real>, ind: seq<int>, p: nat, n: nat, j: nat)
    requires Fits(x, ind, p) && n <= |ind| && j < p
    requires forall i :: 0 <= i < |ind| ==> ind[i] == 0
    ensures Count(ind, n, 0) == n
    ensures n * p <= |x|
    ensures GroupSum(x, ind, p, n, 0, j) == CoordinateTotal(x, p, n, j)
  {
    if n > 0 {
      Layout.ColumnInBounds(n - 1, |ind|, p);
      OneGroupSum(x, ind, p, n - 1, j);
    }
  }

  /** With k = 1 the single centroid is the mean of the whole point set. */
  lemma OneGroupMean(x: seq<real>, ind: seq<int>, p: nat, j: nat)
    requires Fits(x, ind, p) && j < p && |ind| > 0
    requires forall i :: 0 <= i < |ind| ==> ind[i] == 0
    ensures Mean(x, ind, p, |ind|, 0, j) == Num(CoordinateTotal(x, p, |ind|, j) / |ind| as real)
  {
    OneGroupSum(x, ind, p, |ind|, j);
  }

  /** The position point c moves to when points a and a + 1 are exchanged. */
  function Swapped(c: nat, a: nat): nat
  {
    if c == a then a + 1 else if c == a + 1 then a else c
  }

  /** The point matrix with the columns of points a and a + 1 exchanged. */
  function SwapColumns(x: seq<real>, p: nat, a: nat): (r: seq<real>)
    requires a * p + 2 * p <= |x|
    ensures |r| == |x|
  {
    seq(|x|, t requires 0 <= t < |x| =>
      if a * p <= t < a * p + p then x[t + p]
      else if a * p + p <= t < a * p + 2 * p then x[t - p]
      else x[t])
  }

  /** The assignment with the group numbers of points a and a + 1 exchanged. */
  function SwapGroups(ind: seq<int>, a: nat): (r: seq<int>)
    requires a + 1 < |ind|
    ensures |r| == |ind|
  {
    ind[a := ind[a + 1]][a + 1 := ind[a]]
  }

  /** Coordinate j of point c after the exchange is coordinate j of point
      Swapped(c, a) before it. */
  lemma SwapColumnsAt(x: seq<real>, ind: seq<int>, p: nat, a: nat, c: nat, j: nat)
    requires Fits(x, ind, p) && a + 1 < |ind| && c < |ind| && j < p
    ensures a * p + 2 * p <= |x|
    ensures c * p + j < |x| && Swapped(c, a) * p + j < |x|
    ensures SwapColumns(x, p, a)[c * p + j] == x[Swapped(c, a) * p + j]
  {
    Layout.ColumnInBounds(a + 1, |ind|, p);
    assert (a + 1) * p == a * p + p;
    Layout.CellInBounds(c, j, |ind|, p);
    Layout.CellInBounds(Swapped(c, a), j, |ind|, p);
    Layout.CellInColumn(c, j, a, p);
    Layout.CellInColumn(c, j, a + 1, p);
  }

  /** Over any prefix that does not separate points a and a + 1, exchanging
      the two points changes neither a group's count nor its sums. */
  lemma {:induction false} SwapPrefix(x: seq<real>, ind: seq<int>, p: nat, a: nat, n: nat, g: int, j: nat)
    requires Fits(x, ind, p) && a + 1 < |ind| && n <= |ind| && j < p
    requires n <= a || a + 2 <= n
    ensures a * p + 2 * p <= |x|
    ensures Fits(SwapColumns(x, p, a), SwapGroups(ind, a), p)
    ensures Count(SwapGroups(ind, a), n, g) == Count(ind, n, g)
    ensures GroupSum(SwapColumns(x, p, a), SwapGroups(ind, a), p, n, g, j) == GroupSum(x, ind, p, n, g, j)
  {
    Layout.ColumnInBounds(a + 1, |ind|, p);
    assert (a + 1) * p == a * p + p;
    if n == 0 {
    } else if n == a + 2 {
      SwapPrefix(x, ind, p, a, a, g, j);
      SwapColumnsAt(x, ind, p, a, a, j);
      SwapColumnsAt(x, ind, p, a, a + 1, j);
    } else {
      SwapPrefix(x, ind, p, a, n - 1, g, j);
      SwapColumnsAt(x, ind, p, a, n - 1, j);
    }
  }

  /** Reordering the points together with their group numbers leaves every
      centroid unchanged; shown for exchanging two neighbouring points, of
      which every reordering is a composition. */
  lemma SwapPreservesMean(x: seq<real>, ind: seq<int>, p: nat, a: nat, g: int, j: nat)
    requires Fits(x, ind, p) && a + 1 < |ind| && j < p
    ensures a * p + 2 * p <= |x|
    ensures Fits(SwapColumns(x, p, a), SwapGroups(ind, a), p)
    ensures Mean(SwapColumns(x, p, a), SwapGroups(ind, a), p, |ind|, g, j) == Mean(x, ind, p, |ind|, g, j)
  {
    SwapPrefix(x, ind, p, a, |ind|, g, j);
  }

  /** The four points (0,0), (2,0), (0,2), (2,2) split into groups 0, 0, 1, 1
      have centroids (1,0) and (1,2). */
  lemma WorkedExample()
    ensures Fits([0.0, 0.0, 2.0, 0.0, 0.0, 2.0, 2.0, 2.0], [0, 0, 1, 1], 2)
    ensures Mean([0.0, 0.0, 2.0, 0.0, 0.0, 2.0, 2.0, 2.0], [0, 0, 1, 1], 2, 4, 0, 0) == Num(1.0)
    ensures Mean([0.0, 0.0, 2.0, 0.0, 0.0, 2.0, 2.0, 2.0], [0, 0, 1, 1], 2, 4, 0, 1) == Num(0.0)
    ensures Mean([0.0, 0.0, 2.0, 0.0, 0.0, 2.0, 2.0, 2.0], [0, 0, 1, 1], 2, 4, 1, 0) == Num(1.0)
    ensures Mean([0.0, 0.0, 2.0, 0.0, 0.0, 2.0, 2.0, 2.0], [0, 0, 1, 1], 2, 4, 1, 1) == Num(2.0)
  {
  }

  /** The p coordinates of point c. */
  function Column(x: seq<real>, p: nat, c: nat): (col: seq<real>)
    requires c * p + p <= |x|
    ensures |col| == p
  {
    x[c * p .. c * p + p]
  }

  /** x is the point set whose first p1 coordinates are those of x1 and whose
      remaining p2 coordinates are those of x2, point by point. */
  predicate Stacked(x: seq<real>, x1: seq<real>, x2: seq<real>, ind: seq<int>, p1: nat, p2: nat)
    requires Fits(x, ind, p1 + p2) && Fits(x1, ind, p1) && Fits(x2, ind, p2)
  {
    forall c | 0 <= c < |ind| ::
      Layout.ColumnInBounds(c, |ind|, p1 + p2);
      Layout.ColumnInBounds(c, |ind|, p1);
      Layout.ColumnInBounds(c, |ind|, p2);
      Column(x, p1 + p2, c) == Column(x1, p1, c) + Column(x2, p2, c)
  }

  /** Running the step once on stacked dimension blocks gives, block by
      block, the sums of running it on each block separately. */
  lemma {:induction false} StackedGroupSum(x: seq<real>, x1: seq<real>, x2: seq<real>, ind: seq<int>,
                                           p1: nat, p2: nat, n: nat, g: int, j: nat)
    requires Fits(x, ind, p1 + p2) && Fits(x1, ind, p1) && Fits(x2, ind, p2)
    requires Stacked(x, x1, x2, ind, p1, p2) && n <= |ind| && j < p1 + p2
    ensures GroupSum(x, ind, p1 + p2, n, g, j) ==
            if j < p1 then GroupSum(x1, ind, p1, n, g, j) else GroupSum(x2, ind, p2, n, g, j - p1)
  {
    if n > 0 {
      StackedGroupSum(x, x1, x2, ind, p1, p2, n - 1, g, j);
      var c := n - 1;
      Layout.ColumnInBounds(c, |ind|, p1 + p2);
      Layout.ColumnInBounds(c, |ind|, p1);
      Layout.ColumnInBounds(c, |ind|, p2);
      assert Column(x, p1 + p2, c) == Column(x1, p1, c) + Column(x2, p2, c);
      assert x[c * (p1 + p2) + j] == Column(x, p1 + p2, c)[j];
      if j < p1 {
        assert Column(x1, p1, c)[j] == x1[c * p1 + j];
      } else {
        assert Column(x2, p2, c)[j - p1] == x2[c * p2 + (j - p1)];
      }
    }
  }

  /** Dimension independence: the centroids of stacked dimension blocks are
      the stacked centroids of the blocks. */
  lemma StackedMean(x: seq<real>, x1: seq<real>, x2: seq<real>, ind: seq<int>,
                    p1: nat, p2: nat, g: int, j: nat)
    requires Fits(x, ind, p1 + p2) && Fits(x1, ind, p1) && Fits(x2, ind, p2)
    requires Stacked(x, x1, x2, ind, p1, p2) && j < p1 + p2
    ensures Mean(x, ind, p1 + p2, |ind|, g, j) ==
            if j < p1 then Mean(x1, ind, p1, |ind|, g, j) else Mean(x2, ind, p2, |ind|, g, j - p1)
  {
    StackedGroupSum(x, x1, x2, ind, p1, p2, |ind|, g, j);
  }
}
