/** The state of the centroid buffer and the counter buffer as the two loops
    of the centroid step leave them, as functions of their initial contents,
    and the lemmas that give each entry its meaning in terms of Groups. */
module Reduction {
  import opened Doubles
  import opened Groups
  import Layout

  /** m with x[src .. src + p) added entry by entry into m[dst .. dst + p):
      the manual inner loop that adds one point into its group's column. */
  function Added(m: seq<Double>, x: seq<real>, src: nat, dst: nat, p: nat): seq<Double>
    requires src + p <= |x| && dst + p <= |m|
  {
    seq(|m|, t requires 0 <= t < |m| =>
      if dst <= t < dst + p then Plus(m[t], x[src + t - dst]) else m[t])
  }

  /** y := alpha * x + y over len entries from xoff in x and yoff in y, both
      strides 1: the BLAS daxpy call as the accumulation uses it. */
  function Axpy(alpha: real, x: seq<real>, xoff: nat, y: seq<Double>, yoff: nat, len: nat): seq<Double>
    requires xoff + len <= |x| && yoff + len <= |y|
  {
    seq(|y|, t requires 0 <= t < |y| =>
      if yoff <= t < yoff + len then Plus(y[t], Scaled(alpha, x[xoff + t - yoff])) else y[t])
  }

  /** The buffer after the accumulation loop has run over the first n points,
      starting from m0. */
  function Accumulated(m0: seq<Double>, x: seq<real>, ind: seq<int>, p: nat, k: nat, n: nat): (m: seq<Double>)
    requires |m0| == k * p && Fits(x, ind, p) && InRange(ind, k) && n <= |ind|
    ensures |m| == |m0|
  {
    if n == 0 then m0
    else
      Layout.ColumnInBounds(n - 1, |ind|, p);
      Layout.ColumnInBounds(ind[n - 1], k, p);
      Added(Accumulated(m0, x, ind, p, k, n - 1), x, (n - 1) * p, ind[n - 1] * p, p)
  }

  /** The counters after the accumulation loop has run over the first n
      points, starting from c0: each point increments its group's counter. */
  function Counted(c0: seq<nat>, ind: seq<int>, n: nat): (c: seq<nat>)
    requires n <= |ind| && forall i :: 0 <= i < n ==> 0 <= ind[i] < |c0|
    ensures |c| == |c0|
  {
    if n == 0 then c0
    else
      var c := Counted(c0, ind, n - 1);
      c[ind[n - 1] := c[ind[n - 1]] + 1]
  }

  /** m with m[base .. base + p) divided by the count c. */
  function DividedBlock(m: seq<Double>, base: nat, p: nat, c: nat): seq<Double>
    requires base + p <= |m|
  {
    seq(|m|, t requires 0 <= t < |m| =>
      if base <= t < base + p then DivCount(m[t], c) else m[t])
  }

  /** The buffer after the normalisation loop has divided the columns of the
      first g groups by their counters. */
  function Normalized(m: seq<Double>, c: seq<nat>, p: nat, g: nat): (r: seq<Double>)
    requires |m| == |c| * p && g <= |c|
    ensures |r| == |m|
  {
    if g == 0 then m
    else
      Layout.ColumnInBounds(g - 1, |c|, p);
      DividedBlock(Normalized(m, c, p, g - 1), (g - 1) * p, p, c[g - 1])
  }

  /** alpha * v. */
  function Scaled(alpha: real, v: real): real
  {
    alpha * v
  }

  /** The zero-filled p-by-k output matrix. */
  function Zeros(len: nat): seq<Double>
  {
    seq(len, _ => Num(0.0))
  }

  /** The whole centroid step: both loops run from zeroed buffers. */
  function Centroids(x: seq<real>, ind: seq<int>, p: nat, k: nat): seq<Double>
    requires Fits(x, ind, p) && InRange(ind, k)
  {
    Normalized(Accumulated(Zeros(k * p), x, ind, p, k, |ind|), Counted(seq(k, _ => 0), ind, |ind|), p, k)
  }

  /** One iteration of the accumulation loop adds point i into column ind[i]. */
  lemma AccumulatedStep(m0: seq<Double>, x: seq<real>, ind: seq<int>, p: nat, k: nat, i: nat)
    requires |m0| == k * p && Fits(x, ind, p) && InRange(ind, k) && i < |ind|
    ensures i * p + p <= |x| && 0 <= ind[i] * p && ind[i] * p + p <= |m0|
    ensures Accumulated(m0, x, ind, p, k, i + 1) == Added(Accumulated(m0, x, ind, p, k, i), x, i * p, ind[i] * p, p)
  {
    Layout.ColumnInBounds(i, |ind|, p);
    Layout.ColumnInBounds(ind[i], k, p);
  }

  /** One iteration of the accumulation loop increments counter ind[i]. */
  lemma CountedStep(c0: seq<nat>, ind: seq<int>, i: nat)
    requires i < |ind| && forall t :: 0 <= t < |ind| ==> 0 <= ind[t] < |c0|
    ensures 0 <= ind[i] < |Counted(c0, ind, i)|
    ensures Counted(c0, ind, i + 1) == Counted(c0, ind, i)[ind[i] := Counted(c0, ind, i)[ind[i]] + 1]
  {
  }

  /** The sum of a sequence of counters. */
  function SeqSum(s: seq<nat>): nat
  {
    if s == [] then 0 else SeqSum(s[..|s| - 1]) + s[|s| - 1]
  }

  /** daxpy with alpha = 1 and unit strides performs exactly the manual
      per-coordinate additions. */
  lemma UnitAxpyIsAdded(m: seq<Double>, x: seq<real>, src: nat, dst: nat, p: nat)
    requires src + p <= |x| && dst + p <= |m|
    ensures Axpy(1.0, x, src, m, dst, p) == Added(m, x, src, dst, p)
  {
  }

  /** Adding a point into column h changes entry (j, g) only when g is h, and
      then adds coordinate j of the point; every other group's column is as it
      was. */
  lemma AddedAt(m: seq<Double>, x: seq<real>, src: nat, h: nat, p: nat, g: nat, j: nat)
    requires src + p <= |x| && h * p + p <= |m| && j < p && g * p + j < |m|
    ensures Added(m, x, src, h * p, p)[g * p + j] ==
            if g == h then Plus(m[g * p + j], x[src + j]) else m[g * p + j]
  {
    Layout.CellInColumn(g, j, h, p);
  }

  /** After the accumulation loop over the first n points, entry (j, g) holds
      its initial value plus the sum of coordinate j over the points of g. */
  lemma {:induction false} AccumulatedAt(m0: seq<Double>, x: seq<real>, ind: seq<int>, p: nat, k: nat, n: nat, g: nat, j: nat)
    requires |m0| == k * p && Fits(x, ind, p) && InRange(ind, k) && n <= |ind|
    requires g < k && j < p
    ensures g * p + j < |m0|
    ensures Accumulated(m0, x, ind, p, k, n)[g * p + j] == Plus(m0[g * p + j], GroupSum(x, ind, p, n, g, j))
  {
    Layout.CellInBounds(g, j, k, p);
    if n > 0 {
      AccumulatedAt(m0, x, ind, p, k, n - 1, g, j);
      Layout.ColumnInBounds(n - 1, |ind|, p);
      Layout.ColumnInBounds(ind[n - 1], k, p);
      AddedAt(Accumulated(m0, x, ind, p, k, n - 1), x, (n - 1) * p, ind[n - 1], p, g, j);
      PlusPlus(m0[g * p + j], GroupSum(x, ind, p, n - 1, g, j),
               if ind[n - 1] == g then x[(n - 1) * p + j] else 0.0);
    }
  }

  /** After the accumulation loop over the first n points, counter g holds its
      initial value plus the number of those points assigned to g. */
  lemma {:induction false} CountedAt(c0: seq<nat>, ind: seq<int>, n: nat, g: nat)
    requires n <= |ind| && forall i :: 0 <= i < n ==> 0 <= ind[i] < |c0|
    requires g < |c0|
    ensures Counted(c0, ind, n)[g] == c0[g] + Count(ind, n, g)
  {
    if n > 0 {
      CountedAt(c0, ind, n - 1, g);
    }
  }

  /** Incrementing one counter by one increments the total by one. */
  lemma {:induction false} SeqSumIncrement(s: seq<nat>, g: nat)
    requires g < |s|
    ensures SeqSum(s[g := s[g] + 1]) == SeqSum(s) + 1
  {
    var s' := s[g := s[g] + 1];
    if g < |s| - 1 {
      assert s'[..|s'| - 1] == s[..|s| - 1][g := s[g] + 1];
      SeqSumIncrement(s[..|s| - 1], g);
    } else {
      assert s'[..|s'| - 1] == s[..|s| - 1];
    }
  }

  /** Every point increments exactly one counter by one, so the counters
      grow in total by the number of points. */
  lemma {:induction false} CountsSumToN(c0: seq<nat>, ind: seq<int>, n: nat)
    requires n <= |ind| && forall i :: 0 <= i < n ==> 0 <= ind[i] < |c0|
    ensures SeqSum(Counted(c0, ind, n)) == SeqSum(c0) + n
  {
    if n > 0 {
      CountsSumToN(c0, ind, n - 1);
      SeqSumIncrement(Counted(c0, ind, n - 1), ind[n - 1]);
    }
  }

  /** After the normalisation loop over the first g groups, entry (j, h) is
      divided by counter h when h is one of them and unchanged otherwise. */
  lemma {:induction false} NormalizedAt(m: seq<Double>, c: seq<nat>, p: nat, g: nat, h: nat, j: nat)
    requires |m| == |c| * p && g <= |c| && h < |c| && j < p
    ensures h * p + j < |m|
    ensures Normalized(m, c, p, g)[h * p + j] == if h < g then DivCount(m[h * p + j], c[h]) else m[h * p + j]
  {
    Layout.CellInBounds(h, j, |c|, p);
    if g > 0 {
      NormalizedAt(m, c, p, g - 1, h, j);
      Layout.CellInColumn(h, j, g - 1, p);
    }
  }

  /** Entry (j, g) of the centroid matrix is the mean of coordinate j over the
      points of group g: the exact mean when g holds a point, NaN when it holds
      none. */
  lemma CentroidAt(x: seq<real>, ind: seq<int>, p: nat, k: nat, g: nat, j: nat)
    requires Fits(x, ind, p) && InRange(ind, k) && g < k && j < p
    ensures |Centroids(x, ind, p, k)| == k * p
    ensures g * p + j < k * p
    ensures Centroids(x, ind, p, k)[g * p + j] == Mean(x, ind, p, |ind|, g, j)
  {
    Layout.CellInBounds(g, j, k, p);
    var n := |ind|;
    var m := Accumulated(Zeros(k * p), x, ind, p, k, n);
    var c := Counted(seq(k, _ => 0), ind, n);
    AccumulatedAt(Zeros(k * p), x, ind, p, k, n, g, j);
    CountedAt(seq(k, _ => 0), ind, n, g);
    NormalizedAt(m, c, p, k, g, j);
    if Count(ind, n, g) == 0 {
      EmptyGroupSum(x, ind, p, n, g, j);
    }
  }

  /** The two loops run from zeroed buffers produce the centroid matrix. */
  lemma CentroidsAreMeans(x: seq<real>, ind: seq<int>, p: nat, k: nat)
    requires Fits(x, ind, p) && InRange(ind, k)
    ensures IsCentroidMatrix(Centroids(x, ind, p, k), x, ind, p, k)
  {
    var m := Centroids(x, ind, p, k);
    forall g, j | 0 <= g < k && 0 <= j < p
      ensures g * p + j < |m| && m[g * p + j] == Mean(x, ind, p, |ind|, g, j)
    {
      CentroidAt(x, ind, p, k, g, j);
    }
    assert |m| == k * p;
  }
}
