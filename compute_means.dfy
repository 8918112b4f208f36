/** The centroid-update routine over flat column-major arrays: X is p-by-n
    (point i in X[i*p .. i*p+p)), ind holds n 0-based group numbers below k,
    and the result is the p-by-k matrix of group means. */
module ComputeMeans {
  import opened Doubles
  import opened Groups
  import opened Reduction
  import Layout

  /** Memory safety: with every group number in [0, k), iteration (i, j) of
      the accumulation reads X inside its p * n entries and writes means
      inside its p * k entries and the counters inside their k entries. */
  lemma AccessesInBounds(x: seq<real>, ind: seq<int>, p: nat, k: nat, i: nat, j: nat)
    requires Fits(x, ind, p) && InRange(ind, k) && i < |ind| && j < p
    ensures 0 <= i * p + j < |x|
    ensures 0 <= ind[i] < k
    ensures 0 <= ind[i] * p + j < k * p
  {
    Layout.CellInBounds(i, j, |ind|, p);
    Layout.CellInBounds(ind[i], j, k, p);
  }

  /** BLAS daxpy with both strides 1: y[yoff + t] += alpha * x[xoff + t] for
      t below len. Only y changes. */
  method Daxpy(len: nat, alpha: real, x: array<real>, xoff: nat, y: array<Double>, yoff: nat)
    requires xoff + len <= x.Length && yoff + len <= y.Length
    modifies y
    ensures y[..] == Axpy(alpha, x[..], xoff, old(y[..]), yoff, len)
  {
    ghost var y0 := y[..];
    var t := 0;
    while t < len
      invariant 0 <= t <= len
      invariant forall s :: 0 <= s < y.Length ==>
        y[s] == if yoff <= s < yoff + t then Plus(y0[s], Scaled(alpha, x[xoff + s - yoff])) else y0[s]
    {
      y[yoff + t] := Plus(y[yoff + t], Scaled(alpha, x[xoff + t]));
      t := t + 1;
    }
    assert y[..] == Axpy(alpha, x[..], xoff, y0, yoff, len);
  }

  /** The per-coordinate loop that adds X[src .. src + p) into
      means[dst .. dst + p). Only means changes. */
  method AddColumn(X: array<real>, src: nat, means: array<Double>, dst: nat, p: nat)
    requires src + p <= X.Length && dst + p <= means.Length
    modifies means
    ensures means[..] == Added(old(means[..]), X[..], src, dst, p)
  {
    ghost var m0 := means[..];
    var j := 0;
    while j < p
      invariant 0 <= j <= p
      invariant forall t :: 0 <= t < means.Length ==>
        means[t] == if dst <= t < dst + j then Plus(m0[t], X[src + t - dst]) else m0[t]
    {
      means[dst + j] := Plus(means[dst + j], X[src + j]);
      j := j + 1;
    }
    assert means[..] == Added(m0, X[..], src, dst, p);
  }

  /** One iteration of the accumulation loop: point i's column of X is added
      into column ind[i] of means, through daxpy when useBlas holds and through
      the per-coordinate loop otherwise, and counter ind[i] is incremented.
      Every other group's column and counter are unchanged. */
  method AddPoint(X: array<real>, ind: array<int>, i: nat, p: nat, k: nat,
                  means: array<Double>, size: array<nat>, useBlas: bool)
    requires Fits(X[..], ind[..], p) && InRange(ind[..], k) && i < ind.Length
    requires means.Length == k * p && size.Length == k
    modifies means, size
    ensures i * p + p <= X.Length && 0 <= ind[i] * p && ind[i] * p + p <= means.Length
    ensures means[..] == Added(old(means[..]), X[..], i * p, ind[i] * p, p)
    ensures size[..] == old(size[..])[ind[i] := old(size[ind[i]]) + 1]
  {
    var g := ind[i];
    Layout.ColumnInBounds(i, ind.Length, p);
    Layout.ColumnInBounds(g, k, p);
    var src, dst := i * p, g * p;
    if useBlas {
      ghost var before := means[..];
      Daxpy(p, 1.0, X, src, means, dst);
      UnitAxpyIsAdded(before, X[..], src, dst, p);
    } else {
      AddColumn(X, src, means, dst, p);
    }
    size[g] := size[g] + 1;
  }

  /** The accumulation loop: every point is added into its group's column of
      means and its group's counter is incremented. X and ind are only read. */
  method Accumulate(X: array<real>, ind: array<int>, p: nat, k: nat,
                    means: array<Double>, size: array<nat>, useBlas: bool)
    requires Fits(X[..], ind[..], p) && InRange(ind[..], k)
    requires means.Length == k * p && size.Length == k
    modifies means, size
    ensures means[..] == Accumulated(old(means[..]), X[..], ind[..], p, k, ind.Length)
    ensures size[..] == Counted(old(size[..]), ind[..], ind.Length)
  {
    var n := ind.Length;
    ghost var xs, gs := X[..], ind[..];
    ghost var m0, c0 := means[..], size[..];
    var i := 0;
    while i < n
      invariant 0 <= i <= n
      invariant means[..] == Accumulated(m0, xs, gs, p, k, i)
      invariant size[..] == Counted(c0, gs, i)
    {
      AccumulatedStep(m0, xs, gs, p, k, i);
      CountedStep(c0, gs, i);
      AddPoint(X, ind, i, p, k, means, size, useBlas);
      assert X[..] == xs && ind[..] == gs;
      i := i + 1;
    }
  }

  /** The normalisation loop: every entry of group g's column is divided by
      counter g. Only means changes. */
  method Normalize(means: array<Double>, size: array<nat>, p: nat)
    requires means.Length == size.Length * p
    modifies means
    ensures means[..] == Normalized(old(means[..]), size[..], p, size.Length)
  {
    var k := size.Length;
    ghost var m0 := means[..];
    var g := 0;
    while g < k
      invariant 0 <= g <= k
      invariant means[..] == Normalized(m0, size[..], p, g)
    {
      Layout.ColumnInBounds(g, k, p);
      var base := g * p;
      ghost var before := means[..];
      var j := 0;
      while j < p
        invariant 0 <= j <= p
        invariant forall t :: 0 <= t < means.Length ==>
          means[t] == if base <= t < base + j then DivCount(before[t], size[g]) else before[t]
      {
        means[base + j] := DivCount(means[base + j], size[g]);
        j := j + 1;
      }
      assert means[..] == DividedBlock(before, base, p, size[g]);
      g := g + 1;
    }
  }

  /** The centroid step: allocate a zeroed p-by-k matrix and k zeroed
      counters, accumulate, normalise. Entry (j, g) of the result is the mean
      of coordinate j over the points of group g, NaN for an empty group. */
  method ComputeMeans(X: array<real>, ind: array<int>, p: nat, k: nat, useBlas: bool)
    returns (means: array<Double>)
    requires Fits(X[..], ind[..], p) && InRange(ind[..], k)
    ensures fresh(means) && means.Length == k * p
    ensures means[..] == Centroids(X[..], ind[..], p, k)
    ensures IsCentroidMatrix(means[..], X[..], ind[..], p, k)
  {
    ghost var xs, gs := X[..], ind[..];
    means := new Double[k * p](_ => Num(0.0));
    var size := new nat[k](_ => 0);
    assert means[..] == Zeros(k * p);
    assert size[..] == seq(k, _ => 0);
    Accumulate(X, ind, p, k, means, size, useBlas);
    Normalize(means, size, p);
    assert X[..] == xs && ind[..] == gs;
    CentroidsAreMeans(xs, gs, p, k);
  }
}
