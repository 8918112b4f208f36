# Centroid update of k-means (`computeMeans`)

This project models the core of `computeMeans.c`, a MATLAB MEX routine that
computes the centroid-update step of k-means. Given a p-by-n point matrix `X`
(column-major, point `i` in `X[i*p .. i*p+p)`), a group count `k` and 0-based
group numbers `indices[0..n)`, it returns the p-by-k matrix whose column `g`
is the coordinate-wise mean of the points assigned to group `g`.

The routine works in two loops over flat buffers:

- accumulation: every point's column is added into its group's column of the
  zero-filled output `means`, either coordinate by coordinate or by one BLAS
  `daxpy` call with `alpha = 1` and unit strides, and the group's counter in
  the zeroed `means_size` array is incremented;
- normalisation: every entry of column `g` is divided by counter `g`, in
  double arithmetic, so an empty group gets `0/0`, the not-a-number value.

Modules:

- `Doubles` (doubles.dfy): the values a double entry of `means` can take:
  exact reals, the two infinities and NaN, with the addition and the division
  by a count that the routine performs.
- `Layout` (layout.dfy): column-major index arithmetic; columns lie inside
  their buffer and do not overlap.
- `Groups` (groups.dfy): the reference definitions `Count`, `GroupSum` and
  `Mean` of a group's size, coordinate sums and centroid, and the properties
  of the centroid step stated on them: single-point groups, empty groups,
  the single-group case, reordering the points, stacking dimension blocks,
  a worked example.
- `Reduction` (reduction.dfy): the contents of `means` and `means_size` after
  each loop as functions of their initial contents (`Accumulated`, `Counted`,
  `Normalized`, `Centroids`), and the lemmas that tie each entry to `Groups`.
- `ComputeMeans` (compute_means.dfy): the routine itself as methods over
  arrays: `Daxpy`, `AddColumn`, `AddPoint`, `Accumulate`, `Normalize` and
  `ComputeMeans`.
  Each method's postcondition equates the new array contents with the
  `Reduction` function of the old contents.

The choice between the manual loop and `daxpy` (the `USE_BLAS` compile-time
switch) is the parameter `useBlas`. Both branches meet the same contract.
Two preconditions state what the routine assumes of its inputs. `Fits`
(X holds p coordinates per assigned point) is what MATLAB's shape checks on
`indices` establish, with p and n read from X (computeMeans.c:62-63, 71-78). `InRange` (every group number
lies in [0, k)) is an obligation on the caller that the source never
checks: an out-of-range group number makes the writes at computeMeans.c:95,
98 and 100 go out of bounds.

The output follows the code's layout, a p-by-k column-major matrix with one
column per group (computeMeans.c:89). A description of the routine as
returning a k-by-p matrix with one row per group is the same data transposed.

## Model

| member | source | states |
|---|---|---|
| `Layout.ColumnInBounds` | computeMeans.c:95 | column c of a p-row buffer with `cols` columns, `[c*p, c*p+p)`, lies inside the `cols*p` entries |
| `Layout.CellInBounds` | computeMeans.c:97-98 | entry `c*p + r` with r < p lies in `[0, cols*p)` |
| `Layout.CellInColumn` | computeMeans.c:97-98 | entry `c*p + r` with r < p lies in column h's slice exactly when c = h, so group columns do not overlap |
| `Groups.Count` | computeMeans.c:100 | the number of the first n points assigned to a group is at most n, so a counter can never exceed the number of points |
| `Groups.CountPositive` | computeMeans.c:100 | a group holding point i has a positive count |
| `Groups.EmptyGroupSum` | computeMeans.c:97-98 | a group that holds no point has all coordinate sums exactly 0, so its normalisation is 0/0 |
| `Groups.SingletonGroupSum` | computeMeans.c:97-98 | a group that holds exactly one point i has sum `X[i*p+j]` in coordinate j |
| `Groups.SingletonMean` | computeMeans.c:102-104 | a group that holds exactly one point gets that point's coordinates back as its centroid |
| `Groups.OneGroupSum` | computeMeans.c:92-101 | when every point is in group 0, group 0 counts all n points and its sums are the coordinate totals of the whole point set |
| `Groups.OneGroupMean` | computeMeans.c:92-104 | with k = 1 and n > 0 the centroid is the total over the whole point set divided by n |
| `Groups.SwapPrefix` | computeMeans.c:92-101 | exchanging points a and a+1, together with their group numbers, changes no group count and no group sum over a prefix that keeps both or neither |
| `Groups.SwapPreservesMean` | computeMeans.c:92-104 | exchanging two neighbouring points and their group numbers leaves every centroid unchanged |
| `Groups.StackedGroupSum` | computeMeans.c:97-98 | the group sums of stacked dimension blocks are the group sums of each block |
| `Groups.StackedMean` | computeMeans.c:92-104 | the centroids of stacked dimension blocks are the stacked centroids of each block |
| `Groups.WorkedExample` | computeMeans.c:92-104 | the points (0,0), (2,0), (0,2), (2,2) in groups 0, 0, 1, 1 have centroids (1,0) and (1,2) |
| `Reduction.Accumulated` | computeMeans.c:92-101 | the buffer after the accumulation over the first n points, of the same length as the initial buffer; `AccumulatedAt` gives each entry |
| `Reduction.Counted` | computeMeans.c:100 | the counters after the first n increments, as many as initially; `CountedAt` gives each counter |
| `Reduction.Normalized` | computeMeans.c:102-104 | the buffer after dividing the columns of the first g groups, of the same length; `NormalizedAt` gives each entry |
| `Reduction.UnitAxpyIsAdded` | computeMeans.c:95-98 | `daxpy` with alpha 1 and unit strides performs exactly the per-coordinate additions of the manual loop |
| `Reduction.AddedAt` | computeMeans.c:97-98 | adding a point into column h adds its coordinate j to entry (j, h) and leaves every entry of every other group's column unchanged |
| `Reduction.AccumulatedAt` | computeMeans.c:89-99 | after the accumulation, entry (j, g) is its initial value plus coordinate j summed over the points of group g |
| `Reduction.CountedAt` | computeMeans.c:91-100 | after the accumulation, counter g is its initial value plus the number of points assigned to g |
| `Reduction.SeqSumIncrement` | computeMeans.c:100 | incrementing one counter by one increments the total of the counters by one |
| `Reduction.CountsSumToN` | computeMeans.c:92-101 | the accumulation increases the total of the counters by exactly n, one per point |
| `Reduction.NormalizedAt` | computeMeans.c:102-104 | after normalising the first g groups, entry (j, h) is divided by counter h when h < g and unchanged otherwise |
| `Reduction.CentroidAt` | computeMeans.c:89-104 | entry (j, g) of the result of both loops on zeroed buffers is `Mean`: the sum of coordinate j over group g's points divided by its count, NaN for an empty group |
| `Reduction.CentroidsAreMeans` | computeMeans.c:89-104 | the result of both loops on zeroed buffers is the centroid matrix: p*k entries, each the `Mean` of its coordinate over its group |
| `ComputeMeans.AccessesInBounds` | computeMeans.c:95-100 | when every group number lies in [0, k), every read `X[i*p+j]` lies in `[0, p*n)`, every write `means[indices[i]*p+j]` in `[0, p*k)` and every counter write in `[0, k)` |
| `ComputeMeans.Daxpy` | computeMeans.c:95 | `y[yoff+t] += alpha * x[xoff+t]` for t < len, with every other entry of y unchanged and x only read |
| `ComputeMeans.AddColumn` | computeMeans.c:97-98 | the p coordinates of a point are added into its group's column, every other entry unchanged |
| `ComputeMeans.AddPoint` | computeMeans.c:94-100 | processing point i adds its column into column `indices[i]` of means and increments counter `indices[i]` on either branch of the BLAS switch; every other entry of means and every other counter is unchanged |
| `ComputeMeans.Accumulate` | computeMeans.c:92-101 | the accumulation loop leaves `means` and `means_size` as `Accumulated` and `Counted` of their initial contents on either branch of the BLAS switch; X and indices are only read |
| `ComputeMeans.Normalize` | computeMeans.c:102-104 | the normalisation loop leaves `means` as `Normalized` of its contents; the counters are only read |
| `ComputeMeans.ComputeMeans` | computeMeans.c:89-104 | the routine returns a fresh p-by-k matrix equal to `Centroids` and satisfying `IsCentroidMatrix`: entry (j, g) is `Mean` of coordinate j over group g (NaN for an empty group); its inputs are not written |

## Left out

- MEX argument handling (computeMeans.c:48-87): the usage message for no
  arguments, the count checks, the shape and INT32 type checks of `indices`,
  and the `mxGet*` accessors. The shape checks amount to the precondition
  `Fits`. The error path of `mexErrMsgIdAndTxt` belongs to the MATLAB
  runtime.
- Out-of-range group numbers: nothing in the source checks that every value
  of `indices` lies in [0, k); such a value makes the routine write outside
  `means` and `means_size` (computeMeans.c:95, 98, 100), which is undefined
  behaviour. The model rules this behaviour out by the precondition `InRange`
  and does not describe it.
- The conversion of `k` from a double scalar (computeMeans.c:69): `k` is a
  natural number parameter.
- ComputeMeans.Daxpy: the body of the BLAS routine is a foreign call. It is modelled as
  the loop it performs, for the unit strides the routine passes
  (computeMeans.c:44, 95); other strides are not modelled.
- IEEE 754 rounding: finite values are exact reals, so summation-order error
  is not modelled. Input coordinates are finite; NaN or infinite entries of X
  are not modelled. Division of a count-0 group yields NaN exactly as in the
  source. Infinities appear only in `DivCount`, for a non-zero value over a
  zero count, which `EmptyGroupSum` shows cannot happen here.
- Machine integer widths: `mwSize` counters and the `size_t` index products
  are unbounded naturals. A counter is at most n (`Groups.Count`), and every
  index is below the buffer length (`ComputeMeans.AccessesInBounds`), so no
  width is exceeded. A negative group number, which C would convert to a huge
  `size_t`, is excluded by `InRange`.
- Memory management: the allocation of `means_size` is neither checked for
  failure nor freed (computeMeans.c:91). The model allocates it as a local
  array.
- Groups.SwapPreservesMean: reordering is stated for the exchange of two
  neighbouring points and their group numbers. An arbitrary permutation is a
  composition of such exchanges, but the model does not state it in one lemma.
