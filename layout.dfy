/** Column-major flat buffers. A matrix with p rows stores column c in the
    p entries starting at c * p; entry (r, c) is at c * p + r. Both the point
    matrix X (one column per point) and the centroid matrix (one column per
    group) use this layout. */
module Layout {

  /** Column c of a p-row matrix with `cols` columns lies inside the buffer. */
  lemma {:induction false} ColumnInBounds(c: int, cols: int, p: nat)
    requires 0 <= c < cols
    ensures 0 <= c * p
    ensures c * p + p <= cols * p
    decreases cols - c
  {
    if c + 1 < cols {
      ColumnInBounds(c + 1, cols, p);
    }
    assert (c + 1) * p == c * p + p;
  }

  /** Entry (r, c) of a p-row matrix with `cols` columns lies inside the buffer. */
  lemma CellInBounds(c: int, r: int, cols: int, p: nat)
    requires 0 <= c < cols && 0 <= r < p
    ensures 0 <= c * p + r < cols * p
  {
    ColumnInBounds(c, cols, p);
  }

  /** Entry (r, c) lies in the slice of column h exactly when c is h: columns
      do not overlap. */
  lemma CellInColumn(c: int, r: int, h: int, p: nat)
    requires 0 <= c && 0 <= h && 0 <= r < p
    ensures h * p <= c * p + r < h * p + p <==> c == h
  {
    if c < h {
      ColumnInBounds(c, h, p);
    } else if h < c {
      ColumnInBounds(h, c, p);
    }
  }
}
