/**
 * The sample mesh and stripe image of the 2D testbed (Testbed2DApp2/Window1.xaml.cs).
 * An nrows x ncols grid of vertices is stored row-major through vectorIndex; the
 * edges are every horizontal neighbour pair, row by row, followed by every vertical
 * neighbour pair, column by column. The source builds the 4 x 6 instance; the model
 * builds any grid and proves the instance's counts. Vertex coordinates (doubles with
 * a sine offset) are replaced by the grid site each vertex stands for.
 */
module GridMesh {
  import opened Wrappers
  import opened Bytes
  import opened Arith
  import GImage

  /**
   * The position of grid vertex (row, col) in the row-major vertex array. Within a row
   * of ncols vertices, the row and column come back as the quotient and remainder.
   */
  function VectorIndex(row: nat, col: nat, ncols: nat): (i: nat)
    ensures col < ncols ==> i / ncols == row && i % ncols == col
  {
    var i := col + row * ncols;
    if col < ncols then IndexDivMod(row, col, ncols); i else i
  }

  lemma IndexDivMod(row: nat, col: nat, ncols: nat)
    requires col < ncols
    ensures (col + row * ncols) / ncols == row && (col + row * ncols) % ncols == col
  {
    var i := col + row * ncols;
    var q, r := i / ncols, i % ncols;
    assert i == q * ncols + r && 0 <= r < ncols;
    if q < row {
      MulStep(q, row, ncols);
    } else if row < q {
      MulStep(row, q, ncols);
    }
    assert q == row;
  }

  /** The grid site a vertex stands for. */
  datatype Site = Site(row: nat, col: nat)

  /** One mesh edge: the pair edges[i, 0], edges[i, 1] of vertex indices. */
  datatype Edge = Edge(start: nat, end: nat)

  /**
   * The arguments of the Mesh constructor: a vertex count, an edge count, the vertex
   * array (None is a slot the generator never wrote) and the edge pairs.
   */
  datatype Mesh = Mesh(nverts: nat, nedges: nat, vertices: seq<Option<Site>>, edges: seq<Edge>)

  /**
   * What the Mesh constructor asks of its arguments: nedges edges, at least nverts
   * vertices, and every endpoint an index below nverts.
   */
  predicate MeshValid(m: Mesh)
  {
    && |m.edges| == m.nedges
    && m.nverts <= |m.vertices|
    && forall i :: 0 <= i < |m.edges| ==> m.edges[i].start < m.nverts && m.edges[i].end < m.nverts
  }

  /** n - 1, or 0 when n is 0: the iteration count of a loop `for (i = 0; i < n - 1; i++)`. */
  function Pred(n: nat): nat
  {
    if n == 0 then 0 else n - 1
  }

  // ------------------------------------------------------------ vectorIndex

  /** A site of an nrows x ncols grid has an index below nrows * ncols. */
  lemma VectorIndexBound(row: nat, col: nat, nrows: nat, ncols: nat)
    requires row < nrows && col < ncols
    ensures VectorIndex(row, col, ncols) < nrows * ncols
  {
    MulStep(row, nrows, ncols);
  }

  /** Distinct sites have distinct indices. */
  lemma {:induction false} VectorIndexInjective(row: nat, col: nat, row': nat, col': nat, ncols: nat)
    requires col < ncols && col' < ncols
    requires VectorIndex(row, col, ncols) == VectorIndex(row', col', ncols)
    ensures row == row' && col == col'
  {
    if row > 0 && row' > 0 {
      assert row * ncols == (row - 1) * ncols + ncols;
      assert row' * ncols == (row' - 1) * ncols + ncols;
      VectorIndexInjective(row - 1, col, row' - 1, col', ncols);
    } else if row > 0 {
      MulStep(0, row, ncols);
      assert false;
    } else if row' > 0 {
      MulStep(0, row', ncols);
      assert false;
    }
  }

  /** Every index below nrows * ncols is the index of some site: vectorIndex is onto. */
  lemma {:induction false} VectorIndexCover(i: nat, nrows: nat, ncols: nat) returns (row: nat, col: nat)
    requires i < nrows * ncols
    ensures row < nrows && col < ncols && VectorIndex(row, col, ncols) == i
  {
    assert nrows * ncols == (nrows - 1) * ncols + ncols;
    if i < ncols {
      row, col := 0, i;
    } else {
      var r;
      r, col := VectorIndexCover(i - ncols, nrows - 1, ncols);
      row := r + 1;
      assert row * ncols == r * ncols + ncols;
    }
  }

  // ---------------------------------------------------------------- vertices

  /** Slot vectorIndex(y, x) exists and holds site (y, x). */
  predicate HoldsSite(verts: seq<Option<Site>>, y: nat, x: nat, ncols: nat)
  {
    VectorIndex(y, x, ncols) < |verts| && verts[VectorIndex(y, x, ncols)] == Some(Site(y, x))
  }

  /**
   * The vertex loop: vertex (y, x) is stored at vectorIndex(y, x) of an array of
   * nrows * ncols slots.
   */
  method PlaceVertices(nrows: nat, ncols: nat) returns (verts: seq<Option<Site>>)
    ensures |verts| == nrows * ncols
    ensures forall y, x :: 0 <= y < nrows && 0 <= x < ncols ==> HoldsSite(verts, y, x, ncols)
  {
    verts := seq(nrows * ncols, _ => None);
    var y := 0;
    while y < nrows
      invariant y <= nrows && |verts| == nrows * ncols
      invariant forall y', x' :: 0 <= y' < y && 0 <= x' < ncols ==> HoldsSite(verts, y', x', ncols)
    {
      var x := 0;
      while x < ncols
        invariant x <= ncols && |verts| == nrows * ncols
        invariant forall y', x' :: 0 <= y' < y && 0 <= x' < ncols ==> HoldsSite(verts, y', x', ncols)
        invariant forall x' :: 0 <= x' < x ==> HoldsSite(verts, y, x', ncols)
      {
        VectorIndexBound(y, x, nrows, ncols);
        ghost var before := verts;
        verts := verts[VectorIndex(y, x, ncols) := Some(Site(y, x))];
        forall y', x' | 0 <= y' < y && 0 <= x' < ncols
          ensures HoldsSite(verts, y', x', ncols)
        {
          assert HoldsSite(before, y', x', ncols);
          if VectorIndex(y', x', ncols) == VectorIndex(y, x, ncols) {
            VectorIndexInjective(y', x', y, x, ncols);
          }
        }
        forall x' | 0 <= x' < x
          ensures HoldsSite(verts, y, x', ncols)
        {
          assert HoldsSite(before, y, x', ncols);
          assert VectorIndex(y, x', ncols) < VectorIndex(y, x, ncols);
        }
        x := x + 1;
      }
      y := y + 1;
    }
  }

  /** Every slot of the vertex array is written, with the site whose index it is. */
  lemma VerticesComplete(nrows: nat, ncols: nat, verts: seq<Option<Site>>)
    requires |verts| == nrows * ncols
    requires forall y, x :: 0 <= y < nrows && 0 <= x < ncols ==> HoldsSite(verts, y, x, ncols)
    ensures forall i :: 0 <= i < |verts| ==> verts[i].Some? && VectorIndex(verts[i].value.row, verts[i].value.col, ncols) == i
  {
    forall i | 0 <= i < |verts|
      ensures verts[i].Some? && VectorIndex(verts[i].value.row, verts[i].value.col, ncols) == i
    {
      var y, x := VectorIndexCover(i, nrows, ncols);
      assert HoldsSite(verts, y, x, ncols);
    }
  }

  // ------------------------------------------------------------------- edges

  /** The first n horizontal edges of row y: (y, x) to (y, x + 1) for x < n. */
  function HRow(y: nat, n: nat, ncols: nat): (r: seq<Edge>)
    ensures |r| == n
  {
    seq(n, x requires 0 <= x < n => Edge(VectorIndex(y, x, ncols), VectorIndex(y, x + 1, ncols)))
  }

  /** The horizontal edges of the first n rows, in loop order. */
  function HRows(n: nat, ncols: nat): seq<Edge>
  {
    if n == 0 then [] else HRows(n - 1, ncols) + HRow(n - 1, Pred(ncols), ncols)
  }

  /** The first n vertical edges of column x: (y, x) to (y + 1, x) for y < n. */
  function VCol(x: nat, n: nat, ncols: nat): (r: seq<Edge>)
    ensures |r| == n
  {
    seq(n, y requires 0 <= y < n => Edge(VectorIndex(y, x, ncols), VectorIndex(y + 1, x, ncols)))
  }

  /** The vertical edges of the first m columns, in loop order. */
  function VCols(m: nat, nrows: nat, ncols: nat): seq<Edge>
  {
    if m == 0 then [] else VCols(m - 1, nrows, ncols) + VCol(m - 1, Pred(nrows), ncols)
  }

  /** The edge list of an nrows x ncols grid: all horizontal edges, then all vertical ones. */
  function GridEdges(nrows: nat, ncols: nat): seq<Edge>
  {
    HRows(nrows, ncols) + VCols(ncols, nrows, ncols)
  }

  /** Concatenation regroups. */
  lemma AppendAssoc(a: seq<Edge>, b: seq<Edge>, c: seq<Edge>)
    ensures a + b + c == a + (b + c)
  {
  }

  /**
   * The inner loop of the first pass: the horizontal edges of row y are written at
   * positions count, count + 1, ...
   */
  method AppendRow(edges: seq<Edge>, count: nat, y: nat, ncols: nat) returns (edges': seq<Edge>, count': nat)
    requires count == |edges|
    ensures count' == |edges'|
    ensures edges' == edges + HRow(y, Pred(ncols), ncols)
  {
    edges', count' := edges, count;
    var x := 0;
    while x < Pred(ncols)
      invariant x <= Pred(ncols) && count' == |edges'|
      invariant edges' == edges + HRow(y, x, ncols)
    {
      var e := Edge(VectorIndex(y, x, ncols), VectorIndex(y, x + 1, ncols));
      AppendAssoc(edges, HRow(y, x, ncols), [e]);
      assert HRow(y, x + 1, ncols) == HRow(y, x, ncols) + [e];
      edges' := edges' + [e];
      count' := count' + 1;
      x := x + 1;
    }
  }

  /**
   * The inner loop of the second pass: the vertical edges of column x are written
   * at positions count, count + 1, ...
   */
  method AppendColumn(edges: seq<Edge>, count: nat, x: nat, nrows: nat, ncols: nat) returns (edges': seq<Edge>, count': nat)
    requires count == |edges|
    ensures count' == |edges'|
    ensures edges' == edges + VCol(x, Pred(nrows), ncols)
  {
    edges', count' := edges, count;
    var y := 0;
    while y < Pred(nrows)
      invariant y <= Pred(nrows) && count' == |edges'|
      invariant edges' == edges + VCol(x, y, ncols)
    {
      var e := Edge(VectorIndex(y, x, ncols), VectorIndex(y + 1, x, ncols));
      AppendAssoc(edges, VCol(x, y, ncols), [e]);
      assert VCol(x, y + 1, ncols) == VCol(x, y, ncols) + [e];
      edges' := edges' + [e];
      count' := count' + 1;
      y := y + 1;
    }
  }

  /**
   * The two edge loops of createSampleMesh: every horizontal edge row by row, then
   * every vertical edge column by column, count advancing with each pair written.
   */
  method BuildEdges(nrows: nat, ncols: nat) returns (edges: seq<Edge>, count: nat)
    ensures count == |edges|
    ensures edges == GridEdges(nrows, ncols)
  {
    edges, count := [], 0;
    var y := 0;
    while y < nrows
      invariant y <= nrows && count == |edges|
      invariant edges == HRows(y, ncols)
    {
      edges, count := AppendRow(edges, count, y, ncols);
      y := y + 1;
    }
    var x := 0;
    while x < ncols
      invariant x <= ncols && count == |edges|
      invariant edges == HRows(nrows, ncols) + VCols(x, nrows, ncols)
    {
      AppendAssoc(HRows(nrows, ncols), VCols(x, nrows, ncols), VCol(x, Pred(nrows), ncols));
      edges, count := AppendColumn(edges, count, x, nrows, ncols);
      x := x + 1;
    }
  }

  /** n rows hold n * (ncols - 1) horizontal edges. */
  lemma {:induction false} HRowsLength(n: nat, ncols: nat)
    ensures |HRows(n, ncols)| == n * Pred(ncols)
  {
    if n > 0 {
      HRowsLength(n - 1, ncols);
    }
  }

  /** m columns hold m * (nrows - 1) vertical edges. */
  lemma {:induction false} VColsLength(m: nat, nrows: nat, ncols: nat)
    ensures |VCols(m, nrows, ncols)| == m * Pred(nrows)
  {
    if m > 0 {
      VColsLength(m - 1, nrows, ncols);
    }
  }

  /** The loops fill exactly nedges = nrows * (ncols - 1) + ncols * (nrows - 1) entries. */
  lemma EdgeCount(nrows: nat, ncols: nat)
    requires nrows >= 1 && ncols >= 1
    ensures |GridEdges(nrows, ncols)| == nrows * (ncols - 1) + ncols * (nrows - 1)
  {
    HRowsLength(nrows, ncols);
    VColsLength(ncols, nrows, ncols);
  }

  /** Every horizontal position holds the edge of one site and its right neighbour. */
  lemma {:induction false} HRowsShape(n: nat, ncols: nat, k: nat) returns (y: nat, x: nat)
    requires k < |HRows(n, ncols)|
    ensures y < n && x + 1 < ncols && k == |HRows(y, ncols)| + x
    ensures HRows(n, ncols)[k] == Edge(VectorIndex(y, x, ncols), VectorIndex(y, x + 1, ncols))
  {
    var a := HRows(n - 1, ncols);
    if k < |a| {
      y, x := HRowsShape(n - 1, ncols, k);
    } else {
      y, x := n - 1, k - |a|;
    }
  }

  /** Every vertical position holds the edge of one site and the site below it. */
  lemma {:induction false} VColsShape(m: nat, nrows: nat, ncols: nat, k: nat) returns (y: nat, x: nat)
    requires k < |VCols(m, nrows, ncols)|
    ensures x < m && y + 1 < nrows && k == |VCols(x, nrows, ncols)| + y
    ensures VCols(m, nrows, ncols)[k] == Edge(VectorIndex(y, x, ncols), VectorIndex(y + 1, x, ncols))
  {
    var a := VCols(m - 1, nrows, ncols);
    if k < |a| {
      y, x := VColsShape(m - 1, nrows, ncols, k);
    } else {
      y, x := k - |a|, m - 1;
    }
  }

  /** Rows before row n are a prefix of the horizontal edges of n rows. */
  lemma {:induction false} HRowsPrefix(y: nat, n: nat, ncols: nat, k: nat)
    requires y <= n && k < |HRows(y, ncols)|
    ensures k < |HRows(n, ncols)| && HRows(n, ncols)[k] == HRows(y, ncols)[k]
  {
    if y < n {
      HRowsPrefix(y, n - 1, ncols, k);
    }
  }

  /** Columns before column m are a prefix of the vertical edges of m columns. */
  lemma {:induction false} VColsPrefix(x: nat, m: nat, nrows: nat, ncols: nat, k: nat)
    requires x <= m && k < |VCols(x, nrows, ncols)|
    ensures k < |VCols(m, nrows, ncols)| && VCols(m, nrows, ncols)[k] == VCols(x, nrows, ncols)[k]
  {
    if x < m {
      VColsPrefix(x, m - 1, nrows, ncols, k);
    }
  }

  /** Each horizontal neighbour pair of the grid is an edge, at position |HRows(y)| + x. */
  lemma HorizontalEdgePresent(nrows: nat, ncols: nat, y: nat, x: nat)
    requires y < nrows && x + 1 < ncols
    ensures |HRows(y, ncols)| + x < |GridEdges(nrows, ncols)|
    ensures GridEdges(nrows, ncols)[|HRows(y, ncols)| + x] == Edge(VectorIndex(y, x, ncols), VectorIndex(y, x + 1, ncols))
  {
    var a, b := HRows(y, ncols), HRow(y, Pred(ncols), ncols);
    assert HRows(y + 1, ncols) == a + b;
    assert (a + b)[|a| + x] == b[x];
    HRowsPrefix(y + 1, nrows, ncols, |a| + x);
    var h, v := HRows(nrows, ncols), VCols(ncols, nrows, ncols);
    assert GridEdges(nrows, ncols) == h + v;
    assert (h + v)[|a| + x] == h[|a| + x];
  }

  /** Each vertical neighbour pair of the grid is an edge, after all horizontal ones. */
  lemma VerticalEdgePresent(nrows: nat, ncols: nat, y: nat, x: nat)
    requires y + 1 < nrows && x < ncols
    ensures |HRows(nrows, ncols)| + |VCols(x, nrows, ncols)| + y < |GridEdges(nrows, ncols)|
    ensures GridEdges(nrows, ncols)[|HRows(nrows, ncols)| + |VCols(x, nrows, ncols)| + y]
         == Edge(VectorIndex(y, x, ncols), VectorIndex(y + 1, x, ncols))
  {
    var a, b := VCols(x, nrows, ncols), VCol(x, Pred(nrows), ncols);
    assert VCols(x + 1, nrows, ncols) == a + b;
    assert (a + b)[|a| + y] == b[y];
    VColsPrefix(x + 1, ncols, nrows, ncols, |a| + y);
    var h, v := HRows(nrows, ncols), VCols(ncols, nrows, ncols);
    assert GridEdges(nrows, ncols) == h + v;
    assert (h + v)[|h| + (|a| + y)] == v[|a| + y];
  }

  /**
   * Every edge joins grid neighbours: the horizontal ones come first and join a site
   * to the next index in its row; the vertical ones join a site to the index ncols
   * further on, in its column.
   */
  lemma EdgeShape(nrows: nat, ncols: nat, k: nat) returns (y: nat, x: nat, horizontal: bool)
    requires k < |GridEdges(nrows, ncols)|
    ensures horizontal <==> k < |HRows(nrows, ncols)|
    ensures var e := GridEdges(nrows, ncols)[k];
      if horizontal then
        && y < nrows && x + 1 < ncols
        && e == Edge(VectorIndex(y, x, ncols), VectorIndex(y, x + 1, ncols))
        && e.end == e.start + 1
        && k == |HRows(y, ncols)| + x
      else
        && y + 1 < nrows && x < ncols
        && e == Edge(VectorIndex(y, x, ncols), VectorIndex(y + 1, x, ncols))
        && e.end == e.start + ncols
        && k == |HRows(nrows, ncols)| + |VCols(x, nrows, ncols)| + y
  {
    var h := HRows(nrows, ncols);
    horizontal := k < |h|;
    if horizontal {
      y, x := HRowsShape(nrows, ncols, k);
    } else {
      y, x := VColsShape(ncols, nrows, ncols, k - |h|);
    }
  }

  /** Every endpoint is a vertex index: the edges meet the Mesh constructor's precondition. */
  lemma EdgesInRange(nrows: nat, ncols: nat)
    ensures forall k :: 0 <= k < |GridEdges(nrows, ncols)| ==>
      GridEdges(nrows, ncols)[k].start < nrows * ncols && GridEdges(nrows, ncols)[k].end < nrows * ncols
  {
    forall k | 0 <= k < |GridEdges(nrows, ncols)|
      ensures GridEdges(nrows, ncols)[k].start < nrows * ncols && GridEdges(nrows, ncols)[k].end < nrows * ncols
    {
      var y, x, horizontal := EdgeShape(nrows, ncols, k);
      if horizontal {
        VectorIndexBound(y, x + 1, nrows, ncols);
      } else {
        VectorIndexBound(y + 1, x, nrows, ncols);
      }
    }
  }

  /** No edge joins a vertex to itself. */
  lemma NoSelfLoops(nrows: nat, ncols: nat)
    ensures forall k :: 0 <= k < |GridEdges(nrows, ncols)| ==> GridEdges(nrows, ncols)[k].start < GridEdges(nrows, ncols)[k].end
  {
    forall k | 0 <= k < |GridEdges(nrows, ncols)|
      ensures GridEdges(nrows, ncols)[k].start < GridEdges(nrows, ncols)[k].end
    {
      var y, x, horizontal := EdgeShape(nrows, ncols, k);
    }
  }

  /** Two positions holding the same edge are the same position. */
  lemma EdgeAtMostOnce(nrows: nat, ncols: nat, k1: nat, k2: nat)
    requires k1 < |GridEdges(nrows, ncols)| && k2 < |GridEdges(nrows, ncols)|
    requires GridEdges(nrows, ncols)[k1] == GridEdges(nrows, ncols)[k2]
    ensures k1 == k2
  {
    var y1, x1, h1 := EdgeShape(nrows, ncols, k1);
    var y2, x2, h2 := EdgeShape(nrows, ncols, k2);
    if h1 && h2 {
      VectorIndexInjective(y1, x1, y2, x2, ncols);
    } else if !h1 && !h2 {
      VectorIndexInjective(y1, x1, y2, x2, ncols);
    }
  }

  /** No edge appears twice. */
  lemma NoDuplicateEdges(nrows: nat, ncols: nat)
    ensures forall k1, k2 :: 0 <= k1 < k2 < |GridEdges(nrows, ncols)| ==> GridEdges(nrows, ncols)[k1] != GridEdges(nrows, ncols)[k2]
  {
    forall k1, k2 | 0 <= k1 < k2 < |GridEdges(nrows, ncols)|
      ensures GridEdges(nrows, ncols)[k1] != GridEdges(nrows, ncols)[k2]
    {
      if GridEdges(nrows, ncols)[k1] == GridEdges(nrows, ncols)[k2] {
        EdgeAtMostOnce(nrows, ncols, k1, k2);
      }
    }
  }

  /**
   * Edge e of a mesh joins two grid neighbours: its endpoints hold sites, and the end's
   * site is one step right of or one step below the start's.
   */
  predicate JoinsNeighbors(verts: seq<Option<Site>>, e: Edge)
  {
    && e.start < |verts| && e.end < |verts| && verts[e.start].Some? && verts[e.end].Some?
    && var a, b := verts[e.start].value, verts[e.end].value;
       (a.row == b.row && a.col + 1 == b.col) || (a.col == b.col && a.row + 1 == b.row)
  }

  /** Every edge of the grid joins the sites its endpoints hold, one step apart. */
  lemma EdgesJoinNeighbors(nrows: nat, ncols: nat, verts: seq<Option<Site>>)
    requires |verts| == nrows * ncols
    requires forall y, x :: 0 <= y < nrows && 0 <= x < ncols ==> HoldsSite(verts, y, x, ncols)
    ensures forall k :: 0 <= k < |GridEdges(nrows, ncols)| ==> JoinsNeighbors(verts, GridEdges(nrows, ncols)[k])
  {
    forall k | 0 <= k < |GridEdges(nrows, ncols)|
      ensures JoinsNeighbors(verts, GridEdges(nrows, ncols)[k])
    {
      var y, x, horizontal := EdgeShape(nrows, ncols, k);
      if horizontal {
        assert HoldsSite(verts, y, x, ncols) && HoldsSite(verts, y, x + 1, ncols);
      } else {
        assert HoldsSite(verts, y, x, ncols) && HoldsSite(verts, y + 1, x, ncols);
      }
    }
  }

  /** Every pair of horizontally or vertically adjacent grid points is joined by some edge. */
  lemma NeighborsJoined(nrows: nat, ncols: nat)
    ensures forall y: nat, x: nat :: y < nrows && x + 1 < ncols ==>
      Edge(VectorIndex(y, x, ncols), VectorIndex(y, x + 1, ncols)) in GridEdges(nrows, ncols)
    ensures forall y: nat, x: nat :: y + 1 < nrows && x < ncols ==>
      Edge(VectorIndex(y, x, ncols), VectorIndex(y + 1, x, ncols)) in GridEdges(nrows, ncols)
  {
    forall y: nat, x: nat | y < nrows && x + 1 < ncols
      ensures Edge(VectorIndex(y, x, ncols), VectorIndex(y, x + 1, ncols)) in GridEdges(nrows, ncols)
    {
      HorizontalEdgePresent(nrows, ncols, y, x);
    }
    forall y: nat, x: nat | y + 1 < nrows && x < ncols
      ensures Edge(VectorIndex(y, x, ncols), VectorIndex(y + 1, x, ncols)) in GridEdges(nrows, ncols)
    {
      VerticalEdgePresent(nrows, ncols, y, x);
    }
  }

  /**
   * The body of createSampleMesh for an nrows x ncols grid: the vertices, the edges,
   * and the Mesh constructor's arguments with count as the edge count. The mesh's
   * edges are exactly the grid's: every edge joins two neighbouring sites, every pair
   * of neighbours is joined, and no edge is a loop or appears twice.
   */
  method CreateGridMesh(nrows: nat, ncols: nat) returns (m: Mesh)
    requires nrows >= 1 && ncols >= 1
    ensures m.nverts == nrows * ncols
    ensures m.nedges == nrows * (ncols - 1) + ncols * (nrows - 1)
    ensures MeshValid(m)
    ensures |m.vertices| == m.nverts
    ensures forall y, x :: 0 <= y < nrows && 0 <= x < ncols ==> HoldsSite(m.vertices, y, x, ncols)
    ensures forall i :: 0 <= i < m.nverts ==> m.vertices[i].Some?
    ensures m.edges == GridEdges(nrows, ncols)
    ensures forall k :: 0 <= k < |m.edges| ==> JoinsNeighbors(m.vertices, m.edges[k])
    ensures forall y: nat, x: nat :: y < nrows && x + 1 < ncols ==>
      Edge(VectorIndex(y, x, ncols), VectorIndex(y, x + 1, ncols)) in m.edges
    ensures forall y: nat, x: nat :: y + 1 < nrows && x < ncols ==>
      Edge(VectorIndex(y, x, ncols), VectorIndex(y + 1, x, ncols)) in m.edges
    ensures forall k :: 0 <= k < |m.edges| ==> m.edges[k].start < m.edges[k].end
    ensures forall k1, k2 :: 0 <= k1 < k2 < |m.edges| ==> m.edges[k1] != m.edges[k2]
  {
    var nverts := nrows * ncols;
    var verts := PlaceVertices(nrows, ncols);
    VerticesComplete(nrows, ncols, verts);
    var edges, count := BuildEdges(nrows, ncols);
    EdgeCount(nrows, ncols);
    EdgesInRange(nrows, ncols);
    EdgesJoinNeighbors(nrows, ncols, verts);
    NeighborsJoined(nrows, ncols);
    NoSelfLoops(nrows, ncols);
    NoDuplicateEdges(nrows, ncols);
    m := Mesh(nverts, count, verts, edges);
  }

  /** The size of the sample grid. */
  const SampleRows: nat := 4
  const SampleCols: nat := 6

  /**
   * createSampleMesh: the 4 x 6 grid has 24 vertices and 38 edges, and they are the
   * grid's edges, each joining two neighbouring sites.
   */
  method CreateSampleMesh() returns (m: Mesh)
    ensures m.nverts == 24 && m.nedges == 38
    ensures MeshValid(m)
    ensures forall y, x :: 0 <= y < SampleRows && 0 <= x < SampleCols ==> HoldsSite(m.vertices, y, x, SampleCols)
    ensures m.edges == GridEdges(SampleRows, SampleCols)
    ensures forall k :: 0 <= k < |m.edges| ==> JoinsNeighbors(m.vertices, m.edges[k])
    ensures forall k1, k2 :: 0 <= k1 < k2 < |m.edges| ==> m.edges[k1] != m.edges[k2]
  {
    m := CreateGridMesh(SampleRows, SampleCols);
  }

  // ------------------------------------------------------------ stripe image

  const StripeSize: nat := 128

  /**
   * createStripeImageArray: a 128 x 128 x 4 array indexed [x, y, channel] whose
   * pixel (x, y) is gray level shade(x, y) with full alpha. The shade, a rounded
   * double cast to a byte, is a parameter.
   */
  function StripeImage(shade: (nat, nat) -> byte): (a: GImage.Array3)
    ensures a.Valid() && a.rows == StripeSize && a.cols == StripeSize && a.depth == 4
    ensures forall x, y :: 0 <= x < StripeSize && 0 <= y < StripeSize ==>
      a.cells[x][y][0] == a.cells[x][y][1] == a.cells[x][y][2] == shade(x, y) && a.cells[x][y][3] == 255
  {
    GImage.Array3(StripeSize, StripeSize, 4,
      seq(StripeSize, x requires 0 <= x < StripeSize =>
        seq(StripeSize, y requires 0 <= y < StripeSize =>
          [shade(x, y), shade(x, y), shade(x, y), 255])))
  }

  /**
   * The stripe array is accepted by the GImage constructor, and the bitmap made from
   * it gives the same array back.
   */
  lemma StripeImagePacks(shade: (nat, nat) -> byte)
    ensures GImage.FromPixelArray(StripeImage(shade)).Success?
    ensures GImage.GetPixelArray(GImage.FromPixelArray(StripeImage(shade)).value) == StripeImage(shade)
  {
    GImage.UnpackPack(StripeImage(shade));
  }
}
