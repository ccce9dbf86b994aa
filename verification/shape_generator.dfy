/**
 * The mesh layouts of ShapeGenerator (Testbed3D/ShapeGenerator.cs): the grid of
 * vertices and the triangle index list of the tessellated unit sphere, and the
 * quad and cube meshes. Sphere vertex coordinates come from sines and cosines and
 * are represented here by the grid point (tStep, pStep) that produced them; cube
 * corners are exact, written in half units so that -0.5 and 0.5 become -1 and 1.
 */
module ShapeGenerator {
  import opened Wrappers
  import opened Arith

  // ---------------------------------------------------------------- sphere

  /** The vertex generated at step tStep around the sphere and step pStep from top to bottom. */
  datatype GridPoint = GridPoint(t: nat, p: nat)

  /** An exact quotient num / den (a texture coordinate). */
  datatype Ratio = Ratio(num: nat, den: nat)

  datatype TexCoord = TexCoord(u: Ratio, v: Ratio)

  /**
   * The mesh GenerateUnitSphere builds: one position, one normal (the same vector)
   * and one texture coordinate per grid point, and the triangle index list.
   */
  datatype SphereMesh = SphereMesh(
    positions: seq<GridPoint>,
    normals: seq<GridPoint>,
    texCoords: seq<TexCoord>,
    indices: seq<int>)

  /** Position of the first vertex of row t: the t rows before it hold phiSteps vertices each. */
  function RowStart(t: nat, phiSteps: nat): nat
  {
    if t == 0 then 0 else RowStart(t - 1, phiSteps) + phiSteps
  }

  /** RowStart is the product tStep * phiSteps the source computes. */
  lemma {:induction false} RowStartIsProduct(t: nat, phiSteps: nat)
    ensures RowStart(t, phiSteps) == t * phiSteps
  {
    if t > 0 {
      RowStartIsProduct(t - 1, phiSteps);
    }
  }

  /** Position of grid point (t, p) in the vertex lists: pStep + tStep * phiSteps, the topLeft index of its cell. */
  function GridIndex(t: nat, p: nat, phiSteps: nat): nat
  {
    p + RowStart(t, phiSteps)
  }

  /** The vertices of rows tStep = 0 .. n-1, each of phiSteps points, in the order the loops add them. */
  function PointRows(n: nat, phiSteps: nat): (r: seq<GridPoint>)
    ensures |r| == RowStart(n, phiSteps)
  {
    if n == 0 then []
    else PointRows(n - 1, phiSteps) + seq(phiSteps, p requires 0 <= p < phiSteps => GridPoint(n - 1, p))
  }

  /** The texture coordinate of a grid point: (tStep / thetaSteps, pStep / (phiSteps - 1)). */
  function TexOf(g: GridPoint, thetaSteps: nat, phiSteps: nat): TexCoord
    requires phiSteps >= 1
  {
    TexCoord(Ratio(g.t, thetaSteps), Ratio(g.p, phiSteps - 1))
  }

  /** The six indices of cell (t, p): triangles (botLeft, topLeft, botRight) and (botRight, topLeft, topRight). */
  function CellIndices(t: nat, p: nat, phiSteps: nat): (r: seq<int>)
    ensures |r| == 6
  {
    var topLeft := GridIndex(t, p, phiSteps);
    var botLeft := topLeft + 1;
    var topRight := topLeft + phiSteps;
    var botRight := topRight + 1;
    [botLeft, topLeft, botRight, botRight, topLeft, topRight]
  }

  /** The indices of cells 0 .. m-1 of row t, in the order the inner loop adds them. */
  function TriangleRow(t: nat, m: nat, phiSteps: nat): (r: seq<int>)
    requires m < phiSteps
    ensures |r| == 6 * m
  {
    seq(6 * m, i requires 0 <= i < 6 * m => CellIndices(t, i / 6, phiSteps)[i % 6])
  }

  /** The indices of all cells of rows 0 .. n-1, two triangles per cell. */
  function Triangles(n: nat, phiSteps: nat): seq<int>
    requires phiSteps >= 1
  {
    if n == 0 then [] else Triangles(n - 1, phiSteps) + TriangleRow(n - 1, phiSteps - 1, phiSteps)
  }

  /** Rows 0 .. n-1 hold 6 * (phiSteps - 1) indices each. */
  lemma {:induction false} TrianglesLength(n: nat, phiSteps: nat)
    requires phiSteps >= 1
    ensures |Triangles(n, phiSteps)| == 6 * n * (phiSteps - 1)
  {
    if n > 0 {
      TrianglesLength(n - 1, phiSteps);
      assert 6 * n * (phiSteps - 1) == 6 * (n - 1) * (phiSteps - 1) + 6 * (phiSteps - 1);
    }
  }

  /** Every index of row t names a vertex of grid rows t and t + 1, below RowStart(t + 2). */
  lemma TriangleRowInRange(t: nat, m: nat, phiSteps: nat)
    requires m < phiSteps
    ensures forall i :: 0 <= i < |TriangleRow(t, m, phiSteps)| ==> 0 <= TriangleRow(t, m, phiSteps)[i] < RowStart(t + 2, phiSteps)
  {
    assert RowStart(t + 2, phiSteps) == RowStart(t, phiSteps) + 2 * phiSteps;
  }

  /** Every index of rows 0 .. n-1 names one of the RowStart(n + 1) vertices of grid rows 0 .. n. */
  lemma {:induction false} TrianglesInRange(n: nat, phiSteps: nat)
    requires phiSteps >= 1
    ensures forall i :: 0 <= i < |Triangles(n, phiSteps)| ==> 0 <= Triangles(n, phiSteps)[i] < RowStart(n + 1, phiSteps)
  {
    if n > 0 {
      TrianglesInRange(n - 1, phiSteps);
      TriangleRowInRange(n - 1, phiSteps - 1, phiSteps);
    }
  }

  /**
   * GenerateUnitSphere: fewer than three steps in either direction is rejected;
   * otherwise thetaSteps + 1 rows of phiSteps vertices (the seam row is repeated
   * so that texture coordinates reach 1) and two triangles per grid cell.
   */
  function GenerateUnitSphere(thetaSteps: int, phiSteps: int): (r: Result<SphereMesh>)
    ensures r.Failure? <==> thetaSteps < 3 || phiSteps < 3
    ensures r.Failure? ==> r.error == TooFewSteps
    ensures r.Success? ==>
      && |r.value.positions| == (thetaSteps + 1) * phiSteps
      && |r.value.normals| == |r.value.positions|
      && |r.value.texCoords| == |r.value.positions|
      && |r.value.indices| == 6 * thetaSteps * (phiSteps - 1)
    ensures r.Success? ==>
      && (forall i :: 0 <= i < |r.value.indices| ==> 0 <= r.value.indices[i] < |r.value.positions|)
      && |r.value.positions| - 1 in r.value.indices
  {
    if thetaSteps < 3 then Failure(TooFewSteps)
    else if phiSteps < 3 then Failure(TooFewSteps)
    else
      var points := PointRows(thetaSteps + 1, phiSteps);
      RowStartIsProduct(thetaSteps + 1, phiSteps);
      TrianglesLength(thetaSteps, phiSteps);
      TrianglesInRange(thetaSteps, phiSteps);
      LastVertexUsed(thetaSteps, phiSteps);
      Success(SphereMesh(
        points,
        points,
        seq(|points|, i requires 0 <= i < |points| => TexOf(points[i], thetaSteps, phiSteps)),
        Triangles(thetaSteps, phiSteps)))
  }

  /** Grid point (t, p) sits at GridIndex(t, p) of the vertex list. */
  lemma {:induction false} PointAt(n: nat, phiSteps: nat, t: nat, p: nat)
    requires t < n && p < phiSteps
    ensures GridIndex(t, p, phiSteps) < |PointRows(n, phiSteps)|
    ensures PointRows(n, phiSteps)[GridIndex(t, p, phiSteps)] == GridPoint(t, p)
  {
    if t < n - 1 {
      PointAt(n - 1, phiSteps, t, p);
    }
  }

  /** A stretch inside the first part of a concatenation is that stretch of the first part. */
  lemma SliceInFront(a: seq<int>, b: seq<int>, lo: nat, hi: nat)
    requires lo <= hi <= |a|
    ensures (a + b)[lo..hi] == a[lo..hi]
  {
    assert forall k :: lo <= k < hi ==> (a + b)[k] == a[k];
  }

  /** A stretch inside the second part of a concatenation is that stretch of the second part, shifted by |a|. */
  lemma SliceInBack(a: seq<int>, b: seq<int>, lo: nat, hi: nat)
    requires lo <= hi <= |b|
    ensures (a + b)[|a| + lo .. |a| + hi] == b[lo..hi]
  {
    assert forall k :: lo <= k < hi ==> (a + b)[|a| + k] == b[k];
  }

  /** The same as SliceInBack, for a sequence w known to be a + b and a stretch c known to be in b. */
  lemma SliceInBackOf(a: seq<int>, b: seq<int>, w: seq<int>, lo: nat, hi: nat, c: seq<int>)
    requires w == a + b && lo <= hi <= |b| && b[lo..hi] == c
    ensures |a| + hi <= |w| && w[|a| + lo .. |a| + hi] == c
  {
    SliceInBack(a, b, lo, hi);
  }

  /** The six indices of cell p of row t sit at positions 6 * p .. 6 * p + 5 of the row. */
  lemma TriangleRowAt(t: nat, m: nat, phiSteps: nat, p: nat)
    requires m < phiSteps && p < m
    ensures 6 * p + 6 <= |TriangleRow(t, m, phiSteps)|
    ensures TriangleRow(t, m, phiSteps)[6 * p .. 6 * p + 6] == CellIndices(t, p, phiSteps)
  {
    forall j | 0 <= j < 6
      ensures TriangleRow(t, m, phiSteps)[6 * p + j] == CellIndices(t, p, phiSteps)[j]
    {
      assert (6 * p + j) / 6 == p && (6 * p + j) % 6 == j;
    }
  }

  /** The index list of the first m rows is a prefix of that of the first n rows. */
  lemma {:induction false} TrianglesPrefix(m: nat, n: nat, phiSteps: nat)
    requires phiSteps >= 1 && m <= n
    ensures |Triangles(m, phiSteps)| <= |Triangles(n, phiSteps)|
    ensures Triangles(n, phiSteps)[..|Triangles(m, phiSteps)|] == Triangles(m, phiSteps)
  {
    if m < n {
      TrianglesPrefix(m, n - 1, phiSteps);
      var prev := Triangles(n - 1, phiSteps);
      var row := TriangleRow(n - 1, phiSteps - 1, phiSteps);
      TrianglesStep(n - 1, phiSteps);
      SliceInFront(prev, row, 0, |prev|);
      assert prev[0..|prev|] == prev;
    }
  }

  /** A stretch of the first m rows' indices keeps its place in the index list of any n >= m rows. */
  lemma TrianglesPrefixAt(m: nat, n: nat, phiSteps: nat, lo: nat, hi: nat, c: seq<int>)
    requires phiSteps >= 1 && m <= n && lo <= hi <= |Triangles(m, phiSteps)| && Triangles(m, phiSteps)[lo..hi] == c
    ensures hi <= |Triangles(n, phiSteps)| && Triangles(n, phiSteps)[lo..hi] == c
  {
    TrianglesPrefix(m, n, phiSteps);
    assert Triangles(n, phiSteps)[..|Triangles(m, phiSteps)|][lo..hi] == Triangles(n, phiSteps)[lo..hi];
  }

  /** One more row appends that row's cells. */
  lemma TrianglesStep(t: nat, phiSteps: nat)
    requires phiSteps >= 1
    ensures Triangles(t + 1, phiSteps) == Triangles(t, phiSteps) + TriangleRow(t, phiSteps - 1, phiSteps)
  {
  }

  /** The cells of row t follow the indices of rows 0 .. t-1. */
  lemma LastRowAt(t: nat, phiSteps: nat, p: nat)
    requires phiSteps >= 1 && p < phiSteps - 1
    ensures |Triangles(t, phiSteps)| + 6 * p + 6 <= |Triangles(t + 1, phiSteps)|
    ensures Triangles(t + 1, phiSteps)[|Triangles(t, phiSteps)| + 6 * p .. |Triangles(t, phiSteps)| + 6 * p + 6]
         == CellIndices(t, p, phiSteps)
  {
    TrianglesStep(t, phiSteps);
    TriangleRowAt(t, phiSteps - 1, phiSteps, p);
    SliceInBackOf(Triangles(t, phiSteps), TriangleRow(t, phiSteps - 1, phiSteps), Triangles(t + 1, phiSteps),
                  6 * p, 6 * p + 6, CellIndices(t, p, phiSteps));
  }

  /**
   * The six indices of cell (t, p) sit right after the 6 * p indices of the cells
   * before it in row t, which follow the indices of rows 0 .. t-1; by
   * TrianglesLength that is position 6 * (t * (phiSteps - 1) + p).
   */
  lemma TrianglesAt(n: nat, phiSteps: nat, t: nat, p: nat)
    requires phiSteps >= 1 && t < n && p < phiSteps - 1
    ensures |Triangles(t, phiSteps)| + 6 * p + 6 <= |Triangles(n, phiSteps)|
    ensures Triangles(n, phiSteps)[|Triangles(t, phiSteps)| + 6 * p .. |Triangles(t, phiSteps)| + 6 * p + 6]
         == CellIndices(t, p, phiSteps)
  {
    var base := |Triangles(t, phiSteps)| + 6 * p;
    LastRowAt(t, phiSteps, p);
    TrianglesPrefixAt(t + 1, n, phiSteps, base, base + 6, CellIndices(t, p, phiSteps));
  }

  /**
   * The grid-to-index correspondence: the six indices of cell (t, p) sit at CellStart(t, p)
   * of the generated index list, and its four distinct indices name the vertices of grid
   * points (t, p), (t, p + 1), (t + 1, p) and (t + 1, p + 1).
   */
  lemma CellCorners(thetaSteps: nat, phiSteps: nat, t: nat, p: nat)
    requires thetaSteps >= 3 && phiSteps >= 3 && t < thetaSteps && p < phiSteps - 1
    ensures var m := GenerateUnitSphere(thetaSteps, phiSteps).value;
            var k := CellStart(t, p, phiSteps);
            k + 6 <= |m.indices| && m.indices[k..k + 6] == CellIndices(t, p, phiSteps)
    ensures var m := GenerateUnitSphere(thetaSteps, phiSteps).value;
            var c := CellIndices(t, p, phiSteps);
            && 0 <= c[1] < |m.positions| && m.positions[c[1]] == GridPoint(t, p)
            && 0 <= c[0] < |m.positions| && m.positions[c[0]] == GridPoint(t, p + 1)
            && 0 <= c[5] < |m.positions| && m.positions[c[5]] == GridPoint(t + 1, p)
            && 0 <= c[2] < |m.positions| && m.positions[c[2]] == GridPoint(t + 1, p + 1)
  {
    CellPosition(thetaSteps, phiSteps, t, p);
    CornerVertices(thetaSteps, phiSteps, t, p);
  }

  /** The corners of cell (t, p) are the generated vertices of its four grid points. */
  lemma CornerVertices(thetaSteps: nat, phiSteps: nat, t: nat, p: nat)
    requires thetaSteps >= 3 && phiSteps >= 3 && t < thetaSteps && p < phiSteps - 1
    ensures var m := GenerateUnitSphere(thetaSteps, phiSteps).value;
            var c := CellIndices(t, p, phiSteps);
            && 0 <= c[1] < |m.positions| && m.positions[c[1]] == GridPoint(t, p)
            && 0 <= c[0] < |m.positions| && m.positions[c[0]] == GridPoint(t, p + 1)
            && 0 <= c[5] < |m.positions| && m.positions[c[5]] == GridPoint(t + 1, p)
            && 0 <= c[2] < |m.positions| && m.positions[c[2]] == GridPoint(t + 1, p + 1)
  {
    var c := CellIndices(t, p, phiSteps);
    assert c[1] == GridIndex(t, p, phiSteps) && c[0] == GridIndex(t, p + 1, phiSteps);
    assert c[5] == GridIndex(t + 1, p, phiSteps) && c[2] == GridIndex(t + 1, p + 1, phiSteps);
    VertexAt(thetaSteps, phiSteps, t, p);
    VertexAt(thetaSteps, phiSteps, t, p + 1);
    VertexAt(thetaSteps, phiSteps, t + 1, p);
    VertexAt(thetaSteps, phiSteps, t + 1, p + 1);
  }

  /** Cell (t, p) is the (t * (phiSteps - 1) + p)-th cell in row-major order, six indices each. */
  function CellStart(t: nat, p: nat, phiSteps: nat): nat
    requires phiSteps >= 1
  {
    6 * (t * (phiSteps - 1) + p)
  }

  /** The six indices of cell (t, p) start at CellStart(t, p) of the generated list. */
  lemma CellPosition(thetaSteps: nat, phiSteps: nat, t: nat, p: nat)
    requires thetaSteps >= 3 && phiSteps >= 3 && t < thetaSteps && p < phiSteps - 1
    ensures var m := GenerateUnitSphere(thetaSteps, phiSteps).value;
            var k := CellStart(t, p, phiSteps);
            k + 6 <= |m.indices| && m.indices[k..k + 6] == CellIndices(t, p, phiSteps)
  {
    TrianglesAt(thetaSteps, phiSteps, t, p);
    TrianglesLength(t, phiSteps);
    assert |Triangles(t, phiSteps)| + 6 * p == CellStart(t, p, phiSteps);
  }

  /** Grid point (t, p) is the vertex at GridIndex(t, p) of the generated sphere. */
  lemma VertexAt(thetaSteps: nat, phiSteps: nat, t: nat, p: nat)
    requires thetaSteps >= 3 && phiSteps >= 3 && t <= thetaSteps && p < phiSteps
    ensures var m := GenerateUnitSphere(thetaSteps, phiSteps).value;
            GridIndex(t, p, phiSteps) < |m.positions| && m.positions[GridIndex(t, p, phiSteps)] == GridPoint(t, p)
  {
    PointAt(thetaSteps + 1, phiSteps, t, p);
  }

  /**
   * Each cell's two triangles list three distinct vertices each and share the
   * topLeft-botRight diagonal.
   */
  lemma CellShape(t: nat, p: nat, phiSteps: nat)
    requires phiSteps >= 1
    ensures var c := CellIndices(t, p, phiSteps);
            && c[0] != c[1] && c[1] != c[2] && c[0] != c[2]
            && c[3] != c[4] && c[4] != c[5] && c[3] != c[5]
            && c[1] == c[4] == GridIndex(t, p, phiSteps)
            && c[2] == c[3] == GridIndex(t + 1, p + 1, phiSteps)
  {
    assert GridIndex(t + 1, p + 1, phiSteps) == GridIndex(t, p, phiSteps) + phiSteps + 1;
  }

  /**
   * The last vertex, grid point (thetaSteps, phiSteps - 1), is used: it is botRight
   * of the last cell (thetaSteps - 1, phiSteps - 2).
   */
  lemma LastVertexUsed(thetaSteps: nat, phiSteps: nat)
    requires thetaSteps >= 1 && phiSteps >= 2
    ensures RowStart(thetaSteps + 1, phiSteps) - 1 in Triangles(thetaSteps, phiSteps)
  {
    var t, p := thetaSteps - 1, phiSteps - 2;
    var base := |Triangles(t, phiSteps)| + 6 * p;
    var last := RowStart(thetaSteps + 1, phiSteps) - 1;
    assert RowStart(thetaSteps, phiSteps) == RowStart(t, phiSteps) + phiSteps;
    assert last == GridIndex(t, p, phiSteps) + phiSteps + 1 == CellIndices(t, p, phiSteps)[2];
    TrianglesAt(thetaSteps, phiSteps, t, p);
    var all := Triangles(thetaSteps, phiSteps);
    assert all[base + 2] == all[base .. base + 6][2] == last;
  }

  /** Every texture coordinate lies in the unit square, reaching u = 1 on the repeated seam row. */
  lemma SphereTexCoordsInUnitSquare(thetaSteps: nat, phiSteps: nat, t: nat, p: nat)
    requires thetaSteps >= 3 && phiSteps >= 3 && t <= thetaSteps && p < phiSteps
    ensures var m := GenerateUnitSphere(thetaSteps, phiSteps).value;
            var i := GridIndex(t, p, phiSteps);
            && i < |m.texCoords|
            && m.texCoords[i].u.num <= m.texCoords[i].u.den
            && m.texCoords[i].v.num <= m.texCoords[i].v.den
            && (m.texCoords[i].u.num == m.texCoords[i].u.den <==> t == thetaSteps)
  {
    PointAt(thetaSteps + 1, phiSteps, t, p);
  }

  // ---------------------------------------------------------------- quads and the cube

  /** A point with coordinates in half units. */
  datatype Point = Point(x: int, y: int, z: int)

  /** A quad: four corners, four texture corners and two triangles. */
  datatype Quad = Quad(positions: seq<Point>, texCoords: seq<(nat, nat)>, indices: seq<int>)

  function Sub(a: Point, b: Point): Point
  {
    Point(a.x - b.x, a.y - b.y, a.z - b.z)
  }

  function Cross(a: Point, b: Point): Point
  {
    var x1, y1, z1 := a.x, a.y, a.z;
    var x2, y2, z2 := b.x, b.y, b.z;
    Point(y1 * z2 - z1 * y2, z1 * x2 - x1 * z2, x1 * y2 - y1 * x2)
  }

  /**
   * CalculateNormal: the cross product of the first two edges of the triangle. It is
   * perpendicular to all three edges, so it is normal to the triangle's plane.
   */
  function CalculateNormal(p0: Point, p1: Point, p2: Point): (n: Point)
    ensures Dot(n, Sub(p1, p0)) == 0 && Dot(n, Sub(p2, p1)) == 0 && Dot(n, Sub(p0, p2)) == 0
  {
    Cross(Sub(p1, p0), Sub(p2, p1))
  }

  function Neg(a: Point): Point
  {
    Point(-a.x, -a.y, -a.z)
  }

  /**
   * The normal depends only on the winding: starting the triangle at another corner
   * keeps it, and going around the other way turns it around.
   */
  lemma NormalWinding(p0: Point, p1: Point, p2: Point)
    ensures CalculateNormal(p1, p2, p0) == CalculateNormal(p0, p1, p2)
    ensures CalculateNormal(p0, p2, p1) == Neg(CalculateNormal(p0, p1, p2))
  {}

  /** The texture corners CreateQuad pins to the quad's corners, so the texture covers it once. */
  const QuadTexCoords: seq<(nat, nat)> := [(0, 1), (1, 1), (1, 0), (0, 0)]

  /** The two triangles of a quad, as indices into its corners: (0, 1, 2) and (0, 2, 3). */
  const QuadIndices: seq<int> := [0, 1, 2, 0, 2, 3]

  /**
   * CreateQuad: the corners in the order given, the texture stretched over the
   * whole quad, and two triangles that share the 0-2 diagonal, go around in the same
   * direction as the corners, and together draw every corner.
   */
  function CreateQuad(topLeft: Point, topRight: Point, botRight: Point, botLeft: Point): (q: Quad)
    ensures q.positions == [topLeft, topRight, botRight, botLeft]
    ensures q.texCoords == QuadTexCoords
    ensures q.indices == QuadIndices
    ensures forall c :: 0 <= c < 4 ==> c in q.indices
  {
    var q := Quad([topLeft, topRight, botRight, botLeft], QuadTexCoords, QuadIndices);
    assert q.indices[0] == 0 && q.indices[1] == 1 && q.indices[2] == 2 && q.indices[5] == 3;
    q
  }

  /** A quad has four corners and six triangle indices, each naming one of the corners. */
  predicate QuadShaped(q: Quad)
  {
    |q.positions| == 4 && |q.indices| == 6 && forall k :: 0 <= k < 6 ==> 0 <= q.indices[k] < 4
  }

  /** CalculateNormal of triangle t (0 or 1) of a quad, taken in its index order. */
  function TriangleNormal(q: Quad, t: nat): Point
    requires QuadShaped(q) && t < 2
  {
    var c := q.positions;
    CalculateNormal(c[q.indices[3 * t]], c[q.indices[3 * t + 1]], c[q.indices[3 * t + 2]])
  }

  /** The normal CreateQuad gives every vertex of the quad: that of its first three corners. */
  function QuadNormal(q: Quad): Point
    requires |q.positions| >= 3
  {
    CalculateNormal(q.positions[0], q.positions[1], q.positions[2])
  }

  /** The eight corners p0 .. p7 of the unit cube. */
  const P0 := Point(-1, -1, -1)
  const P1 := Point(1, -1, -1)
  const P2 := Point(1, -1, 1)
  const P3 := Point(-1, -1, 1)
  const P4 := Point(-1, 1, -1)
  const P5 := Point(1, 1, -1)
  const P6 := Point(1, 1, 1)
  const P7 := Point(-1, 1, 1)

  function CubeCorners(): (c: seq<Point>)
    ensures |c| == 8
  {
    [P0, P1, P2, P3, P4, P5, P6, P7]
  }

  /** The six faces of the cube as GenerateUnitCube lists them: front, right, back, left, top, bottom. */
  const CubeFaces: seq<Quad> :=
    [CreateQuad(P3, P2, P6, P7),
     CreateQuad(P2, P1, P5, P6),
     CreateQuad(P1, P0, P4, P5),
     CreateQuad(P0, P3, P7, P4),
     CreateQuad(P7, P6, P5, P4),
     CreateQuad(P2, P3, P0, P1)]

  /**
   * GenerateUnitCube: six quads. Face i lies on side Outward(i) of the cube and goes
   * around four of its corners along its edges.
   */
  function GenerateUnitCube(): (faces: seq<Quad>)
    ensures |faces| == 6
    ensures forall i :: 0 <= i < 6 ==> |faces[i].positions| == 4 && QuadShaped(faces[i])
    ensures forall i :: 0 <= i < 6 ==> faces[i].indices == QuadIndices && faces[i].texCoords == QuadTexCoords
    ensures forall i :: 0 <= i < 6 ==> OnSide(faces[i], Outward(i)) && AlongEdges(faces[i])
    ensures forall i :: 0 <= i < 6 ==>
      && QuadNormal(faces[i]) == Scale4(Outward(i))
      && TriangleNormal(faces[i], 0) == Scale4(Outward(i))
      && TriangleNormal(faces[i], 1) == Scale4(Outward(i))
  {
    CubeFacesOnSides();
    CubeFacesAlongEdges();
    CubeFacesOutward();
    CubeFaces
  }

  /** The number of coordinates in which two points differ. */
  function Differences(a: Point, b: Point): nat
  {
    (if a.x != b.x then 1 else 0) + (if a.y != b.y then 1 else 0) + (if a.z != b.z then 1 else 0)
  }

  function Dot(a: Point, b: Point): int
  {
    var x1, y1, z1 := a.x, a.y, a.z;
    var x2, y2, z2 := b.x, b.y, b.z;
    x1 * x2 + y1 * y2 + z1 * z2
  }

  /** The outward direction of face i: front (+z), right (+x), back (-z), left (-x), top (+y), bottom (-y). */
  function Outward(i: nat): Point
    requires i < 6
  {
    [Point(0, 0, 1), Point(1, 0, 0), Point(0, 0, -1), Point(-1, 0, 0), Point(0, 1, 0), Point(0, -1, 0)][i]
  }

  /** The corners of a quad lie in the plane of side `out` of the cube. */
  predicate OnSide(q: Quad, out: Point)
    requires |q.positions| == 4
  {
    forall i :: 0 <= i < 4 ==> Dot(q.positions[i], out) == 1
  }

  /** A quad goes around four distinct corners, each step along one edge of the cube. */
  predicate AlongEdges(q: Quad)
    requires |q.positions| == 4
  {
    var c := q.positions;
    && Differences(c[0], c[1]) == 1 && Differences(c[1], c[2]) == 1
    && Differences(c[2], c[3]) == 1 && Differences(c[3], c[0]) == 1
    && c[0] != c[2] && c[1] != c[3]
  }

  /** Face i of the cube lies on side Outward(i). */
  lemma CubeFacesOnSides()
    ensures forall i :: 0 <= i < 6 ==> OnSide(CubeFaces[i], Outward(i))
  {
    var f := CubeFaces;
    assert OnSide(f[0], Outward(0));
    assert OnSide(f[1], Outward(1));
    assert OnSide(f[2], Outward(2));
    assert OnSide(f[3], Outward(3));
    assert OnSide(f[4], Outward(4));
    assert OnSide(f[5], Outward(5));
  }

  /** Each face of the cube is a square whose corners follow the cube's edges. */
  lemma CubeFacesAlongEdges()
    ensures forall i :: 0 <= i < 6 ==> AlongEdges(CubeFaces[i])
  {
    var f := CubeFaces;
    assert AlongEdges(f[0]);
    assert AlongEdges(f[1]);
    assert AlongEdges(f[2]);
    assert AlongEdges(f[3]);
    assert AlongEdges(f[4]);
    assert AlongEdges(f[5]);
  }

  /** Four times a direction: the length of CalculateNormal on two unit-cube edges of length 2. */
  function Scale4(d: Point): Point
  {
    var x, y, z := d.x, d.y, d.z;
    Point(4 * x, 4 * y, 4 * z)
  }

  /**
   * The cube is consistently oriented: for every face, the normal CreateQuad assigns
   * and the normals of both of its triangles point out of the cube.
   */
  lemma CubeFacesOutward()
    ensures forall i :: 0 <= i < 6 ==> FacesOutward(CubeFaces[i], Outward(i))
  {
    forall i | 0 <= i < 6
      ensures FacesOutward(CubeFaces[i], Outward(i))
    {
      FaceOutward(i);
    }
  }

  /** Face i faces outward, taken from the per-face lemmas below. */
  lemma FaceOutward(i: nat)
    requires i < 6
    ensures FacesOutward(CubeFaces[i], Outward(i))
  {
    if i == 0 { FrontOutward(); }
    else if i == 1 { RightOutward(); }
    else if i == 2 { BackOutward(); }
    else if i == 3 { LeftOutward(); }
    else if i == 4 { TopOutward(); }
    else { BottomOutward(); }
  }

  /** The quad's assigned normal and both triangle normals are four times `out`. */
  predicate FacesOutward(q: Quad, out: Point)
  {
    && QuadShaped(q)
    && QuadNormal(q) == Scale4(out)
    && TriangleNormal(q, 0) == Scale4(out)
    && TriangleNormal(q, 1) == Scale4(out)
  }

  /** A quad faces out when the edge cross products of its triangles (a, b, c) and (a, c, d) are both 4 * out. */
  lemma QuadFaces(a: Point, b: Point, c: Point, d: Point, out: Point)
    requires Cross(Sub(b, a), Sub(c, b)) == Scale4(out) && Cross(Sub(c, a), Sub(d, c)) == Scale4(out)
    ensures FacesOutward(CreateQuad(a, b, c, d), out)
  {
    var q := CreateQuad(a, b, c, d);
    assert q.positions[q.indices[3]] == a && q.positions[q.indices[4]] == c && q.positions[q.indices[5]] == d;
  }

  /*
   * Per face, three layers: <Face>Outward names the face by its place in CubeFaces,
   * <Face>QuadOutward proves the fact for the quad's corners, and <Face>FirstNormal and
   * <Face>SecondNormal compute the cross product of one triangle's edges each. The
   * layers keep each proof obligation to one face, and each cross product to an
   * obligation of its own; with the products of two triangles in one obligation the
   * solver's arithmetic does not finish.
   */
  lemma FrontOutward()
    ensures FacesOutward(CubeFaces[0], Outward(0))
  {
    assert CubeFaces[0] == CreateQuad(P3, P2, P6, P7) && Outward(0) == Point(0, 0, 1);
    FrontQuadOutward();
  }

  lemma FrontQuadOutward()
    ensures FacesOutward(CreateQuad(P3, P2, P6, P7), Point(0, 0, 1))
  {
    FrontFirstNormal();
    FrontSecondNormal();
    QuadFaces(P3, P2, P6, P7, Point(0, 0, 1));
  }

  lemma FrontFirstNormal()
    ensures Cross(Sub(P2, P3), Sub(P6, P2)) == Point(0, 0, 4)
  {}

  lemma FrontSecondNormal()
    ensures Cross(Sub(P6, P3), Sub(P7, P6)) == Point(0, 0, 4)
  {}

  lemma RightOutward()
    ensures FacesOutward(CubeFaces[1], Outward(1))
  {
    assert CubeFaces[1] == CreateQuad(P2, P1, P5, P6) && Outward(1) == Point(1, 0, 0);
    RightQuadOutward();
  }

  lemma RightQuadOutward()
    ensures FacesOutward(CreateQuad(P2, P1, P5, P6), Point(1, 0, 0))
  {
    RightFirstNormal();
    RightSecondNormal();
    QuadFaces(P2, P1, P5, P6, Point(1, 0, 0));
  }

  lemma RightFirstNormal()
    ensures Cross(Sub(P1, P2), Sub(P5, P1)) == Point(4, 0, 0)
  {}

  lemma RightSecondNormal()
    ensures Cross(Sub(P5, P2), Sub(P6, P5)) == Point(4, 0, 0)
  {}

  lemma BackOutward()
    ensures FacesOutward(CubeFaces[2], Outward(2))
  {
    assert CubeFaces[2] == CreateQuad(P1, P0, P4, P5) && Outward(2) == Point(0, 0, -1);
    BackQuadOutward();
  }

  lemma BackQuadOutward()
    ensures FacesOutward(CreateQuad(P1, P0, P4, P5), Point(0, 0, -1))
  {
    BackFirstNormal();
    BackSecondNormal();
    QuadFaces(P1, P0, P4, P5, Point(0, 0, -1));
  }

  lemma BackFirstNormal()
    ensures Cross(Sub(P0, P1), Sub(P4, P0)) == Point(0, 0, -4)
  {}

  lemma BackSecondNormal()
    ensures Cross(Sub(P4, P1), Sub(P5, P4)) == Point(0, 0, -4)
  {}

  lemma LeftOutward()
    ensures FacesOutward(CubeFaces[3], Outward(3))
  {
    assert CubeFaces[3] == CreateQuad(P0, P3, P7, P4) && Outward(3) == Point(-1, 0, 0);
    LeftQuadOutward();
  }

  lemma LeftQuadOutward()
    ensures FacesOutward(CreateQuad(P0, P3, P7, P4), Point(-1, 0, 0))
  {
    LeftFirstNormal();
    LeftSecondNormal();
    QuadFaces(P0, P3, P7, P4, Point(-1, 0, 0));
  }

  lemma LeftFirstNormal()
    ensures Cross(Sub(P3, P0), Sub(P7, P3)) == Point(-4, 0, 0)
  {}

  lemma LeftSecondNormal()
    ensures Cross(Sub(P7, P0), Sub(P4, P7)) == Point(-4, 0, 0)
  {}

  lemma TopOutward()
    ensures FacesOutward(CubeFaces[4], Outward(4))
  {
    assert CubeFaces[4] == CreateQuad(P7, P6, P5, P4) && Outward(4) == Point(0, 1, 0);
    TopQuadOutward();
  }

  lemma TopQuadOutward()
    ensures FacesOutward(CreateQuad(P7, P6, P5, P4), Point(0, 1, 0))
  {
    TopFirstNormal();
    TopSecondNormal();
    QuadFaces(P7, P6, P5, P4, Point(0, 1, 0));
  }

  lemma TopFirstNormal()
    ensures Cross(Sub(P6, P7), Sub(P5, P6)) == Point(0, 4, 0)
  {}

  lemma TopSecondNormal()
    ensures Cross(Sub(P5, P7), Sub(P4, P5)) == Point(0, 4, 0)
  {}

  lemma BottomOutward()
    ensures FacesOutward(CubeFaces[5], Outward(5))
  {
    assert CubeFaces[5] == CreateQuad(P2, P3, P0, P1) && Outward(5) == Point(0, -1, 0);
    BottomQuadOutward();
  }

  lemma BottomQuadOutward()
    ensures FacesOutward(CreateQuad(P2, P3, P0, P1), Point(0, -1, 0))
  {
    BottomFirstNormal();
    BottomSecondNormal();
    QuadFaces(P2, P3, P0, P1, Point(0, -1, 0));
  }

  lemma BottomFirstNormal()
    ensures Cross(Sub(P3, P2), Sub(P0, P3)) == Point(0, -4, 0)
  {}

  lemma BottomSecondNormal()
    ensures Cross(Sub(P0, P2), Sub(P1, P0)) == Point(0, -4, 0)
  {}

  /** The faces of the cube that use corner k. */
  function FacesAt(k: nat): set<nat>
    requires k < 8
  {
    set i: nat | i < 6 && CubeCorners()[k] in CubeFaces[i].positions
  }

  /** Every corner of the cube belongs to exactly three faces. */
  lemma CubeCornerFaces()
    ensures forall k :: 0 <= k < 8 ==> |FacesAt(k)| == 3
  {
    forall k | 0 <= k < 8
      ensures |FacesAt(k)| == 3
    {
      CornerFaces(k);
    }
  }

  /** Corner k's three faces, one corner per lemma so that each set is computed on its own. */
  lemma CornerFaces(k: nat)
    requires k < 8
    ensures |FacesAt(k)| == 3
  {
    if k == 0 { FacesAtP0(); }
    else if k == 1 { FacesAtP1(); }
    else if k == 2 { FacesAtP2(); }
    else if k == 3 { FacesAtP3(); }
    else if k == 4 { FacesAtP4(); }
    else if k == 5 { FacesAtP5(); }
    else if k == 6 { FacesAtP6(); }
    else { FacesAtP7(); }
  }

  lemma FacesAtP0()
    ensures |FacesAt(0)| == 3
  {
    assert FacesAt(0) == {2, 3, 5};
  }

  lemma FacesAtP1()
    ensures |FacesAt(1)| == 3
  {
    assert FacesAt(1) == {1, 2, 5};
  }

  lemma FacesAtP2()
    ensures |FacesAt(2)| == 3
  {
    assert FacesAt(2) == {0, 1, 5};
  }

  lemma FacesAtP3()
    ensures |FacesAt(3)| == 3
  {
    assert FacesAt(3) == {0, 3, 5};
  }

  lemma FacesAtP4()
    ensures |FacesAt(4)| == 3
  {
    assert FacesAt(4) == {2, 3, 4};
  }

  lemma FacesAtP5()
    ensures |FacesAt(5)| == 3
  {
    assert FacesAt(5) == {1, 2, 4};
  }

  lemma FacesAtP6()
    ensures |FacesAt(6)| == 3
  {
    assert FacesAt(6) == {0, 1, 4};
  }

  lemma FacesAtP7()
    ensures |FacesAt(7)| == 3
  {
    assert FacesAt(7) == {0, 3, 4};
  }
}
