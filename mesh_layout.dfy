/** What a rebuild of the overlay produces, stated as pure functions over the
    drawer's inputs: which cells are visited and selected, the quad each one
    becomes, and how the quads are packed into capped meshes. */
module MeshLayout {
  import opened Host

  /** The most quads one mesh receives before the next mesh is opened. */
  const MaxCellsPerMesh := 16383

  function Max(a: int, b: int): int { if a < b then b else a }

  function Min(a: int, b: int): int { if a < b then a else b }

  /** Cell a is visited before cell b: x is the outer loop, z the inner one. */
  predicate VisitedBefore(a: IntVec3, b: IntVec3)
  {
    a.x < b.x || (a.x == b.x && a.z < b.z)
  }

  /** The cells where `active` holds that the rebuild has visited when it
      reaches cell (x, z) of a grid with sizeZ cells per column: every column
      before x, then column x below z, in visit order. */
  function Visited(x: int, z: int, sizeZ: int, active: (int, int) -> bool): seq<IntVec3>
    decreases x, z
  {
    if z <= 0 then
      (if x <= 0 then [] else Visited(x - 1, sizeZ, sizeZ, active))
    else
      Visited(x, z - 1, sizeZ, active) + (if active(x, z - 1) then [IntVec3(x, z - 1)] else [])
  }

  /** Visiting cell (x, z) adds it when it is active. */
  lemma VisitedStep(x: int, z: int, sizeZ: int, active: (int, int) -> bool)
    requires 0 <= z
    ensures active(x, z) ==> Visited(x, z + 1, sizeZ, active) == Visited(x, z, sizeZ, active) + [IntVec3(x, z)]
    ensures !active(x, z) ==> Visited(x, z + 1, sizeZ, active) == Visited(x, z, sizeZ, active)
  {
    assert Visited(x, z, sizeZ, active) + [] == Visited(x, z, sizeZ, active);
  }

  /** Finishing column x (after sizeZ cells, or at once when columns are empty)
      is starting column x + 1. */
  lemma VisitedNextColumn(x: int, z: int, sizeZ: int, active: (int, int) -> bool)
    requires 0 <= x && z == (if sizeZ <= 0 then 0 else sizeZ)
    ensures Visited(x + 1, 0, sizeZ, active) == Visited(x, z, sizeZ, active)
  {
  }

  /** The cells a rebuild of a sizeX-by-sizeZ grid turns into quads, in order. */
  function ActiveCells(sizeX: int, sizeZ: int, active: (int, int) -> bool): seq<IntVec3>
  {
    Visited(sizeX, 0, sizeZ, active)
  }

  /** Once the outer loop has run to its end, every active cell has been visited. */
  lemma VisitedAll(x: int, sizeX: int, sizeZ: int, active: (int, int) -> bool)
    requires 0 <= x && x >= sizeX && (x <= sizeX || x == 0)
    ensures Visited(x, 0, sizeZ, active) == ActiveCells(sizeX, sizeZ, active)
  {
  }

  /** The visited cells are exactly the active ones before (x, z), each once,
      in visit order. */
  lemma {:induction false} VisitedSpec(x: int, z: int, sizeZ: int, active: (int, int) -> bool)
    ensures var r := Visited(x, z, sizeZ, active);
            && (forall c :: c in r <==>
                  && active(c.x, c.z)
                  && ((0 <= c.x < x && 0 <= c.z < sizeZ) || (c.x == x && 0 <= c.z < z)))
            && (forall i, j :: 0 <= i < j < |r| ==> VisitedBefore(r[i], r[j]))
    decreases x, z
  {
    if z <= 0 {
      if x > 0 {
        VisitedSpec(x - 1, sizeZ, sizeZ, active);
      }
    } else {
      var prefix := Visited(x, z - 1, sizeZ, active);
      VisitedSpec(x, z - 1, sizeZ, active);
      assert forall i :: 0 <= i < |prefix| ==> prefix[i] in prefix;
    }
  }

  /** A rebuild selects exactly the cells of the sizeX-by-sizeZ rectangle where
      `active` holds, each once, x outer and z inner. */
  lemma ActiveCellsSpec(sizeX: int, sizeZ: int, active: (int, int) -> bool)
    ensures var r := ActiveCells(sizeX, sizeZ, active);
            && (forall c :: c in r <==> 0 <= c.x < sizeX && 0 <= c.z < sizeZ && active(c.x, c.z))
            && (forall i, j :: 0 <= i < j < |r| ==> VisitedBefore(r[i], r[j]))
  {
    VisitedSpec(sizeX, 0, sizeZ, active);
  }

  /** The four corners of the quad for cell c, in the order the rebuild adds them. */
  function QuadVerts(c: IntVec3, scale: int): seq<Vertex>
  {
    var x1 := c.x * scale;
    var z1 := c.z * scale;
    [Vertex(x1, z1), Vertex(x1, z1 + scale), Vertex(x1 + scale, z1 + scale), Vertex(x1 + scale, z1)]
  }

  /** The working lists after the quad for cell c is appended to them. */
  function AddQuad(m: Mesh, c: IntVec3, scale: int, extraColor: (int, int) -> Color): Mesh
  {
    var color := extraColor(c.x, c.z);
    var count := |m.verts| + 4;
    Mesh(m.verts + QuadVerts(c, scale),
         m.tris + [count - 4, count - 3, count - 2, count - 4, count - 2, count - 1],
         m.colors + [color, color, color, color])
  }

  /** The working lists after the quads for `cells` are appended to empty lists.
      The three lists stay in lockstep and every index names a vertex. */
  function Build(cells: seq<IntVec3>, scale: int, extraColor: (int, int) -> Color): (m: Mesh)
    ensures |m.verts| == 4 * |cells| && |m.colors| == 4 * |cells| && |m.tris| == 6 * |cells|
    decreases |cells|
  {
    if cells == [] then EmptyMesh
    else AddQuad(Build(cells[..|cells| - 1], scale, extraColor), cells[|cells| - 1], scale, extraColor)
  }

  lemma BuildSnoc(cells: seq<IntVec3>, c: IntVec3, scale: int, extraColor: (int, int) -> Color)
    ensures Build(cells + [c], scale, extraColor) == AddQuad(Build(cells, scale, extraColor), c, scale, extraColor)
  {
    assert (cells + [c])[..|cells|] == cells;
  }

  /** The four corners of quad j of a built mesh are those of cells[j]. */
  lemma {:induction false} BuildQuadVerts(cells: seq<IntVec3>, scale: int, extraColor: (int, int) -> Color, j: int)
    requires 0 <= j < |cells|
    ensures Build(cells, scale, extraColor).verts[4 * j .. 4 * j + 4] == QuadVerts(cells[j], scale)
  {
    var prefix := cells[..|cells| - 1];
    var p := Build(prefix, scale, extraColor);
    var m := Build(cells, scale, extraColor);
    assert m.verts == p.verts + QuadVerts(cells[|cells| - 1], scale);
    if j < |cells| - 1 {
      BuildQuadVerts(prefix, scale, extraColor, j);
      assert m.verts[4 * j .. 4 * j + 4] == p.verts[4 * j .. 4 * j + 4];
    } else {
      assert m.verts[4 * j ..] == QuadVerts(cells[j], scale);
    }
  }

  /** The four vertices of quad j of a built mesh carry the colour of cells[j]. */
  lemma {:induction false} BuildQuadColors(cells: seq<IntVec3>, scale: int, extraColor: (int, int) -> Color, j: int)
    requires 0 <= j < |cells|
    ensures var color := extraColor(cells[j].x, cells[j].z);
            Build(cells, scale, extraColor).colors[4 * j .. 4 * j + 4] == [color, color, color, color]
  {
    var prefix := cells[..|cells| - 1];
    var p := Build(prefix, scale, extraColor);
    var m := Build(cells, scale, extraColor);
    var last := extraColor(cells[|cells| - 1].x, cells[|cells| - 1].z);
    assert m.colors == p.colors + [last, last, last, last];
    if j < |cells| - 1 {
      BuildQuadColors(prefix, scale, extraColor, j);
      assert m.colors[4 * j .. 4 * j + 4] == p.colors[4 * j .. 4 * j + 4];
    } else {
      assert m.colors[4 * j ..] == m.colors[4 * j .. 4 * j + 4];
    }
  }

  /** The two triangles of quad j of a built mesh span exactly its own four vertices. */
  lemma {:induction false} BuildQuadTris(cells: seq<IntVec3>, scale: int, extraColor: (int, int) -> Color, j: int)
    requires 0 <= j < |cells|
    ensures Build(cells, scale, extraColor).tris[6 * j .. 6 * j + 6]
            == [4 * j, 4 * j + 1, 4 * j + 2, 4 * j, 4 * j + 2, 4 * j + 3]
  {
    var prefix := cells[..|cells| - 1];
    var p := Build(prefix, scale, extraColor);
    var m := Build(cells, scale, extraColor);
    var count := |p.verts| + 4;
    assert m.tris == p.tris + [count - 4, count - 3, count - 2, count - 4, count - 2, count - 1];
    if j < |cells| - 1 {
      BuildQuadTris(prefix, scale, extraColor, j);
      assert m.tris[6 * j .. 6 * j + 6] == p.tris[6 * j .. 6 * j + 6];
    } else {
      assert m.tris[6 * j ..] == m.tris[6 * j .. 6 * j + 6];
    }
  }

  /** Quad j of a built mesh is the quad of cells[j]: its four corners, four
      copies of that cell's colour, and two triangles over exactly its own four
      vertices. */
  lemma BuildQuad(cells: seq<IntVec3>, scale: int, extraColor: (int, int) -> Color, j: int)
    requires 0 <= j < |cells|
    ensures var m := Build(cells, scale, extraColor);
            var color := extraColor(cells[j].x, cells[j].z);
            && m.verts[4 * j .. 4 * j + 4] == QuadVerts(cells[j], scale)
            && m.colors[4 * j .. 4 * j + 4] == [color, color, color, color]
            && m.tris[6 * j .. 6 * j + 6] == [4 * j, 4 * j + 1, 4 * j + 2, 4 * j, 4 * j + 2, 4 * j + 3]
  {
    BuildQuadVerts(cells, scale, extraColor, j);
    BuildQuadColors(cells, scale, extraColor, j);
    BuildQuadTris(cells, scale, extraColor, j);
  }

  /** Every triangle index of a built mesh names one of its vertices. */
  lemma BuildIndicesInRange(cells: seq<IntVec3>, scale: int, extraColor: (int, int) -> Color)
    ensures var m := Build(cells, scale, extraColor);
            forall t :: 0 <= t < |m.tris| ==> 0 <= m.tris[t] < |m.verts|
  {
    var m := Build(cells, scale, extraColor);
    forall t | 0 <= t < |m.tris| ensures 0 <= m.tris[t] < |m.verts| {
      var j := t / 6;
      BuildQuad(cells, scale, extraColor, j);
      assert m.tris[t] == m.tris[6 * j .. 6 * j + 6][t - 6 * j];
    }
  }

  /** The cells that mesh k receives: the k-th run of MaxCellsPerMesh cells. */
  function Chunk(cells: seq<IntVec3>, k: nat): (r: seq<IntVec3>)
    ensures |r| <= MaxCellsPerMesh
  {
    cells[Min(k * MaxCellsPerMesh, |cells|) .. Min((k + 1) * MaxCellsPerMesh, |cells|)]
  }

  /** The mesh list a rebuild leaves behind, given the active cells and the
      number of meshes the list held before: meshes 0 .. |cells| / MaxCellsPerMesh
      hold the successive chunks (the last of them possibly empty), and any
      further mesh left over from an earlier rebuild is cleared. */
  function Packed(cells: seq<IntVec3>, previousCount: nat, scale: int, extraColor: (int, int) -> Color): (r: seq<Mesh>)
    ensures |r| >= 1 && |r| >= previousCount
    ensures |r| == Max(previousCount, |cells| / MaxCellsPerMesh + 1)
  {
    var batches := |cells| / MaxCellsPerMesh + 1;
    seq(Max(previousCount, batches),
        k requires 0 <= k => if k < batches then Build(Chunk(cells, k), scale, extraColor) else EmptyMesh)
  }

  /** The number of quads a mesh holds. */
  function QuadCount(m: Mesh): nat { |m.verts| / 4 }

  /** Capacity: every packed mesh holds at most MaxCellsPerMesh quads; all
      meshes before the last opened one are full, that one holds the
      remainder, and leftovers are empty. */
  lemma PackedQuadCount(cells: seq<IntVec3>, previousCount: nat, scale: int, extraColor: (int, int) -> Color, k: int)
    requires 0 <= k < |Packed(cells, previousCount, scale, extraColor)|
    ensures var q := QuadCount(Packed(cells, previousCount, scale, extraColor)[k]);
            && q <= MaxCellsPerMesh
            && (k < |cells| / MaxCellsPerMesh ==> q == MaxCellsPerMesh)
            && (k == |cells| / MaxCellsPerMesh ==> q == |cells| % MaxCellsPerMesh)
            && (k > |cells| / MaxCellsPerMesh ==> q == 0)
  {
    var r := Packed(cells, previousCount, scale, extraColor);
    if k <= |cells| / MaxCellsPerMesh {
      assert r[k] == Build(Chunk(cells, k), scale, extraColor);
    }
  }

  /** Quad j of packed mesh k is the quad of active cell k * MaxCellsPerMesh + j:
      the meshes, read in order, hold the active cells in visit order. */
  lemma PackedQuadAt(cells: seq<IntVec3>, previousCount: nat, scale: int, extraColor: (int, int) -> Color, k: int, j: int)
    requires 0 <= k < |Packed(cells, previousCount, scale, extraColor)|
    requires 0 <= j < QuadCount(Packed(cells, previousCount, scale, extraColor)[k])
    ensures k * MaxCellsPerMesh + j < |cells|
    ensures var m := Packed(cells, previousCount, scale, extraColor)[k];
            var c := cells[k * MaxCellsPerMesh + j];
            && m.verts[4 * j .. 4 * j + 4] == QuadVerts(c, scale)
            && m.colors[4 * j .. 4 * j + 4] == [extraColor(c.x, c.z), extraColor(c.x, c.z), extraColor(c.x, c.z), extraColor(c.x, c.z)]
            && m.tris[6 * j .. 6 * j + 6] == [4 * j, 4 * j + 1, 4 * j + 2, 4 * j, 4 * j + 2, 4 * j + 3]
  {
    var r := Packed(cells, previousCount, scale, extraColor);
    PackedQuadCount(cells, previousCount, scale, extraColor, k);
    assert k <= |cells| / MaxCellsPerMesh;
    var chunk := Chunk(cells, k);
    assert r[k] == Build(chunk, scale, extraColor);
    BuildQuad(chunk, scale, extraColor, j);
  }

  /** The total number of quads over a list of meshes. */
  function TotalQuads(ms: seq<Mesh>): nat
  {
    if ms == [] then 0 else TotalQuads(ms[..|ms| - 1]) + QuadCount(ms[|ms| - 1])
  }

  lemma {:induction false} PackedPrefixQuads(cells: seq<IntVec3>, previousCount: nat, scale: int, extraColor: (int, int) -> Color, k: nat)
    requires k <= |Packed(cells, previousCount, scale, extraColor)|
    ensures TotalQuads(Packed(cells, previousCount, scale, extraColor)[..k]) == Min(k * MaxCellsPerMesh, |cells|)
  {
    var r := Packed(cells, previousCount, scale, extraColor);
    if k > 0 {
      PackedPrefixQuads(cells, previousCount, scale, extraColor, k - 1);
      assert r[..k][..k - 1] == r[..k - 1];
      PackedQuadCount(cells, previousCount, scale, extraColor, k - 1);
    }
  }

  /** The meshes together hold one quad per active cell. */
  lemma PackedTotalQuads(cells: seq<IntVec3>, previousCount: nat, scale: int, extraColor: (int, int) -> Color)
    ensures TotalQuads(Packed(cells, previousCount, scale, extraColor)) == |cells|
  {
    var r := Packed(cells, previousCount, scale, extraColor);
    PackedPrefixQuads(cells, previousCount, scale, extraColor, |r|);
    assert r[..|r|] == r;
  }

  /** The number of meshes that hold at least one quad. */
  function NonEmptyMeshes(ms: seq<Mesh>): nat
  {
    if ms == [] then 0 else NonEmptyMeshes(ms[..|ms| - 1]) + (if ms[|ms| - 1].verts != [] then 1 else 0)
  }

  lemma {:induction false} PackedPrefixNonEmpty(cells: seq<IntVec3>, previousCount: nat, scale: int, extraColor: (int, int) -> Color, k: nat)
    requires k <= |Packed(cells, previousCount, scale, extraColor)|
    ensures NonEmptyMeshes(Packed(cells, previousCount, scale, extraColor)[..k])
            == Min(k, (|cells| + MaxCellsPerMesh - 1) / MaxCellsPerMesh)
  {
    var r := Packed(cells, previousCount, scale, extraColor);
    if k > 0 {
      PackedPrefixNonEmpty(cells, previousCount, scale, extraColor, k - 1);
      assert r[..k][..k - 1] == r[..k - 1];
      PackedQuadCount(cells, previousCount, scale, extraColor, k - 1);
      assert r[k - 1].verts != [] <==> QuadCount(r[k - 1]) > 0;
    }
  }

  /** As many meshes hold quads as it takes to hold the active cells
      MaxCellsPerMesh at a time; with no active cell, none does. */
  lemma PackedNonEmptyMeshes(cells: seq<IntVec3>, previousCount: nat, scale: int, extraColor: (int, int) -> Color)
    ensures NonEmptyMeshes(Packed(cells, previousCount, scale, extraColor))
            == (|cells| + MaxCellsPerMesh - 1) / MaxCellsPerMesh
  {
    var r := Packed(cells, previousCount, scale, extraColor);
    PackedPrefixNonEmpty(cells, previousCount, scale, extraColor, |r|);
    assert r[..|r|] == r;
  }

  /** Whether some cell of `cells` has a colour other than white. */
  function UsesVertexColors(cells: seq<IntVec3>, extraColor: (int, int) -> Color): bool
    decreases |cells|
  {
    cells != [] &&
    (UsesVertexColors(cells[..|cells| - 1], extraColor) || extraColor(cells[|cells| - 1].x, cells[|cells| - 1].z) != White)
  }

  /** One more cell sets the flag when its colour is not white. */
  lemma UsesVertexColorsSnoc(cells: seq<IntVec3>, c: IntVec3, extraColor: (int, int) -> Color)
    ensures UsesVertexColors(cells + [c], extraColor)
            == (UsesVertexColors(cells, extraColor) || extraColor(c.x, c.z) != White)
  {
    assert (cells + [c])[..|cells|] == cells;
  }

  /** The rebuild's custom-colour flag is set exactly when some selected cell
      is coloured other than white. */
  lemma {:induction false} UsesVertexColorsSpec(cells: seq<IntVec3>, extraColor: (int, int) -> Color)
    ensures UsesVertexColors(cells, extraColor)
            <==> exists k :: 0 <= k < |cells| && extraColor(cells[k].x, cells[k].z) != White
    decreases |cells|
  {
    if cells != [] {
      var prefix := cells[..|cells| - 1];
      UsesVertexColorsSpec(prefix, extraColor);
      assert forall k :: 0 <= k < |prefix| ==> prefix[k] == cells[k];
    }
  }

  /** The submissions an update makes: each mesh once, in list order, with the
      current material, on layer 0. */
  function Submissions(ms: seq<Mesh>, material: Option<Material>): (r: seq<DrawCall>)
    ensures |r| == |ms|
    ensures forall k :: 0 <= k < |ms| ==> r[k] == DrawCall(ms[k], material, 0)
    decreases |ms|
  {
    if ms == [] then [] else Submissions(ms[..|ms| - 1], material) + [DrawCall(ms[|ms| - 1], material, 0)]
  }

  /** The mesh list part-way through a rebuild that has finalised n meshes:
      the n finalised chunks, then cleared meshes up to the open mesh n and
      any further meshes left over from an earlier rebuild. */
  function Layout(emitted: seq<IntVec3>, n: nat, previousCount: nat, scale: int,
                  extraColor: (int, int) -> Color): seq<Mesh>
  {
    seq(Max(previousCount, n + 1),
        k requires 0 <= k => if k < n then Build(Chunk(emitted, k), scale, extraColor) else EmptyMesh)
  }

  /** The state of a rebuild part-way through: `emitted` cells have been turned
      into quads, n meshes have been finalised, i quads wait in the working
      lists, and the mesh list is the layout of the finalised chunks. */
  ghost predicate Emitting(meshes: seq<Mesh>, working: Mesh, emitted: seq<IntVec3>, n: nat, i: nat,
                           previousCount: nat, scale: int, extraColor: (int, int) -> Color)
  {
    && |emitted| == n * MaxCellsPerMesh + i
    && i < MaxCellsPerMesh
    && meshes == Layout(emitted, n, previousCount, scale, extraColor)
    && working == Build(emitted[n * MaxCellsPerMesh ..], scale, extraColor)
  }

  /** While a rebuild runs, the working lists hold the quads of the open mesh
      in lockstep (four vertices, four colours and six indices per quad),
      fewer than MaxCellsPerMesh of them, and the open mesh exists. */
  lemma EmittingLockstep(meshes: seq<Mesh>, working: Mesh, emitted: seq<IntVec3>, n: nat, i: nat,
                         previousCount: nat, scale: int, extraColor: (int, int) -> Color)
    requires Emitting(meshes, working, emitted, n, i, previousCount, scale, extraColor)
    ensures |working.verts| == 4 * i && |working.colors| == 4 * i && |working.tris| == 6 * i
    ensures i < MaxCellsPerMesh && n < |meshes|
  {
  }

  /** Cleared meshes, with one added when the list is empty, and empty
      working lists are the state of a rebuild before its first cell. */
  lemma StartPacking(meshes: seq<Mesh>, scale: int, extraColor: (int, int) -> Color)
    requires forall k :: 0 <= k < |meshes| ==> meshes[k] == EmptyMesh
    ensures Emitting(if |meshes| < 1 then meshes + [EmptyMesh] else meshes, EmptyMesh, [], 0, 0,
                     |meshes|, scale, extraColor)
  {
    var start := if |meshes| < 1 then meshes + [EmptyMesh] else meshes;
    var layout := Layout([], 0, |meshes|, scale, extraColor);
    assert |start| == |layout|;
    forall k | 0 <= k < |start| ensures start[k] == layout[k] {
    }
  }

  lemma ChunkStable(emitted: seq<IntVec3>, c: IntVec3, n: nat, k: nat)
    requires k < n && n * MaxCellsPerMesh <= |emitted|
    ensures Chunk(emitted + [c], k) == Chunk(emitted, k)
  {
    assert (k + 1) * MaxCellsPerMesh <= n * MaxCellsPerMesh;
  }

  lemma TailSnoc(emitted: seq<IntVec3>, c: IntVec3, lo: nat)
    requires lo <= |emitted|
    ensures (emitted + [c])[lo..] == emitted[lo..] + [c]
  {
  }

  /** Appending a cell changes none of the finalised chunks. */
  lemma LayoutStable(emitted: seq<IntVec3>, c: IntVec3, n: nat, previousCount: nat, scale: int,
                     extraColor: (int, int) -> Color)
    requires n * MaxCellsPerMesh <= |emitted|
    ensures Layout(emitted + [c], n, previousCount, scale, extraColor)
            == Layout(emitted, n, previousCount, scale, extraColor)
  {
    var a := Layout(emitted + [c], n, previousCount, scale, extraColor);
    var b := Layout(emitted, n, previousCount, scale, extraColor);
    forall k | 0 <= k < |a| ensures a[k] == b[k] {
      if k < n {
        ChunkStable(emitted, c, n, k);
      }
    }
  }

  /** Appending a quad below the capacity keeps the rebuild's state consistent. */
  lemma EmitQuad(meshes: seq<Mesh>, working: Mesh, emitted: seq<IntVec3>, n: nat, i: nat,
                 previousCount: nat, c: IntVec3, scale: int, extraColor: (int, int) -> Color)
    requires Emitting(meshes, working, emitted, n, i, previousCount, scale, extraColor)
    requires i + 1 < MaxCellsPerMesh
    ensures Emitting(meshes, AddQuad(working, c, scale, extraColor), emitted + [c], n, i + 1,
                     previousCount, scale, extraColor)
  {
    LayoutStable(emitted, c, n, previousCount, scale, extraColor);
    TailSnoc(emitted, c, n * MaxCellsPerMesh);
    BuildSnoc(emitted[n * MaxCellsPerMesh ..], c, scale, extraColor);
  }

  /** Appending the quad that fills the current mesh, finalising that mesh and
      opening the next one keeps the rebuild's state consistent. */
  lemma EmitLastQuad(meshes: seq<Mesh>, working: Mesh, emitted: seq<IntVec3>, n: nat, i: nat,
                     previousCount: nat, c: IntVec3, scale: int, extraColor: (int, int) -> Color)
    requires Emitting(meshes, working, emitted, n, i, previousCount, scale, extraColor)
    requires i + 1 == MaxCellsPerMesh
    ensures var full := AddQuad(working, c, scale, extraColor);
            var finalised := meshes[n := full];
            && |full.verts| > 0
            && Emitting(if |finalised| < n + 2 then finalised + [EmptyMesh] else finalised, EmptyMesh,
                        emitted + [c], n + 1, 0, previousCount, scale, extraColor)
  {
    var e := emitted + [c];
    var full := AddQuad(working, c, scale, extraColor);
    var finalised := meshes[n := full];
    var next := if |finalised| < n + 2 then finalised + [EmptyMesh] else finalised;
    TailSnoc(emitted, c, n * MaxCellsPerMesh);
    BuildSnoc(emitted[n * MaxCellsPerMesh ..], c, scale, extraColor);
    assert |e| == (n + 1) * MaxCellsPerMesh;
    assert Chunk(e, n) == e[n * MaxCellsPerMesh ..];
    assert full == Build(Chunk(e, n), scale, extraColor);
    assert e[(n + 1) * MaxCellsPerMesh ..] == [];
    var layout := Layout(e, n + 1, previousCount, scale, extraColor);
    assert |next| == |layout|;
    forall k | 0 <= k < |next| ensures next[k] == layout[k] {
      if k < n {
        ChunkStable(emitted, c, n, k);
      }
    }
  }

  /** Finalising the last, possibly empty, batch completes the packing. */
  lemma FinishPacking(meshes: seq<Mesh>, working: Mesh, emitted: seq<IntVec3>, n: nat, i: nat,
                      previousCount: nat, scale: int, extraColor: (int, int) -> Color)
    requires Emitting(meshes, working, emitted, n, i, previousCount, scale, extraColor)
    ensures n < |meshes|
    ensures |working.verts| > 0 ==> meshes[n := working] == Packed(emitted, previousCount, scale, extraColor)
    ensures |working.verts| == 0 ==> meshes == Packed(emitted, previousCount, scale, extraColor)
    ensures |working.verts| == 0 ==> working == EmptyMesh
  {
    var r := Packed(emitted, previousCount, scale, extraColor);
    assert |emitted| / MaxCellsPerMesh == n;
    assert Chunk(emitted, n) == emitted[n * MaxCellsPerMesh ..];
    if |working.verts| > 0 {
      var ms := meshes[n := working];
      assert forall k :: 0 <= k < |r| ==> ms[k] == r[k];
    } else {
      assert forall k :: 0 <= k < |r| ==> meshes[k] == r[k];
    }
  }
}
