/** The batched overlay renderer: a drawer that turns a cell predicate and a
    cell colour into meshes of at most MaxCellsPerMesh quads, rebuilds them
    only when marked dirty, and submits them when asked to draw. */
module ZoomGrid {
  import opened Host
  import opened MeshLayout

  /** The vertex, index and colour lists a rebuild appends to. The source keeps
      them in static fields shared by every drawer; here one object stands for
      them and is handed to every drawer that shares it. */
  class WorkingLists {
    var verts: seq<Vertex>
    var tris: seq<int>
    var colors: seq<Color>

    ghost predicate IsEmpty()
      reads this
    {
      verts == [] && tris == [] && colors == []
    }

    function Contents(): Mesh
      reads this
    {
      Mesh(verts, tris, colors)
    }

    constructor ()
      ensures IsEmpty()
    {
      verts, tris, colors := [], [], [];
    }
  }

  /** The default opacity of the overlay. */
  const DefaultOpacity: real := 0.33

  /** The default render queue of the overlay's material. */
  const DefaultRenderQueue := 3600

  class ZoomGridDrawer {
    const sizeX: int
    const sizeZ: int
    const scale: int
    const opacity: real
    const renderQueue: int
    const colorGetter: () -> Color
    const extraColorGetter: (int, int) -> Color
    const cellBoolGetter: (int, int) -> bool
    const work: WorkingLists

    var wantDraw: bool
    var material: Option<Material>
    var materialCaresAboutVertexColors: bool
    var dirty: bool
    var meshes: seq<Mesh>

    /** Every mesh submitted to the engine's renderer so far, in order. */
    var drawLog: seq<DrawCall>

    /** How many times the meshes have been rebuilt. */
    ghost var rebuilds: nat

    /** The shared working lists are empty between rebuilds, the stored
        vertex-colour mode is that of the material, and a drawer that is not
        dirty has a material. */
    ghost predicate Valid()
      reads this, work
    {
      && work.IsEmpty()
      && (material.Some? ==> material.value.vertexColors == materialCaresAboutVertexColors)
      && (!dirty ==> material.Some?)
    }

    /** The cells a rebuild turns into quads, in the order it visits them. */
    function Selected(): seq<IntVec3>
    {
      ActiveCells(sizeX, sizeZ, cellBoolGetter)
    }

    /** The material made for a given vertex-colour mode: the base colour with
        its alpha scaled by the opacity, on this drawer's render queue. */
    function MaterialFor(careAboutVertexColors: bool): Material
    {
      var color := colorGetter();
      Material(color.(a := opacity * color.a), careAboutVertexColors, renderQueue)
    }

    constructor (cellBoolGetter: (int, int) -> bool, colorGetter: () -> Color,
                 extraColorGetter: (int, int) -> Color, sizeX: int, sizeZ: int, scale: int,
                 renderQueue: int, opacity: real, work: WorkingLists)
      requires work.IsEmpty()
      ensures Valid()
      ensures this.cellBoolGetter == cellBoolGetter && this.colorGetter == colorGetter
      ensures this.extraColorGetter == extraColorGetter
      ensures this.sizeX == sizeX && this.sizeZ == sizeZ && this.scale == scale
      ensures this.renderQueue == renderQueue && this.opacity == opacity && this.work == work
      ensures dirty && !wantDraw && material == None && !materialCaresAboutVertexColors
      ensures meshes == [] && drawLog == [] && rebuilds == 0
    {
      this.cellBoolGetter := cellBoolGetter;
      this.colorGetter := colorGetter;
      this.extraColorGetter := extraColorGetter;
      this.sizeX := sizeX;
      this.sizeZ := sizeZ;
      this.scale := scale;
      this.renderQueue := renderQueue;
      this.opacity := opacity;
      this.work := work;
      wantDraw := false;
      material := None;
      materialCaresAboutVertexColors := false;
      dirty := true;
      meshes := [];
      drawLog := [];
      rebuilds := 0;
    }

    method MarkForDraw()
      requires Valid()
      modifies this`wantDraw
      ensures Valid() && wantDraw
    {
      wantDraw := true;
    }

    method SetDirty()
      requires Valid()
      modifies this`dirty
      ensures Valid() && dirty
    {
      dirty := true;
    }

    /** Draws if asked to: rebuilds first when dirty, then submits every mesh
        once, in order, and clears the request. */
    method ZoomGridDrawerUpdate()
      requires Valid()
      modifies this, work
      ensures Valid()
      ensures !old(wantDraw) ==> unchanged(this) && unchanged(work)
      ensures old(wantDraw) ==> !wantDraw && !dirty && material.Some?
      ensures old(wantDraw) && old(dirty) ==>
                && meshes == Packed(Selected(), old(|meshes|), scale, extraColorGetter)
                && materialCaresAboutVertexColors == UsesVertexColors(Selected(), extraColorGetter)
                && rebuilds == old(rebuilds) + 1
                && material == if old(material).None? || old(materialCaresAboutVertexColors) != materialCaresAboutVertexColors
                               then Some(MaterialFor(materialCaresAboutVertexColors)) else old(material)
      ensures old(wantDraw) && !old(dirty) ==>
                meshes == old(meshes) && material == old(material) && rebuilds == old(rebuilds)
      ensures old(wantDraw) ==> drawLog == old(drawLog) + Submissions(meshes, material)
    {
      if wantDraw {
        if dirty {
          RegenerateMesh();
        }
        DrawMeshes();
        wantDraw := false;
      }
    }

    /** Submits every mesh once, in list order, with the current material on layer 0. */
    method DrawMeshes()
      modifies this`drawLog
      ensures drawLog == old(drawLog) + Submissions(meshes, material)
    {
      var i := 0;
      while i < |meshes|
        invariant 0 <= i <= |meshes|
        invariant drawLog == old(drawLog) + Submissions(meshes[..i], material)
        modifies this`drawLog
      {
        assert meshes[..i + 1][..i] == meshes[..i];
        drawLog := drawLog + [DrawCall(meshes[i], material, 0)];
        i := i + 1;
      }
      assert meshes[..|meshes|] == meshes;
    }

    /** Clears every mesh and empties the mesh list. */
    method Cleanup()
      requires Valid()
      modifies this`meshes
      ensures Valid() && meshes == []
    {
      ClearMeshes();
      meshes := [];
    }

    /** Clears every mesh in the list; the list keeps its length. */
    method ClearMeshes()
      modifies this`meshes
      ensures |meshes| == old(|meshes|)
      ensures forall k :: 0 <= k < |meshes| ==> meshes[k] == EmptyMesh
    {
      var j := 0;
      while j < |meshes|
        invariant 0 <= j <= |meshes| == old(|meshes|)
        invariant forall k :: 0 <= k < j ==> meshes[k] == EmptyMesh
        modifies this`meshes
      {
        meshes := meshes[j := EmptyMesh];
        j := j + 1;
      }
    }

    /** Rebuilds the meshes from scratch: clears them, packs the selected cells
        into meshes of at most MaxCellsPerMesh quads, picks the vertex-colour
        mode from the cells' colours and clears the dirty flag. */
    method RegenerateMesh()
      requires Valid()
      modifies this`meshes, this`material, this`materialCaresAboutVertexColors, this`dirty, this`rebuilds, work
      ensures Valid() && !dirty
      ensures meshes == Packed(Selected(), old(|meshes|), scale, extraColorGetter)
      ensures materialCaresAboutVertexColors == UsesVertexColors(Selected(), extraColorGetter)
      ensures material == if old(material).None? || old(materialCaresAboutVertexColors) != materialCaresAboutVertexColors
                          then Some(MaterialFor(materialCaresAboutVertexColors)) else old(material)
      ensures rebuilds == old(rebuilds) + 1
    {
      ClearMeshes();
      var useCustomColor := PackSelectedCells();
      CreateMaterialIfNeeded(useCustomColor);
      dirty := false;
      rebuilds := rebuilds + 1;
    }

    /** The packing part of a rebuild, from cleared meshes and empty working
        lists: every selected cell's quad goes into the current mesh, a full
        mesh is finalised and the next one opened, and the last, partial mesh
        is finalised at the end. Also reports whether any selected cell has a
        non-white colour. */
    method PackSelectedCells() returns (useCustomColor: bool)
      requires work.IsEmpty()
      requires forall k :: 0 <= k < |meshes| ==> meshes[k] == EmptyMesh
      modifies this`meshes, work
      ensures work.IsEmpty()
      ensures meshes == Packed(Selected(), old(|meshes|), scale, extraColorGetter)
      ensures useCustomColor == UsesVertexColors(Selected(), extraColorGetter)
    {
      StartPacking(meshes, scale, extraColorGetter);
      var n: nat := 0;
      var i: nat := 0;
      if |meshes| < n + 1 {
        meshes := meshes + [EmptyMesh];
      }
      useCustomColor := false;
      ghost var emitted: seq<IntVec3> := [];
      var x := 0;
      while x <= sizeX - 1
        invariant 0 <= x && (x <= sizeX || x == 0)
        invariant emitted == Visited(x, 0, sizeZ, cellBoolGetter)
        invariant Emitting(meshes, work.Contents(), emitted, n, i, old(|meshes|), scale, extraColorGetter)
        invariant useCustomColor == UsesVertexColors(emitted, extraColorGetter)
        modifies this`meshes, work
      {
        n, i, useCustomColor, emitted := PackColumn(x, n, i, useCustomColor, emitted, old(|meshes|));
        x := x + 1;
      }
      VisitedAll(x, sizeX, sizeZ, cellBoolGetter);
      FinalizeLastMesh(n, i, old(|meshes|));
    }

    /** The rebuild's last step: finalising the open mesh completes the
        packing of the selected cells and leaves the working lists empty. */
    method FinalizeLastMesh(n: nat, i: nat, ghost previousCount: nat)
      requires Emitting(meshes, work.Contents(), Selected(), n, i, previousCount, scale, extraColorGetter)
      modifies this`meshes, work
      ensures work.IsEmpty()
      ensures meshes == Packed(Selected(), previousCount, scale, extraColorGetter)
    {
      FinishPacking(meshes, work.Contents(), Selected(), n, i, previousCount, scale, extraColorGetter);
      FinalizeWorkingDataIntoMesh(n);
    }

    /** One pass of the rebuild's outer loop: the cells of column x, bottom to top. */
    method PackColumn(x: int, n: nat, i: nat, useCustomColor: bool, ghost emitted: seq<IntVec3>,
                      ghost previousCount: nat)
      returns (n': nat, i': nat, useCustomColor': bool, ghost emitted': seq<IntVec3>)
      requires 0 <= x && emitted == Visited(x, 0, sizeZ, cellBoolGetter)
      requires Emitting(meshes, work.Contents(), emitted, n, i, previousCount, scale, extraColorGetter)
      requires useCustomColor == UsesVertexColors(emitted, extraColorGetter)
      modifies this`meshes, work
      ensures emitted' == Visited(x + 1, 0, sizeZ, cellBoolGetter)
      ensures Emitting(meshes, work.Contents(), emitted', n', i', previousCount, scale, extraColorGetter)
      ensures useCustomColor' == UsesVertexColors(emitted', extraColorGetter)
    {
      n', i', useCustomColor' := n, i, useCustomColor;
      var z := 0;
      while z <= sizeZ - 1
        invariant 0 <= z && (z <= sizeZ || z == 0)
        invariant Emitting(meshes, work.Contents(), Visited(x, z, sizeZ, cellBoolGetter), n', i',
                           previousCount, scale, extraColorGetter)
        invariant useCustomColor' == UsesVertexColors(Visited(x, z, sizeZ, cellBoolGetter), extraColorGetter)
        modifies this`meshes, work
      {
        n', i', useCustomColor' := VisitCell(x, z, n', i', useCustomColor', previousCount);
        z := z + 1;
      }
      VisitedNextColumn(x, z, sizeZ, cellBoolGetter);
      emitted' := Visited(x, z, sizeZ, cellBoolGetter);
    }

    /** One pass of the rebuild's inner loop: cell (x, z) gets a quad when it
        is selected, and is skipped otherwise. */
    method VisitCell(x: int, z: int, n: nat, i: nat, useCustomColor: bool, ghost previousCount: nat)
      returns (n': nat, i': nat, useCustomColor': bool)
      requires 0 <= z
      requires Emitting(meshes, work.Contents(), Visited(x, z, sizeZ, cellBoolGetter), n, i,
                        previousCount, scale, extraColorGetter)
      requires useCustomColor == UsesVertexColors(Visited(x, z, sizeZ, cellBoolGetter), extraColorGetter)
      modifies this`meshes, work
      ensures Emitting(meshes, work.Contents(), Visited(x, z + 1, sizeZ, cellBoolGetter), n', i',
                       previousCount, scale, extraColorGetter)
      ensures useCustomColor' == UsesVertexColors(Visited(x, z + 1, sizeZ, cellBoolGetter), extraColorGetter)
    {
      VisitedStep(x, z, sizeZ, cellBoolGetter);
      ghost var emitted := Visited(x, z, sizeZ, cellBoolGetter);
      if cellBoolGetter(x, z) {
        UsesVertexColorsSnoc(emitted, IntVec3(x, z), extraColorGetter);
        n', i', useCustomColor' := EmitCell(x, z, emitted, n, i, useCustomColor, previousCount);
      } else {
        n', i', useCustomColor' := n, i, useCustomColor;
      }
    }

    /** The body of the rebuild's loop for a selected cell: append its quad
        to the working lists, note a non-white colour, and when the current
        mesh is full, finalise it and open the next one. */
    method EmitCell(x: int, z: int, ghost emitted: seq<IntVec3>, n: nat, i: nat, useCustomColor: bool,
                    ghost previousCount: nat)
      returns (n': nat, i': nat, useCustomColor': bool)
      requires Emitting(meshes, work.Contents(), emitted, n, i, previousCount, scale, extraColorGetter)
      modifies this`meshes, work
      ensures Emitting(meshes, work.Contents(), emitted + [IntVec3(x, z)], n', i', previousCount, scale, extraColorGetter)
      ensures useCustomColor' == (useCustomColor || extraColorGetter(x, z) != White)
    {
      n', i', useCustomColor' := n, i, useCustomColor;
      ghost var before := work.Contents();
      var color := AppendQuad(x, z);
      if color != White {
        useCustomColor' := true;
      }

      if i' + 1 < MaxCellsPerMesh {
        EmitQuad(meshes, before, emitted, n, i, previousCount, IntVec3(x, z), scale, extraColorGetter);
      } else {
        EmitLastQuad(meshes, before, emitted, n, i, previousCount, IntVec3(x, z), scale, extraColorGetter);
      }
      i' := i' + 1;
      if i' >= MaxCellsPerMesh {
        n' := OpenNextMesh(n');
        i' := 0;
      }
    }

    /** A full mesh: finalise it into mesh n and make sure mesh n + 1 exists,
        appending a new one only when the list is too short. */
    method OpenNextMesh(n: nat) returns (n': nat)
      requires n < |meshes| && |work.verts| > 0
      modifies this`meshes, work
      ensures n' == n + 1 && work.IsEmpty()
      ensures var finalised := old(meshes)[n := old(work.Contents())];
              meshes == if |finalised| < n + 2 then finalised + [EmptyMesh] else finalised
    {
      FinalizeWorkingDataIntoMesh(n);
      n' := n + 1;
      if |meshes| < n' + 1 {
        meshes := meshes + [EmptyMesh];
      }
    }

    /** Appends the quad of cell (x, z) to the working lists: its four
        corners, four copies of its colour, and two triangles over the four
        new vertices. Returns the cell's colour. */
    method AppendQuad(x: int, z: int) returns (color: Color)
      modifies work
      ensures work.Contents() == AddQuad(old(work.Contents()), IntVec3(x, z), scale, extraColorGetter)
      ensures color == extraColorGetter(x, z)
    {
      var x1 := x * scale;
      var x2 := x1 + scale;
      var z1 := z * scale;
      var z2 := z1 + scale;

      work.verts := work.verts + [Vertex(x1, z1), Vertex(x1, z2), Vertex(x2, z2), Vertex(x2, z1)];

      color := extraColorGetter(x, z);
      work.colors := work.colors + [color, color, color, color];

      var count := |work.verts|;
      work.tris := work.tris + [count - 4, count - 3, count - 2, count - 4, count - 2, count - 1];
    }

    /** Moves the working lists into mesh n and empties them, unless they are
        already empty. */
    method FinalizeWorkingDataIntoMesh(n: nat)
      requires n < |meshes|
      modifies this`meshes, work
      ensures old(|work.verts|) > 0 ==> meshes == old(meshes)[n := old(work.Contents())] && work.IsEmpty()
      ensures old(|work.verts|) == 0 ==> meshes == old(meshes) && unchanged(work)
    {
      if |work.verts| > 0 {
        meshes := meshes[n := Mesh(work.verts, meshes[n].tris, meshes[n].colors)];
        work.verts := [];
        meshes := meshes[n := meshes[n].(tris := work.tris)];
        work.tris := [];
        meshes := meshes[n := meshes[n].(colors := work.colors)];
        work.colors := [];
      }
    }

    /** Makes a new material only when there is none or its vertex-colour mode
        differs from the one asked for. */
    method CreateMaterialIfNeeded(careAboutVertexColors: bool)
      requires material.Some? ==> material.value.vertexColors == materialCaresAboutVertexColors
      modifies this`material, this`materialCaresAboutVertexColors
      ensures materialCaresAboutVertexColors == careAboutVertexColors
      ensures material.Some? && material.value.vertexColors == careAboutVertexColors
      ensures material == if old(material).None? || old(materialCaresAboutVertexColors) != careAboutVertexColors
                          then Some(MaterialFor(careAboutVertexColors)) else old(material)
    {
      if material.None? || materialCaresAboutVertexColors != careAboutVertexColors {
        var color := colorGetter();
        color := color.(a := opacity * color.a);
        var made := Material(color, careAboutVertexColors, 0);
        materialCaresAboutVertexColors := careAboutVertexColors;
        material := Some(made.(renderQueue := renderQueue));
        assert material.value == MaterialFor(careAboutVertexColors);
      }
    }
  }

  /** Two frames in a row with nothing marked dirty in between: the meshes are
      rebuilt at most once (only if the drawer was dirty), and the second frame
      submits the same meshes again. */
  method TwoFramesWithoutChanges(drawer: ZoomGridDrawer)
    requires drawer.Valid()
    modifies drawer, drawer.work
    ensures drawer.Valid() && !drawer.dirty && !drawer.wantDraw
    ensures drawer.rebuilds == old(drawer.rebuilds) + (if old(drawer.dirty) then 1 else 0)
    ensures drawer.drawLog == old(drawer.drawLog) + Submissions(drawer.meshes, drawer.material)
                                                  + Submissions(drawer.meshes, drawer.material)
  {
    drawer.MarkForDraw();
    drawer.ZoomGridDrawerUpdate();
    drawer.MarkForDraw();
    drawer.ZoomGridDrawerUpdate();
  }
}
