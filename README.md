# WealthOverlay core in Dafny

This project models the two stateful components of the WealthOverlay mod for RimWorld and proves properties of the model.

**The batched overlay renderer (`ZoomGridDrawer`)** — modules `ZoomGrid` and `MeshLayout`.
- A rebuild walks the `sizeX × sizeZ` cell rectangle, with x as the outer loop and z as the inner one.
- For every cell where the cell predicate holds, it appends one quad to working lists that all drawers share: 4 vertices, 4 colours and 6 triangle indices.
- A mesh is finalised and the next one opened each time 16383 quads have gone into it.
- The rebuild notes whether any cell colour is not white. It recreates the material only when that vertex-colour mode changes or no material exists yet.
- An update is a two-flag machine (`wantDraw`, `dirty`). It rebuilds only when dirty, submits every mesh once, then clears the request.
- The drawer is a `class`. Its loops are written as in the C# code, and each loop step is a method.
- Each method is proved against pure functions in `MeshLayout`:
  - `ActiveCells`: the selected cells in visit order.
  - `Build`: one mesh built from a run of cells.
  - `Packed`: the mesh list a rebuild leaves behind.
  - `UsesVertexColors`: the vertex-colour flag.
  - `Submissions`: the draw calls made.
- Lemmas then state what those functions mean: selection and order, the shape of each quad, capacity, conservation of quads, and the meaning of the colour flag.

**The per-map wealth grid (`Wealth`)** — module `WealthMap`.
- It is a `class` over an `array<real>`.
- `Register` adds a market value to one cell in place and marks the drawer dirty.
- Setting the zoom stores it and reallocates the grid to zeros, with length `sizeX*sizeZ/zoom/zoom`. `Reset` sets the zoom to its current value.
- The total wealth is the sum of the grid. A cell is shown when it holds a positive amount.

**The host hooks (module `Patches`)**.
- A wealth recount is `Reset` followed by one registration per contribution the host enumerates. The recount is proved to conserve value: the grid holds, at each index, exactly what was registered there.
- The zoom keys step the zoom down (never below 1) or up.

Behaviour of the code worth noting:
- `Register` indexes the grid by the host's native, row-major cell index `z*sizeX + x`. It never divides by the zoom, so there is no bucket mapping. Lemma `WealthMap.NativeIndicesFitOnlyAtZoomOne` proves the consequence: the shrunk grid holds every native index only at zoom 1.
- Setting the zoom to its current value still reallocates the grid and marks the drawer dirty.
- A rebuild with no selected cell still leaves one, empty, mesh.
- The mesh list never shrinks. Meshes left over from an earlier, larger rebuild are cleared and kept.
- A cell's colour is whatever the colour callback returns for it. The wealth component's callback is yellow for every cell, so every drawn wealth cell has the same colour whatever it holds.
- `Cleanup` empties the mesh list but does not mark the drawer dirty.

Modelling choices:
- Floats are reals.
- Unity meshes are values of three sequences.
- `Graphics.DrawMesh` appends to a submission log, `drawLog`.
- The number of rebuilds is a ghost counter.
- The static working lists are one `WorkingLists` object handed to every drawer.
- The drawer's callbacks (`cellBoolGetter`, `extraColorGetter`, `colorGetter`) are function-valued constants.

## Model

| member | source | states |
|---|---|---|
| ZoomGrid.WorkingLists.constructor | Source/ZoomGridDrawer.cs:34-36 | The shared vertex, index and colour lists start empty. |
| ZoomGrid.ZoomGridDrawer.constructor | Source/ZoomGridDrawer.cs:68-72 | Stores the callbacks, sizes, scale, render queue and opacity. The drawer starts dirty, not asked to draw, with no material and no meshes. |
| ZoomGrid.ZoomGridDrawer.MarkForDraw | Source/ZoomGridDrawer.cs:74 | Sets the draw request. |
| ZoomGrid.ZoomGridDrawer.SetDirty | Source/ZoomGridDrawer.cs:89 | Sets the dirty flag. |
| ZoomGrid.ZoomGridDrawer.ZoomGridDrawerUpdate | Source/ZoomGridDrawer.cs:76-87 | Without a draw request nothing changes. With one, it rebuilds exactly when dirty and then appends one submission per mesh to the log. It clears the request and leaves the drawer clean with a material. A rebuild leaves the meshes `Packed`, the mode "some selected cell is not white", and a material that was recreated exactly when it was missing or its mode changed. When not dirty, meshes, material and rebuild count are unchanged. |
| ZoomGrid.ZoomGridDrawer.DrawMeshes | Source/ZoomGridDrawer.cs:82-83 | The log grows by each mesh once, in list order, with the current material on layer 0. |
| ZoomGrid.ZoomGridDrawer.Cleanup | Source/ZoomGridDrawer.cs:91-101 | The mesh list ends empty. The dirty flag and the material are untouched. |
| ZoomGrid.ZoomGridDrawer.ClearMeshes | Source/ZoomGridDrawer.cs:105-106 | Every mesh is cleared and the list keeps its length. |
| ZoomGrid.ZoomGridDrawer.RegenerateMesh | Source/ZoomGridDrawer.cs:103-162 | The mesh list becomes `Packed` of the selected cells given the old list length. The vertex-colour mode becomes "some selected cell is not white". The material is recreated exactly when it was missing or its mode changed. The drawer ends clean with empty working lists, and the rebuild count grows by one. |
| ZoomGrid.ZoomGridDrawer.PackSelectedCells | Source/ZoomGridDrawer.cs:108-159 | Starting from cleared meshes, the loops leave exactly `Packed(Selected(), old length)` and empty working lists. The returned flag equals `UsesVertexColors` of the selected cells. |
| ZoomGrid.ZoomGridDrawer.PackColumn | Source/ZoomGridDrawer.cs:117-158 | One outer pass takes the rebuild state from the cells visited before column x to those visited before column x+1. |
| ZoomGrid.ZoomGridDrawer.VisitCell | Source/ZoomGridDrawer.cs:119-157 | Cell (x, z) is emitted exactly when the predicate holds. The rebuild state advances from the cells before (x, z) to those up to it. |
| ZoomGrid.ZoomGridDrawer.EmitCell | Source/ZoomGridDrawer.cs:121-156 | Emitting a cell keeps the rebuild invariant (`Emitting`) with the cell appended. The flag becomes "flag or the cell's colour is not white". |
| ZoomGrid.ZoomGridDrawer.AppendQuad | Source/ZoomGridDrawer.cs:121-146 | The working lists become `AddQuad` of their old contents: the cell's four corners, four copies of its colour, and the six indices `count-4 .. count-1`. |
| ZoomGrid.ZoomGridDrawer.OpenNextMesh | Source/ZoomGridDrawer.cs:148-156 | The full working lists go into mesh n, a new mesh is appended only if mesh n+1 is missing, the working lists end empty, and the counter moves to n+1. |
| ZoomGrid.ZoomGridDrawer.FinalizeLastMesh | Source/ZoomGridDrawer.cs:159 | Finalising the open mesh after the loops completes `Packed` and empties the working lists. |
| ZoomGrid.ZoomGridDrawer.FinalizeWorkingDataIntoMesh | Source/ZoomGridDrawer.cs:164-175 | Non-empty working lists are moved into mesh n and emptied. Empty ones leave everything unchanged. |
| ZoomGrid.ZoomGridDrawer.CreateMaterialIfNeeded | Source/ZoomGridDrawer.cs:177-187 | The stored mode becomes the requested one. The material is recreated exactly when it was missing or its mode differed. It is then the base colour with alpha times opacity, that mode and the drawer's render queue. Otherwise it is kept. |
| ZoomGrid.TwoFramesWithoutChanges | Source/ZoomGridDrawer.cs:74-89 | Two draw cycles with no `SetDirty` between them rebuild once if the drawer was dirty and not at all otherwise. Both submit the same meshes with the same material. |
| MeshLayout.VisitedSpec | Source/ZoomGridDrawer.cs:113-119 | Part-way through the loops, the visited cells are exactly the active cells of the earlier columns and of the current column below z, in strictly increasing visit order. |
| MeshLayout.ActiveCellsSpec | Source/ZoomGridDrawer.cs:113-119 | A rebuild selects exactly the cells of the inclusive rectangle 0..sizeX-1 × 0..sizeZ-1 where the predicate holds, each once, with x outer and z inner. |
| MeshLayout.VisitedStep | Source/ZoomGridDrawer.cs:117-119 | Visiting cell (x, z) appends it exactly when it is active. |
| MeshLayout.Build | Source/ZoomGridDrawer.cs:126-146 | The built lists stay in lockstep: 4 vertices, 4 colours and 6 indices per cell. |
| MeshLayout.BuildQuadVerts | Source/ZoomGridDrawer.cs:121-129 | Quad j's vertices are (x·s, z·s), (x·s, (z+1)·s), ((x+1)·s, (z+1)·s), ((x+1)·s, z·s) of cell j. |
| MeshLayout.BuildQuadColors | Source/ZoomGridDrawer.cs:131-135 | Quad j's four colours are all the colour of cell j. |
| MeshLayout.BuildQuadTris | Source/ZoomGridDrawer.cs:140-146 | Quad j's six indices are 4j, 4j+1, 4j+2, 4j, 4j+2, 4j+3, which are its own four vertices only. |
| MeshLayout.BuildQuad | Source/ZoomGridDrawer.cs:121-146 | Quad j of a built mesh is the quad of cell j: vertices, colours and indices together. |
| MeshLayout.BuildIndicesInRange | Source/ZoomGridDrawer.cs:140-146 | Every triangle index of a built mesh names one of its vertices. |
| MeshLayout.Chunk | Source/ZoomGridDrawer.cs:148 | No mesh is given more than 16383 cells. |
| MeshLayout.Packed | Source/ZoomGridDrawer.cs:105-112 | The rebuilt list has at least one mesh, never fewer than before, and exactly max(old length, cells/16383 + 1) meshes. |
| MeshLayout.PackedQuadCount | Source/ZoomGridDrawer.cs:148-156 | Capacity: every mesh holds at most 16383 quads. Meshes before the last opened one are full, that one holds the remainder, and any later mesh is empty. |
| MeshLayout.PackedQuadAt | Source/ZoomGridDrawer.cs:116-156 | Quad j of mesh k is the quad of selected cell k·16383 + j, so the meshes read in order hold the selected cells in visit order. |
| MeshLayout.PackedTotalQuads | Source/ZoomGridDrawer.cs:116-159 | The meshes together hold exactly one quad per selected cell. |
| MeshLayout.PackedNonEmptyMeshes | Source/ZoomGridDrawer.cs:148-159 | Exactly ceil(cells / 16383) meshes hold quads, so none do when no cell is selected. |
| MeshLayout.UsesVertexColorsSpec | Source/ZoomGridDrawer.cs:137-138 | The vertex-colour flag holds if and only if some selected cell's colour is not white. |
| MeshLayout.UsesVertexColorsSnoc | Source/ZoomGridDrawer.cs:137-138 | One more cell sets the flag exactly when its colour is not white. |
| MeshLayout.Submissions | Source/ZoomGridDrawer.cs:82-83 | One draw call per mesh, in order, with the given material, on layer 0. |
| MeshLayout.EmittingLockstep | Source/ZoomGridDrawer.cs:126-148 | During a rebuild, the working lists hold 4i vertices, 4i colours and 6i indices for the i quads of the open mesh, with i < 16383, and the open mesh exists. |
| MeshLayout.StartPacking | Source/ZoomGridDrawer.cs:108-112 | Cleared meshes, plus one appended when the list is empty, are the rebuild state before the first cell. |
| MeshLayout.EmitQuad | Source/ZoomGridDrawer.cs:121-148 | Appending a quad below capacity preserves the rebuild invariant. |
| MeshLayout.EmitLastQuad | Source/ZoomGridDrawer.cs:148-156 | The quad that fills a mesh makes the working lists non-empty. Finalising them into mesh n and opening mesh n+1 preserves the invariant. |
| MeshLayout.FinishPacking | Source/ZoomGridDrawer.cs:159 | Finalising the last, possibly empty, batch turns the rebuild state into `Packed`. |
| WealthMap.CellIndexRoundTrip | Source/Wealth.cs:35 | Every map cell's native index lies in 0..sizeX·sizeZ-1, and mapping it back gives the cell. |
| WealthMap.IndexCellRoundTrip | Source/Wealth.cs:35 | Every full-size index names a map cell whose native index is that index. |
| WealthMap.NativeIndicesFitOnlyAtZoomOne | Source/Wealth.cs:33-67 | The grid of length sizeX·sizeZ/zoom/zoom holds the native index of every cell if and only if zoom is 1. |
| WealthMap.Zeros | Source/Wealth.cs:67 | A freshly allocated grid has the requested length and only zeros. |
| WealthMap.SumZeros | Source/Wealth.cs:59 | A freshly allocated grid has total wealth 0. |
| WealthMap.SumUpdate | Source/Wealth.cs:47-51 | Adding v to one cell raises the total wealth by exactly v. |
| WealthMap.SumPositiveIffSomeCell | Source/Wealth.cs:74 | Over non-negative cells, the total is positive if and only if some cell is shown. |
| WealthMap.PositiveSumHasPositiveCell | Source/Wealth.cs:74 | A positive total always has some shown cell, whatever the signs of the other cells. |
| WealthMap.Deposit | Source/Wealth.cs:47-51 | A sequence of registrations keeps the grid length. |
| WealthMap.DepositTotal | Source/Wealth.cs:59 | Registrations raise the total wealth by exactly the sum of their values. |
| WealthMap.DepositCell | Source/Wealth.cs:47-51 | Each cell gains exactly the values registered at its index. |
| WealthMap.RecountFromZeros | Source/Wealth.cs:31 | Registrations into a reset grid leave each cell holding what was registered there, and the total equal to the sum registered. |
| WealthMap.GetCellExtraColor | Source/Wealth.cs:76 | The wealth cell colour is never white. |
| WealthMap.WealthColorUsesVertexColors | Source/Wealth.cs:76 | A drawer that colours each cell with the wealth colour of its native index uses vertex colours exactly when it has a cell to draw. |
| WealthMap.Wealth.constructor | Source/Wealth.cs:21-29 | A new component starts at zoom 1 with an all-zero grid of sizeX·sizeZ cells and total wealth 0, and the drawer is dirty. |
| WealthMap.Wealth.SetZoom | Source/Wealth.cs:61-70 | Stores the zoom and allocates a fresh all-zero grid of length sizeX·sizeZ/zoom/zoom. Total wealth is 0 and no cell is shown. The drawer is dirty. |
| WealthMap.Wealth.Reset | Source/Wealth.cs:31 | Keeps the zoom and the grid length, makes every cell 0 in a fresh grid, shows no cell, and marks the drawer dirty. |
| WealthMap.Wealth.Register | Source/Wealth.cs:47-51 | Adds the value to the indexed cell only, keeps the length, raises the total by the value, and marks the drawer dirty. |
| WealthMap.Wealth.RegisterHeld | Source/Wealth.cs:33-45 | The thing and pawn registrations equal the index registration at the native index of the held position. |
| WealthMap.Wealth.UpdateDrawer | Source/Wealth.cs:53-57 | Exactly one draw cycle. If the drawer was dirty, the meshes become `Packed` of the selected cells, and the material follows the caching rule. Otherwise meshes and material are unchanged. Either way the meshes are submitted once, the request is cleared and the drawer is clean. |
| Patches.ForceRecount | Source/Patches.cs:40-44 | A recount keeps the zoom. Afterwards each cell holds the values registered at its index, and the total wealth equals the sum of the registered values. |
| Patches.DecreaseZoom | Source/Patches.cs:21-26 | Lowers the zoom by one only while it is above 1, so it never drops below 1. Above 1 the grid becomes a fresh all-zero grid of the new length and the drawer is dirty. At zoom 1 the grid and the dirty flag are untouched. |
| Patches.IncreaseZoom | Source/Patches.cs:27-31 | Raises the zoom by one, reallocates an all-zero grid of the new length, and marks the drawer dirty. |

## Left out

- The Harmony transpilers in Source/Patches.cs (58-101, 111-138, 148-179) rewrite host IL. Only their effect is modelled: registrations whose values and positions are given as a `Contribution` sequence.
- Keyboard event handling in Source/Patches.cs:13-33 is host UI. Only the zoom change each key makes is modelled.
- The recount postfix, which reads the total and writes it to the log (Source/Patches.cs:46-51), is logging. The `MapInterfaceUpdate` postfix (Source/Wealth.cs:9-17) is host wiring that finds the component and calls `UpdateDrawer`.
- Persistence through `ExposeData` (Source/Wealth.cs:78-82) and everything in Source/Mod.cs (settings window, patch registration) are host plumbing.
- Unity mesh objects:
  - Meshes are values, and `mesh = meshes[n]` is modelled as the index n.
  - Object identity and aliasing of meshes and materials are not modelled.
  - `SimpleSolidColorMaterial` is a constructor of a material value, whose render queue is then set.
- The vertex altitude is a constant and is dropped from the vertices.
- Floating point is modelled with reals. Rounding in sums and in opacity × alpha is not modelled.
- Colour comparison: the source's `color != Color.white` (Source/ZoomGridDrawer.cs:137) uses Unity's `Color` equality, which treats colours within a small epsilon as equal. The model compares colours exactly, so a colour within that epsilon of white sets the vertex-colour flag in the model but not in the program.
- 32-bit integer overflow (of `x * scale`, `sizeX * sizeZ` and the cell index) is not modelled. Integers are unbounded.
- The drawer constructors that take an `IZoomGridBoolGiver` and the private constructor chain (Source/ZoomGridDrawer.cs:38-66) are not modelled separately. The modelled constructor takes the three callbacks, the render queue and the opacity; `DefaultOpacity` (0.33) and `DefaultRenderQueue` (3600) are the source's defaults.
- The `Wealth` constructor in Source/Wealth.cs:27 builds a drawer from `this` and passes `0.5f` as the integer scale, which does not match any drawer constructor. The model passes the drawer in instead. The wealth colour lemma states what a drawer coloured by `GetCellExtraColor` would do.
- `WealthMap.Wealth.TotalWealth`, `WealthMap.Wealth.GetCellBool` and `WealthMap.Wealth.OverlayColor` are plain reads with no contract of their own. Their meaning is stated by `SumUpdate`, `SumPositiveIffSomeCell` and the `Reset`/`SetZoom` contracts.
- WealthMap.Wealth.SetZoom: requires `value >= 1`. The source throws on 0 and would accept a negative zoom, but no caller passes either.
- WealthMap.Wealth.Register: requires the index to lie inside the grid. The source throws an index-out-of-range exception otherwise.
- Patches.ForceRecount: requires every registered index to lie inside the grid. In the source, a contribution whose native index is at or beyond sizeX·sizeZ/zoom/zoom throws mid-recount. Such indices exist at every zoom above 1 (`NativeIndicesFitOnlyAtZoomOne` proves that the last cell's index no longer fits), but a recount throws only if some contribution actually sits on such a cell.
- ZoomGrid.ZoomGridDrawer.RegenerateMesh: requires the shared working lists to be empty on entry (part of `Valid`). Every rebuild leaves them empty, but a rebuild that threw part-way in the source would not.
- ZoomGrid.ZoomGridDrawer.PackColumn, VisitCell, EmitCell, AppendQuad, OpenNextMesh and FinalizeLastMesh are the loop bodies and steps of `RegenerateMesh`, factored into methods. The statements and their order are the source's. The only exception is the colour-flag update, which is done after the triangle indices are appended; the flag is a local variable, so this changes nothing.
