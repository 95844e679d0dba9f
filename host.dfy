/** Value types of the game engine and the host game that the overlay core uses.
    Floating-point values are modelled as reals, without rounding. */
module Host {

  datatype Option<T> = None | Some(value: T)

  /** An RGBA colour. */
  datatype Color = Color(r: real, g: real, b: real, a: real)

  /** The engine's opaque white; a cell coloured anything else makes vertex colours matter. */
  const White := Color(1.0, 1.0, 1.0, 1.0)

  /** The engine's predefined yellow. */
  const Yellow := Color(1.0, 0.921568632, 0.0156862754, 1.0)

  /** A cell of the host's map grid; only the horizontal coordinates matter here. */
  datatype IntVec3 = IntVec3(x: int, z: int)

  /** A mesh vertex. Every overlay vertex lies at the same constant altitude,
      so only the horizontal coordinates are kept. */
  datatype Vertex = Vertex(x: int, z: int)

  /** A renderable mesh: vertex positions, triangle indices and per-vertex colours. */
  datatype Mesh = Mesh(verts: seq<Vertex>, tris: seq<int>, colors: seq<Color>)

  /** A freshly created or cleared mesh. */
  const EmptyMesh := Mesh([], [], [])

  /** A solid-colour translucent material, as the host's material factory makes it,
      with the render queue the drawer assigns afterwards. */
  datatype Material = Material(color: Color, vertexColors: bool, renderQueue: int)

  /** One submission to the engine's mesh renderer: mesh, material and layer. */
  datatype DrawCall = DrawCall(mesh: Mesh, material: Option<Material>, layer: int)
}
