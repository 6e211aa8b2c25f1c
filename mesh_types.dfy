/** The records of the mesh database: a Mesh is a light view into a vertex
    buffer that other code owns. */
module MeshTypes {
  import opened GLTypes

  /** Four attribute pointers and the sub-range [start, start + count) of the
      buffer's vertices that belong to this mesh. */
  datatype Mesh = Mesh(
    position: AttribPointer,
    normal: AttribPointer,
    color: AttribPointer,
    texCoord: AttribPointer,
    start: u32,
    count: u32)

  /** A default-constructed Mesh: undefined pointers and an empty range at 0. */
  const DefaultMesh: Mesh := Mesh(Undefined, Undefined, Undefined, Undefined, 0, 0)

  /** The database: at most one mesh per name, since it is a map keyed by name. */
  type MeshMap = map<string, Mesh>

  /** The reasons load and get throw. */
  datatype MeshError =
    | UnknownFileType(filename: string)
    | ChunkFailed(tag: string)
    | NameOutOfRange
    | VertexOutOfRange
    | NotFound(name: string)

  /** How a load ends: normally, or by throwing. */
  datatype Status = Done | Failed(error: MeshError)

  /** What get returns: the stored mesh, or the exception it throws. */
  datatype Result<T> = Ok(value: T) | Err(error: MeshError)

  /** An optional value: the error an entry check finds, or the format a file name selects. */
  datatype Option<T> = None | Some(value: T)
}
