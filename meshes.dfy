/** The mesh database: load reads one mesh file (vertex chunk, string table,
    index) and adds its meshes under their names; get looks a mesh up.
    The chunk reader and the vertex buffer are inputs here: each chunk is
    given as what reading it produced. */
module MeshDatabase {
  import opened GLTypes
  import opened MeshTypes
  import opened MeshIndex

  /** The two vertex formats: position+normal, and position+normal+color. */
  datatype Layout = Vn | Vnc

  /** The result of reading one chunk: its decoded payload, or a read failure
      (wrong tag, a size that is not a whole number of records, end of file). */
  datatype Chunk<T> = Read(payload: T) | Malformed

  /** What uploading the vertex chunk yields: the pointers to the buffer's
      fields (color only exists in the .vnc format) and the number of records. */
  datatype VertexUpload = VertexUpload(position: AttribPointer, normal: AttribPointer, color: AttribPointer, records: nat)

  /** The tag load expects on the vertex chunk of each format. */
  function VertexTag(layout: Layout): string
  {
    match layout
    case Vn => "vn00"
    case Vnc => "vnc0"
  }

  predicate HasSuffix(s: string, suffix: string)
  {
    |suffix| <= |s| && s[|s| - |suffix|..] == suffix
  }

  /** The suffix dispatch of load as it is written: the last five characters
      are compared with the three-character ".vn", and the last seven with the
      four-character ".vnc". */
  function SelectLayout(filename: string): Option<Layout>
  {
    if |filename| >= 5 && filename[|filename| - 5..] == ".vn" then Some(Vn)
    else if |filename| >= 7 && filename[|filename| - 7..] == ".vnc" then Some(Vnc)
    else None
  }

  /** The dispatch the comparison was evidently meant to be: a file ending in
      ".vn" is position+normal, one ending in ".vnc" adds color, the rest are
      unknown. */
  function SelectLayoutIntended(filename: string): (r: Option<Layout>)
    ensures r == Some(Vn) <==> HasSuffix(filename, ".vn")
    ensures r == Some(Vnc) <==> HasSuffix(filename, ".vnc")
    ensures r == None <==> !HasSuffix(filename, ".vn") && !HasSuffix(filename, ".vnc")
  {
    SuffixesExclusive(filename);
    if HasSuffix(filename, ".vn") then Some(Vn)
    else if HasSuffix(filename, ".vnc") then Some(Vnc)
    else None
  }

  /** No name ends in both ".vn" and ".vnc": their last characters differ. */
  lemma {:induction false} SuffixesExclusive(filename: string)
    ensures !(HasSuffix(filename, ".vn") && HasSuffix(filename, ".vnc"))
  {
    if HasSuffix(filename, ".vn") {
      assert filename[|filename| - 1] == ".vn"[2];
    }
    if HasSuffix(filename, ".vnc") {
      assert filename[|filename| - 1] == ".vnc"[3];
    }
  }

  /** The menu mode's asset file "meshes.blob" ends in neither suffix, so even
      the corrected load rejects it before reading a chunk. */
  lemma {:induction false} BlobNameUnknown(m: MeshMap, vertices: Chunk<VertexUpload>, strings: Chunk<string>, index: Chunk<seq<IndexEntry>>)
    ensures SelectLayoutIntended("meshes.blob") == None
    ensures LoadOutcome(m, SelectLayoutIntended("meshes.blob"), "meshes.blob", vertices, strings, index)
              == (m, Failed(UnknownFileType("meshes.blob")))
  {
    assert "meshes.blob"[8..] != ".vn";
    assert "meshes.blob"[7..] != ".vnc";
  }

  /** The attribute pointers each format provides; Color stays undefined for .vn. */
  function PointersOf(layout: Layout, upload: VertexUpload): LayoutPointers
  {
    match layout
    case Vn => LayoutPointers(upload.position, upload.normal, Undefined)
    case Vnc => LayoutPointers(upload.position, upload.normal, upload.color)
  }

  /** The database and status after load, given the result of the dispatch
      and of each chunk read: an unknown type or a failed read throws before
      anything is inserted; otherwise the index walk decides. */
  function LoadOutcome(m: MeshMap, layout: Option<Layout>, filename: string,
                       vertices: Chunk<VertexUpload>, strings: Chunk<string>, index: Chunk<seq<IndexEntry>>): (MeshMap, Status)
  {
    match layout
    case None => (m, Failed(UnknownFileType(filename)))
    case Some(l) =>
      match vertices
      case Malformed => (m, Failed(ChunkFailed(VertexTag(l))))
      case Read(upload) =>
        match strings
        case Malformed => (m, Failed(ChunkFailed("str0")))
        case Read(table) =>
          match index
          case Malformed => (m, Failed(ChunkFailed("idx0")))
          case Read(entries) =>
            IndexOutcome(m, PointersOf(l, upload), Truncate32(upload.records), table, entries)
  }

  // ---------------------------------------------------------------------------
  // Lemmas

  /** A five-character tail never equals ".vn" and a seven-character tail never
      equals ".vnc": the dispatch as written recognises no file name. */
  lemma {:induction false} SelectLayoutNeverMatches(filename: string)
    ensures SelectLayout(filename) == None
  {
    if |filename| >= 5 {
      assert |filename[|filename| - 5..]| != |".vn"|;
    }
    if |filename| >= 7 {
      assert |filename[|filename| - 7..]| != |".vnc"|;
    }
  }

  /** Hence load, as written, throws "Unknown file type" for every file name,
      before it reads any chunk, and leaves the database as it was. */
  lemma {:induction false} LoadAlwaysRejects(m: MeshMap, filename: string,
                          vertices: Chunk<VertexUpload>, strings: Chunk<string>, index: Chunk<seq<IndexEntry>>)
    ensures LoadOutcome(m, SelectLayout(filename), filename, vertices, strings, index) == (m, Failed(UnknownFileType(filename)))
  {
    SelectLayoutNeverMatches(filename);
  }

  /** Whatever the file holds, a load keeps every mesh already present, adds
      only names of index entries, and every mesh it adds lies inside the
      vertices this load uploaded and uses this format's pointers. */
  lemma {:induction false} LoadOutcomeEffect(m: MeshMap, layout: Option<Layout>, filename: string,
                          vertices: Chunk<VertexUpload>, strings: Chunk<string>, index: Chunk<seq<IndexEntry>>, name: string)
    ensures var r := LoadOutcome(m, layout, filename, vertices, strings, index).0;
            name in m ==> name in r && r[name] == m[name]
    ensures var r := LoadOutcome(m, layout, filename, vertices, strings, index).0;
            name in r && name !in m ==>
              && layout.Some? && vertices.Read? && strings.Read? && index.Read?
              && FromUpload(r[name], PointersOf(layout.value, vertices.payload), Truncate32(vertices.payload.records))
              && exists j :: 0 <= j < |index.payload| && NameInRange(index.payload[j], |strings.payload|)
                   && EntryName(strings.payload, index.payload[j]) == name
  {
    if layout.Some? && vertices.Read? && strings.Read? && index.Read? {
      var ptrs := PointersOf(layout.value, vertices.payload);
      var total := Truncate32(vertices.payload.records);
      IndexOutcomeEffect(m, ptrs, total, strings.payload, index.payload, name);
    }
  }

  /** The database object. */
  class Meshes {
    var meshes: MeshMap

    /** An empty database. */
    constructor ()
      ensures meshes == map[]
    {
      meshes := map[];
    }

    /** Looks a mesh up by name; a missing name throws. */
    function Get(name: string): (r: Result<Mesh>)
      reads this
      ensures r.Ok? <==> name in meshes
      ensures r.Ok? ==> r.value == meshes[name]
      ensures r.Err? ==> r.error == NotFound(name)
    {
      if name !in meshes then Err(NotFound(name)) else Ok(meshes[name])
    }

    /** load(filename) as written. The chunk arguments are what reading the
        vertex chunk (under the format's tag), the "str0" chunk and the
        "idx0" chunk would produce. */
    method Load(filename: string, vertices: Chunk<VertexUpload>, strings: Chunk<string>, index: Chunk<seq<IndexEntry>>)
      returns (status: Status)
      modifies this
      ensures (meshes, status) == LoadOutcome(old(meshes), SelectLayout(filename), filename, vertices, strings, index)
      ensures meshes == old(meshes) && status == Failed(UnknownFileType(filename))
    {
      status := LoadSelected(SelectLayout(filename), filename, vertices, strings, index);
      LoadAlwaysRejects(old(meshes), filename, vertices, strings, index);
    }

    /** load(filename) with the suffix dispatch corrected. */
    method LoadIntended(filename: string, vertices: Chunk<VertexUpload>, strings: Chunk<string>, index: Chunk<seq<IndexEntry>>)
      returns (status: Status)
      modifies this
      ensures (meshes, status) == LoadOutcome(old(meshes), SelectLayoutIntended(filename), filename, vertices, strings, index)
    {
      status := LoadSelected(SelectLayoutIntended(filename), filename, vertices, strings, index);
    }

    /** The body of load after the suffix dispatch has picked a format (or none). */
    method LoadSelected(layout: Option<Layout>, filename: string,
                        vertices: Chunk<VertexUpload>, strings: Chunk<string>, index: Chunk<seq<IndexEntry>>)
      returns (status: Status)
      modifies this
      ensures (meshes, status) == LoadOutcome(old(meshes), layout, filename, vertices, strings, index)
    {
      if layout.None? {
        return Failed(UnknownFileType(filename));
      }
      var l := layout.value;
      if vertices.Malformed? {
        return Failed(ChunkFailed(VertexTag(l)));
      }
      var upload := vertices.payload;
      var total := Truncate32(upload.records);
      var ptrs := PointersOf(l, upload);
      if strings.Malformed? {
        return Failed(ChunkFailed("str0"));
      }
      if index.Malformed? {
        return Failed(ChunkFailed("idx0"));
      }
      status := AddIndex(ptrs, total, strings.payload, index.payload);
    }

    /** The index loop of load: check each entry, cut its name out of the
        string table and insert its mesh unless the name is taken. */
    method AddIndex(ptrs: LayoutPointers, total: u32, strings: string, index: seq<IndexEntry>)
      returns (status: Status)
      modifies this
      ensures (meshes, status) == IndexOutcome(old(meshes), ptrs, total, strings, index)
    {
      var i := 0;
      while i < |index|
        invariant 0 <= i <= |index|
        invariant AllAccepted(index[..i], |strings|, total)
        invariant meshes == InsertAll(old(meshes), ptrs, strings, index[..i])
      {
        var entry := index[i];
        assert forall j :: 0 <= j < i ==> Accepted(index[j], |strings|, total) by {
          forall j | 0 <= j < i ensures Accepted(index[j], |strings|, total) {
            assert index[..i][j] == index[j];
          }
        }
        if !(entry.nameBegin <= entry.nameEnd && entry.nameEnd <= |strings|) {
          FirstRejectedIs(index, |strings|, total, i);
          return Failed(NameOutOfRange);
        }
        var end := Add32(entry.vertexStart, entry.vertexCount);
        if !(entry.vertexStart < end && end <= total) {
          FirstRejectedIs(index, |strings|, total, i);
          return Failed(VertexOutOfRange);
        }
        var name := strings[entry.nameBegin..entry.nameEnd];
        var mesh := DefaultMesh;
        mesh := mesh.(position := ptrs.position, normal := ptrs.normal, color := ptrs.color);
        mesh := mesh.(start := entry.vertexStart, count := entry.vertexCount);
        if name !in meshes {
          meshes := meshes[name := mesh];
        }
        assert index[..i + 1][..i] == index[..i];
        ghost var done := index[..i + 1];
        assert AllAccepted(done, |strings|, total) by {
          forall j | 0 <= j < |done| ensures Accepted(done[j], |strings|, total) {
            assert done[j] == index[j];
          }
        }
        i := i + 1;
      }
      assert index[..i] == index;
      FirstRejectedIs(index, |strings|, total, i);
      status := Done;
    }
  }
}
