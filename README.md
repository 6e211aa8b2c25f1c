# Mesh database and vertex-array binding

This project models two small pieces of sequential logic from a C++/OpenGL
game base and proves properties of them.

- **The mesh database** (`Meshes`). `load(filename)` is meant to pick a
  vertex format from the file name's suffix: `.vn` for position+normal, `.vnc`
  for position+normal+color. As written, both suffix comparisons always fail,
  so every call throws "Unknown file type" (see "## Findings"). The rest of
  this description is of the corrected load, `LoadIntended`. It reads the
  vertex chunk, the `str0` string table and the `idx0` index, and walks the
  index. Each 16-byte entry
  `{name_begin, name_end, vertex_start, vertex_count}` is checked against the
  string table and against the number of uploaded vertices, using uint32
  arithmetic. The entry's name is then cut out of the table and a `Mesh` is
  inserted under that name. The insert is first-wins: a name that is
  already present keeps its mesh. `get(name)` looks a mesh up and throws when
  the name is missing. A `Mesh` is four attribute pointers (Position, Normal,
  Color, TexCoord) plus a vertex range `start`, `count`. A default mesh has
  undefined pointers and the range 0, 0 (`MeshTypes.DefaultMesh`).
- **The attribute binder** (`GLVertexArray::make_binding`). It takes a
  program's active-attribute count and an ordered list of
  (location, pointer) pairs. One pass fills a coverage vector with one flag
  per active attribute and issues one `glVertexAttribPointer` call per
  accepted pair. Location -1 is skipped. A real location with an undefined
  pointer throws. A second pass throws "Incomplete binding" if any active
  attribute is still uncovered. The GL calls are recorded as a trace of
  `BindCall` values.

Modules:

- `GLTypes` (`gl_types.dfy`): uint32/int32 ranges, wrapping addition, and the
  attribute pointer record.
- `MeshTypes` (`mesh_types.dfy`): `Mesh`, the name-keyed map, and the error and
  status values.
- `MeshIndex` (`mesh_index.dfy`): the index walk as functions, with its
  properties.
- `MeshDatabase` (`meshes.dfy`): the suffix dispatch and the `Meshes` class.
  The class has a `map<string, Mesh>` field, the imperative `AddIndex` loop,
  `Load` and `Get`.
- `VertexArray` (`vertex_array.dfy`): `MakeBinding` over a `bool` array, as
  two loop methods, with its properties.

Inputs that come from code outside the model are parameters:

- Each chunk read is given as what reading it produced: `Read(payload)` or
  `Malformed`.
- The vertex upload is given as its attribute pointers and record count.
- The program's active-attribute count is a parameter of `MakeBinding`.

## Model

| member | source | states |
|---|---|---|
| MeshDatabase.Meshes.constructor | Meshes.hpp:31 | a new database holds no mesh |
| MeshDatabase.Meshes.Get | Meshes.cpp:96-102 | succeeds iff the name is a key; then it returns the stored mesh, and otherwise it fails with "not found"; it reads the map and changes nothing |
| MeshDatabase.Meshes.Load | Meshes.cpp:13-93 | the new map and the status are those of `LoadOutcome` under the dispatch as written; hence every call fails with "unknown file type" and leaves the map unchanged |
| MeshDatabase.Meshes.LoadIntended | Meshes.cpp:13-93 | the new map and the status are those of `LoadOutcome` under the corrected suffix dispatch |
| MeshDatabase.Meshes.LoadSelected | Meshes.cpp:20-89 | for a chosen format (or none), the new map and status are `LoadOutcome`'s: an unknown type or a failed chunk read throws with the map unchanged, and otherwise the index walk decides |
| MeshDatabase.Meshes.AddIndex | Meshes.cpp:69-88 | the loop leaves exactly the map and status of `IndexOutcome`: it inserts the entries before the first rejected one, first-wins, and reports that entry's error |
| MeshDatabase.SelectLayoutNeverMatches | Meshes.cpp:20-35 | the dispatch as written recognises no file name, because a 5-character tail never equals ".vn" and a 7-character tail never equals ".vnc" |
| MeshDatabase.LoadAlwaysRejects | Meshes.cpp:20-53 | whatever the chunks hold, load as written throws "unknown file type" before reading any chunk, and the map is unchanged |
| MeshDatabase.SelectLayoutIntended | Meshes.cpp:20-35 | picks position+normal iff the name ends in ".vn", position+normal+color iff it ends in ".vnc", and no format iff neither |
| MeshDatabase.BlobNameUnknown | MenuMode.cpp:11 | the name "meshes.blob" that the menu mode loads selects no format, even under the corrected dispatch, so that load throws "unknown file type" and leaves the map unchanged |
| MeshDatabase.LoadOutcomeEffect | Meshes.cpp:56-88 | a load never removes or alters a mesh already present; every name it adds is the name of an index entry, and the mesh under it uses this upload's pointers and lies within its vertices |
| GLTypes.Add32 | Meshes.cpp:73 | uint32 addition: the exact sum when it fits, and otherwise the sum minus 2^32, which is then smaller than the first operand |
| GLTypes.Truncate32 | Meshes.cpp:28 | storing the record count in a GLuint keeps it unchanged when it is below 2^32 |
| MeshIndex.EntryError | Meshes.cpp:70-75 | an entry fails the name check iff not begin <= end <= table length; it fails the vertex check iff the name is in range but the range is empty or ends past the upload, in unbounded arithmetic (so a wrapping sum is rejected); it passes iff neither |
| MeshIndex.FirstRejected | Meshes.cpp:69-75 | the position where the walk stops: every earlier entry is accepted and the entry there, if any, is rejected |
| MeshIndex.InsertAllKeepsExisting | Meshes.cpp:84-87 | inserting entries never removes a key and never changes the mesh stored under an existing key |
| MeshIndex.InsertAllKeys | Meshes.cpp:76-84 | after the inserts, the keys are the old keys plus exactly the names sliced from the entries |
| MeshIndex.InsertAllFirstWins | Meshes.cpp:76-87 | a name that is new and that no earlier entry had ends up holding exactly the mesh built from its entry: start, count, the layout's pointers and a default TexCoord |
| MeshIndex.InsertAllFromUpload | Meshes.cpp:73-83 | every mesh added by accepted entries carries the layout's Position, Normal and Color, an undefined TexCoord, count > 0 and start + count <= total |
| MeshIndex.IndexOutcomeInOrder | Meshes.cpp:69-88 | the walk succeeds iff every entry is accepted, and then it has inserted all of them; if it fails, it fails at some entry k whose error it reports, after inserting exactly entries 0 .. k-1 |
| MeshIndex.IndexOutcomeEffect | Meshes.cpp:69-88 | whether the walk fails or not: old meshes are unchanged, the new keys are exactly the names of the entries before the first rejected one, and each new mesh is a valid view of the upload |
| MeshIndex.HeadArmScenario | Meshes.cpp:69-88 | a table "headarm" with entries {0,4,0,1} and {4,7,1,2} over 3 vertices gives exactly the keys "head" (start 0, count 1) and "arm" (start 1, count 2) |
| MeshIndex.RangePastUploadScenario | Meshes.cpp:73-75 | the entry {0,4,2,2} over 3 vertices fails with the vertex-range error and inserts nothing |
| VertexArray.MakeBinding | GLVertexArray.hpp:24-75 | the result and the call trace are `BindingOutcome`'s; on success there are exactly `active` calls and their locations are exactly 0 .. active-1 |
| VertexArray.CoverPass | GLVertexArray.hpp:38-56 | the first loop completes iff no pair throws; its trace is the calls of the pairs before the first throwing one; when complete, a flag is set iff some call targets its location |
| VertexArray.ScanUnbound | GLVertexArray.hpp:58-69 | the second loop collects exactly the uncovered locations in order, and sets its flag iff some active location is uncovered |
| VertexArray.FirstUndefined | GLVertexArray.hpp:39-50 | the position of the first pair with a real location and an undefined pointer: no earlier pair is such a pair |
| VertexArray.Unbound | GLVertexArray.hpp:58-69 | holds a location iff it is below the count and not covered |
| VertexArray.UnboundIncreasing | GLVertexArray.hpp:59-60 | the uncovered locations are reported in strictly increasing order |
| VertexArray.ReachedPairIsFresh | GLVertexArray.hpp:46-47 | under the two assertions, every real location the first pass reaches is active and not yet bound by an earlier call |
| VertexArray.UndefinedIff | GLVertexArray.hpp:48-50 | the binder throws on an undefined pointer iff some pair has a real location and buffer 0; the calls of earlier pairs stay in the trace, which is a prefix of the full pass's calls |
| VertexArray.SentinelIsInvisible | GLVertexArray.hpp:40-43 | removing a pair with location -1 changes neither the calls issued nor, therefore, the coverage, whether or not its pointer is defined |
| VertexArray.CallsStep | GLVertexArray.hpp:39-54 | each pair the first pass handles appends exactly one call, its own, after the calls of the earlier pairs, or none when its location is -1 |
| VertexArray.CallsOfPairs | GLVertexArray.hpp:51-54 | a call is issued iff it is the call of some pair whose location is not -1, carrying that pair's location, buffer, size, type, normalized flag, stride and offset; there are as many calls as such pairs |
| VertexArray.BoundIff | GLVertexArray.hpp:58-70 | the binding succeeds iff no pair throws and every active location is covered; it ends "incomplete" iff no pair throws and some active location is uncovered, and then it names exactly the uncovered ones |
| VertexArray.ScanOutcomeIff | GLVertexArray.hpp:58-70 | the second pass passes iff every active location is covered, and otherwise reports exactly the uncovered ones |
| VertexArray.CallsDistinct | GLVertexArray.hpp:46-51 | under the assertions, when no pair throws, the calls target pairwise different active locations |
| VertexArray.CompleteBindingCallsEachOnce | GLVertexArray.hpp:39-70 | on success each active location is bound by exactly one call: the calls target different locations, there are `active` of them, and their targets are exactly 0 .. active-1 |

## Findings

| source | as written | input that shows it | evidently intended | confidence | as-written member | corrected member |
|---|---|---|---|---|---|---|
| Meshes.cpp:20-35 | the last 5 characters are compared with the 3-character ".vn", and the last 7 with the 4-character ".vnc", so neither comparison can hold | "model.vn" (and likewise "model.vnc") | compare the last 3 (or 4) characters, so that ".vn" files load as position+normal and ".vnc" files as position+normal+color | not executed | MeshDatabase.SelectLayoutNeverMatches | MeshDatabase.SelectLayoutIntended |

MenuMode.cpp:11 calls `load("meshes.blob")`. That name ends in neither suffix, so it throws "unknown
file type" under the corrected dispatch as well (`MeshDatabase.BlobNameUnknown`).
The ".vn"/".vnc" correction alone therefore does not make that asset load.

`Meshes.Load` models the dispatch as written, and proves that every call
throws "unknown file type". `Meshes.LoadIntended` uses the corrected
dispatch, so all the index-walk properties (`LoadOutcomeEffect`,
`IndexOutcome*`, `InsertAll*`) describe reachable behaviour.

## Left out

- Chunk reading (`read_chunk.hpp`) and the typed interleaved buffer (`GLBuffer.hpp`, `GLAttribBuffer`) are not part of this model. Each chunk is an input: either its decoded payload or `Malformed`. The record size, the tag check and the "payload length divides by the record size" check therefore stay outside.
- The attribute pointer's fields (buffer, size, type, normalized, stride, offset) and their zero defaults are assumed from their uses in Meshes.cpp and GLVertexArray.hpp. A pointer is "undefined" when its buffer is 0.
- The file name and the string table (`std::vector<char>`, Meshes.cpp:56) are bytes; the model uses `string`, one `char` per byte. The walk only measures, slices and compares names for equality, so no behaviour depends on the difference.
- File I/O (`std::ifstream`). Also the trailing-data `peek` at Meshes.cpp:91-93, which only prints a warning.
- Every `std::cerr` warning: the name collision on insert, an unused attribute with a defined pointer, and the "attribute was not bound" lines. The control flow around them is modelled; the text is not.
- The vertex-buffer upload and the `buffer.buffer = 0` detach at Meshes.cpp:34 and 50. These concern GPU resource ownership and have no observable logic here.
- Real GL effects: creating and binding the vertex array object, `glBindBuffer`, `glVertexAttribPointer` and `glGetProgram`. Binding is the `BindCall` trace; the active-attribute count is a parameter.
- `glGetActiveAttrib` name queries: uncovered attributes are reported by location number, not by name.
- The vertex array object's constructor, move constructor and destructor (GLVertexArray.hpp:18-21).
- The `assert`s of make_binding (active > 0, a location in range, a location not already bound) are preconditions of `MakeBinding`. They are required only of the pairs the first pass reaches. In a build without assertions the source does not check them; that behaviour is not modelled.
- `&strings[0]` on an empty string table, at Meshes.cpp:76, is undefined behaviour in C++. The model gives such an entry, which must then have begin = end = 0, the empty name.
- GLProgram.cpp (shader compile and link wrappers) and MenuMode.cpp (asset registration, events, drawing) are not part of this model.
