/** The index chunk of a mesh file and what walking it does to the database:
    each 16-byte entry names a substring of the string table and a range of
    the uploaded vertices; entries are checked and inserted in order, the
    first bad entry aborts the walk, and a name already present keeps its
    mesh. */
module MeshIndex {
  import opened GLTypes
  import opened MeshTypes

  /** One packed index record: four uint32 fields. */
  datatype IndexEntry = IndexEntry(nameBegin: u32, nameEnd: u32, vertexStart: u32, vertexCount: u32)

  /** The Position, Normal and Color pointers load took from the vertex buffer. */
  datatype LayoutPointers = LayoutPointers(position: AttribPointer, normal: AttribPointer, color: AttribPointer)

  predicate NameInRange(e: IndexEntry, stringsLength: nat)
  {
    e.nameBegin <= e.nameEnd <= stringsLength
  }

  /** The two checks load makes of an entry, in the order it makes them. The
      vertex check uses wrapping uint32 addition; the contract restates it in
      unbounded integers: a non-empty range that ends inside the upload. */
  function EntryError(e: IndexEntry, stringsLength: nat, total: u32): (r: Option<MeshError>)
    ensures r == Some(NameOutOfRange) <==> !NameInRange(e, stringsLength)
    ensures r == Some(VertexOutOfRange) <==>
              NameInRange(e, stringsLength) && !(0 < e.vertexCount && e.vertexStart + e.vertexCount <= total)
    ensures r == None <==>
              NameInRange(e, stringsLength) && 0 < e.vertexCount && e.vertexStart + e.vertexCount <= total
  {
    var end := Add32(e.vertexStart, e.vertexCount);
    if !(e.nameBegin <= e.nameEnd && e.nameEnd <= stringsLength) then Some(NameOutOfRange)
    else if !(e.vertexStart < end && end <= total) then Some(VertexOutOfRange)
    else None
  }

  predicate Accepted(e: IndexEntry, stringsLength: nat, total: u32)
    ensures Accepted(e, stringsLength, total) ==> NameInRange(e, stringsLength)
  {
    EntryError(e, stringsLength, total) == None
  }

  predicate NamesInRange(index: seq<IndexEntry>, stringsLength: nat)
  {
    forall j :: 0 <= j < |index| ==> NameInRange(index[j], stringsLength)
  }

  predicate AllAccepted(index: seq<IndexEntry>, stringsLength: nat, total: u32)
    ensures AllAccepted(index, stringsLength, total) ==> NamesInRange(index, stringsLength)
  {
    forall j :: 0 <= j < |index| ==> Accepted(index[j], stringsLength, total)
  }

  /** The key an entry is stored under: the bytes [nameBegin, nameEnd) of the table. */
  function EntryName(strings: string, e: IndexEntry): string
    requires NameInRange(e, |strings|)
  {
    strings[e.nameBegin..e.nameEnd]
  }

  /** The mesh load builds for an accepted entry: a default mesh given the
      layout's pointers and the entry's range; TexCoord is never assigned. */
  function EntryMesh(ptrs: LayoutPointers, e: IndexEntry): Mesh
  {
    DefaultMesh.(position := ptrs.position, normal := ptrs.normal, color := ptrs.color,
                 start := e.vertexStart, count := e.vertexCount)
  }

  /** std::map::insert: a key that is already present keeps its value. */
  function InsertFirstWins(m: MeshMap, name: string, mesh: Mesh): MeshMap
  {
    if name in m then m else m[name := mesh]
  }

  /** The position of the first rejected entry, or |index| when all are accepted. */
  function FirstRejected(index: seq<IndexEntry>, stringsLength: nat, total: u32): (k: nat)
    ensures k <= |index|
    ensures forall j :: 0 <= j < k ==> Accepted(index[j], stringsLength, total)
    ensures k < |index| ==> !Accepted(index[k], stringsLength, total)
  {
    if index == [] then 0
    else if !Accepted(index[0], stringsLength, total) then 0
    else 1 + FirstRejected(index[1..], stringsLength, total)
  }

  /** The database after inserting the given (already checked) entries in order. */
  function InsertAll(m: MeshMap, ptrs: LayoutPointers, strings: string, index: seq<IndexEntry>): MeshMap
    requires NamesInRange(index, |strings|)
  {
    if index == [] then m
    else
      var last := index[|index| - 1];
      InsertFirstWins(InsertAll(m, ptrs, strings, index[..|index| - 1]), EntryName(strings, last), EntryMesh(ptrs, last))
  }

  /** The database and the status after the index loop of load: every entry
      before the first rejected one is inserted, none after it. */
  function IndexOutcome(m: MeshMap, ptrs: LayoutPointers, total: u32, strings: string, index: seq<IndexEntry>): (MeshMap, Status)
  {
    var k := FirstRejected(index, |strings|, total);
    assert NamesInRange(index[..k], |strings|) by {
      forall j | 0 <= j < k ensures NameInRange(index[..k][j], |strings|) {
        assert Accepted(index[j], |strings|, total);
      }
    }
    (InsertAll(m, ptrs, strings, index[..k]),
     if k == |index| then Done else Failed(EntryError(index[k], |strings|, total).value))
  }

  /** A mesh load built from an entry meeting both checks against this upload. */
  predicate FromUpload(mesh: Mesh, ptrs: LayoutPointers, total: u32)
  {
    && mesh.position == ptrs.position
    && mesh.normal == ptrs.normal
    && mesh.color == ptrs.color
    && mesh.texCoord == Undefined
    && 0 < mesh.count
    && mesh.start + mesh.count <= total
  }

  // ---------------------------------------------------------------------------
  // Lemmas

  /** Characterisation helper: the contract of FirstRejected already fixes
      the position, so this only restates it in the form the loop uses. */
  lemma {:induction false} FirstRejectedIs(index: seq<IndexEntry>, stringsLength: nat, total: u32, k: nat)
    requires k <= |index|
    requires forall j :: 0 <= j < k ==> Accepted(index[j], stringsLength, total)
    requires k < |index| ==> !Accepted(index[k], stringsLength, total)
    ensures FirstRejected(index, stringsLength, total) == k
  {
  }

  /** Inserting never removes a key and never changes the mesh stored under one. */
  lemma {:induction false} InsertAllKeepsExisting(m: MeshMap, ptrs: LayoutPointers, strings: string, index: seq<IndexEntry>, name: string)
    requires NamesInRange(index, |strings|)
    requires name in m
    ensures name in InsertAll(m, ptrs, strings, index)
    ensures InsertAll(m, ptrs, strings, index)[name] == m[name]
  {
    if index != [] {
      InsertAllKeepsExisting(m, ptrs, strings, index[..|index| - 1], name);
    }
  }

  /** The keys afterwards are the old keys plus the names of the inserted entries. */
  lemma {:induction false} InsertAllKeys(m: MeshMap, ptrs: LayoutPointers, strings: string, index: seq<IndexEntry>, name: string)
    requires NamesInRange(index, |strings|)
    ensures name in InsertAll(m, ptrs, strings, index) <==>
              name in m || exists j :: 0 <= j < |index| && EntryName(strings, index[j]) == name
  {
    if index != [] {
      var prefix := index[..|index| - 1];
      InsertAllKeys(m, ptrs, strings, prefix, name);
      if exists j :: 0 <= j < |index| && EntryName(strings, index[j]) == name {
        var j :| 0 <= j < |index| && EntryName(strings, index[j]) == name;
        if j < |index| - 1 {
          assert EntryName(strings, prefix[j]) == name;
        }
      }
      if exists j :: 0 <= j < |prefix| && EntryName(strings, prefix[j]) == name {
        var j :| 0 <= j < |prefix| && EntryName(strings, prefix[j]) == name;
        assert EntryName(strings, index[j]) == name;
      }
    }
  }

  /** First wins: the name of entry j, when it is new and no earlier entry had
      it, ends up holding exactly the mesh built from entry j. */
  lemma {:induction false} InsertAllFirstWins(m: MeshMap, ptrs: LayoutPointers, strings: string, index: seq<IndexEntry>, j: nat)
    requires NamesInRange(index, |strings|)
    requires j < |index|
    requires EntryName(strings, index[j]) !in m
    requires forall i :: 0 <= i < j ==> EntryName(strings, index[i]) != EntryName(strings, index[j])
    ensures EntryName(strings, index[j]) in InsertAll(m, ptrs, strings, index)
    ensures InsertAll(m, ptrs, strings, index)[EntryName(strings, index[j])] == EntryMesh(ptrs, index[j])
  {
    var prefix := index[..|index| - 1];
    var name := EntryName(strings, index[j]);
    if j == |index| - 1 {
      forall i | 0 <= i < |prefix| ensures EntryName(strings, prefix[i]) != name {
        assert prefix[i] == index[i];
      }
      InsertAllKeys(m, ptrs, strings, prefix, name);
    } else {
      assert prefix[j] == index[j];
      forall i | 0 <= i < j ensures EntryName(strings, prefix[i]) != EntryName(strings, prefix[j]) {
        assert prefix[i] == index[i];
      }
      InsertAllFirstWins(m, ptrs, strings, prefix, j);
    }
  }

  /** Every mesh that a walk over accepted entries adds is a view of this
      upload: the layout's pointers, no TexCoord, a non-empty in-bounds range. */
  lemma {:induction false} InsertAllFromUpload(m: MeshMap, ptrs: LayoutPointers, total: u32, strings: string, index: seq<IndexEntry>, name: string)
    requires AllAccepted(index, |strings|, total)
    requires name in InsertAll(m, ptrs, strings, index) && name !in m
    ensures FromUpload(InsertAll(m, ptrs, strings, index)[name], ptrs, total)
  {
    var prefix := index[..|index| - 1];
    var last := index[|index| - 1];
    assert Accepted(last, |strings|, total);
    if name in InsertAll(m, ptrs, strings, prefix) {
      assert AllAccepted(prefix, |strings|, total) by {
        forall j | 0 <= j < |prefix| ensures Accepted(prefix[j], |strings|, total) {
          assert prefix[j] == index[j];
        }
      }
      InsertAllFromUpload(m, ptrs, total, strings, prefix, name);
    }
  }

  /** The walk stops at the first rejected entry: it succeeds iff every entry
      is accepted, and otherwise it reports that entry's error and has inserted
      exactly the entries before it. */
  lemma {:induction false} IndexOutcomeInOrder(m: MeshMap, ptrs: LayoutPointers, total: u32, strings: string, index: seq<IndexEntry>)
    ensures IndexOutcome(m, ptrs, total, strings, index).1 == Done <==>
              forall j :: 0 <= j < |index| ==> Accepted(index[j], |strings|, total)
    ensures IndexOutcome(m, ptrs, total, strings, index).1 == Done ==>
              IndexOutcome(m, ptrs, total, strings, index).0 == InsertAll(m, ptrs, strings, index)
    ensures IndexOutcome(m, ptrs, total, strings, index).1.Failed? ==>
              exists k :: 0 <= k < |index|
                && (forall j :: 0 <= j < k ==> Accepted(index[j], |strings|, total))
                && EntryError(index[k], |strings|, total) == Some(IndexOutcome(m, ptrs, total, strings, index).1.error)
                && NamesInRange(index[..k], |strings|)
                && IndexOutcome(m, ptrs, total, strings, index).0 == InsertAll(m, ptrs, strings, index[..k])
  {
    var k := FirstRejected(index, |strings|, total);
    assert index[..|index|] == index;
    if k < |index| {
      assert !Accepted(index[k], |strings|, total);
    }
  }

  /** What the walk leaves in the database, whether or not it fails: every old
      entry unchanged, the new keys exactly the names of the entries before
      the first rejected one, and every new mesh a valid view of the upload. */
  lemma {:induction false} IndexOutcomeEffect(m: MeshMap, ptrs: LayoutPointers, total: u32, strings: string, index: seq<IndexEntry>, name: string)
    ensures var r := IndexOutcome(m, ptrs, total, strings, index).0;
            name in m ==> name in r && r[name] == m[name]
    ensures var r := IndexOutcome(m, ptrs, total, strings, index).0;
            var k := FirstRejected(index, |strings|, total);
            name in r <==> name in m || exists j :: 0 <= j < k && NameInRange(index[j], |strings|) && EntryName(strings, index[j]) == name
    ensures var r := IndexOutcome(m, ptrs, total, strings, index).0;
            name in r && name !in m ==> FromUpload(r[name], ptrs, total)
  {
    var k := FirstRejected(index, |strings|, total);
    var done := index[..k];
    forall j | 0 <= j < k ensures NameInRange(done[j], |strings|) && done[j] == index[j] {
      assert Accepted(index[j], |strings|, total);
    }
    if name in m {
      InsertAllKeepsExisting(m, ptrs, strings, done, name);
    }
    InsertAllKeys(m, ptrs, strings, done, name);
    if exists j :: 0 <= j < k && NameInRange(index[j], |strings|) && EntryName(strings, index[j]) == name {
      var j :| 0 <= j < k && NameInRange(index[j], |strings|) && EntryName(strings, index[j]) == name;
      assert EntryName(strings, done[j]) == name;
    }
    if name in InsertAll(m, ptrs, strings, done) && name !in m {
      InsertAllFromUpload(m, ptrs, total, strings, done, name);
    }
  }

  /** A file holding names "head" and "arm" over three vertices: both
      entries are accepted and each name maps to its own range. */
  lemma {:induction false} HeadArmScenario(ptrs: LayoutPointers)
    ensures var index := [IndexEntry(0, 4, 0, 1), IndexEntry(4, 7, 1, 2)];
            var (r, status) := IndexOutcome(map[], ptrs, 3, "headarm", index);
            && status == Done
            && r.Keys == {"head", "arm"}
            && r["head"].start == 0 && r["head"].count == 1
            && r["arm"].start == 1 && r["arm"].count == 2
  {
    var index := [IndexEntry(0, 4, 0, 1), IndexEntry(4, 7, 1, 2)];
    assert Accepted(index[0], 7, 3) && Accepted(index[1], 7, 3);
    FirstRejectedIs(index, 7, 3, 2);
    assert index[..2] == index;
    assert index[..1] == [index[0]];
    assert "headarm"[0..4] == "head" && "headarm"[4..7] == "arm";
    var first := InsertAll(map[], ptrs, "headarm", index[..1]);
    assert index[..1][..0] == [];
    assert InsertAll(map[], ptrs, "headarm", index[..1][..0]) == map[];
    assert EntryName("headarm", index[..1][0]) == "head";
    assert first == map["head" := EntryMesh(ptrs, index[0])];
    assert IndexOutcome(map[], ptrs, 3, "headarm", index).0 == first["arm" := EntryMesh(ptrs, index[1])];
  }

  /** An entry whose range [2, 4) runs past a three-vertex upload fails the
      load with the vertex-range error and inserts nothing. */
  lemma {:induction false} RangePastUploadScenario(ptrs: LayoutPointers)
    ensures IndexOutcome(map[], ptrs, 3, "headarm", [IndexEntry(0, 4, 2, 2)]) == (map[], Failed(VertexOutOfRange))
  {
    var index := [IndexEntry(0, 4, 2, 2)];
    assert EntryError(index[0], 7, 3) == Some(VertexOutOfRange);
    FirstRejectedIs(index, 7, 3, 0);
  }
}
