/** The `Geometry` object of index.js: `add` records meshes and bumps the running
    counts, `pack` allocates each buffer once at its final size and fills it. */
module SceneGeometry {
  import opened MeshInput
  import opened TypedArrays
  import opened Layout

  /** What the instance-table sizer reports for a model count: the table's
      width and height and the length of its backing array. */
  datatype TableSize = TableSize(width: nat, height: nat, length: nat)

  class Geometry {
    /** `_data`: one record per `add`, in call order. */
    var records: seq<Record>
    /** `_idCount`: the next id to hand out. */
    var idCount: nat
    /** `data.positions.count`, `data.ids.count`, `data.elements.count`,
        `data.models.count`. */
    var positionsCount: nat
    var idsCount: nat
    var elementsCount: nat
    var modelsCount: nat
    /** `data.positions.data` (Float32Array), `data.ids.data` (Float32Array),
        `data.elements.data` (Uint32Array). */
    var positions: array<int>
    var ids: array<int>
    var elements: array<int>
    /** `data.models.size` and `data.models.data`. */
    var modelsSize: (nat, nat)
    var models: array<int>

    /** The counts are the totals of what was recorded, and the records are
        laid out as successive `add` calls leave them. */
    ghost predicate Valid()
      reads this
    {
      Consistent(records, idCount, modelsCount, positionsCount, idsCount, elementsCount)
    }

    /** `new Geometry(opts)`: no records, zero counts, empty buffers. */
    constructor ()
      ensures Valid()
      ensures records == [] && idCount == 0
      ensures positionsCount == 0 && idsCount == 0 && elementsCount == 0 && modelsCount == 0
      ensures positions.Length == 0 && ids.Length == 0 && elements.Length == 0 && models.Length == 0
      ensures modelsSize == (0, 0)
    {
      records := [];
      idCount := 0;
      positionsCount, idsCount, elementsCount, modelsCount := 0, 0, 0, 0;
      positions := new int[0];
      ids := new int[0];
      elements := new int[0];
      modelsSize := (0, 0);
      models := new int[0];
    }

    /** `add(name, mesh)`: counts the mesh's vertices and triangles, hands out
        the next id and records the ranges the mesh will occupy. No data is
        copied and no buffer changes. */
    method Add(name: string, mesh: Mesh)
      requires Valid() && WellFormedMesh(mesh)
      modifies this
      ensures Valid()
      ensures positionsCount == old(positionsCount) + 3 * VertexCount(mesh)
      ensures idsCount == old(idsCount) + VertexCount(mesh)
      ensures elementsCount == old(elementsCount) + 3 * TriangleCount(mesh)
      ensures idCount == old(idCount) + 1 && modelsCount == old(modelsCount) + 1
      ensures records == old(records) + [Record(name, mesh, old(idCount),
                                                Range(old(positionsCount), positionsCount),
                                                Range(old(elementsCount), elementsCount))]
      ensures positions == old(positions) && ids == old(ids) && elements == old(elements)
      ensures models == old(models) && modelsSize == old(modelsSize)
    {
      var posCount := GetCount(mesh.positions, 3);
      var newPositions := positionsCount + posCount * 3;
      var newIds := idsCount + posCount;
      var cellCount := GetCount(mesh.cells, 3);
      var newElements := elementsCount + cellCount * 3;
      var id := idCount;
      var r := Record(name, mesh, id,
                      Range(newPositions - posCount * 3, newPositions),
                      Range(newElements - cellCount * 3, newElements));
      AddKeepsConsistent(records, idCount, modelsCount, positionsCount, idsCount, elementsCount, r);
      records, idCount, modelsCount, positionsCount, idsCount, elementsCount :=
        records + [r], id + 1, modelsCount + 1, newPositions, newIds, newElements;
    }

    /** `pack(msize)`: allocates the three buffers at exactly the accumulated
        counts, sizes the instance table from `msize` (what the external sizer
        answers for `modelsCount`), then walks the records in insertion order
        writing each mesh into its ranges. */
    method Pack(msize: TableSize)
      requires Valid()
      modifies this
      ensures Valid()
      ensures records == old(records) && idCount == old(idCount)
      ensures positionsCount == old(positionsCount) && idsCount == old(idsCount)
      ensures elementsCount == old(elementsCount) && modelsCount == old(modelsCount)
      ensures fresh(positions) && fresh(ids) && fresh(elements) && fresh(models)
      ensures positions.Length == positionsCount && ids.Length == idsCount
      ensures elements.Length == elementsCount
      ensures positions[..] == PackedPositions(records)
      ensures ids[..] == PackedIds(records, idsCount)
      ensures elements[..] == PackedElements(records)
      ensures modelsSize == (msize.width, msize.height)
      ensures models[..] == Zeros(msize.length)
    {
      var pos, idb, el := FillBuffers(records, positionsCount, idsCount, elementsCount);
      var tbl := NewZeros(msize.length);
      positions, ids, elements, modelsSize, models := pos, idb, el, (msize.width, msize.height), tbl;
    }
  }

  /** The three buffers of `pack`, allocated zero-filled at the given counts
      and filled by walking the records in insertion order. */
  method FillBuffers(rs: seq<Record>, positionsCount: nat, idsCount: nat, elementsCount: nat)
    returns (pos: array<int>, idb: array<int>, el: array<int>)
    requires Laid(rs) && AllWellFormed(rs)
    requires positionsCount == 3 * SumVertices(rs) && elementsCount == 3 * SumTriangles(rs)
    ensures fresh(pos) && fresh(idb) && fresh(el)
    ensures pos.Length == positionsCount && idb.Length == idsCount && el.Length == elementsCount
    ensures pos[..] == PackedPositions(rs)
    ensures idb[..] == PackedIds(rs, idsCount)
    ensures el[..] == PackedElements(rs)
  {
    pos := NewZeros(positionsCount);
    idb := NewZeros(idsCount);
    el := NewZeros(elementsCount);
    ZerosFilledUpTo(PackedPositions(rs));
    ZerosFilledUpTo(PackedElements(rs));
    PackAll(pos, idb, el, rs);
  }

  /** The loop of `pack` over all records, from zero-filled buffers. */
  method PackAll(pos: array<int>, idb: array<int>, el: array<int>, rs: seq<Record>)
    requires Laid(rs) && AllWellFormed(rs)
    requires pos != idb && pos != el && idb != el
    requires FilledUpTo(pos[..], PackedPositions(rs), 0)
    requires idb[..] == IdsBefore(rs, 0, idb.Length)
    requires FilledUpTo(el[..], PackedElements(rs), 0)
    modifies pos, idb, el
    ensures pos[..] == PackedPositions(rs)
    ensures idb[..] == PackedIds(rs, idb.Length)
    ensures el[..] == PackedElements(rs)
  {
    var i := 0;
    while i < |rs|
      invariant 0 <= i <= |rs|
      invariant FilledUpTo(pos[..], PackedPositions(rs), 3 * VerticesBefore(rs, i))
      invariant idb[..] == IdsBefore(rs, i, idb.Length)
      invariant FilledUpTo(el[..], PackedElements(rs), 3 * TrianglesBefore(rs, i))
    {
      PackRecord(pos, idb, el, rs, i);
      i := i + 1;
    }
    FilledUpToAll(pos[..], PackedPositions(rs));
    FilledUpToAll(el[..], PackedElements(rs));
  }

  /** A zero-filled buffer has nothing written yet. */
  lemma ZerosFilledUpTo(full: seq<int>)
    ensures FilledUpTo(Zeros(|full|), full, 0)
  {
  }

  /** One pass of the loop of `pack`: record `i`'s slice of the id buffer is
      filled with its id, then its positions and cells are written. */
  method PackRecord(pos: array<int>, idb: array<int>, el: array<int>, rs: seq<Record>, i: nat)
    requires Laid(rs) && AllWellFormed(rs) && i < |rs|
    requires pos != idb && pos != el && idb != el
    requires FilledUpTo(pos[..], PackedPositions(rs), 3 * VerticesBefore(rs, i))
    requires idb[..] == IdsBefore(rs, i, idb.Length)
    requires FilledUpTo(el[..], PackedElements(rs), 3 * TrianglesBefore(rs, i))
    modifies pos, idb, el
    ensures FilledUpTo(pos[..], PackedPositions(rs), 3 * VerticesBefore(rs, i + 1))
    ensures idb[..] == IdsBefore(rs, i + 1, idb.Length)
    ensures FilledUpTo(el[..], PackedElements(rs), 3 * TrianglesBefore(rs, i + 1))
  {
    IdsStep(idb, rs, i);
    PositionsStep(pos, rs, i);
    CellsStep(el, rs, i);
  }

  /** `ids.data.subarray(pr[0], pr[1]).fill(d.id)` for record `i`. */
  method IdsStep(idb: array<int>, rs: seq<Record>, i: nat)
    requires i < |rs|
    requires idb[..] == IdsBefore(rs, i, idb.Length)
    modifies idb
    ensures idb[..] == IdsBefore(rs, i + 1, idb.Length)
  {
    SubarrayFill(idb, rs[i].positionRange.lo, rs[i].positionRange.hi, rs[i].id);
  }

  /** Record `i`'s positions written into its position range. */
  method PositionsStep(pos: array<int>, rs: seq<Record>, i: nat)
    requires Laid(rs) && AllWellFormed(rs) && i < |rs|
    requires FilledUpTo(pos[..], PackedPositions(rs), 3 * VerticesBefore(rs, i))
    modifies pos
    ensures FilledUpTo(pos[..], PackedPositions(rs), 3 * VerticesBefore(rs, i + 1))
  {
    assert Booked(rs, i);
    PositionsFit(rs, i);
    WritePositions(pos, PackedPositions(rs), rs[i].mesh.positions, rs[i].positionRange.lo);
  }

  /** Record `i`'s cells written into its cell range. */
  method CellsStep(el: array<int>, rs: seq<Record>, i: nat)
    requires Laid(rs) && AllWellFormed(rs) && i < |rs|
    requires FilledUpTo(el[..], PackedElements(rs), 3 * TrianglesBefore(rs, i))
    modifies el
    ensures FilledUpTo(el[..], PackedElements(rs), 3 * TrianglesBefore(rs, i + 1))
  {
    assert Booked(rs, i);
    CellsFit(rs, i);
    WriteCells(el, PackedElements(rs), rs[i].mesh.cells, rs[i].cellRange.lo, rs[i].positionRange.lo / 3);
  }

  /** A zero-filled array of length `n`, as `new Float32Array(n)` and
      `new Uint32Array(n)` allocate it. */
  method NewZeros(n: nat) returns (a: array<int>)
    ensures fresh(a) && a[..] == Zeros(n)
  {
    a := new int[n](_ => 0);
  }

  /** A buffer written up to its full length is the full contents. */
  lemma FilledUpToAll(buf: seq<int>, full: seq<int>)
    requires FilledUpTo(buf, full, |full|)
    ensures buf == full
  {
  }

  /** The state `Geometry` keeps between calls: the records are laid out as
      successive `add` calls leave them, and every count is the total of what
      was recorded. */
  ghost predicate Consistent(rs: seq<Record>, idCount: nat, modelsCount: nat,
                             positionsCount: nat, idsCount: nat, elementsCount: nat)
  {
    Laid(rs) && AllWellFormed(rs) &&
    idCount == |rs| && modelsCount == |rs| &&
    positionsCount == 3 * SumVertices(rs) &&
    idsCount == SumVertices(rs) &&
    elementsCount == 3 * SumTriangles(rs)
  }

  /** What one `add` does to the counts keeps them consistent with the records
      extended by the record it builds. */
  lemma AddKeepsConsistent(rs: seq<Record>, idCount: nat, modelsCount: nat,
                           positionsCount: nat, idsCount: nat, elementsCount: nat, r: Record)
    requires Consistent(rs, idCount, modelsCount, positionsCount, idsCount, elementsCount)
    requires WellFormedMesh(r.mesh) && r.id == idCount
    requires r.positionRange == Range(positionsCount, positionsCount + 3 * VertexCount(r.mesh))
    requires r.cellRange == Range(elementsCount, elementsCount + 3 * TriangleCount(r.mesh))
    ensures Consistent(rs + [r], idCount + 1, modelsCount + 1,
                       positionsCount + 3 * VertexCount(r.mesh), idsCount + VertexCount(r.mesh),
                       elementsCount + 3 * TriangleCount(r.mesh))
  {
    AddRecordLaid(rs, r);
  }

  /** One mesh's positions written at `lo`, where the packed buffer `full`
      holds them: flat positions with `set`, nested ones with the row loop. */
  method WritePositions(pos: array<int>, ghost full: seq<int>, p: Data<int>, lo: nat)
    requires WellFormed(p)
    requires FilledUpTo(pos[..], full, lo)
    requires lo + |Flatten(p)| <= |full|
    requires forall u :: 0 <= u < |Flatten(p)| ==> full[lo + u] == Flatten(p)[u]
    modifies pos
    ensures FilledUpTo(pos[..], full, lo + |Flatten(p)|)
  {
    ghost var before := pos[..];
    if IsFlat(p) {
      CountMatchesFlatten(p);
      Set(pos, FlatItems(p), lo);
    } else {
      CopyRows(pos, p.rows, lo);
    }
    WriteNext(pos[..], before, full, lo, Flatten(p));
  }

  /** One mesh's cells written at `lo`, where the packed buffer `full` holds
      them: flat cells with `set` and no rebasing, nested ones with the row
      loop, rebased by `offset`. */
  method WriteCells(el: array<int>, ghost full: seq<int>, c: Data<nat>, lo: nat, offset: nat)
    requires WellFormed(c)
    requires FilledUpTo(el[..], full, lo)
    requires lo + |Placed(c, offset)| <= |full|
    requires forall u :: 0 <= u < |Placed(c, offset)| ==> full[lo + u] == Placed(c, offset)[u]
    modifies el
    ensures FilledUpTo(el[..], full, lo + |Placed(c, offset)|)
  {
    ghost var before := el[..];
    if IsFlat(c) {
      Set(el, Stored(FlatItems(c)), lo);
    } else {
      CopyRebasedRows(el, c.rows, lo, offset);
    }
    WriteNext(el[..], before, full, lo, Placed(c, offset));
  }

  /** Record `i`'s flattened positions are the slice of the packed position
      buffer at its range. */
  lemma PositionsFit(rs: seq<Record>, i: nat)
    requires Laid(rs) && AllWellFormed(rs) && i < |rs|
    ensures WellFormed(rs[i].mesh.positions)
    ensures rs[i].positionRange.hi == rs[i].positionRange.lo + |Flatten(rs[i].mesh.positions)|
    ensures rs[i].positionRange.hi <= |PackedPositions(rs)|
    ensures forall u :: 0 <= u < |Flatten(rs[i].mesh.positions)| ==>
              PackedPositions(rs)[rs[i].positionRange.lo + u] == Flatten(rs[i].mesh.positions)[u]
  {
    assert WellFormedMesh(rs[i].mesh);
    CountMatchesFlatten(rs[i].mesh.positions);
    RangesTile(rs, i);
    RangesInside(rs, i);
    forall u | 0 <= u < |Flatten(rs[i].mesh.positions)|
      ensures PackedPositions(rs)[rs[i].positionRange.lo + u] == Flatten(rs[i].mesh.positions)[u]
    {
      PackedPositionAt(rs, i, u);
    }
  }

  /** Record `i`'s placed cells are the slice of the packed element buffer at
      its range. */
  lemma CellsFit(rs: seq<Record>, i: nat)
    requires Laid(rs) && AllWellFormed(rs) && i < |rs|
    ensures WellFormed(rs[i].mesh.cells)
    ensures rs[i].cellRange.hi == rs[i].cellRange.lo + |Placed(rs[i].mesh.cells, rs[i].positionRange.lo / 3)|
    ensures rs[i].cellRange.hi <= |PackedElements(rs)|
    ensures forall u :: 0 <= u < |Placed(rs[i].mesh.cells, rs[i].positionRange.lo / 3)| ==>
              PackedElements(rs)[rs[i].cellRange.lo + u] == Placed(rs[i].mesh.cells, rs[i].positionRange.lo / 3)[u]
  {
    assert WellFormedMesh(rs[i].mesh);
    assert PlacedFor(rs[i]) == Placed(rs[i].mesh.cells, rs[i].positionRange.lo / 3);
    RangesTile(rs, i);
    RangesInside(rs, i);
    forall u | 0 <= u < |PlacedFor(rs[i])|
      ensures PackedElements(rs)[rs[i].cellRange.lo + u] == PlacedFor(rs[i])[u]
    {
      PackedCellAt(rs, i, u);
    }
  }

  /** The loop of `pack` over nested positions: component `k` of row `j` is
      written at `off + 3*j + k`. */
  method CopyRows(a: array<int>, rows: seq<seq<int>>, off: nat)
    requires RowsWellFormed(rows) && off + 3 * |rows| <= a.Length
    modifies a
    ensures Overlaid(a[..], old(a[..]), off, FlattenRows(rows))
  {
    ghost var src := FlattenRows(rows);
    var l := |rows|;
    var j := 0;
    while j < l
      invariant 0 <= j <= l
      invariant forall t :: 0 <= t < a.Length ==>
                  a[t] == (if off <= t < off + 3 * j then src[t - off] else old(a[t]))
    {
      var p := rows[j];
      a[off + j * 3 + 0] := p[0];
      a[off + j * 3 + 1] := p[1];
      a[off + j * 3 + 2] := p[2];
      assert src[3 * j] == p[0] && src[3 * j + 1] == p[1] && src[3 * j + 2] == p[2];
      j := j + 1;
    }
  }

  /** The loop of `pack` over nested cells: component `k` of row `j` is
      written at `off + 3*j + k` as the local index plus the vertex offset, as
      a `Uint32Array` stores it. */
  method CopyRebasedRows(a: array<int>, rows: seq<seq<nat>>, off: nat, offset: nat)
    requires RowsWellFormed(rows) && off + 3 * |rows| <= a.Length
    modifies a
    ensures Overlaid(a[..], old(a[..]), off, Rebased(FlattenRows(rows), offset))
  {
    ghost var src := Rebased(FlattenRows(rows), offset);
    var l := |rows|;
    var j := 0;
    while j < l
      invariant 0 <= j <= l
      invariant forall t :: 0 <= t < a.Length ==>
                  a[t] == (if off <= t < off + 3 * j then src[t - off] else old(a[t]))
    {
      var c := rows[j];
      a[off + j * 3 + 0] := U32(c[0] + offset);
      a[off + j * 3 + 1] := U32(c[1] + offset);
      a[off + j * 3 + 2] := U32(c[2] + offset);
      assert FlattenRows(rows)[3 * j] == c[0];
      assert FlattenRows(rows)[3 * j + 1] == c[1];
      assert FlattenRows(rows)[3 * j + 2] == c[2];
      j := j + 1;
    }
  }
}
