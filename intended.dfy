/** Two places where `pack` as written does not produce what the buffers are
    for, each shown on a concrete input, next to the corrected definition and
    the property it was meant to have. `Geometry.Pack` keeps the code as
    written; the corrected definitions are stated beside it. */
module Intended {
  import opened MeshInput
  import opened TypedArrays
  import opened Layout

  // ---------------------------------------------------------------------------
  // The id buffer. It holds one entry per vertex (`ids.count` grows by the
  // vertex count) and the shader reads it per vertex, but `pack` fills it over
  // `positionRange`, which counts three elements per vertex.

  /** The id buffer the renderer expects over the first `n` records: for
      every vertex, the id of the mesh it belongs to. */
  function VertexIdsBefore(rs: seq<Record>, n: nat): (s: seq<int>)
    requires n <= |rs|
    ensures |s| == VerticesBefore(rs, n)
  {
    if n == 0 then []
    else VertexIdsBefore(rs, n - 1) + seq(VertexCount(rs[n - 1].mesh), _ => rs[n - 1].id)
  }

  function VertexIds(rs: seq<Record>): (s: seq<int>)
    ensures |s| == SumVertices(rs)
  {
    VertexIdsBefore(rs, |rs|)
  }

  /** The corrected fill over the first `n` records of a buffer of length
      `len`: `subarray(pr[0] / 3, pr[1] / 3).fill(id)`, the position range
      converted to a vertex range. */
  function CorrectedIdsBefore(rs: seq<Record>, n: nat, len: nat): (s: seq<int>)
    requires n <= |rs|
    ensures |s| == len
  {
    if n == 0 then Zeros(len)
    else
      var r := rs[n - 1];
      Filled(CorrectedIdsBefore(rs, n - 1, len), r.positionRange.lo / 3, r.positionRange.hi / 3, r.id)
  }

  function CorrectedIds(rs: seq<Record>, len: nat): (s: seq<int>)
    ensures |s| == len
  {
    CorrectedIdsBefore(rs, |rs|, len)
  }

  lemma {:induction false} CorrectedIdsPrefix(rs: seq<Record>, n: nat, len: nat)
    requires Laid(rs) && n <= |rs| && VerticesBefore(rs, n) <= len
    ensures CorrectedIdsBefore(rs, n, len) == VertexIdsBefore(rs, n) + Zeros(len - VerticesBefore(rs, n))
    decreases n
  {
    if n > 0 {
      var r := rs[n - 1];
      var lo, hi := VerticesBefore(rs, n - 1), VerticesBefore(rs, n);
      CorrectedIdsPrefix(rs, n - 1, len);
      assert Booked(rs, n - 1);
      DivThree(lo);
      DivThree(hi);
      assert r.positionRange.lo / 3 == lo && r.positionRange.hi / 3 == hi;
      var before := CorrectedIdsBefore(rs, n - 1, len);
      var after := CorrectedIdsBefore(rs, n, len);
      var want := VertexIdsBefore(rs, n) + Zeros(len - hi);
      forall v | 0 <= v < len
        ensures after[v] == want[v]
      {
        if v < lo {
          assert after[v] == before[v] == VertexIdsBefore(rs, n - 1)[v];
        } else if v < hi {
          assert after[v] == r.id;
        } else {
          assert after[v] == before[v] == 0;
        }
      }
    }
  }

  /** The corrected fill gives every vertex its own mesh's id, followed by
      zeros in any slots past the last vertex. */
  lemma CorrectedIdsAreVertexIds(rs: seq<Record>, len: nat)
    requires Laid(rs) && SumVertices(rs) <= len
    ensures CorrectedIds(rs, len) == VertexIds(rs) + Zeros(len - SumVertices(rs))
  {
    CorrectedIdsPrefix(rs, |rs|, len);
  }

  /** Vertex `v` of record `i` carries id `i` in every prefix that includes
      the record. */
  lemma {:induction false} VertexIdsAt(rs: seq<Record>, n: nat, i: nat, v: nat)
    requires Laid(rs) && i < n <= |rs|
    requires VerticesBefore(rs, i) <= v < VerticesBefore(rs, i + 1)
    ensures v < |VertexIdsBefore(rs, n)|
    ensures VertexIdsBefore(rs, n)[v] == i
    decreases n
  {
    TotalsMonotone(rs, i + 1, n);
    if i < n - 1 {
      VertexIdsAt(rs, n - 1, i, v);
    } else {
      assert Booked(rs, i);
    }
  }

  /** Vertex `v` of mesh `i` gets id `i` in the corrected buffer. */
  lemma CorrectedIdAt(rs: seq<Record>, i: nat, v: nat)
    requires Laid(rs) && i < |rs|
    requires VerticesBefore(rs, i) <= v < VerticesBefore(rs, i + 1)
    ensures v < |CorrectedIds(rs, SumVertices(rs))|
    ensures CorrectedIds(rs, SumVertices(rs))[v] == i
  {
    CorrectedIdsAreVertexIds(rs, SumVertices(rs));
    VertexIdsAt(rs, |rs|, i, v);
  }

  /** Two meshes of one vertex each: the first fill writes slots [0, 3)
      clamped to [0, 2), the second writes [3, 6) clamped to nothing, so the
      second mesh's vertex is tagged with the first mesh's id. */
  lemma IdFillCounterexample()
    ensures var m := Mesh(Nested([[1, 2, 3]]), Nested([[0, 0, 0]]));
            var rs := [Record("a", m, 0, Range(0, 3), Range(0, 3)),
                       Record("b", m, 1, Range(3, 6), Range(3, 6))];
            Laid(rs) && AllWellFormed(rs) &&
            SumVertices(rs) == 2 && PackedIds(rs, 2) == [0, 0] &&
            VertexIds(rs) == [0, 1]
  {
    var m := Mesh(Nested([[1, 2, 3]]), Nested([[0, 0, 0]]));
    var a := Record("a", m, 0, Range(0, 3), Range(0, 3));
    var b := Record("b", m, 1, Range(3, 6), Range(3, 6));
    var rs := [a, b];
    assert VertexCount(m) == 1 && TriangleCount(m) == 1;
    TwoUnitRecords(rs);
    assert IdsBefore(rs, 1, 2) == [0, 0];
    assert VertexIdsBefore(rs, 1) == [0];
  }

  // ---------------------------------------------------------------------------
  // The element buffer. Nested cells are rebased by the mesh's vertex offset,
  // flat cells are copied as they are, so flat cells of any mesh but the first
  // point at the first meshes' vertices.

  /** The corrected element values of one mesh whose vertices start at
      `offset`: its cells, flat or nested, all rebased by `offset`. */
  function CorrectedCells(cells: Data<nat>, offset: nat): (s: seq<int>)
    requires WellFormed(cells)
    ensures |s| == 3 * GetCount(cells, 3)
  {
    CountMatchesFlatten(cells);
    if IsFlat(cells) then Rebased(FlatItems(cells), offset) else Rebased(FlattenRows(cells.rows), offset)
  }

  /** The corrected element values of one record, rebased by `pr[0] / 3`. */
  function CorrectedPlaced(r: Record): (s: seq<int>)
    requires WellFormedMesh(r.mesh)
    ensures |s| == 3 * TriangleCount(r.mesh)
  {
    CorrectedCells(r.mesh.cells, r.positionRange.lo / 3)
  }

  /** The corrected element values of the first `n` records, in order. */
  function CorrectedElementsBefore(rs: seq<Record>, n: nat): (s: seq<int>)
    requires AllWellFormed(rs) && n <= |rs|
    ensures |s| == 3 * TrianglesBefore(rs, n)
  {
    if n == 0 then [] else CorrectedElementsBefore(rs, n - 1) + CorrectedPlaced(rs[n - 1])
  }

  /** The corrected element buffer: every record's rebased cells, in order. */
  function CorrectedElements(rs: seq<Record>): (s: seq<int>)
    requires AllWellFormed(rs)
    ensures |s| == 3 * SumTriangles(rs)
  {
    CorrectedElementsBefore(rs, |rs|)
  }

  /** Record `i`'s corrected cells follow those of the records before it, in
      every longer prefix. */
  lemma {:induction false} CorrectedBlockAt(rs: seq<Record>, n: nat, i: nat, t: nat)
    requires AllWellFormed(rs) && i < n <= |rs|
    requires t < 3 * TriangleCount(rs[i].mesh)
    ensures 3 * TrianglesBefore(rs, i) + t < |CorrectedElementsBefore(rs, n)|
    ensures CorrectedElementsBefore(rs, n)[3 * TrianglesBefore(rs, i) + t] == CorrectedPlaced(rs[i])[t]
    decreases n
  {
    var front := CorrectedElementsBefore(rs, n - 1);
    var block := CorrectedPlaced(rs[n - 1]);
    assert CorrectedElementsBefore(rs, n) == front + block;
    if i == n - 1 {
      BlockAt(front, block, t);
    } else {
      CorrectedBlockAt(rs, n - 1, i, t);
      TotalsMonotone(rs, i + 1, n - 1);
      assert TrianglesBefore(rs, i + 1) == TrianglesBefore(rs, i) + TriangleCount(rs[i].mesh);
      PrefixAt(front, block, 3 * TrianglesBefore(rs, i) + t);
    }
  }

  /** Record `i`'s corrected cells sit in the corrected buffer at its cell
      range. */
  lemma CorrectedCellAt(rs: seq<Record>, i: nat, t: nat)
    requires Laid(rs) && AllWellFormed(rs) && i < |rs|
    requires t < 3 * TriangleCount(rs[i].mesh)
    ensures rs[i].cellRange.lo + t < |CorrectedElements(rs)|
    ensures CorrectedElements(rs)[rs[i].cellRange.lo + t] == CorrectedPlaced(rs[i])[t]
  {
    assert Booked(rs, i);
    CorrectedBlockAt(rs, |rs|, i, t);
  }

  /** With the correction, every element a mesh stores names one of that
      mesh's own vertices, whether its cells were flat or nested. */
  lemma CorrectedCellsInOwnRange(rs: seq<Record>, i: nat, t: nat)
    requires Laid(rs) && AllWellFormed(rs) && i < |rs| && CellsLocal(rs[i].mesh)
    requires t < 3 * TriangleCount(rs[i].mesh)
    requires SumVertices(rs) <= 0x1_0000_0000
    ensures rs[i].cellRange.lo + t < |CorrectedElements(rs)|
    ensures VerticesBefore(rs, i) <= CorrectedElements(rs)[rs[i].cellRange.lo + t] < VerticesBefore(rs, i + 1)
  {
    CorrectedCellAt(rs, i, t);
    VertexOffsetExact(rs, i);
    TotalsMonotone(rs, i + 1, |rs|);
    CountMatchesFlatten(rs[i].mesh.cells);
    assert Flatten(rs[i].mesh.cells)[t] < VertexCount(rs[i].mesh);
  }

  lemma {:induction false} NestedPrefixCorrect(rs: seq<Record>, n: nat)
    requires AllWellFormed(rs) && n <= |rs|
    requires forall i :: 0 <= i < |rs| ==> rs[i].mesh.cells.Nested?
    ensures ElementsBefore(rs, n) == CorrectedElementsBefore(rs, n)
    decreases n
  {
    if n > 0 {
      NestedPrefixCorrect(rs, n - 1);
      NestedPlacedCorrect(rs[n - 1]);
    }
  }

  /** A record whose cells are nested is placed as the correction places it. */
  lemma NestedPlacedCorrect(r: Record)
    requires WellFormedMesh(r.mesh) && r.mesh.cells.Nested?
    ensures PlacedFor(r) == CorrectedPlaced(r)
  {
    if IsFlat(r.mesh.cells) {
      assert r.mesh.cells.rows == [];
    }
  }

  /** The correction changes nothing for meshes whose cells are nested: when
      no mesh passes its cells flat, `pack` as written already stores the
      corrected buffer. */
  lemma NestedCellsAlreadyCorrect(rs: seq<Record>)
    requires AllWellFormed(rs)
    requires forall i :: 0 <= i < |rs| ==> rs[i].mesh.cells.Nested?
    ensures PackedElements(rs) == CorrectedElements(rs)
  {
    NestedPrefixCorrect(rs, |rs|);
  }

  /** Two one-vertex meshes with flat cells `[0, 0, 0]`: the second mesh's
      triangle is stored as `0, 0, 0`, the first mesh's vertex, although its
      own vertex is vertex 1; the correction stores `1, 1, 1`. */
  lemma FlatCellsCounterexample()
    ensures var m := Mesh(Flat([1, 2, 3]), Flat([0, 0, 0]));
            var rs := [Record("a", m, 0, Range(0, 3), Range(0, 3)),
                       Record("b", m, 1, Range(3, 6), Range(3, 6))];
            Laid(rs) && AllWellFormed(rs) && AllCellsLocal(rs) &&
            VerticesBefore(rs, 1) == 1 && SumVertices(rs) == 2 &&
            PackedElements(rs) == [0, 0, 0, 0, 0, 0] &&
            CorrectedElements(rs) == [0, 0, 0, 1, 1, 1]
  {
    var m := Mesh(Flat([1, 2, 3]), Flat([0, 0, 0]));
    var a := Record("a", m, 0, Range(0, 3), Range(0, 3));
    var b := Record("b", m, 1, Range(3, 6), Range(3, 6));
    var rs := [a, b];
    FlatZeroCells(a);
    FlatZeroCells(b);
    TwoUnitRecords(rs);
    TwoRecordsElements(rs);
    assert AllCellsLocal(rs) by {
      assert rs[0] == a && rs[1] == b;
    }
  }

  /** Both element buffers of two records are the two records' blocks, one
      after the other. */
  lemma TwoRecordsElements(rs: seq<Record>)
    requires |rs| == 2 && AllWellFormed(rs)
    ensures PackedElements(rs) == PlacedFor(rs[0]) + PlacedFor(rs[1])
    ensures CorrectedElements(rs) == CorrectedPlaced(rs[0]) + CorrectedPlaced(rs[1])
  {
    assert ElementsBefore(rs, 1) == PlacedFor(rs[0]);
    assert CorrectedElementsBefore(rs, 1) == CorrectedPlaced(rs[0]);
  }

  /** The one-vertex mesh with flat cells `[0, 0, 0]`, placed for record `r`:
      as written its cells stay `0, 0, 0`; corrected they become the vertex
      offset. */
  lemma FlatZeroCells(r: Record)
    requires r.mesh == Mesh(Flat([1, 2, 3]), Flat([0, 0, 0]))
    requires r.positionRange.lo <= 3
    ensures VertexCount(r.mesh) == 1 && TriangleCount(r.mesh) == 1
    ensures WellFormedMesh(r.mesh) && CellsLocal(r.mesh)
    ensures PlacedFor(r) == [0, 0, 0]
    ensures CorrectedPlaced(r) == [r.positionRange.lo / 3, r.positionRange.lo / 3, r.positionRange.lo / 3]
  {
    assert Flatten(r.mesh.cells) == [0, 0, 0];
  }

  /** Two well-formed records of one vertex and one triangle each, booked at
      `[0, 3)` and `[3, 6)` with ids 0 and 1, are laid out as two `add` calls
      leave them. */
  lemma TwoUnitRecords(rs: seq<Record>)
    requires |rs| == 2
    requires WellFormedMesh(rs[0].mesh) && WellFormedMesh(rs[1].mesh)
    requires VertexCount(rs[0].mesh) == 1 && TriangleCount(rs[0].mesh) == 1
    requires VertexCount(rs[1].mesh) == 1 && TriangleCount(rs[1].mesh) == 1
    requires rs[0].id == 0 && rs[0].positionRange == Range(0, 3) && rs[0].cellRange == Range(0, 3)
    requires rs[1].id == 1 && rs[1].positionRange == Range(3, 6) && rs[1].cellRange == Range(3, 6)
    ensures Laid(rs) && AllWellFormed(rs)
    ensures VerticesBefore(rs, 1) == 1 && SumVertices(rs) == 2
    ensures TrianglesBefore(rs, 1) == 1 && SumTriangles(rs) == 2
  {
    assert VerticesBefore(rs, 0) == 0 && TrianglesBefore(rs, 0) == 0;
    assert VerticesBefore(rs, 1) == 1 && TrianglesBefore(rs, 1) == 1;
    assert VerticesBefore(rs, 2) == 2 && TrianglesBefore(rs, 2) == 2;
    assert Booked(rs, 0) && Booked(rs, 1);
  }
}
