/** What `add` records for each mesh (`_data` in index.js), the shape successive
    `add` calls give those records, and the buffer contents `pack` produces from
    them, stated as functions of the records. */
module Layout {
  import opened MeshInput
  import opened TypedArrays

  /** A half-open range `[lo, hi)` of buffer elements. */
  datatype Range = Range(lo: nat, hi: nat)

  /** One entry of `_data`: the mesh, its id, and the ranges `add` reserved for
      it in the position buffer (`positionRange`) and the element buffer
      (`cellRange`). */
  datatype Record = Record(name: string, mesh: Mesh, id: nat, positionRange: Range, cellRange: Range)

  /** Vertices counted by `add` over the first `n` records: `ids.count` after
      the `n`-th call. */
  function VerticesBefore(rs: seq<Record>, n: nat): nat
    requires n <= |rs|
  {
    if n == 0 then 0 else VerticesBefore(rs, n - 1) + VertexCount(rs[n - 1].mesh)
  }

  /** Triangles counted by `add` over the first `n` records: a third of
      `elements.count` after the `n`-th call. */
  function TrianglesBefore(rs: seq<Record>, n: nat): nat
    requires n <= |rs|
  {
    if n == 0 then 0 else TrianglesBefore(rs, n - 1) + TriangleCount(rs[n - 1].mesh)
  }

  function SumVertices(rs: seq<Record>): nat
  {
    VerticesBefore(rs, |rs|)
  }

  function SumTriangles(rs: seq<Record>): nat
  {
    TrianglesBefore(rs, |rs|)
  }

  /** Record `i` as the `i`-th `add` call books it: id `i`, and ranges running
      from the counts before the call to the counts after it, three elements
      per vertex and per triangle. */
  predicate Booked(rs: seq<Record>, i: nat)
    requires i < |rs|
  {
    rs[i].id == i &&
    rs[i].positionRange == Range(3 * VerticesBefore(rs, i), 3 * VerticesBefore(rs, i + 1)) &&
    rs[i].cellRange == Range(3 * TrianglesBefore(rs, i), 3 * TrianglesBefore(rs, i + 1))
  }

  /** The records as successive `add` calls leave them. */
  predicate Laid(rs: seq<Record>)
  {
    forall i :: 0 <= i < |rs| ==> Booked(rs, i)
  }

  predicate AllWellFormed(rs: seq<Record>)
  {
    forall i :: 0 <= i < |rs| ==> WellFormedMesh(rs[i].mesh)
  }

  /** The running totals never shrink along the records. */
  lemma {:induction false} TotalsMonotone(rs: seq<Record>, i: nat, j: nat)
    requires i <= j <= |rs|
    ensures VerticesBefore(rs, i) <= VerticesBefore(rs, j)
    ensures TrianglesBefore(rs, i) <= TrianglesBefore(rs, j)
    decreases j
  {
    if i < j {
      TotalsMonotone(rs, i, j - 1);
    }
  }

  /** Appending a record leaves the totals over the old records unchanged. */
  lemma {:induction false} AppendKeepsTotals(rs: seq<Record>, r: Record, n: nat)
    requires n <= |rs|
    ensures VerticesBefore(rs + [r], n) == VerticesBefore(rs, n)
    ensures TrianglesBefore(rs + [r], n) == TrianglesBefore(rs, n)
  {
    if n > 0 {
      AppendKeepsTotals(rs, r, n - 1);
      assert (rs + [r])[n - 1] == rs[n - 1];
    }
  }

  /** Appending the record `add` builds, at the current totals and with the
      next id, keeps the records laid out and advances both totals by the
      mesh's counts. */
  lemma AddRecordLaid(rs: seq<Record>, r: Record)
    requires Laid(rs) && AllWellFormed(rs) && WellFormedMesh(r.mesh)
    requires r.id == |rs|
    requires r.positionRange == Range(3 * SumVertices(rs), 3 * SumVertices(rs) + 3 * VertexCount(r.mesh))
    requires r.cellRange == Range(3 * SumTriangles(rs), 3 * SumTriangles(rs) + 3 * TriangleCount(r.mesh))
    ensures Laid(rs + [r]) && AllWellFormed(rs + [r])
    ensures SumVertices(rs + [r]) == SumVertices(rs) + VertexCount(r.mesh)
    ensures SumTriangles(rs + [r]) == SumTriangles(rs) + TriangleCount(r.mesh)
  {
    var rs' := rs + [r];
    forall n | 0 <= n <= |rs|
      ensures VerticesBefore(rs', n) == VerticesBefore(rs, n)
      ensures TrianglesBefore(rs', n) == TrianglesBefore(rs, n)
    {
      AppendKeepsTotals(rs, r, n);
    }
    assert rs'[|rs|] == r;
    forall i | 0 <= i < |rs'|
      ensures Booked(rs', i)
    {
      if i < |rs| {
        assert rs'[i] == rs[i] && Booked(rs, i);
      }
    }
    assert forall i :: 0 <= i < |rs| ==> rs'[i] == rs[i];
  }

  /** Ids are dense and in call order: record `k` carries id `k`. */
  lemma IdsDense(rs: seq<Record>)
    requires Laid(rs)
    ensures forall k :: 0 <= k < |rs| ==> rs[k].id == k
  {
    forall k | 0 <= k < |rs|
      ensures rs[k].id == k
    {
      assert Booked(rs, k);
    }
  }

  /** The ranges tile the buffers: the first starts at 0, each one ends where
      the next begins, the last ends at the totals, and a range spans three
      elements per vertex (per triangle). */
  lemma RangesTile(rs: seq<Record>, i: nat)
    requires Laid(rs) && i < |rs|
    ensures i == 0 ==> rs[i].positionRange.lo == 0 && rs[i].cellRange.lo == 0
    ensures i + 1 < |rs| ==> rs[i].positionRange.hi == rs[i + 1].positionRange.lo
    ensures i + 1 < |rs| ==> rs[i].cellRange.hi == rs[i + 1].cellRange.lo
    ensures i + 1 == |rs| ==> rs[i].positionRange.hi == 3 * SumVertices(rs)
    ensures i + 1 == |rs| ==> rs[i].cellRange.hi == 3 * SumTriangles(rs)
    ensures rs[i].positionRange.hi - rs[i].positionRange.lo == 3 * VertexCount(rs[i].mesh)
    ensures rs[i].cellRange.hi - rs[i].cellRange.lo == 3 * TriangleCount(rs[i].mesh)
  {
    assert Booked(rs, i);
    if i + 1 < |rs| {
      assert Booked(rs, i + 1);
    }
  }

  /** Ranges of different records never overlap: an earlier record's ranges end
      no later than a later record's begin. */
  lemma RangesDisjoint(rs: seq<Record>, i: nat, j: nat)
    requires Laid(rs) && i < j < |rs|
    ensures rs[i].positionRange.hi <= rs[j].positionRange.lo
    ensures rs[i].cellRange.hi <= rs[j].cellRange.lo
  {
    assert Booked(rs, i) && Booked(rs, j);
    TotalsMonotone(rs, i + 1, j);
  }

  /** The start of every position range is a multiple of 3, so `pr[0]/3` is
      exactly the number of vertices of the records before it. */
  lemma VertexOffsetExact(rs: seq<Record>, i: nat)
    requires Laid(rs) && i < |rs|
    ensures rs[i].positionRange.lo % 3 == 0
    ensures rs[i].positionRange.lo / 3 == VerticesBefore(rs, i)
  {
    assert Booked(rs, i);
    DivThree(VerticesBefore(rs, i));
  }

  lemma DivThree(s: nat)
    ensures (3 * s) % 3 == 0 && (3 * s) / 3 == s
  {
  }

  /** Every range lies inside a buffer sized to the totals. */
  lemma RangesInside(rs: seq<Record>, i: nat)
    requires Laid(rs) && i < |rs|
    ensures rs[i].positionRange.lo <= rs[i].positionRange.hi <= 3 * SumVertices(rs)
    ensures rs[i].cellRange.lo <= rs[i].cellRange.hi <= 3 * SumTriangles(rs)
  {
    assert Booked(rs, i);
    TotalsMonotone(rs, i + 1, |rs|);
  }

  /** The position values `pack` writes for one record: its positions,
      flattened, three per vertex. */
  function PositionsOf(r: Record): (s: seq<int>)
    requires WellFormedMesh(r.mesh)
    ensures |s| == 3 * VertexCount(r.mesh)
  {
    CountMatchesFlatten(r.mesh.positions);
    Flatten(r.mesh.positions)
  }

  /** The first `n` records' positions, flattened, one after another. */
  function PositionsBefore(rs: seq<Record>, n: nat): (s: seq<int>)
    requires AllWellFormed(rs) && n <= |rs|
    ensures |s| == 3 * VerticesBefore(rs, n)
  {
    if n == 0 then [] else PositionsBefore(rs, n - 1) + PositionsOf(rs[n - 1])
  }

  /** The position buffer `pack` fills. */
  function PackedPositions(rs: seq<Record>): (s: seq<int>)
    requires AllWellFormed(rs)
    ensures |s| == 3 * SumVertices(rs)
  {
    PositionsBefore(rs, |rs|)
  }

  /** Cell values as a `Uint32Array` stores them, unchanged. */
  function Stored(s: seq<nat>): (r: seq<int>)
    ensures |r| == |s|
    ensures forall t :: 0 <= t < |s| ==> r[t] == U32(s[t])
  {
    seq(|s|, t requires 0 <= t < |s| => U32(s[t]))
  }

  /** Cell values shifted by a vertex offset, as a `Uint32Array` stores them. */
  function Rebased(s: seq<nat>, offset: nat): (r: seq<int>)
    ensures |r| == |s|
    ensures forall t :: 0 <= t < |s| ==> r[t] == U32(s[t] + offset)
  {
    seq(|s|, t requires 0 <= t < |s| => U32(s[t] + offset))
  }

  /** The element values `pack` writes for one mesh whose vertices start at
      `offset`: flat cells are copied without rebasing, nested cells are
      rebased by `offset`. */
  function Placed(cells: Data<nat>, offset: nat): (s: seq<int>)
    requires WellFormed(cells)
    ensures |s| == 3 * GetCount(cells, 3)
  {
    CountMatchesFlatten(cells);
    if IsFlat(cells) then Stored(FlatItems(cells)) else Rebased(FlattenRows(cells.rows), offset)
  }

  /** The element values `pack` writes for one record, with the vertex offset
      `positionRange[0] / 3` taken from the record. */
  function PlacedFor(r: Record): (s: seq<int>)
    requires WellFormedMesh(r.mesh)
    ensures |s| == 3 * TriangleCount(r.mesh)
  {
    Placed(r.mesh.cells, r.positionRange.lo / 3)
  }

  /** The first `n` records' placed cells, one after another. */
  function ElementsBefore(rs: seq<Record>, n: nat): (s: seq<int>)
    requires AllWellFormed(rs) && n <= |rs|
    ensures |s| == 3 * TrianglesBefore(rs, n)
  {
    if n == 0 then [] else ElementsBefore(rs, n - 1) + PlacedFor(rs[n - 1])
  }

  /** The element buffer `pack` fills. */
  function PackedElements(rs: seq<Record>): (s: seq<int>)
    requires AllWellFormed(rs)
    ensures |s| == 3 * SumTriangles(rs)
  {
    ElementsBefore(rs, |rs|)
  }

  /** The id buffer of length `len` after the fills of the first `n` records:
      zeros, then for each record in turn `subarray(pr[0], pr[1]).fill(id)`
      over its POSITION range. */
  function IdsBefore(rs: seq<Record>, n: nat, len: nat): (s: seq<int>)
    requires n <= |rs|
    ensures |s| == len
  {
    if n == 0 then Zeros(len)
    else
      var r := rs[n - 1];
      Filled(IdsBefore(rs, n - 1, len), r.positionRange.lo, r.positionRange.hi, r.id)
  }

  /** The id buffer `pack` fills. */
  function PackedIds(rs: seq<Record>, len: nat): (s: seq<int>)
    ensures |s| == len
  {
    IdsBefore(rs, |rs|, len)
  }

  /** An element of a block that follows `front`. */
  lemma BlockAt(front: seq<int>, block: seq<int>, t: nat)
    requires t < |block|
    ensures (front + block)[|front| + t] == block[t]
  {
  }

  /** An element of `front` keeps its index when a block follows. */
  lemma PrefixAt(front: seq<int>, block: seq<int>, x: nat)
    requires x < |front|
    ensures (front + block)[x] == front[x]
  {
  }

  /** Record `i`'s flattened positions follow the positions of the records
      before it, in every longer prefix. */
  lemma {:induction false} PositionBlockAt(rs: seq<Record>, n: nat, i: nat, t: nat)
    requires AllWellFormed(rs) && i < n <= |rs|
    requires t < 3 * VertexCount(rs[i].mesh)
    ensures 3 * VerticesBefore(rs, i) + t < |PositionsBefore(rs, n)|
    ensures PositionsBefore(rs, n)[3 * VerticesBefore(rs, i) + t] == PositionsOf(rs[i])[t]
    decreases n
  {
    var front := PositionsBefore(rs, n - 1);
    var block := PositionsOf(rs[n - 1]);
    assert PositionsBefore(rs, n) == front + block;
    if i == n - 1 {
      BlockAt(front, block, t);
    } else {
      PositionBlockAt(rs, n - 1, i, t);
      TotalsMonotone(rs, i + 1, n - 1);
      assert VerticesBefore(rs, i + 1) == VerticesBefore(rs, i) + VertexCount(rs[i].mesh);
      PrefixAt(front, block, 3 * VerticesBefore(rs, i) + t);
    }
  }



  /** Record `i`'s placed cells follow the cells of the records before it, in
      every longer prefix. */
  lemma {:induction false} CellBlockAt(rs: seq<Record>, n: nat, i: nat, t: nat)
    requires AllWellFormed(rs) && i < n <= |rs|
    requires t < 3 * TriangleCount(rs[i].mesh)
    ensures 3 * TrianglesBefore(rs, i) + t < |ElementsBefore(rs, n)|
    ensures ElementsBefore(rs, n)[3 * TrianglesBefore(rs, i) + t] == PlacedFor(rs[i])[t]
    decreases n
  {
    var front := ElementsBefore(rs, n - 1);
    var block := PlacedFor(rs[n - 1]);
    assert ElementsBefore(rs, n) == front + block;
    if i == n - 1 {
      BlockAt(front, block, t);
    } else {
      CellBlockAt(rs, n - 1, i, t);
      TotalsMonotone(rs, i + 1, n - 1);
      assert TrianglesBefore(rs, i + 1) == TrianglesBefore(rs, i) + TriangleCount(rs[i].mesh);
      PrefixAt(front, block, 3 * TrianglesBefore(rs, i) + t);
    }
  }


  /** Record `i`'s flattened positions sit in the position buffer at its
      position range. */
  lemma PackedPositionAt(rs: seq<Record>, i: nat, t: nat)
    requires Laid(rs) && AllWellFormed(rs) && i < |rs|
    requires t < 3 * VertexCount(rs[i].mesh)
    ensures rs[i].positionRange.lo + t < |PackedPositions(rs)|
    ensures |Flatten(rs[i].mesh.positions)| == 3 * VertexCount(rs[i].mesh)
    ensures PackedPositions(rs)[rs[i].positionRange.lo + t] == Flatten(rs[i].mesh.positions)[t]
  {
    assert Booked(rs, i);
    assert WellFormedMesh(rs[i].mesh);
    CountMatchesFlatten(rs[i].mesh.positions);
    PositionBlockAt(rs, |rs|, i, t);
    assert PositionsOf(rs[i]) == Flatten(rs[i].mesh.positions);
  }

  /** Record `i`'s placed cells sit in the element buffer at its cell range. */
  lemma PackedCellAt(rs: seq<Record>, i: nat, t: nat)
    requires Laid(rs) && AllWellFormed(rs) && i < |rs|
    requires t < 3 * TriangleCount(rs[i].mesh)
    ensures rs[i].cellRange.lo + t < |PackedElements(rs)|
    ensures PackedElements(rs)[rs[i].cellRange.lo + t] == PlacedFor(rs[i])[t]
  {
    assert Booked(rs, i);
    CellBlockAt(rs, |rs|, i, t);
  }

  /** Component `k` of row `j` of a nested array, in its flattening. */
  lemma RowComponent<T>(d: Data<T>, j: nat, k: nat)
    requires WellFormed(d) && !IsFlat(d) && j < |d.rows| && k < 3
    ensures 3 * j + k < 3 * GetCount(d, 3) == |Flatten(d)|
    ensures Flatten(d)[3 * j + k] == d.rows[j][k]
  {
    assert Flatten(d) == FlattenRows(d.rows);
  }

  /** Component `k` of triangle `j` of a nested cell array, as `pack` places
      it for record `r`. */
  lemma PlacedRowComponent(r: Record, j: nat, k: nat)
    requires WellFormedMesh(r.mesh) && !IsFlat(r.mesh.cells)
    requires j < |r.mesh.cells.rows| && k < 3
    ensures 3 * j + k < 3 * TriangleCount(r.mesh)
    ensures PlacedFor(r)[3 * j + k] == U32(r.mesh.cells.rows[j][k] + r.positionRange.lo / 3)
  {
    RowComponent(r.mesh.cells, j, k);
    assert PlacedFor(r) == Rebased(Flatten(r.mesh.cells), r.positionRange.lo / 3);
  }

  /** Nested positions are flattened row-major into the mesh's range:
      component `k` of vertex `j` lands at `pr[0] + 3*j + k`. */
  lemma PackedRowAt(rs: seq<Record>, i: nat, j: nat, k: nat)
    requires Laid(rs) && AllWellFormed(rs) && i < |rs|
    requires !IsFlat(rs[i].mesh.positions) && j < |rs[i].mesh.positions.rows| && k < 3
    ensures rs[i].positionRange.lo + 3 * j + k < |PackedPositions(rs)|
    ensures PackedPositions(rs)[rs[i].positionRange.lo + 3 * j + k] == rs[i].mesh.positions.rows[j][k]
  {
    var p, t := rs[i].mesh.positions, 3 * j + k;
    assert WellFormedMesh(rs[i].mesh);
    RowComponent(p, j, k);
    PackedPositionAt(rs, i, t);
    assert rs[i].positionRange.lo + 3 * j + k == rs[i].positionRange.lo + t;
  }

  /** Flat positions are copied verbatim from the start of the mesh's range. */
  lemma PackedFlatPositionAt(rs: seq<Record>, i: nat, t: nat)
    requires Laid(rs) && AllWellFormed(rs) && i < |rs|
    requires IsFlat(rs[i].mesh.positions) && t < Length(rs[i].mesh.positions)
    ensures rs[i].positionRange.lo + t < |PackedPositions(rs)|
    ensures PackedPositions(rs)[rs[i].positionRange.lo + t] == FlatItems(rs[i].mesh.positions)[t]
  {
    assert WellFormedMesh(rs[i].mesh);
    PackedPositionAt(rs, i, t);
  }

  /** Nested cells are rebased: component `k` of triangle `j` is stored at
      `cr[0] + 3*j + k` as the local index plus `pr[0]/3`, the number of
      vertices of the meshes added before. */
  lemma PackedRebasedAt(rs: seq<Record>, i: nat, j: nat, k: nat)
    requires Laid(rs) && AllWellFormed(rs) && i < |rs|
    requires !IsFlat(rs[i].mesh.cells) && j < |rs[i].mesh.cells.rows| && k < 3
    ensures rs[i].cellRange.lo + 3 * j + k < |PackedElements(rs)|
    ensures PackedElements(rs)[rs[i].cellRange.lo + 3 * j + k]
            == U32(rs[i].mesh.cells.rows[j][k] + VerticesBefore(rs, i))
  {
    var t := 3 * j + k;
    assert WellFormedMesh(rs[i].mesh);
    PlacedRowComponent(rs[i], j, k);
    PackedCellAt(rs, i, t);
    VertexOffsetExact(rs, i);
    assert rs[i].cellRange.lo + 3 * j + k == rs[i].cellRange.lo + t;
  }

  /** Flat cells are copied from the start of the mesh's cell range WITHOUT
      rebasing. */
  lemma PackedFlatCellAt(rs: seq<Record>, i: nat, t: nat)
    requires Laid(rs) && AllWellFormed(rs) && i < |rs|
    requires IsFlat(rs[i].mesh.cells) && t < Length(rs[i].mesh.cells)
    ensures rs[i].cellRange.lo + t < |PackedElements(rs)|
    ensures PackedElements(rs)[rs[i].cellRange.lo + t] == U32(FlatItems(rs[i].mesh.cells)[t])
  {
    assert WellFormedMesh(rs[i].mesh);
    PackedCellAt(rs, i, t);
  }

  /** A mesh's local cell indices all name one of its own vertices. */
  predicate CellsLocal(m: Mesh)
    requires WellFormed(m.cells)
  {
    forall t :: 0 <= t < |Flatten(m.cells)| ==> Flatten(m.cells)[t] < VertexCount(m)
  }

  predicate AllCellsLocal(rs: seq<Record>)
    requires AllWellFormed(rs)
  {
    forall i :: 0 <= i < |rs| ==> CellsLocal(rs[i].mesh)
  }

  /** The element values of the first `n` records stay below the number of
      their vertices when every mesh's local indices name its own vertices:
      below 2^32 no stored value wraps, and a wrapped value is below 2^32. */
  lemma {:induction false} ElementsBelow(rs: seq<Record>, n: nat)
    requires Laid(rs) && AllWellFormed(rs) && AllCellsLocal(rs) && n <= |rs|
    ensures forall t :: 0 <= t < |ElementsBefore(rs, n)| ==> ElementsBefore(rs, n)[t] < VerticesBefore(rs, n)
    decreases n
  {
    if n > 0 {
      var r := rs[n - 1];
      TotalsMonotone(rs, n - 1, n);
      ElementsBelow(rs, n - 1);
      VertexOffsetExact(rs, n - 1);
      CountMatchesFlatten(r.mesh.cells);
      var front, cells := ElementsBefore(rs, n - 1), Flatten(r.mesh.cells);
      var placed := PlacedFor(r);
      assert ElementsBefore(rs, n) == front + placed;
      assert CellsLocal(r.mesh);
      forall t | 0 <= t < |placed|
        ensures placed[t] < VerticesBefore(rs, n)
      {
        assert cells[t] < VertexCount(r.mesh);
      }
    }
  }

  /** When every mesh's local indices name its own vertices, every value in
      the element buffer is below the total vertex count, rebased or not. */
  lemma ElementsBelowTotal(rs: seq<Record>)
    requires Laid(rs) && AllWellFormed(rs) && AllCellsLocal(rs)
    ensures forall t :: 0 <= t < |PackedElements(rs)| ==> PackedElements(rs)[t] < SumVertices(rs)
  {
    ElementsBelow(rs, |rs|);
  }

  /** Nested cells of a mesh whose local indices are its own land inside that
      mesh's own vertex range `[pr[0]/3, pr[1]/3)`. */
  lemma NestedCellsInOwnRange(rs: seq<Record>, i: nat, t: nat)
    requires Laid(rs) && AllWellFormed(rs) && i < |rs| && CellsLocal(rs[i].mesh)
    requires !IsFlat(rs[i].mesh.cells) && t < 3 * TriangleCount(rs[i].mesh)
    requires SumVertices(rs) <= 0x1_0000_0000
    ensures rs[i].cellRange.lo + t < |PackedElements(rs)|
    ensures VerticesBefore(rs, i) <= PackedElements(rs)[rs[i].cellRange.lo + t] < VerticesBefore(rs, i + 1)
  {
    PackedCellAt(rs, i, t);
    VertexOffsetExact(rs, i);
    TotalsMonotone(rs, i + 1, |rs|);
    CountMatchesFlatten(rs[i].mesh.cells);
    assert Flatten(rs[i].mesh.cells)[t] < VertexCount(rs[i].mesh);
  }

  /** After the fills of the first `n` records, an id slot `v` that lies inside
      record `i`'s POSITION range holds `i`: the fill is keyed by position
      elements, not by vertices. */
  lemma {:induction false} IdsBeforeAt(rs: seq<Record>, n: nat, len: nat, i: nat, v: nat)
    requires Laid(rs) && i < n <= |rs| && v < len
    requires rs[i].positionRange.lo <= v < rs[i].positionRange.hi
    ensures IdsBefore(rs, n, len)[v] == i
    decreases n
  {
    assert Booked(rs, i);
    if i < n - 1 {
      RangesDisjoint(rs, i, n - 1);
      IdsBeforeAt(rs, n - 1, len, i, v);
    }
  }

  /** In the id buffer `pack` fills, every slot inside record `i`'s position
      range (and inside the buffer) holds `i`. */
  lemma PackedIdAt(rs: seq<Record>, len: nat, i: nat, v: nat)
    requires Laid(rs) && i < |rs| && v < len
    requires rs[i].positionRange.lo <= v < rs[i].positionRange.hi
    ensures PackedIds(rs, len)[v] == i
  {
    IdsBeforeAt(rs, |rs|, len, i, v);
  }
}
