/** The mesh descriptors handed to `Geometry.prototype.add`, and the two helpers
    that read them: `isFlat` and `getCount`. A JavaScript array of positions or
    cells is modelled as either an array of numbers (flat) or an array of plain
    JavaScript Arrays, one per vertex or triangle (nested). An array whose
    rows are typed arrays counts as flat in the source, since `Array.isArray`
    is false for them; the model does not cover it. */
module MeshInput {

  /** One `positions` or `cells` array: its elements are numbers, or plain
      JavaScript Arrays. */
  datatype Data<T> = Flat(items: seq<T>) | Nested(rows: seq<seq<T>>)

  /** A mesh as `add` receives it; positions are copied verbatim, cells are
      vertex indices local to the mesh. */
  datatype Mesh = Mesh(positions: Data<int>, cells: Data<nat>)

  /** The JavaScript `length` of the array. */
  function Length<T>(d: Data<T>): nat
  {
    match d
    case Flat(items) => |items|
    case Nested(rows) => |rows|
  }

  /** `isFlat`: the first element is not an array. An empty array has no first
      element, so it is flat whichever way it was written. */
  predicate IsFlat<T>(d: Data<T>): (b: bool)
    ensures Length(d) == 0 ==> b
    ensures Length(d) > 0 ==> (b <==> d.Flat?)
  {
    d.Flat? || |d.rows| == 0
  }

  /** The numbers of a flat array (an empty nested array has none). */
  function FlatItems<T>(d: Data<T>): (r: seq<T>)
    requires IsFlat(d)
    ensures |r| == Length(d)
  {
    if d.Flat? then d.items else []
  }

  /** `getCount(data, size)`: the number of `size`-wide entries. A flat array
      holds `length / size` of them, a nested one `length`. */
  function GetCount<T>(d: Data<T>, size: nat): (r: nat)
    requires size > 0
    ensures !IsFlat(d) ==> r == Length(d)
    ensures IsFlat(d) ==> r * size <= Length(d) < r * size + size
  {
    if IsFlat(d) then Length(d) / size else Length(d)
  }

  /** What `pack` relies on: a flat array holds whole triples, and every row of
      a nested array has at least the three components `pack` reads. */
  predicate WellFormed<T>(d: Data<T>)
  {
    match d
    case Flat(items) => |items| % 3 == 0
    case Nested(rows) => RowsWellFormed(rows)
  }

  predicate RowsWellFormed<T>(rows: seq<seq<T>>)
  {
    forall j :: 0 <= j < |rows| ==> |rows[j]| >= 3
  }

  predicate WellFormedMesh(m: Mesh)
  {
    WellFormed(m.positions) && WellFormed(m.cells)
  }

  /** Row-major flattening of nested triples, as the loops of `pack` write them:
      component `k` of row `j` lands at `3*j + k`; components past the third are
      never read. */
  function FlattenRows<T>(rows: seq<seq<T>>): (r: seq<T>)
    requires RowsWellFormed(rows)
    ensures |r| == 3 * |rows|
    ensures forall j, k :: 0 <= j < |rows| && 0 <= k < 3 ==> r[3 * j + k] == rows[j][k]
  {
    if rows == [] then []
    else FlattenRows(rows[..|rows| - 1]) + rows[|rows| - 1][..3]
  }

  /** The flat numbers an array stands for: a flat array as it is, a nested one
      flattened row-major. */
  function Flatten<T>(d: Data<T>): (r: seq<T>)
    requires WellFormed(d)
  {
    if IsFlat(d) then FlatItems(d) else FlattenRows(d.rows)
  }

  /** The number of vertices `add` counts for a mesh. */
  function VertexCount(m: Mesh): nat
  {
    GetCount(m.positions, 3)
  }

  /** The number of triangles `add` counts for a mesh. */
  function TriangleCount(m: Mesh): nat
  {
    GetCount(m.cells, 3)
  }

  /** `getCount(d, 3)` counts exactly the triples that `pack` writes for `d`:
      three numbers per counted entry, flat or nested. */
  lemma CountMatchesFlatten<T>(d: Data<T>)
    requires WellFormed(d)
    ensures |Flatten(d)| == 3 * GetCount(d, 3)
    ensures IsFlat(d) ==> Flatten(d) == FlatItems(d)
  {
  }

  /** An empty array is flat and counts zero entries, whether it was written as
      an empty array of numbers or an empty array of arrays. */
  lemma EmptyIsFlat<T>(d: Data<T>)
    requires Length(d) == 0
    ensures IsFlat(d) && GetCount(d, 3) == 0 && Flatten(d) == []
  {
  }

  /** The two ways of writing the same triples are interchangeable: flattening
      nested triples and handing them over flat gives the same count and the
      same numbers. */
  lemma {:induction false} FlatAndNestedAgree<T>(rows: seq<seq<T>>)
    requires forall j :: 0 <= j < |rows| ==> |rows[j]| == 3
    ensures GetCount(Flat(FlattenRows(rows)), 3) == GetCount(Nested(rows), 3)
    ensures Flatten(Flat(FlattenRows(rows))) == Flatten(Nested(rows))
    ensures FlattenRows(rows) == seq(3 * |rows|, t requires 0 <= t < 3 * |rows| => rows[t / 3][t % 3])
  {
    var f := FlattenRows(rows);
    forall t | 0 <= t < 3 * |rows|
      ensures f[t] == rows[t / 3][t % 3]
    {
      assert t == 3 * (t / 3) + t % 3;
    }
  }
}
