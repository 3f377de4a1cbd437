# scene-data `Geometry`, modelled in Dafny

`Geometry` collects triangle meshes for a scene and packs them into three flat
buffers for the GPU: vertex positions (three numbers per vertex), a per-vertex
mesh id, and triangle elements (three vertex indices per triangle, rebased so
that they index the shared position buffer). `add(name, mesh)` only books
space: it advances the running counts and records the mesh with its id and the
ranges reserved for it. `pack()` allocates the buffers at those counts and
copies every recorded mesh into its ranges. A mesh's `positions` and `cells`
may each be a flat array of numbers or an array of triples; `isFlat` tells the
two apart by the first element and `getCount` counts entries either way.

The model has six modules:

- `MeshInput` (`mesh_input.dfy`): the two array forms (`Data`), `IsFlat`,
  `GetCount`, and the row-major flattening the copy loops perform.
- `TypedArrays` (`typed_arrays.dfy`): zero-filled allocation,
  `subarray(lo, hi).fill(v)` with its clamping, `set(src, off)`, and the
  modulo-2^32 conversion of a `Uint32Array`.
- `Layout` (`layout.dfy`): the records `add` keeps (`_data`), the predicate
  `Laid` that successive `add` calls maintain, and the buffer contents `pack`
  produces, as functions of the records, with lemmas about where every value
  lands.
- `SceneGeometry` (`geometry.dfy`): the `Geometry` class. Its fields are the
  counters, the record list and the buffers (arrays). `Add` and `Pack` update
  them in place and are proved against the `Layout` functions.
- `Directory` (`directory.dfy`): the `getId` lookup with its -1 sentinel.
- `Intended` (`intended.dfy`): the two findings below, each with its
  counterexample and its corrected definition.

Positions are modelled as integers and copied unchanged. Element values are
stored modulo 2^32, as a `Uint32Array` stores them. Ids are stored unchanged.
The texture size that `pack` obtains from `glsl-matrix-texture` is a parameter
of `Pack` (`TableSize`).

## Model

| member | source | states |
|---|---|---|
| MeshInput.IsFlat | index.js:117 | an array is flat exactly when its first element is a number: an empty array is always flat, a non-empty one is flat exactly when it holds numbers rather than arrays |
| MeshInput.GetCount | index.js:113-115 | a nested array counts one entry per element; a flat array counts `length / size` rounded down, that is the largest `r` with `r * size <= length` |
| MeshInput.EmptyIsFlat | index.js:113-117 | an empty array counts as flat whichever form it has; it holds no entries and contributes no numbers |
| MeshInput.CountMatchesFlatten | index.js:113-115 | for a well-formed array, `getCount(data, 3)` entries occupy exactly three times that many buffer slots, and a flat array is copied as it is |
| MeshInput.FlatAndNestedAgree | index.js:79-89 | a mesh given as triples and the same mesh given flat have the same count and are laid out identically, component `k` of triple `j` at `3*j + k` |
| SceneGeometry.Geometry.constructor | index.js:5-40 | a new geometry has no records, zero counts, empty buffers and a `[0,0]` model size, and satisfies the class invariant |
| SceneGeometry.Geometry.Add | index.js:42-63 | the counts grow by 3×vertices, vertices, 3×triangles and 1; the record gets the next id and the ranges between the old and the new counts; buffers are untouched; the class invariant is kept |
| Layout.AddRecordLaid | index.js:42-63 | appending the record `add` builds keeps the records laid out and advances both totals by the mesh's counts |
| Layout.TotalsMonotone | index.js:43-47 | the vertex and triangle counts that `add` accumulates never decrease from one call to a later one |
| Layout.IdsDense | index.js:48 | ids are exactly the insertion positions 0, 1, 2, … |
| Layout.RangesTile | index.js:54-61 | ranges start at 0, each starts where the previous one ends, and the last ends at the buffer's full length |
| Layout.RangesDisjoint | index.js:54-61 | ranges of different meshes never overlap, in either buffer |
| Layout.RangesInside | index.js:54-61 | every range lies within the buffer that `pack` allocates |
| Layout.VertexOffsetExact | index.js:54-57 | `positionRange[0]` is a multiple of 3, and `pr[0]/3` is exactly the number of vertices of the meshes before it |
| SceneGeometry.Geometry.Pack | index.js:65-102 | new buffers of the counted lengths holding exactly the packed positions, ids and elements of all records; model size and a zero model buffer from the texture size; records and counts unchanged |
| SceneGeometry.FillBuffers | index.js:66-68 | the three zero-filled buffers, after the loop over all records, hold the packed positions, ids and elements |
| SceneGeometry.NewZeros | index.js:66-68 | a freshly allocated buffer of the requested length holding only zeros |
| SceneGeometry.PackAll | index.js:74-101 | the loop over the records in insertion order turns zero-filled buffers into exactly the packed positions, the filled ids and the packed elements |
| SceneGeometry.IdsStep | index.js:78 | the id buffer after record `i` is the fill of the first `i+1` records |
| SceneGeometry.PositionsStep | index.js:79-89 | writing record `i`'s positions extends the packed prefix of the position buffer from the vertices before it to the vertices including it |
| SceneGeometry.CellsStep | index.js:90-100 | writing record `i`'s cells extends the packed prefix of the element buffer from the triangles before it to the triangles including it |
| SceneGeometry.PositionsFit | index.js:79-89 | record `i`'s flattened positions are exactly the slice of the packed position buffer at its position range |
| SceneGeometry.CellsFit | index.js:90-100 | record `i`'s placed cells are exactly the slice of the packed element buffer at its cell range |
| SceneGeometry.AddKeepsConsistent | index.js:42-63 | the counts and the record one `add` produces keep the counts equal to the totals of the extended record list |
| SceneGeometry.PackRecord | index.js:74-100 | after record `i`, the position and element buffers hold the packed prefix up to that record's range end and zeros beyond, and the id buffer is the fill of the first `i+1` records |
| SceneGeometry.WritePositions | index.js:79-89 | copying one record's positions, flat or as triples, extends the packed prefix of the position buffer to the end of its range |
| SceneGeometry.WriteCells | index.js:90-100 | copying one record's cells, flat or as triples, extends the packed prefix of the element buffer to the end of its range |
| SceneGeometry.CopyRows | index.js:82-88 | the triple loop writes the row-major flattening of the rows at the offset and leaves everything else unchanged |
| SceneGeometry.CopyRebasedRows | index.js:93-99 | the triple loop writes every flattened cell plus the vertex offset, stored as a `Uint32Array` stores it, at the offset and leaves everything else unchanged |
| TypedArrays.Zeros | index.js:66-68 | a new typed array has the requested length and holds only zeros |
| TypedArrays.U32 | index.js:91-98 | a value stored in a `Uint32Array` is below 2^32 and unchanged when it already was |
| TypedArrays.Filled | index.js:78 | `subarray(lo, hi).fill(v)` sets exactly the indices in `[lo, hi)` that exist and keeps the others |
| TypedArrays.SubarrayFill | index.js:78 | the array afterwards is the `Filled` image of its old contents |
| TypedArrays.Set | index.js:80 | `set(src, off)` writes `src` from `off` on and keeps every other element |
| Layout.PackedPositionAt | index.js:79-89 | component `t` of mesh `i`'s positions sits at `positionRange[0] + t` of the packed position buffer |
| Layout.PackedRowAt | index.js:82-88 | component `k` of vertex `j` of a nested mesh sits at `pr[0] + 3*j + k` |
| Layout.PackedFlatPositionAt | index.js:79-80 | number `t` of a flat position array sits at `pr[0] + t` |
| Layout.PackedCellAt | index.js:90-100 | cell value `t` of mesh `i` sits at `cellRange[0] + t` of the packed element buffer |
| Layout.PackedRebasedAt | index.js:93-99 | index `k` of triangle `j` of a nested mesh is stored at `cr[0] + 3*j + k` as that index plus the number of vertices before the mesh, modulo 2^32 |
| Layout.PackedFlatCellAt | index.js:90-91 | number `t` of a flat cell array is stored at `cr[0] + t` modulo 2^32, without any offset |
| Layout.NestedCellsInOwnRange | index.js:93-99 | when a mesh's local indices name its own vertices and the total fits in 32 bits, each of its nested triangles indexes a vertex inside that mesh's own slice of the position buffer |
| Layout.ElementsBelowTotal | index.js:90-100 | when every mesh's local indices name its own vertices, every element value, rebased or not and stored modulo 2^32, indexes an existing vertex of the packed buffer |
| Layout.PackedIdAt | index.js:78 | every slot of the id buffer inside mesh `i`'s position range (and inside the buffer) holds `i` |
| Directory.GetId | index.js:104-107 | a present name yields its stored id, an absent one yields -1 |
| Directory.SentinelOnlyForMissing | index.js:104-107 | with non-negative ids, -1 is answered exactly for absent names and an id exactly for present ones |
| Intended.IdFillCounterexample | index.js:78 | for two one-vertex meshes the id buffer as written is `[0, 0]` where the per-vertex ids are `[0, 1]` |
| Intended.CorrectedIdsAreVertexIds | index.js:78 | filling over `pr/3` gives every vertex its own mesh's id, with zeros after the last vertex |
| Intended.CorrectedIdAt | index.js:78 | with the corrected fill, vertex `v` of mesh `i` carries id `i` |
| Intended.VertexIdsAt | index.js:78 | in the per-vertex id buffer, every vertex between the vertices before mesh `i` and those including it carries id `i` |
| Intended.FlatCellsCounterexample | index.js:90-91 | for two one-vertex meshes with flat cells `[0,0,0]`, the second triangle is stored as `0,0,0`, a vertex of the first mesh; the correction stores `1,1,1` |
| Intended.CorrectedCellAt | index.js:90-100 | with flat cells rebased too, mesh `i`'s corrected cells sit in the corrected element buffer at its cell range |
| Intended.CorrectedCellsInOwnRange | index.js:90-100 | with flat cells rebased too, each mesh's triangles index only its own vertices |
| Intended.NestedCellsAlreadyCorrect | index.js:93-99 | when every mesh gives its cells as triples, the code as written already produces the corrected element buffer |

## Left out

- `glsl-matrix-texture`'s `getSize` is foreign code: `Pack` takes its result
  (`width`, `height`, `length`) as a parameter.
- `opts.createTexture`, the model texture and `models.update` are GPU calls;
  only the model buffer's size and zero contents are modelled.
- Calling `Geometry(opts)` without `new` only forwards to the constructor and
  is not modelled separately.
- Directory.GetId: the source never assigns `_ids` (nor `_names`), so as written
  every `getId` call fails with a TypeError. The model gives the lookup the
  method describes over a name-to-id map passed as a parameter.
- `getName` is not modelled: it reads `_names`, which is never assigned, and
  fails the same way.
- SceneGeometry.Geometry.Add: requires a well-formed mesh, in which a flat
  array's length is a multiple of 3 and every row of a nested array has at
  least three components. The model does not cover other inputs:
  - A flat array whose length is not a multiple of 3 gets a fractional count
    from the floating-point division, and so fractional counts and ranges.
  - A row with fewer than three components reads the missing ones as
    `undefined` in `pack`. That stores NaN in the `Float32Array` of positions
    (index.js:85-87). In the `Uint32Array` of elements it stores 0, because
    `undefined + pr[0]/3` is NaN and NaN is stored as 0 (index.js:96-98).
  - A mesh without `cells` (or with `cells: null`) makes `add` throw at
    index.js:46 after index.js:44-45 have already advanced the position and
    id counts. No record is pushed and `_idCount` does not move, so every
    later range starts past a gap of unrecorded vertices. `Add` is modelled
    as all-or-nothing, and after such a throwing call the class invariant
    (`Consistent`, `Laid`) and `RangesTile` no longer describe the source.
- Positions are integers copied exactly. `Float32Array` rounding is not
  modelled, and ids are exact as a `Float32Array` holds them only below 2^24.
- Cell values are natural numbers. Negative or fractional cells, and their
  `Uint32Array` conversion, are not modelled.
- `add` stores the caller's mesh by reference. Later mutation of that mesh
  by the caller (aliasing) is not modelled: records hold mesh values.
- `pack` does not clear `_data` in the code, so the model keeps the records
  after `Pack`.
- `Nested` stands only for arrays whose rows are plain JavaScript Arrays.
  `isFlat` tests `Array.isArray` on the first element, which is false for a
  typed array. So the source treats an array of typed-array rows (such as
  `Float32Array` triples) as flat: `getCount` divides its length by 3 and
  `set` converts every row to NaN, which the `Float32Array` of positions stores
  as NaN and the `Uint32Array` of elements stores as 0. The model does not
  cover such arrays.
  Arrays that mix numbers and arrays are not representable either.

## Findings

| source | as written | input that shows it | evidently intended | confidence | as-written member | corrected member |
|---|---|---|---|---|---|---|
| index.js:78 | the id buffer has one slot per vertex but is filled over `positionRange`, which counts three slots per vertex; `subarray` clamps, so later meshes get earlier ids or none | two meshes of one vertex each: ids `[0, 0]` | `subarray(pr[0]/3, pr[1]/3).fill(id)`, one id per vertex: `[0, 1]` | high, not executed | Intended.IdFillCounterexample | Intended.CorrectedIdsAreVertexIds |
| index.js:90-91 | flat cells are copied with `set` without adding the mesh's vertex offset `pr[0]/3`, unlike nested cells | two one-vertex meshes with flat cells `[0,0,0]`: elements `[0,0,0,0,0,0]` | flat cells rebased like nested ones: `[0,0,0,1,1,1]` | high, not executed | Intended.FlatCellsCounterexample | Intended.CorrectedCellsInOwnRange |
