# doryen-fov: grid storage and the pass-through field-of-view algorithm

This project models the storage core of the `doryen-fov` Rust library. The library computes the
field of view (FOV) of one observer on a 2D grid of transparent and opaque cells.

- `MapData` (module `Grid`, file `grid.dfy`) holds a `width` x `height` map as two flat boolean
  arrays in row-major order. Cell (x, y) lives at offset `x + y * width`.
  - `transparent` is the input: the client fills it in. `new` makes every cell transparent.
  - `fov` is the output: the algorithms write it. `new` makes every cell not visible.
  - Its operations are `new`, `clear_fov` (a loop that writes `false` over the whole `fov` array)
    and four single-cell accessors that read or write one flag in place.
- The `FovAlgorithm` interface (module `Algorithms`, file `fov_algorithm.dfy`) has one operation,
  `compute_fov(map, x, y, max_radius, light_walls)`. The set of implementations is closed, so the
  interface is a datatype of implementations plus a dispatching method. That method's contract holds for every
  implementation: only `map.fov` is written, and the map keeps its size, its two arrays and its
  transparency flags.
- `FovDummy` (module `DummyFov`, file `fov_dummy.dfy`) is the pass-through implementation. It copies
  `transparent` into `fov` and ignores the observer position, the radius and the `light_walls` flag.
  It has no fields, so its constructor has nothing to establish.

`MapData` is a class with two `array<bool>` fields. `Valid()` is the invariant that both arrays
hold exactly `width * height` cells and are two distinct arrays. The lemmas about `Offset` and
`CellOf` show that the flat layout is a bijection between the cells `[0, width) x [0, height)` and the
offsets `[0, width * height)`. `Cell` reads a flat array as a grid. `CellAfterWrite` is the
read-after-write law that the in-place setters are proved against.

The code has no zero-size check and no bounds check of its own:
- `new` has no zero-size check. A 0 x n map has two empty arrays.
- The accessors check no bounds themselves. Only Rust's vector index check is there, and it panics
  when the flat offset is past the end. So the model's accessors require
  `Offset(x, y, width) < width * height`, not `x < width && y < height`. A column past the end of a
  row addresses a cell of a later row (`ColumnOverflowWraps`). It does not fail with an out-of-bounds
  error. Every accessor also says that, when `x < width`, it reads or writes cell (x, y) itself.
- `FovDummy::compute_fov` does not check the observer position.

## Model

| member | source | states |
|---|---|---|
| Grid.OffsetInBounds | src/lib.rs:37-48 | the offset `x + y*width` of every in-grid cell is below `width*height`, so an in-grid access never passes the end of the arrays |
| Grid.OffsetInjective | src/lib.rs:37-48 | two cells with columns below `width` share an offset if and only if they are the same cell |
| Grid.CellOf | src/lib.rs:15-18 | every flat offset is the offset of some cell whose column is below `width` |
| Grid.CellOfOffset | src/lib.rs:37-48 | decoding the offset of a cell (x, y) with `x < width` gives (x, y) back |
| Grid.CellOfInBounds | src/lib.rs:15-18 | every offset below `width*height` decodes to a cell inside the grid, and the grid then has a positive width |
| Grid.ColumnOverflowWraps | src/lib.rs:37-48 | the accessors do not catch a column equal to `width`: it addresses column 0 of the next row |
| Grid.CellAfterWrite | src/lib.rs:43-48 | after a write at one offset, the cell stored there holds the new value and every other cell of the grid keeps its old value |
| Grid.CellsEqual | src/lib.rs:64-75 | two flat arrays of a grid are equal if and only if they agree on every cell (x, y) |
| Grid.MapData.constructor | src/lib.rs:23-29 | the new map has the given width and height, two fresh arrays of `width*height` cells, every cell transparent and no cell in the field of view; zero sizes are accepted |
| Grid.MapData.ClearFov | src/lib.rs:32-36 | afterwards every `fov` cell is false, `transparent` is unchanged and the invariant holds |
| Grid.MapData.IsInFov | src/lib.rs:37-39 | reads without changing anything; returns the `fov` flag at offset `x + y*width`, which is cell (x, y) when `x < width` |
| Grid.MapData.IsTransparent | src/lib.rs:40-42 | reads without changing anything; returns the `transparent` flag at offset `x + y*width`, which is cell (x, y) when `x < width` |
| Grid.MapData.SetFov | src/lib.rs:43-45 | writes the `fov` flag at offset `x + y*width`, so cell (x, y) when `x < width`; every other `fov` cell and all of `transparent` are unchanged |
| Grid.MapData.SetTransparent | src/lib.rs:46-48 | writes the `transparent` flag at offset `x + y*width`, so cell (x, y) when `x < width`; every other `transparent` cell and all of `fov` are unchanged |
| DummyFov.FovDummy.ComputeFov | src/fov_dummy.rs:17-21 | afterwards `fov` equals `transparent` cell for cell. `transparent` is unchanged and only `map.fov` is written. The result does not depend on the observer, the radius, the flag or the previous `fov`. A valid map has arrays of equal length, so the copy always succeeds |
| DummyFov.FovDummy.constructor | src/fov_dummy.rs:11-15 | builds an object with no fields, so ComputeFov (which modifies only `mapData.fov`) can change nothing else |
| DummyFov.ComputeFovTwice | src/fov_dummy.rs:17-21 | two pass-through computations with different observers, radii and flags leave the same `fov` as the first one alone, and keep `transparent` |
| Grid.MapData.ClearFovTwice | src/lib.rs:32-36 | after two `clear_fov` calls the state is the one after the first: every `fov` cell false and `transparent` unchanged |
| DummyFov.FovDummyTest | src/lib.rs:64-75 | on a 10 x 10 map with a wall at (5, 5), the pass-through algorithm makes every cell's `fov` flag equal its `transparent` flag |
| Algorithms.ComputeFov | src/lib.rs:51-58 | for every implementation of the interface the map stays valid and keeps its size, its arrays and its transparency flags; for the pass-through implementation `fov` equals `transparent` afterwards |

## Left out

- Recursive shadow-casting (`FovRecursiveShadowCasting`) and restrictive precise-angle shadow-casting
  (`FovRestrictive`, MRPAS). They are declared at src/lib.rs:2-3 and 6-7, but
  src/fov_recursive_shadowcasting.rs and src/fov_restrictive.rs are not part of this model. Their
  tests (src/lib.rs:77-99) exercise that code, so they are not stated as properties. The
  `FovAlgorithm` datatype therefore has a single variant.
- examples/fov.rs, the interactive demo: keyboard input, console rendering, colours and random wall
  placement. It builds the map with `MapData::new` (examples/fov.rs:115). It places walls by writing
  the public `transparent` vector directly (examples/fov.rs:118-119). It renders by indexing the
  public `transparent` and `fov` vectors (examples/fov.rs:75-76). Otherwise it calls only
  `clear_fov` and `compute_fov`.
- Machine integers: `width`, `height` and the coordinates are `nat`. A `usize` overflow of
  `width * height` or of `x + y * width` is not modelled.
- Panics: an accessor call whose flat offset is past the end of the arrays is a Rust panic. The model
  excludes it with a precondition and does not model it as an error result.
- Trait objects: `Box<FovAlgorithm>` and the `&mut self` receiver are modelled as a datatype that holds
  an implementation object. `FovDummy` has no fields, so the receiver is never modified.
- The `Default` implementation of `FovDummy` (src/fov_dummy.rs:5-9) coincides with its constructor.
- Public fields: Rust lets a client reassign `width`, `height` or the vectors directly and so break
  the length invariant. The demo writes `transparent` by index this way (examples/fov.rs:118-119). The
  model assumes that clients keep `Valid()`.
