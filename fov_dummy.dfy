/**
  The pass-through field-of-view algorithm: it copies the transparency flags of
  the map into its field-of-view flags, whatever the observer, radius and wall
  lighting asked for. It serves as a baseline for the grid plumbing.
 */
module DummyFov {
  import opened Grid

  /** The pass-through algorithm. It holds no state of its own. */
  class FovDummy {
    constructor ()
    {
    }

    /** Overwrites the whole field of view with the transparency flags. The
        observer position (x, y), `maxRadius` and `lightWalls` are ignored. */
    method ComputeFov(mapData: MapData, x: nat, y: nat, maxRadius: nat, lightWalls: bool)
      requires mapData.Valid()
      modifies mapData.fov
      ensures mapData.Valid()
      ensures mapData.fov[..] == mapData.transparent[..]
      ensures mapData.transparent[..] == old(mapData.transparent[..])
    {
      forall i | 0 <= i < mapData.fov.Length {
        mapData.fov[i] := mapData.transparent[i];
      }
    }
  }

  /** Running the pass-through algorithm a second time, from any observer and
      with any radius and flag, leaves the field of view of the first run. */
  method ComputeFovTwice(fov: FovDummy, mapData: MapData,
                         x1: nat, y1: nat, r1: nat, lw1: bool,
                         x2: nat, y2: nat, r2: nat, lw2: bool)
    requires mapData.Valid()
    modifies mapData.fov
    ensures mapData.Valid()
    ensures mapData.fov[..] == old(mapData.transparent[..])
    ensures mapData.transparent[..] == old(mapData.transparent[..])
  {
    fov.ComputeFov(mapData, x1, y1, r1, lw1);
    var once := mapData.fov[..];
    fov.ComputeFov(mapData, x2, y2, r2, lw2);
    assert mapData.fov[..] == once;
  }

  /** The library's unit test of the pass-through algorithm: on a 10 x 10 map
      with a wall at (5, 5), computed from observer (0, 0) with unlimited radius,
      every cell's field-of-view flag equals its transparency flag. `agree` is
      the conjunction of the per-cell comparisons the test makes. */
  method FovDummyTest() returns (agree: bool)
    ensures agree
  {
    var fov := new FovDummy();
    var mapData := new MapData(10, 10);
    mapData.SetTransparent(5, 5, false);
    fov.ComputeFov(mapData, 0, 0, 0, false);
    agree := true;
    for y := 0 to 10
      invariant agree
    {
      for x := 0 to 10
        invariant agree
      {
        agree := agree && mapData.transparent[x + y * 10] == mapData.fov[x + y * 10];
      }
    }
  }
}
