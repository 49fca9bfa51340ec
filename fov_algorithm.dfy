/**
  The `FovAlgorithm` interface: one operation that computes the field of view
  of a map in place. Its implementations are interchangeable; the only one in
  this model is the pass-through algorithm.
 */
module Algorithms {
  import opened Grid
  import opened DummyFov

  /** The implementations that can stand behind the interface. */
  datatype FovAlgorithm = Dummy(dummy: FovDummy)

  /** Computes the field of view of `mapData` seen from (x, y), within
      `maxRadius` cells (0 meaning unlimited), with or without lighting walls.
      Whatever the implementation, only the field-of-view flags are written:
      the map keeps its size, its arrays and its transparency flags. */
  method ComputeFov(algorithm: FovAlgorithm, mapData: MapData, x: nat, y: nat, maxRadius: nat, lightWalls: bool)
    requires mapData.Valid()
    modifies mapData.fov
    ensures mapData.Valid()
    ensures mapData.transparent[..] == old(mapData.transparent[..])
    ensures algorithm.Dummy? ==> mapData.fov[..] == mapData.transparent[..]
  {
    match algorithm
    case Dummy(dummy) => dummy.ComputeFov(mapData, x, y, maxRadius, lightWalls);
  }
}
