/** The renderer's viewport parameters set up in src/dump-tile-png.js for the
    output tile at zoom `z`. The centre is a floating-point projection through
    a foreign library and is not part of this model. */
module Viewport {

  /** `params` without its centre. */
  datatype Params = Params(zoom: nat, bearing: int, pitch: int, width: nat, height: nat)

  /** The view is rendered one zoom level below the tile's, never below 0, on
      a square of 128 pixels; at zoom 0, where no lower level exists, the
      square is doubled to 256 instead. */
  function ViewportFor(z: nat): (p: Params)
    ensures z > 0 ==> p.zoom + 1 == z
    ensures z == 0 ==> p.zoom == 0
    ensures p.bearing == 0 && p.pitch == 0
    ensures p.width == p.height
    ensures p.width == 128 || p.width == 256
    ensures p.width == 256 <==> z == 0
  {
    var mbglZ := if z - 1 > 0 then z - 1 else 0;
    var side := if z == 0 then 128 * 2 else 128;
    Params(mbglZ, 0, 0, side, side)
  }
}
