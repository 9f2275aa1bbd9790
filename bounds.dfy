/** The bounding-square fold at the start of `generate_texture`
    (glyphy_lib.cc:403-420, 429). Each arc contributes the integer extrema
    the caller computed for it: `floor` of its leftmost x and lowest y,
    `ceil` of its rightmost x and highest y. */
module Bounds {

  datatype Extent = Extent(left: int, right: int, low: int, high: int)

  /** The fold's result: the box, the forced square side (glyph_width and
      glyph_height), and min_dimension. */
  datatype Square = Square(minX: int, maxX: int, minY: int, maxY: int,
                           width: int, height: int, minDimension: int)

  /** The initial values of the four accumulators. grid_min_y starts at
      65335, not 65535 like grid_min_x. */
  const INIT_MIN_X: int := 65535
  const INIT_MAX_X: int := -65535
  const INIT_MIN_Y: int := 65335
  const INIT_MAX_Y: int := -65535

  function Max(a: int, b: int): int
  {
    if a < b then b else a
  }

  function Min(a: int, b: int): int
  {
    if a < b then a else b
  }

  /** Each accumulator is the minimum (maximum) of its initial value and the
      arcs' extrema: bounded by all of them and equal to one of them. The
      square's side is the larger of the box's width and height, and
      min_dimension equals that side. */
  method BoundingSquare(arcs: seq<Extent>) returns (sq: Square)
    ensures sq.minX <= INIT_MIN_X && forall i :: 0 <= i < |arcs| ==> sq.minX <= arcs[i].left
    ensures sq.minX == INIT_MIN_X || exists i :: 0 <= i < |arcs| && sq.minX == arcs[i].left
    ensures sq.maxX >= INIT_MAX_X && forall i :: 0 <= i < |arcs| ==> sq.maxX >= arcs[i].right
    ensures sq.maxX == INIT_MAX_X || exists i :: 0 <= i < |arcs| && sq.maxX == arcs[i].right
    ensures sq.minY <= INIT_MIN_Y && forall i :: 0 <= i < |arcs| ==> sq.minY <= arcs[i].low
    ensures sq.minY == INIT_MIN_Y || exists i :: 0 <= i < |arcs| && sq.minY == arcs[i].low
    ensures sq.maxY >= INIT_MAX_Y && forall i :: 0 <= i < |arcs| ==> sq.maxY >= arcs[i].high
    ensures sq.maxY == INIT_MAX_Y || exists i :: 0 <= i < |arcs| && sq.maxY == arcs[i].high
    ensures sq.width == sq.height == Max(sq.maxX - sq.minX, sq.maxY - sq.minY)
    ensures sq.minDimension == sq.width
  {
    var gridMinX, gridMaxX := INIT_MIN_X, INIT_MAX_X;
    var gridMinY, gridMaxY := INIT_MIN_Y, INIT_MAX_Y;
    for i := 0 to |arcs|
      invariant gridMinX <= INIT_MIN_X && forall k :: 0 <= k < i ==> gridMinX <= arcs[k].left
      invariant gridMinX == INIT_MIN_X || exists k :: 0 <= k < i && gridMinX == arcs[k].left
      invariant gridMaxX >= INIT_MAX_X && forall k :: 0 <= k < i ==> gridMaxX >= arcs[k].right
      invariant gridMaxX == INIT_MAX_X || exists k :: 0 <= k < i && gridMaxX == arcs[k].right
      invariant gridMinY <= INIT_MIN_Y && forall k :: 0 <= k < i ==> gridMinY <= arcs[k].low
      invariant gridMinY == INIT_MIN_Y || exists k :: 0 <= k < i && gridMinY == arcs[k].low
      invariant gridMaxY >= INIT_MAX_Y && forall k :: 0 <= k < i ==> gridMaxY >= arcs[k].high
      invariant gridMaxY == INIT_MAX_Y || exists k :: 0 <= k < i && gridMaxY == arcs[k].high
    {
      gridMinX := Min(gridMinX, arcs[i].left);
      gridMaxX := Max(gridMaxX, arcs[i].right);
      gridMinY := Min(gridMinY, arcs[i].low);
      gridMaxY := Max(gridMaxY, arcs[i].high);
    }
    var glyphWidth := gridMaxX - gridMinX;
    var glyphHeight := gridMaxY - gridMinY;
    glyphWidth := Max(glyphWidth, glyphHeight);
    glyphHeight := glyphWidth;
    var minDimension := Min(glyphWidth, glyphHeight);
    sq := Square(gridMinX, gridMaxX, gridMinY, gridMaxY, glyphWidth, glyphHeight, minDimension);
  }
}
