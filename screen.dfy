/** The text screen: its fixed size, the row-major cell index and the
    luminance ramp of glyphs that the renderer draws with. */
module Screen {

  /** Screen size in character cells (`SCREEN_WIDTH`, `SCREEN_HEIGHT`). */
  const Width: nat := 80
  const Height: nat := 50
  /** Number of cells of the depth buffer and of the character buffer. */
  const CellCount: nat := Width * Height

  /** The glyph of a cell nothing has been drawn to. */
  const Blank: char := ' '

  /** The 12 glyphs, dimmest first. */
  const Lux: seq<char> := ['.', ',', '-', '~', ':', ';', '=', '!', '*', '#', '$', '@']

  /** Row-major index of cell (x, y). For an on-screen cell it lies inside
      the buffers and gives back both coordinates. */
  function LinPos(x: nat, y: nat): (p: nat)
    ensures x < Width ==> p % Width == x && p / Width == y
    ensures x < Width && y < Height ==> p < CellCount
  {
    y * Width + x
  }

  /** Two on-screen cells share a buffer index only if they are the same cell. */
  lemma LinPosInjective(x1: nat, y1: nat, x2: nat, y2: nat)
    requires x1 < Width && x2 < Width
    ensures LinPos(x1, y1) == LinPos(x2, y2) <==> x1 == x2 && y1 == y2
  {
  }

  /** Every buffer index is the index of exactly one on-screen cell. */
  lemma LinPosOnto(c: nat)
    requires c < CellCount
    ensures c % Width < Width && c / Width < Height
    ensures LinPos(c % Width, c / Width) == c
  {
  }

  /** No glyph of the ramp is blank, and the ramp lists 12 distinct glyphs. */
  lemma RampGlyphs()
    ensures |Lux| == 12
    ensures Blank !in Lux
    ensures forall i, j :: 0 <= i < j < |Lux| ==> Lux[i] != Lux[j]
  {
  }

  /** The float-to-`usize` cast that turns a projected screen coordinate
      into a cell coordinate: truncation toward zero, with every negative
      value saturating to 0. */
  function CellCoordinate(v: real): (n: nat)
    ensures v >= 0.0 ==> n as real <= v < n as real + 1.0
    ensures v < 0.0 ==> n == 0
  {
    if v < 0.0 then 0 else v.Floor
  }

  /** The bounds test on a cast coordinate passes exactly for the projected
      values below the screen size, negative ones included: values left of
      (or above) the screen are not rejected but land in the first column
      (or row). */
  lemma CellCoordinateBelow(v: real, size: nat)
    ensures CellCoordinate(v) < size <==> 0 < size && v < size as real
  {
  }

  /** Absolute value of a real. */
  function Abs(v: real): (r: real)
    ensures r >= 0.0 && (r == v || r == -v)
  {
    if v < 0.0 then -v else v
  }

  /** Index into the ramp for a luminance value: the truncation of |lum| * 8.
      Whenever the luminance stays within its bound of square root of two
      (lum * lum <= 2) the index is a valid ramp position. */
  function LuminanceIndex(lum: real): (i: nat)
    ensures i as real <= Abs(lum) * 8.0 < i as real + 1.0
    ensures lum * lum <= 2.0 ==> i < |Lux|
  {
    (Abs(lum) * 8.0).Floor
  }

  /** A brighter (larger in magnitude) luminance never picks a dimmer glyph. */
  lemma LuminanceIndexMonotone(l1: real, l2: real)
    requires Abs(l1) <= Abs(l2)
    ensures LuminanceIndex(l1) <= LuminanceIndex(l2)
  {
  }
}
