# Rust 3D text-mode animation: verified model of the frame buffer and the point list

The program spins a black-and-white logo in a terminal. It turns the image
into a list of points once, at startup. Then, for every frame, it projects
each point onto an 80 × 50 character screen and draws it through a
depth-tested frame buffer. The buffer is two parallel arrays: a depth buffer
of inverse depths (`ooz`, larger is closer) and a character buffer of glyphs.
Both are cleared at the start of a frame. A point is then written only when
its cell is on screen and it is strictly closer than what the cell already
holds. The glyph comes from a fixed ramp of 12 symbols.

This project models that core in Dafny:

- `screen.dfy` (module `Screen`) holds the screen constants and the
  row-major cell index `LinPos`. It also has the glyph ramp, the
  float-to-index cast of projected coordinates and the luminance-to-ramp
  index.
- `frame_buffer.dfy` (module `FrameBuffer`) holds the frame buffer.
  - The class `Buffers` owns the two arrays and has the methods `Reset`,
    `Plot` and `RenderFrame`.
  - The methods are proved against the value-level functions `Cleared`,
    `Step` and `Rendered`.
  - Lemmas about `Rendered` say what every cell holds at the end of a frame:
    the largest inverse depth that reached it, and the glyph of the earliest
    point with that depth. They also show that this does not depend on the
    order of the points when depths differ.
- `point_source.dfy` (module `PointSource`) builds the point list from a
  decoded image. `GenPoints` has the nested loops over every other row and
  column. It is proved against `Generated`, and lemmas show that the listed
  pixels are exactly the sampled black ones, in row-major order. The five
  fixed points come last.

The projection itself is trigonometry on `f32`: the rotation, the
perspective divide and the luminance formula. The model does not include
it. A projected point reaches the buffer as
`Projected(xp, yp, ooz, lumIndex)`. The cell coordinates are already cast
to naturals, `ooz` is a `real`, and `lumIndex` is a ramp position below 12.

Two details of the code are worth stating, and the model follows the code
in both:

- Off-screen points. The bounds test at src/main.rs:190-191 reads as if
  points off the screen were meant to be dropped. But the `as usize` casts
  at src/main.rs:182-183 saturate every negative value to 0, so a point left
  of or above the screen passes the test and is drawn in column 0 or row 0.
  `CellCoordinate` and `CellCoordinateBelow` state this.
- Point range. The five points pushed under "Points in the limit"
  (src/main.rs:118-123) span [-1, 1] on each axis. The normalisation of
  image pixels at src/main.rs:105-106 gives [-1, 1): only the five fixed
  points reach 1.

## Model

| member | source | states |
|---|---|---|
| `Screen.LinPos` | src/main.rs:128-130 | For x < 80, the index gives back x as its remainder by 80 and y as its quotient. For x < 80 and y < 50 it is below 80 × 50, so every guarded buffer access is in range. |
| `Screen.LinPosInjective` | src/main.rs:128-130 | Two on-screen cells have the same index exactly when they are the same cell. |
| `Screen.LinPosOnto` | src/main.rs:128-130 | Every buffer index below 80 × 50 is the index of an on-screen cell. |
| `Screen.RampGlyphs` | src/main.rs:136 | The ramp has 12 distinct glyphs, and none of them is the blank. |
| `Screen.CellCoordinate` | src/main.rs:182-183 | The cast truncates a non-negative projected coordinate to the cell containing it, and turns every negative one into 0. |
| `Screen.CellCoordinateBelow` | src/main.rs:182-183 | The bound test `< size` on a cast coordinate passes exactly when the projected value is below the size, negative values included. |
| `Screen.LuminanceIndex` | src/main.rs:195-196 | The index is the truncation of \|lum\| × 8. It is a valid ramp position (< 12) whenever lum² ≤ 2, the bound that the comment beside it relies on. |
| `Screen.LuminanceIndexMonotone` | src/main.rs:195 | A luminance of larger magnitude never picks an earlier (dimmer) glyph. |
| `FrameBuffer.Cleared` | src/main.rs:144-145 | After the reset, every depth is 0 and every glyph is blank, in buffers of 80 × 50 cells. |
| `FrameBuffer.Step` | src/main.rs:190-200 | Processing one point never decreases any depth. Every cell the point does not fall on keeps its depth and glyph. When the bounds and strict depth tests pass, the cell gets the point's `ooz` and the ramp glyph `Lux[lumIndex]` in both buffers at once. When they fail, nothing changes. |
| `FrameBuffer.Rendered` | src/main.rs:144-201 | A whole frame keeps both buffers at 80 × 50 cells. |
| `FrameBuffer.RenderedCell` | src/main.rs:156-201 | At the end of a frame, each cell holds the largest `ooz` among the on-screen points that fell on it, or 0 if none is positive. Its glyph is blank when that depth is 0, and otherwise the glyph of the earliest point reaching that depth. |
| `FrameBuffer.MaxDepthUnique` | src/main.rs:190-194 | The largest inverse depth on a cell is fixed by the points alone. |
| `FrameBuffer.RenderedLockStep` | src/main.rs:192-199 | The buffers change in lock step. A cell shows a non-blank glyph exactly when its depth is non-zero, the depth is never negative, and every glyph shown is from the ramp. |
| `FrameBuffer.NonPositiveNeverWritten` | src/main.rs:190-192 | Within a frame, a point whose `ooz` is at most 0 never changes either buffer. |
| `FrameBuffer.DepthNeverDecreases` | src/main.rs:192-194 | Within a frame, the depth stored at any cell never decreases: after any prefix of the points it is at most the depth after all of them. |
| `FrameBuffer.DepthOrderIndependent` | src/main.rs:156-201 | Any reordering of a frame's points leaves every cell's depth unchanged. |
| `FrameBuffer.GlyphOrderIndependent` | src/main.rs:190-199 | The closest point wins regardless of order: if no two points on a cell share an `ooz`, any reordering leaves that cell's glyph unchanged. |
| `FrameBuffer.Buffers.constructor` | src/main.rs:261-262 | The buffers are allocated with 80 × 50 cells, all depths 0 and all glyphs blank. |
| `FrameBuffer.Buffers.Reset` | src/main.rs:144-145 | The two arrays are filled in place, so the buffers become `Cleared()` whatever they held. |
| `FrameBuffer.Buffers.Plot` | src/main.rs:190-200 | The arrays change in place exactly as `Step` says for the point. |
| `FrameBuffer.Buffers.RenderFrame` | src/main.rs:132-201 | After the reset and the loop over the points, the arrays hold `Rendered(points)`, whatever the previous frame left in them. |
| `FrameBuffer.Fill` | src/main.rs:144-145 | Every element of the array becomes the given value, for the character buffer and the depth buffer alike. |
| `PointSource.Normalise` | src/main.rs:105-106 | A coordinate v < extent maps to ((v − extent/2) × 2) / extent in [-1, 1). The coordinate can be read back, since (r + 1) × extent = 2v. |
| `PointSource.ToPoint` | src/main.rs:105-106 | The point of an in-image pixel lies in [-1, 1) on both axes. |
| `PointSource.SampledInk` | src/main.rs:99-116 | Every listed pixel lies inside the image. |
| `PointSource.RowInkSound` | src/main.rs:100-115 | The inner loop lists only black pixels of its row, on every other column from its start, strictly left to right. |
| `PointSource.InkFromSound` | src/main.rs:99-116 | The nested loops list only black pixels on even columns of every other row from their start, in strictly increasing row-major order. |
| `PointSource.SampledInkSound` | src/main.rs:99-116 | Every sampled pixel is black and on an even column of an even row. They come in strictly increasing row-major order, so none is listed twice. |
| `PointSource.RowInkComplete` | src/main.rs:100-115 | Every black pixel the inner loop visits is in its list. |
| `PointSource.InkFromComplete` | src/main.rs:99-116 | Every black pixel the nested loops visit is in their list. |
| `PointSource.SampledInkMembership` | src/main.rs:99-116 | A pixel is listed exactly when it is opaque black, on an even column and on an even row. |
| `PointSource.ToPoints` | src/main.rs:113 | The point list has exactly one point per pixel. |
| `PointSource.ToPointsAt` | src/main.rs:113 | Each pixel's normalised point sits at the pixel's own position in the list, so the order is kept. |
| `PointSource.ToPointsAppend` | src/main.rs:113 | Pushing the points of one run of pixels after another's gives the points of the joined run. |
| `PointSource.SampleRow` | src/main.rs:100-115 | The inner loop appends to the list given, in order, the points of the black pixels on the even columns of one row, and nothing else. |
| `PointSource.SampleImage` | src/main.rs:99-116 | The nested loops build exactly the points of `SampledInk(img)`, in its order. |
| `PointSource.GenPoints` | src/main.rs:93-125 | The nested loops and the five pushes build exactly `Generated(img)`. |
| `PointSource.GeneratedLayout` | src/main.rs:99-125 | The list holds the points of the sampled black pixels in row-major order, each in [-1, 1) on both axes. Then come (-1,-1), (-1,1), (1,-1), (1,1) and (0,0) as its last five entries, so every coordinate of the list lies in [-1, 1]. |

## Left out

- The projection: rotation by the two angles, the curvature term, the perspective divide and the luminance formula (src/main.rs:139-142, 148-187). They are `f32` trigonometry. A frame's points come in already projected.
- `f32` rounding, infinities and NaN: depths, luminances and normalised coordinates are `real`. So a projected z of 0, which would give an infinite `ooz`, is not modelled.
- Image decoding with `image::open` and the exit on failure (src/main.rs:76-83). These are a library call and process termination. The decoded image is a parameter: a grid of RGBA pixels with `height` rows of `width` pixels each.
- The `max_x`/`max_y` tracking in `load_image_gen_points` (src/main.rs:96-112). It has no observable effect.
- Terminal output: the escape sequences and the printing loops (src/main.rs:203-212, 243-251, 264, 268).
- The driver loop in `main` (src/main.rs:266-273): the angle increments, the sleep and the endless loop.
- `fill_output_buffer_from_point_list` (src/main.rs:216-241). It is an unused debug helper.
- FrameBuffer.Buffers.Plot: requires `lumIndex < 12` for every point. The program only indexes the ramp after a point passes the depth test, so a rejected point with a larger index would not fail there.
- FrameBuffer.Buffers.RenderFrame: its points carry a `RampIndex` (below 12) by type, which is the same requirement as `Plot`'s on every point.
- Screen.LinPos: the arithmetic is unbounded. `usize` overflow is not modelled, since the program only calls `lin_pos` after both coordinates passed the bounds test.
- Screen.CellCoordinate: the cast's saturation at the top of the `usize` range and its mapping of NaN to 0 are not modelled. A coordinate that large fails the bounds test either way.
- Screen.LuminanceIndex: computed on reals, not `f32`.
