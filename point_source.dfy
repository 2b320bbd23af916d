/** The point list the renderer draws: every other pixel of every other row
    of the decoded image, kept when it is opaque black and mapped to
    coordinates centred on the image, followed by five fixed points at the
    corners and the centre. */
module PointSource {

  /** One 8-bit colour channel. */
  newtype Byte = x: int | 0 <= x < 256

  datatype Rgba = Rgba(r: Byte, g: Byte, b: Byte, a: Byte)

  /** A decoded image: `pixels[y][x]` is the pixel in column x of row y. */
  datatype Image = Image(width: nat, height: nat, pixels: seq<seq<Rgba>>)

  /** A pixel position in the image. */
  datatype Pixel = Pixel(x: nat, y: nat)

  /** A point in coordinates centred on the image, each axis scaled to [-1, 1]. */
  datatype Point2D = Point2D(x: real, y: real)

  /** The grid holds `height` rows of `width` pixels each. */
  predicate WellFormed(img: Image)
  {
    |img.pixels| == img.height &&
    forall y :: 0 <= y < |img.pixels| ==> |img.pixels[y]| == img.width
  }

  /** Only opaque pure black is ink. */
  predicate IsInk(c: Rgba)
  {
    c == Rgba(0, 0, 0, 255)
  }

  /** The pixel at `px` exists and is ink. */
  predicate InkAt(img: Image, px: Pixel)
    requires WellFormed(img)
  {
    px.x < img.width && px.y < img.height && IsInk(img.pixels[px.y][px.x])
  }

  /** `px` lies on an even column of an even row: the positions sampled. */
  predicate Sampled(px: Pixel)
  {
    px.x % 2 == 0 && px.y % 2 == 0
  }

  /** Row-major order of pixel positions. */
  predicate Before(p: Pixel, q: Pixel)
  {
    p.y < q.y || (p.y == q.y && p.x < q.x)
  }

  /** A position along an axis of length `extent`, centred and scaled so the
      axis runs over [-1, 1). The position can be read back from the result. */
  function Normalise(v: nat, extent: nat): (r: real)
    requires v < extent
    ensures -1.0 <= r < 1.0
    ensures (r + 1.0) * extent as real == 2.0 * v as real
  {
    ((v as real - extent as real / 2.0) * 2.0) / extent as real
  }

  /** The point of an image pixel. */
  function ToPoint(img: Image, px: Pixel): (p: Point2D)
    requires px.x < img.width && px.y < img.height
    ensures -1.0 <= p.x < 1.0 && -1.0 <= p.y < 1.0
  {
    Point2D(Normalise(px.x, img.width), Normalise(px.y, img.height))
  }

  /** Every pixel of `pxs` lies inside the image. */
  predicate InImage(img: Image, pxs: seq<Pixel>)
  {
    forall i :: 0 <= i < |pxs| ==> pxs[i].x < img.width && pxs[i].y < img.height
  }

  /** The ink pixels of row `y` at columns x, x + 2, x + 4, ..., left to right. */
  function RowInk(img: Image, y: nat, x: nat): seq<Pixel>
    requires WellFormed(img) && y < img.height
    decreases img.width - x
  {
    if x >= img.width then []
    else (if IsInk(img.pixels[y][x]) then [Pixel(x, y)] else []) + RowInk(img, y, x + 2)
  }

  /** The ink pixels at even columns of rows y, y + 2, y + 4, ..., in row-major order. */
  function InkFrom(img: Image, y: nat): seq<Pixel>
    requires WellFormed(img)
    decreases img.height - y
  {
    if y >= img.height then []
    else RowInk(img, y, 0) + InkFrom(img, y + 2)
  }

  /** Every sampled ink pixel of the image, in row-major order. */
  function SampledInk(img: Image): (r: seq<Pixel>)
    requires WellFormed(img)
    ensures InImage(img, r)
  {
    InkFromSound(img, 0);
    InkFrom(img, 0)
  }

  /** Only ink pixels of row `y`, on columns of the parity of `x` from `x`
      on, are listed, strictly left to right. */
  lemma {:induction false} RowInkSound(img: Image, y: nat, x: nat)
    requires WellFormed(img) && y < img.height
    ensures forall i :: 0 <= i < |RowInk(img, y, x)| ==>
              RowInk(img, y, x)[i].y == y && x <= RowInk(img, y, x)[i].x &&
              (RowInk(img, y, x)[i].x - x) % 2 == 0 && InkAt(img, RowInk(img, y, x)[i])
    ensures forall i, j :: 0 <= i < j < |RowInk(img, y, x)| ==> RowInk(img, y, x)[i].x < RowInk(img, y, x)[j].x
    decreases img.width - x
  {
    if x < img.width {
      RowInkSound(img, y, x + 2);
    }
  }

  /** Only ink pixels on even columns of rows y, y + 2, ... are listed, in
      strictly increasing row-major order. */
  lemma {:induction false} InkFromSound(img: Image, y: nat)
    requires WellFormed(img)
    ensures forall i :: 0 <= i < |InkFrom(img, y)| ==>
              InkFrom(img, y)[i].x % 2 == 0 && y <= InkFrom(img, y)[i].y &&
              (InkFrom(img, y)[i].y - y) % 2 == 0 && InkAt(img, InkFrom(img, y)[i])
    ensures forall i, j :: 0 <= i < j < |InkFrom(img, y)| ==> Before(InkFrom(img, y)[i], InkFrom(img, y)[j])
    decreases img.height - y
  {
    if y < img.height {
      RowInkSound(img, y, 0);
      InkFromSound(img, y + 2);
    }
  }

  /** The sampled pixels are ink on even columns of even rows, each listed
      once, in strictly increasing row-major order. */
  lemma SampledInkSound(img: Image)
    requires WellFormed(img)
    ensures forall i :: 0 <= i < |SampledInk(img)| ==> Sampled(SampledInk(img)[i]) && InkAt(img, SampledInk(img)[i])
    ensures forall i, j :: 0 <= i < j < |SampledInk(img)| ==> Before(SampledInk(img)[i], SampledInk(img)[j])
  {
    InkFromSound(img, 0);
  }

  /** The pixels, each mapped to its point, in the same order. */
  function ToPoints(img: Image, pxs: seq<Pixel>): (r: seq<Point2D>)
    requires InImage(img, pxs)
    ensures |r| == |pxs|
    decreases |pxs|
  {
    if pxs == [] then []
    else ToPoints(img, pxs[..|pxs| - 1]) + [ToPoint(img, pxs[|pxs| - 1])]
  }

  /** Each pixel's point sits at the pixel's own position in the list. */
  lemma {:induction false} ToPointsAt(img: Image, pxs: seq<Pixel>)
    requires InImage(img, pxs)
    ensures forall i :: 0 <= i < |pxs| ==> ToPoints(img, pxs)[i] == ToPoint(img, pxs[i])
    decreases |pxs|
  {
    if pxs != [] {
      ToPointsAt(img, pxs[..|pxs| - 1]);
    }
  }

  /** Mapping pixels to points distributes over concatenation. */
  lemma {:induction false} ToPointsAppend(img: Image, a: seq<Pixel>, b: seq<Pixel>)
    requires InImage(img, a) && InImage(img, b)
    ensures InImage(img, a + b)
    ensures ToPoints(img, a + b) == ToPoints(img, a) + ToPoints(img, b)
    decreases |b|
  {
    if b != [] {
      var n := |b| - 1;
      ToPointsAppend(img, a, b[..n]);
      assert (a + b)[..|a| + n] == a + b[..n];
      calc {
        ToPoints(img, a + b);
        ToPoints(img, (a + b)[..|a| + n]) + [ToPoint(img, (a + b)[|a| + n])];
        ToPoints(img, a + b[..n]) + [ToPoint(img, b[n])];
        ToPoints(img, a) + ToPoints(img, b[..n]) + [ToPoint(img, b[n])];
        ToPoints(img, a) + ToPoints(img, b);
      }
    } else {
      assert a + b == a;
    }
  }

  /** Mapping a run of pixels plus one more pixel appends that pixel's point. */
  lemma ToPointsSnoc(img: Image, pxs: seq<Pixel>, px: Pixel)
    requires InImage(img, pxs) && px.x < img.width && px.y < img.height
    ensures InImage(img, pxs + [px])
    ensures ToPoints(img, pxs + [px]) == ToPoints(img, pxs) + [ToPoint(img, px)]
  {
    assert (pxs + [px])[..|pxs|] == pxs;
  }

  /** The corners and the centre, appended after the image points. */
  const Sentinels: seq<Point2D> :=
    [Point2D(-1.0, -1.0), Point2D(-1.0, 1.0), Point2D(1.0, -1.0), Point2D(1.0, 1.0), Point2D(0.0, 0.0)]

  /** The whole point list of an image. */
  function Generated(img: Image): (r: seq<Point2D>)
    requires WellFormed(img)
  {
    ToPoints(img, SampledInk(img)) + Sentinels
  }

  /** Builds the point list: the points of the sampled ink pixels, then
      the five fixed points. */
  method GenPoints(img: Image) returns (points: seq<Point2D>)
    requires WellFormed(img)
    ensures points == Generated(img)
  {
    points := SampleImage(img);
    points := points + [Point2D(-1.0, -1.0)];
    points := points + [Point2D(-1.0, 1.0)];
    points := points + [Point2D(1.0, -1.0)];
    points := points + [Point2D(1.0, 1.0)];
    points := points + [Point2D(0.0, 0.0)];
  }

  /** The outer loop: walks every other row, appending the points of its
      ink pixels on every other column. */
  method SampleImage(img: Image) returns (points: seq<Point2D>)
    requires WellFormed(img)
    ensures points == ToPoints(img, SampledInk(img))
  {
    points := [];
    ghost var done: seq<Pixel> := [];
    var y := 0;
    while y < img.height
      invariant done + InkFrom(img, y) == SampledInk(img)
      invariant InImage(img, done) && points == ToPoints(img, done)
      decreases img.height - y
    {
      points := SampleRow(img, y, points);
      ToPointsAppend(img, done, RowInk(img, y, 0));
      done := done + RowInk(img, y, 0);
      y := y + 2;
    }
    assert done == SampledInk(img);
  }

  /** The inner loop over one row: appends the point of each ink pixel on an
      even column of row `y`, left to right. */
  method SampleRow(img: Image, y: nat, points: seq<Point2D>) returns (points': seq<Point2D>)
    requires WellFormed(img) && y < img.height
    ensures InImage(img, RowInk(img, y, 0))
    ensures points' == points + ToPoints(img, RowInk(img, y, 0))
  {
    points' := points;
    ghost var done: seq<Pixel> := [];
    var x := 0;
    while x < img.width
      invariant done + RowInk(img, y, x) == RowInk(img, y, 0)
      invariant InImage(img, done) && points' == points + ToPoints(img, done)
      decreases img.width - x
    {
      if IsInk(img.pixels[y][x]) {
        var px := Pixel(x, y);
        ToPointsSnoc(img, done, px);
        done := done + [px];
        points' := points' + [ToPoint(img, px)];
      }
      x := x + 2;
    }
    assert done == RowInk(img, y, 0);
  }

  /** Every ink pixel at or after column x of row y, on a column of the same
      parity as x, is in the row's list. */
  lemma {:induction false} RowInkComplete(img: Image, y: nat, x: nat, px: Pixel)
    requires WellFormed(img) && y < img.height
    requires px.y == y && x <= px.x && (px.x - x) % 2 == 0 && InkAt(img, px)
    ensures px in RowInk(img, y, x)
    decreases img.width - x
  {
    if px.x != x {
      RowInkComplete(img, y, x + 2, px);
    }
  }

  /** Every ink pixel on an even column of rows y, y + 2, ... is in the list. */
  lemma {:induction false} InkFromComplete(img: Image, y: nat, px: Pixel)
    requires WellFormed(img)
    requires px.x % 2 == 0 && y <= px.y && (px.y - y) % 2 == 0 && InkAt(img, px)
    ensures px in InkFrom(img, y)
    decreases img.height - y
  {
    if px.y == y {
      RowInkComplete(img, y, 0, px);
    } else {
      InkFromComplete(img, y + 2, px);
    }
  }

  /** A pixel is sampled exactly when it is ink on an even column of an even row. */
  lemma SampledInkMembership(img: Image, px: Pixel)
    requires WellFormed(img)
    ensures px in SampledInk(img) <==> Sampled(px) && InkAt(img, px)
  {
    SampledInkSound(img);
    if Sampled(px) && InkAt(img, px) {
      InkFromComplete(img, 0, px);
    }
  }

  /** The point list is the points of the sampled ink pixels in row-major
      order, each inside [-1, 1) on both axes, then the corners
      (-1, -1), (-1, 1), (1, -1), (1, 1) and the centre (0, 0); so every
      coordinate of the list lies in [-1, 1]. */
  lemma GeneratedLayout(img: Image)
    requires WellFormed(img)
    ensures |Generated(img)| == |SampledInk(img)| + 5
    ensures forall i :: 0 <= i < |SampledInk(img)| ==>
              Generated(img)[i] == ToPoint(img, SampledInk(img)[i]) &&
              -1.0 <= Generated(img)[i].x < 1.0 && -1.0 <= Generated(img)[i].y < 1.0
    ensures Generated(img)[|SampledInk(img)|..] == Sentinels
    ensures forall i :: 0 <= i < |Generated(img)| ==>
              -1.0 <= Generated(img)[i].x <= 1.0 && -1.0 <= Generated(img)[i].y <= 1.0
  {
    var n := |SampledInk(img)|;
    ToPointsAt(img, SampledInk(img));
    assert Generated(img)[n..] == Sentinels;
    forall i | n <= i < |Generated(img)|
      ensures -1.0 <= Generated(img)[i].x <= 1.0 && -1.0 <= Generated(img)[i].y <= 1.0
    {
      assert Generated(img)[i] == Sentinels[i - n];
    }
  }
}
