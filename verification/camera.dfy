/**
 * The canvas (a row-major grid of colours) and the pinhole camera that
 * maps each pixel to a ray and renders a world pixel by pixel.
 */
module Cameras {
  import opened Wrappers
  import opened Tuples
  import opened Colours
  import opened Matrices
  import opened Inversion
  import opened Rays
  import opened Worlds

  /**
   * The position of pixel (x, y) in a row-major grid `width` wide: y whole
   * rows, then x more. `Index(0, height, width)` is the size of the grid.
   */
  function Index(x: nat, y: nat, width: nat): nat
  {
    if y == 0 then x else width + Index(x, y - 1, width)
  }

  /** The index is y * width + x. */
  lemma {:induction false} IndexIsRowMajor(x: nat, y: nat, width: nat)
    ensures Index(x, y, width) == y * width + x
  {
    if y > 0 {
      IndexIsRowMajor(x, y - 1, width);
    }
  }

  /** Moving along a row adds the column. */
  lemma {:induction false} IndexSplit(x: nat, y: nat, width: nat)
    ensures Index(x, y, width) == x + Index(0, y, width)
  {
    if y > 0 {
      IndexSplit(x, y - 1, width);
    }
  }

  /** Later rows start later. */
  lemma {:induction false} RowStartMonotone(y1: nat, y2: nat, width: nat)
    requires y1 <= y2
    ensures Index(0, y1, width) <= Index(0, y2, width)
  {
    if y1 < y2 {
      RowStartMonotone(y1, y2 - 1, width);
    }
  }

  /** An in-range pixel has an in-range index. */
  lemma IndexInRange(x: nat, y: nat, width: nat, height: nat)
    requires x < width && y < height
    ensures Index(x, y, width) < Index(0, height, width)
  {
    IndexSplit(x, y, width);
    RowStartMonotone(y + 1, height, width);
  }

  /** Distinct in-range pixels have distinct indices. */
  lemma IndexInjective(x1: nat, y1: nat, x2: nat, y2: nat, width: nat)
    requires x1 < width && x2 < width
    requires Index(x1, y1, width) == Index(x2, y2, width)
    ensures x1 == x2 && y1 == y2
  {
    IndexSplit(x1, y1, width);
    IndexSplit(x2, y2, width);
    if y1 < y2 {
      assert false;
    } else if y2 < y1 {
      RowStartMonotone(y2 + 1, y1, width);
    }
  }

  datatype Canvas = Canvas(width: nat, height: nat, pixels: seq<Colour>)
  {
    ghost predicate Valid()
    {
      |pixels| == Index(0, height, width)
    }
  }

  /** `Canvas::new`: width x height pixels, all black. */
  function NewCanvas(width: nat, height: nat): (c: Canvas)
    ensures c.Valid() && c.width == width && c.height == height
    ensures forall x: nat, y: nat :: x < width && y < height ==> PixelAt(c, x, y) == Black()
  {
    var c := Canvas(width, height, seq(Index(0, height, width), _ => Black()));
    forall x: nat, y: nat | x < width && y < height
      ensures PixelAt(c, x, y) == Black()
    {
      IndexInRange(x, y, width, height);
    }
    c
  }

  /** `pixel_at`: the stored colour in range, black outside. */
  function PixelAt(c: Canvas, x: nat, y: nat): (colour: Colour)
    requires c.Valid()
    ensures x < c.width && y < c.height ==>
      Index(x, y, c.width) < |c.pixels| && colour == c.pixels[Index(x, y, c.width)]
    ensures !(x < c.width && y < c.height) ==> colour == Black()
  {
    if x < c.width && y < c.height then
      IndexInRange(x, y, c.width, c.height);
      c.pixels[Index(x, y, c.width)]
    else Black()
  }

  /**
   * `write_pixel`: in range, the pixel at (x, y) becomes the colour and
   * every other pixel is unchanged; out of range, nothing changes.
   */
  function WritePixel(c: Canvas, x: nat, y: nat, colour: Colour): (r: Canvas)
    requires c.Valid()
    ensures r.Valid() && r.width == c.width && r.height == c.height
    ensures x < c.width && y < c.height ==> PixelAt(r, x, y) == colour
    ensures forall x': nat, y': nat :: (x' != x || y' != y) ==> PixelAt(r, x', y') == PixelAt(c, x', y')
    ensures !(x < c.width && y < c.height) ==> r == c
  {
    if x < c.width && y < c.height then
      IndexInRange(x, y, c.width, c.height);
      var r := c.(pixels := c.pixels[Index(x, y, c.width) := colour]);
      forall x': nat, y': nat | (x' != x || y' != y) && x' < c.width && y' < c.height
        ensures PixelAt(r, x', y') == PixelAt(c, x', y')
      {
        IndexInRange(x', y', c.width, c.height);
        if Index(x', y', c.width) == Index(x, y, c.width) {
          IndexInjective(x', y', x, y, c.width);
        }
      }
      r
    else c
  }

  datatype Camera = Camera(
    hsize: nat,
    vsize: nat,
    fieldOfView: real,
    transform: Matrix,
    inverse: Matrix,
    halfWidth: real,
    halfHeight: real,
    pixelSize: real)

  /**
   * `Camera::new`. `halfView` is tan(field_of_view / 2), which the caller
   * supplies. The longer side of the canvas spans the half view; the
   * other is shortened by the aspect ratio.
   */
  function New(hsize: nat, vsize: nat, fieldOfView: real, halfView: real): (c: Camera)
    requires hsize > 0 && vsize > 0
    ensures c.hsize == hsize && c.vsize == vsize && c.fieldOfView == fieldOfView
    ensures c.transform == Identity() && c.inverse == Identity()
    ensures hsize >= vsize ==> c.halfWidth == halfView && c.halfHeight * (hsize as real) == halfView * (vsize as real)
    ensures hsize < vsize ==> c.halfHeight == halfView && c.halfWidth * (vsize as real) == halfView * (hsize as real)
    ensures c.pixelSize * (hsize as real) == 2.0 * c.halfWidth
  {
    var aspect := (hsize as real) / (vsize as real);
    var halfWidth := if aspect >= 1.0 then halfView else halfView * aspect;
    var halfHeight := if aspect >= 1.0 then halfView / aspect else halfView;
    AspectCases(hsize, vsize, halfView);
    Camera(hsize, vsize, fieldOfView, Identity(), Identity(), halfWidth, halfHeight,
           (halfWidth * 2.0) / (hsize as real))
  }

  /** The two branches of the aspect test, stated without division. */
  lemma AspectCases(hsize: nat, vsize: nat, halfView: real)
    requires hsize > 0 && vsize > 0
    ensures var aspect := (hsize as real) / (vsize as real);
      && (aspect >= 1.0 <==> hsize >= vsize)
      && (halfView / aspect) * (hsize as real) == halfView * (vsize as real)
      && (halfView * aspect) * (vsize as real) == halfView * (hsize as real)
  {
    AspectRatio(hsize as real, vsize as real, halfView);
  }

  /** Over plain positive numbers: h / v is at least 1 exactly when h >= v, and scaling by it cancels. */
  lemma AspectRatio(h: real, v: real, halfView: real)
    requires h > 0.0 && v > 0.0
    ensures (h / v >= 1.0 <==> h >= v)
    ensures (halfView / (h / v)) * h == halfView * v
    ensures (halfView * (h / v)) * v == halfView * h
  {
    var aspect := h / v;
    assert aspect * v == h;
    assert aspect > 0.0;
    assert (halfView / aspect) * aspect == halfView;
    assert (halfView / aspect) * h == ((halfView / aspect) * aspect) * v;
    if aspect >= 1.0 {
      MulRealMonotone(1.0, aspect, v);
    }
    if h >= v {
      var k := 1.0 / v;
      assert v * k == 1.0 && h * k == aspect;
      MulRealMonotone(v, h, k);
    }
  }

  lemma MulRealMonotone(a: real, b: real, c: real)
    requires a <= b && 0.0 <= c
    ensures a * c <= b * c
  {
  }

  /** When the canvas is at least as wide as tall, hsize pixels span twice the half view. */
  lemma PixelSizeWide(hsize: nat, vsize: nat, fieldOfView: real, halfView: real)
    requires hsize > 0 && vsize > 0 && hsize >= vsize
    ensures New(hsize, vsize, fieldOfView, halfView).pixelSize * (hsize as real) == 2.0 * halfView
  {
  }

  /** When the canvas is taller than wide, vsize pixels span twice the half view. */
  lemma PixelSizeTall(hsize: nat, vsize: nat, fieldOfView: real, halfView: real)
    requires hsize > 0 && vsize > 0 && hsize < vsize
    ensures New(hsize, vsize, fieldOfView, halfView).pixelSize * (vsize as real) == 2.0 * halfView
  {
    var c := New(hsize, vsize, fieldOfView, halfView);
    var h, v, p := hsize as real, vsize as real, c.pixelSize;
    assert p * h == 2.0 * c.halfWidth;
    assert c.halfWidth * v == halfView * h;
    assert (p * v) * h == (p * h) * v;
    assert (p * h) * v == 2.0 * (c.halfWidth * v);
    CancelPositive(p * v, 2.0 * halfView, h);
  }

  /**
   * The pixel covers the same size whichever way round the canvas is:
   * twice the half view over the longer side.
   */
  lemma PixelSizeLongerSide(hsize: nat, vsize: nat, fieldOfView: real, halfView: real)
    requires hsize > 0 && vsize > 0
    ensures var longer := if hsize >= vsize then hsize else vsize;
      New(hsize, vsize, fieldOfView, halfView).pixelSize * (longer as real) == 2.0 * halfView
    ensures New(hsize, vsize, fieldOfView, halfView).pixelSize == New(vsize, hsize, fieldOfView, halfView).pixelSize
  {
    if hsize > vsize {
      PixelSizeWide(hsize, vsize, fieldOfView, halfView);
      PixelSizeSwap(hsize, vsize, fieldOfView, halfView);
    } else if hsize < vsize {
      PixelSizeTall(hsize, vsize, fieldOfView, halfView);
      PixelSizeSwap(vsize, hsize, fieldOfView, halfView);
    } else {
      PixelSizeWide(hsize, vsize, fieldOfView, halfView);
    }
  }

  /** Swapping the sides of a canvas wider than tall keeps the pixel size. */
  lemma PixelSizeSwap(hsize: nat, vsize: nat, fieldOfView: real, halfView: real)
    requires hsize > vsize > 0
    ensures New(hsize, vsize, fieldOfView, halfView).pixelSize == New(vsize, hsize, fieldOfView, halfView).pixelSize
  {
    var p := New(hsize, vsize, fieldOfView, halfView).pixelSize;
    var q := New(vsize, hsize, fieldOfView, halfView).pixelSize;
    PixelSizeWide(hsize, vsize, fieldOfView, halfView);
    PixelSizeTall(vsize, hsize, fieldOfView, halfView);
    CancelPositive(p, q, hsize as real);
  }

  /** A positive factor can be cancelled. */
  lemma CancelPositive(a: real, b: real, k: real)
    requires k > 0.0 && a * k == b * k
    ensures a == b
  {
    assert (a - b) * k == 0.0;
  }

  /** The vertical half extent is likewise vsize pixels' worth. */
  lemma PixelSizeHeight(hsize: nat, vsize: nat, fieldOfView: real, halfView: real)
    requires hsize > 0 && vsize > 0
    ensures var c := New(hsize, vsize, fieldOfView, halfView);
      c.pixelSize * (vsize as real) == 2.0 * c.halfHeight
  {
    var c := New(hsize, vsize, fieldOfView, halfView);
    var h, v := hsize as real, vsize as real;
    if hsize >= vsize {
      HeightWhenWide(c.pixelSize, c.halfWidth, c.halfHeight, halfView, h, v);
    } else {
      HeightWhenTall(c.pixelSize, c.halfWidth, c.halfHeight, halfView, h, v);
    }
  }

  /**
   * Over plain numbers: a pixel size p spanning 2 w over h pixels, with
   * u = half and w v = half h, spans 2 u over v pixels.
   */
  lemma HeightWhenTall(p: real, w: real, u: real, half: real, h: real, v: real)
    requires h > 0.0 && p * h == 2.0 * w && u == half && w * v == half * h
    ensures p * v == 2.0 * u
  {
    assert (p * v) * h == (p * h) * v;
    assert (p * h) * v == 2.0 * (w * v);
    assert (2.0 * u) * h == 2.0 * (half * h);
    CancelPositive(p * v, 2.0 * u, h);
  }

  /**
   * Over plain numbers: a pixel size p spanning 2 w over h pixels, with
   * w = half and u h = half v, spans 2 u over v pixels.
   */
  lemma HeightWhenWide(p: real, w: real, u: real, half: real, h: real, v: real)
    requires h > 0.0 && p * h == 2.0 * w && w == half && u * h == half * v
    ensures p * v == 2.0 * u
  {
    assert (p * v) * h == (p * h) * v;
    assert (2.0 * u) * h == 2.0 * (u * h);
    CancelPositive(p * v, 2.0 * u, h);
  }

  /** `Camera::set_transform`: stores the transform with its inverse. */
  function SetTransform(c: Camera, t: Matrix): (r: Camera)
    requires Transform4(t) && Invertible(t)
    ensures r.transform == t && r.inverse == Inverse(t) && Transform4(r.inverse)
    ensures r == c.(transform := r.transform, inverse := r.inverse)
  {
    c.(transform := t, inverse := Inverse(t))
  }

  /** The centre of pixel (x, y) on the canvas plane z = -1, in camera space. */
  function CameraPoint(c: Camera, x: nat, y: nat): (p: Tuple)
    ensures IsPoint(p) && p.z == -1.0
    ensures p.x == c.halfWidth - ((x as real) + 0.5) * c.pixelSize
    ensures p.y == c.halfHeight - ((y as real) + 0.5) * c.pixelSize
  {
    var xoffset := ((x as real) + 0.5) * c.pixelSize;
    var yoffset := ((y as real) + 0.5) * c.pixelSize;
    Point(c.halfWidth - xoffset, c.halfHeight - yoffset, -1.0)
  }

  /**
   * Mirror-image pixels have mirror-image centres: the centre of column x
   * and of column hsize-1-x are opposite, and likewise for rows. On an
   * odd canvas the middle pixel looks straight down -z.
   */
  lemma CentresSymmetric(hsize: nat, vsize: nat, fieldOfView: real, halfView: real, x: nat, y: nat)
    requires hsize > 0 && vsize > 0 && x < hsize && y < vsize
    ensures var c := New(hsize, vsize, fieldOfView, halfView);
      && CameraPoint(c, x, y).x == -CameraPoint(c, hsize - 1 - x, y).x
      && CameraPoint(c, x, y).y == -CameraPoint(c, x, vsize - 1 - y).y
  {
    var c := New(hsize, vsize, fieldOfView, halfView);
    PixelSizeHeight(hsize, vsize, fieldOfView, halfView);
    Mirror(c.halfWidth, c.pixelSize, hsize as real, x as real, (hsize - 1 - x) as real);
    Mirror(c.halfHeight, c.pixelSize, vsize as real, y as real, (vsize - 1 - y) as real);
  }

  /** Over plain numbers: offsets a + 1/2 and b + 1/2 pixels with a + b + 1 = n are mirror images about n / 2. */
  lemma Mirror(half: real, p: real, n: real, a: real, b: real)
    requires p * n == 2.0 * half && a + b + 1.0 == n
    ensures half - (a + 0.5) * p == -(half - (b + 0.5) * p)
  {
    assert (a + 0.5) * p + (b + 0.5) * p == n * p;
  }

  /**
   * `ray_for_pixel`: from the camera's origin through the pixel centre,
   * both taken to world space by the camera's inverse transform.
   */
  function RayForPixel(num: Numerics, c: Camera, x: nat, y: nat): (r: Ray)
    requires num.Valid() && Transform4(c.inverse)
    ensures var toPixel := Tuples.Sub(MulTuple(c.inverse, CameraPoint(c, x, y)), r.origin);
      Dot(toPixel, toPixel) != 0.0 ==> Dot(r.direction, r.direction) == 1.0
    ensures r.origin == MulTuple(c.inverse, Point(0.0, 0.0, 0.0))
  {
    var pixel := MulTuple(c.inverse, CameraPoint(c, x, y));
    var origin := MulTuple(c.inverse, Point(0.0, 0.0, 0.0));
    Ray(origin, Normalise(num, Tuples.Sub(pixel, origin)))
  }

  /**
   * The ray reaches the pixel centre: travelling the distance from the
   * origin to the (world-space) pixel centre along the ray lands on it.
   */
  lemma RayForPixelReachesPixel(num: Numerics, c: Camera, x: nat, y: nat)
    requires num.Valid() && Transform4(c.inverse)
    ensures var r := RayForPixel(num, c, x, y);
      var pixel := MulTuple(c.inverse, CameraPoint(c, x, y));
      var toPixel := Tuples.Sub(pixel, r.origin);
      var d := Magnitude(num, toPixel);
      Dot(toPixel, toPixel) != 0.0 ==> 0.0 < d && Position(r, d) == pixel
  {
    var r := RayForPixel(num, c, x, y);
    var pixel := MulTuple(c.inverse, CameraPoint(c, x, y));
    var toPixel := Tuples.Sub(pixel, r.origin);
    var d := Magnitude(num, toPixel);
    if Dot(toPixel, toPixel) != 0.0 {
      SumOfSquares(toPixel);
      assert d * d == Dot(toPixel, toPixel) && 0.0 <= d;
      NormaliseByMagnitude(num, toPixel, d);
      ScaleBack(toPixel, 1.0 / d);
      assert 1.0 / (1.0 / d) == d;
      assert Tuples.Scale(r.direction, d) == toPixel;
    }
  }

  /** A tuple dotted with itself is a sum of squares, so never negative. */
  lemma SumOfSquares(a: Tuple)
    ensures 0.0 <= Dot(a, a)
  {
    assert 0.0 <= a.x * a.x && 0.0 <= a.y * a.y && 0.0 <= a.z * a.z && 0.0 <= a.w * a.w;
  }

  /** With an untransformed camera the ray starts at the origin and points at the pixel centre. */
  lemma RayForPixelUntransformed(num: Numerics, c: Camera, x: nat, y: nat)
    requires num.Valid() && c.inverse == Identity()
    ensures var p := CameraPoint(c, x, y);
      && RayForPixel(num, c, x, y).origin == Point(0.0, 0.0, 0.0)
      && RayForPixel(num, c, x, y).direction == Normalise(num, Vector(p.x, p.y, -1.0))
  {
    var p := CameraPoint(c, x, y);
    IdentityTimesTuple(p);
    var o := Point(0.0, 0.0, 0.0);
    IdentityTimesTuple(o);
    assert Tuples.Sub(p, o) == Vector(p.x, p.y, -1.0);
  }

  /** The colour `render` writes at (x, y): what the world shows along the pixel's ray. */
  function PixelColour(num: Numerics, c: Camera, w: World, geo: Geometry, x: nat, y: nat): Colour
    requires num.Valid() && Transform4(c.inverse) && w.light.Some?
  {
    var ray := RayForPixel(num, c, x, y);
    ColourAtTotal(w, geo, num, ray, MaxBounces);
    ColourAt(w, geo, num, ray, MaxBounces).value
  }

  /** Paints a width x height canvas with f(x, y) at every pixel, row by row. */
  method Paint(width: nat, height: nat, f: (nat, nat) -> Colour) returns (image: Canvas)
    ensures image.Valid() && image.width == width && image.height == height
    ensures forall x: nat, y: nat :: x < width && y < height ==> PixelAt(image, x, y) == f(x, y)
  {
    image := NewCanvas(width, height);
    var y: nat := 0;
    while y < height
      invariant y <= height
      invariant image.Valid() && image.width == width && image.height == height
      invariant forall x': nat, y': nat :: x' < width && y' < y ==> PixelAt(image, x', y') == f(x', y')
    {
      var x: nat := 0;
      while x < width
        invariant x <= width
        invariant image.Valid() && image.width == width && image.height == height
        invariant forall x': nat, y': nat :: x' < width && y' < y ==> PixelAt(image, x', y') == f(x', y')
        invariant forall x': nat :: x' < x ==> PixelAt(image, x', y) == f(x', y)
      {
        image := WritePixel(image, x, y, f(x, y));
        x := x + 1;
      }
      y := y + 1;
    }
  }

  /**
   * `render`: an hsize x vsize canvas whose every pixel is the world's
   * colour along that pixel's ray with the full bounce budget. The world
   * must have a light (the source panics on the first hit otherwise).
   */
  method Render(num: Numerics, c: Camera, w: World, geo: Geometry) returns (image: Canvas)
    requires num.Valid() && Transform4(c.inverse) && w.light.Some?
    ensures image.Valid() && image.width == c.hsize && image.height == c.vsize
    ensures forall x: nat, y: nat :: x < c.hsize && y < c.vsize ==>
      PixelAt(image, x, y) == PixelColour(num, c, w, geo, x, y)
  {
    image := Paint(c.hsize, c.vsize, (x: nat, y: nat) => PixelColour(num, c, w, geo, x, y));
  }

  /**
   * `render_to_buffer`: the same colours written straight into a flat
   * buffer at y * hsize + x; the rest of the buffer is left alone. The
   * buffer must hold the whole image (the source panics on an index past
   * its end).
   */
  method RenderToBuffer(num: Numerics, c: Camera, w: World, geo: Geometry, buffer: seq<Colour>)
    returns (out: seq<Colour>)
    requires num.Valid() && Transform4(c.inverse) && w.light.Some?
    requires |buffer| >= Index(0, c.vsize, c.hsize)
    ensures |out| == |buffer|
    ensures forall x: nat, y: nat :: x < c.hsize && y < c.vsize ==>
      Index(x, y, c.hsize) < |out| && out[Index(x, y, c.hsize)] == PixelColour(num, c, w, geo, x, y)
    ensures forall i :: Index(0, c.vsize, c.hsize) <= i < |out| ==> out[i] == buffer[i]
  {
    var image := Render(num, c, w, geo);
    out := image.pixels + buffer[|image.pixels|..];
    forall x: nat, y: nat | x < c.hsize && y < c.vsize
      ensures Index(x, y, c.hsize) < |out| && out[Index(x, y, c.hsize)] == PixelColour(num, c, w, geo, x, y)
    {
      assert PixelAt(image, x, y) == PixelColour(num, c, w, geo, x, y);
    }
  }
}
