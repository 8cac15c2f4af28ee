/**
 * Tile rendering of the browser-facing render context: every pixel of a
 * tile casts a ray from a fixed eye at z = -10 through its point on a
 * 7 x 7 wall at z = 10, and the colour the scene gives that ray is
 * written as four RGBA bytes into a tile-sized buffer.
 */
module RenderContexts {
  import opened Tuples
  import Colours
  import opened Rays
  import opened Cameras
  import opened Framebuffers

  /** The wall's side and its distance along z. */
  const WallSize: real := 7.0
  const WallZ: real := 10.0

  /** The eye every ray starts from. */
  function RayOrigin(): (p: Tuple)
    ensures IsPoint(p) && p.x == 0.0 && p.y == 0.0 && p.z == -10.0
  {
    Point(0.0, 0.0, -10.0)
  }

  /**
   * The wall point of global pixel (gx, gy) in an image `fullHeight` rows
   * high: pixels are 7 / fullHeight apart, starting from (3.5, 3.5) and
   * going down and, mirrored, to the left.
   */
  function WallPoint(fullHeight: nat, gx: nat, gy: nat): (p: Tuple)
    requires fullHeight > 0
    ensures IsPoint(p) && p.z == WallZ
  {
    var pixelSize := WallSize / fullHeight as real;
    var half := WallSize / 2.0;
    Point(half - pixelSize * gx as real, half - pixelSize * gy as real, WallZ)
  }

  /**
   * The first pixel looks at the wall's corner (3.5, 3.5); each step right
   * or down moves 7 / fullHeight to the left or down; row fullHeight lies
   * on the wall's lower edge -3.5.
   */
  lemma WallLayout(fullHeight: nat, gx: nat, gy: nat)
    requires fullHeight > 0
    ensures WallPoint(fullHeight, 0, 0).x == 3.5 && WallPoint(fullHeight, 0, 0).y == 3.5
    ensures WallPoint(fullHeight, gx + 1, gy).x == WallPoint(fullHeight, gx, gy).x - WallSize / fullHeight as real
    ensures WallPoint(fullHeight, gx, gy + 1).y == WallPoint(fullHeight, gx, gy).y - WallSize / fullHeight as real
    ensures WallPoint(fullHeight, gx, fullHeight).y == -3.5
    ensures gy <= fullHeight ==> -3.5 <= WallPoint(fullHeight, gx, gy).y <= 3.5
  {
    var k := WallSize / fullHeight as real;
    assert k * fullHeight as real == 7.0;
    if gy <= fullHeight {
      assert k * gy as real <= k * fullHeight as real;
    }
  }

  /**
   * The ray of global pixel (gx, gy): from the eye, with unit direction,
   * reaching the pixel's wall point after the eye-to-wall distance.
   */
  function WallRay(num: Numerics, fullHeight: nat, gx: nat, gy: nat): Ray
    requires num.Valid() && fullHeight > 0
  {
    Ray(RayOrigin(), Normalise(num, Sub(WallPoint(fullHeight, gx, gy), RayOrigin())))
  }

  lemma WallRayReachesWall(num: Numerics, fullHeight: nat, gx: nat, gy: nat)
    requires num.Valid() && fullHeight > 0
    ensures var r := WallRay(num, fullHeight, gx, gy);
      && r.origin == RayOrigin() && IsVector(r.direction) && Dot(r.direction, r.direction) == 1.0
      && Position(r, Magnitude(num, Sub(WallPoint(fullHeight, gx, gy), RayOrigin()))) == WallPoint(fullHeight, gx, gy)
  {
    var toWall := Sub(WallPoint(fullHeight, gx, gy), RayOrigin());
    assert toWall.z == 20.0;
    ReachesWall(num, toWall);
  }

  /** The squared length is at least the squared z component. */
  lemma SquaredLengthAtLeastZ(v: Tuple)
    ensures Dot(v, v) >= v.z * v.z
  {
  }

  /** Travelling |v| along v / |v| covers v, for any v reaching from the eye to the wall (z = 20). */
  lemma ReachesWall(num: Numerics, v: Tuple)
    requires num.Valid() && v.z == 20.0
    ensures Add(RayOrigin(), Scale(Normalise(num, v), Magnitude(num, v))) == Add(RayOrigin(), v)
  {
    var m := Magnitude(num, v);
    SquaredLengthAtLeastZ(v);
    assert m > 0.0 by {
      assert m >= 0.0 && m * m == Dot(v, v);
    }
    NormaliseByMagnitude(num, v, m);
    var k := 1.0 / m;
    assert k * m == 1.0;
    assert Scale(Scale(v, k), m) == v by {
      assert v.x * k * m == v.x && v.y * k * m == v.y && v.z * k * m == v.z && v.w * k * m == v.w;
    }
  }

  /** The colour `trace` gives the ray of global pixel (gx, gy). */
  function TracePixel(num: Numerics, trace: Ray -> Colours.Colour, fullHeight: nat, gx: nat, gy: nat): Colours.Colour
    requires num.Valid() && fullHeight > 0
  {
    trace(WallRay(num, fullHeight, gx, gy))
  }

  /** The first n pixels of tile row gy, starting at global column tileX. */
  function TileRow(num: Numerics, trace: Ray -> Colours.Colour, fullHeight: nat, tileX: nat, gy: nat, n: nat): (cs: seq<Colours.Colour>)
    requires num.Valid() && fullHeight > 0
    ensures |cs| == n
    ensures forall lx :: 0 <= lx < n ==> cs[lx] == TracePixel(num, trace, fullHeight, tileX + lx, gy)
  {
    if n == 0 then []
    else TileRow(num, trace, fullHeight, tileX, gy, n - 1) + [TracePixel(num, trace, fullHeight, tileX + (n - 1), gy)]
  }

  /** The colours of the first h rows of a tile, row after row. */
  function TileColours(num: Numerics, trace: Ray -> Colours.Colour, fullHeight: nat, tileX: nat, tileY: nat, w: nat, h: nat)
    : (cs: seq<Colours.Colour>)
    requires num.Valid() && fullHeight > 0
    ensures |cs| == Index(0, h, w)
    ensures forall lx: nat, ly: nat :: lx < w && ly < h ==>
      Index(lx, ly, w) < |cs| && cs[Index(lx, ly, w)] == TracePixel(num, trace, fullHeight, tileX + lx, tileY + ly)
  {
    if h == 0 then []
    else
      var init := TileColours(num, trace, fullHeight, tileX, tileY, w, h - 1);
      var cs := init + TileRow(num, trace, fullHeight, tileX, tileY + (h - 1), w);
      assert Index(0, h, w) == w + Index(0, h - 1, w);
      forall lx: nat, ly: nat | lx < w && ly < h
        ensures Index(lx, ly, w) < |cs| && cs[Index(lx, ly, w)] == TracePixel(num, trace, fullHeight, tileX + lx, tileY + ly)
      {
        IndexSplit(lx, ly, w);
        if ly == h - 1 {
          var row := TileRow(num, trace, fullHeight, tileX, tileY + (h - 1), w);
          assert Index(lx, ly, w) == |init| + lx;
          assert cs[|init| + lx] == row[lx];
        } else {
          IndexInRange(lx, ly, w, h - 1);
          assert cs[Index(lx, ly, w)] == init[Index(lx, ly, w)];
        }
      }
      cs
  }

  /**
   * `render_tile`: a buffer of four bytes per tile pixel, row-major over
   * the tile; local pixel (lx, ly) holds the encoded colour `trace` gives
   * the ray of global pixel (tileX + lx, tileY + ly). Only the full height
   * matters: `fullWidth` is passed but unused.
   */
  function RenderTile(num: Numerics, trace: Ray -> Colours.Colour, tileX: nat, tileY: nat, tileWidth: nat, tileHeight: nat,
                      fullWidth: nat, fullHeight: nat): (bytes: seq<Byte>)
    requires num.Valid() && fullHeight > 0
    ensures |bytes| == 4 * Index(0, tileHeight, tileWidth)
    ensures forall lx: nat, ly: nat :: lx < tileWidth && ly < tileHeight ==>
      && Index(lx, ly, tileWidth) < Index(0, tileHeight, tileWidth)
      && Quad(bytes, Index(lx, ly, tileWidth)) == Encode(TracePixel(num, trace, fullHeight, tileX + lx, tileY + ly))
  {
    var cs := TileColours(num, trace, fullHeight, tileX, tileY, tileWidth, tileHeight);
    var bytes := EncodeAll(cs);
    forall lx: nat, ly: nat | lx < tileWidth && ly < tileHeight
      ensures Index(lx, ly, tileWidth) < Index(0, tileHeight, tileWidth)
      ensures Quad(bytes, Index(lx, ly, tileWidth)) == Encode(TracePixel(num, trace, fullHeight, tileX + lx, tileY + ly))
    {
      assert cs[Index(lx, ly, tileWidth)] == TracePixel(num, trace, fullHeight, tileX + lx, tileY + ly);
    }
    bytes
  }

  /** `full_width` plays no part: two widths give the same bytes. */
  lemma RenderTileIgnoresFullWidth(num: Numerics, trace: Ray -> Colours.Colour, tileX: nat, tileY: nat, tileWidth: nat, tileHeight: nat,
                                   fullWidth: nat, otherWidth: nat, fullHeight: nat)
    requires num.Valid() && fullHeight > 0
    ensures RenderTile(num, trace, tileX, tileY, tileWidth, tileHeight, fullWidth, fullHeight)
         == RenderTile(num, trace, tileX, tileY, tileWidth, tileHeight, otherWidth, fullHeight)
  {
  }

  /**
   * Tiles compose: a pixel of any tile holds the same four bytes as the
   * same global pixel of the whole image rendered as a single tile.
   */
  lemma TileAgreesWithWholeImage(num: Numerics, trace: Ray -> Colours.Colour, tileX: nat, tileY: nat, tileWidth: nat, tileHeight: nat,
                                 fullWidth: nat, fullHeight: nat, lx: nat, ly: nat)
    requires num.Valid() && fullHeight > 0
    requires lx < tileWidth && ly < tileHeight && tileX + lx < fullWidth && tileY + ly < fullHeight
    ensures var tile := RenderTile(num, trace, tileX, tileY, tileWidth, tileHeight, fullWidth, fullHeight);
      var whole := RenderTile(num, trace, 0, 0, fullWidth, fullHeight, fullWidth, fullHeight);
      && Index(lx, ly, tileWidth) < Index(0, tileHeight, tileWidth)
      && Index(tileX + lx, tileY + ly, fullWidth) < Index(0, fullHeight, fullWidth)
      && Quad(tile, Index(lx, ly, tileWidth)) == Quad(whole, Index(tileX + lx, tileY + ly, fullWidth))
  {
    var whole := RenderTile(num, trace, 0, 0, fullWidth, fullHeight, fullWidth, fullHeight);
    var gx, gy := tileX + lx, tileY + ly;
    IndexInRange(lx, ly, tileWidth, tileHeight);
    IndexInRange(gx, gy, fullWidth, fullHeight);
    assert 0 + gx == gx && 0 + gy == gy;
    assert Quad(whole, Index(gx, gy, fullWidth)) == Encode(TracePixel(num, trace, fullHeight, 0 + gx, 0 + gy));
  }
}
