/**
 * The pixel store shared by the browser-facing render context and the
 * projectile scene: a row-major canvas of colours next to an RGBA byte
 * buffer, four bytes per pixel, that the page reads.
 */
module Framebuffers {
  import opened Colours
  import opened Cameras

  /** A `u8`. */
  newtype Byte = b: int | 0 <= b < 256

  /** `f64::clamp(0.0, 1.0)`. */
  function Clamp(c: real): (r: real)
    ensures 0.0 <= r <= 1.0
    ensures 0.0 <= c <= 1.0 ==> r == c
    ensures c < 0.0 ==> r == 0.0
    ensures c > 1.0 ==> r == 1.0
  {
    if c < 0.0 then 0.0 else if c > 1.0 then 1.0 else c
  }

  /**
   * `(c.clamp(0.0, 1.0) * 255.0) as u8`: the cast truncates, so the byte is
   * the largest integer not above the scaled channel.
   */
  function ChannelByte(c: real): (b: Byte)
    ensures (b as real) <= Clamp(c) * 255.0 < (b as real) + 1.0
  {
    var v := (Clamp(c) * 255.0).Floor;
    assert 0 <= v <= 255;
    v as Byte
  }

  /** Channels at or below 0 give 0, at or above 1 give 255, and larger channels never give smaller bytes. */
  lemma ChannelByteRange(c1: real, c2: real)
    ensures c1 <= 0.0 ==> ChannelByte(c1) == 0
    ensures c1 >= 1.0 ==> ChannelByte(c1) == 255
    ensures c1 <= c2 ==> ChannelByte(c1) <= ChannelByte(c2)
  {
    if c1 <= c2 {
      assert Clamp(c1) <= Clamp(c2);
    }
  }

  /** Truncation, not rounding: half intensity is byte 127, not 128. */
  lemma HalfIsTruncated()
    ensures ChannelByte(0.5) == 127
  {
    assert Clamp(0.5) * 255.0 == 127.5;
  }

  /** The four bytes of one pixel: red, green, blue, and an opaque alpha of 255. */
  function Encode(c: Colour): (bytes: seq<Byte>)
    ensures |bytes| == 4 && bytes[3] == 255
    ensures (bytes[0] as real) <= Clamp(c.r) * 255.0 < (bytes[0] as real) + 1.0
    ensures (bytes[1] as real) <= Clamp(c.g) * 255.0 < (bytes[1] as real) + 1.0
    ensures (bytes[2] as real) <= Clamp(c.b) * 255.0 < (bytes[2] as real) + 1.0
  {
    [ChannelByte(c.r), ChannelByte(c.g), ChannelByte(c.b), 255]
  }

  /** The four bytes of pixel i in a byte buffer. */
  function Quad(bytes: seq<Byte>, i: nat): seq<Byte>
    requires 4 * i + 4 <= |bytes|
  {
    bytes[4 * i..4 * i + 4]
  }

  /** The buffer the colours encode to: pixel after pixel, four bytes each. */
  function EncodeAll(cs: seq<Colour>): (bytes: seq<Byte>)
    ensures |bytes| == 4 * |cs|
    ensures forall i :: 0 <= i < |cs| ==> Quad(bytes, i) == Encode(cs[i])
  {
    if cs == [] then []
    else
      var init := EncodeAll(cs[..|cs| - 1]);
      var bytes := init + Encode(cs[|cs| - 1]);
      assert forall i :: 0 <= i < |cs| - 1 ==> Quad(bytes, i) == Quad(init, i);
      bytes
  }

  /** Two buffers of n pixels that agree pixel by pixel are equal. */
  lemma QuadsDetermine(a: seq<Byte>, b: seq<Byte>, n: nat)
    requires |a| == |b| == 4 * n
    requires forall i :: 0 <= i < n ==> Quad(a, i) == Quad(b, i)
    ensures a == b
  {
    forall j | 0 <= j < |a|
      ensures a[j] == b[j]
    {
      var i := j / 4;
      assert Quad(a, i)[j - 4 * i] == a[j] && Quad(b, i)[j - 4 * i] == b[j];
    }
  }

  /** The canvas of colours and the byte buffer beside it. */
  datatype Framebuffer = Framebuffer(canvas: Canvas, buffer: seq<Byte>)
  {
    ghost predicate Valid()
    {
      canvas.Valid() && |buffer| == 4 * |canvas.pixels|
    }

    /** The bytes are exactly the encoding of the colours. */
    ghost predicate Synced()
    {
      buffer == EncodeAll(canvas.pixels)
    }
  }

  /**
   * `RenderContext::new` and `Scene::new`: width x height black pixels and a
   * buffer of four zero bytes per pixel.
   */
  function New(width: nat, height: nat): (fb: Framebuffer)
    ensures fb.Valid() && fb.canvas.width == width && fb.canvas.height == height
    ensures forall x: nat, y: nat :: x < width && y < height ==> PixelAt(fb.canvas, x, y) == Black()
    ensures forall i :: 0 <= i < |fb.buffer| ==> fb.buffer[i] == 0
  {
    var canvas := NewCanvas(width, height);
    Framebuffer(canvas, seq(4 * |canvas.pixels|, _ => 0))
  }

  /**
   * A fresh buffer is not yet the encoding of its black pixels: its alpha
   * bytes are 0, where the encoding has 255.
   */
  lemma NewNotSynced(width: nat, height: nat)
    requires width > 0 && height > 0
    ensures !New(width, height).Synced()
  {
    var fb := New(width, height);
    IndexInRange(0, 0, width, height);
    assert Quad(fb.buffer, 0)[3] == 0;
    assert Encode(fb.canvas.pixels[0])[3] == 255;
  }

  /** `get_pixel_colour`: the stored colour in range, black outside. */
  function GetPixelColour(fb: Framebuffer, x: nat, y: nat): (c: Colour)
    requires fb.Valid()
    ensures x < fb.canvas.width && y < fb.canvas.height ==>
      Index(x, y, fb.canvas.width) < |fb.canvas.pixels| && c == fb.canvas.pixels[Index(x, y, fb.canvas.width)]
    ensures !(x < fb.canvas.width && y < fb.canvas.height) ==> c == Black()
  {
    PixelAt(fb.canvas, x, y)
  }

  /**
   * `write_pixel`: in range, the colour is stored and its four bytes are
   * written at four times the pixel's index; out of range, nothing changes.
   */
  function WritePixel(fb: Framebuffer, x: nat, y: nat, c: Colour): (r: Framebuffer)
    requires fb.Valid()
    ensures r.Valid() && r.canvas == Cameras.WritePixel(fb.canvas, x, y, c)
    ensures x < fb.canvas.width && y < fb.canvas.height ==>
      Index(x, y, fb.canvas.width) < |fb.canvas.pixels| && Quad(r.buffer, Index(x, y, fb.canvas.width)) == Encode(c)
    ensures x < fb.canvas.width && y < fb.canvas.height ==> forall i :: 0 <= i < |fb.canvas.pixels| && i != Index(x, y, fb.canvas.width) ==> Quad(r.buffer, i) == Quad(fb.buffer, i)
    ensures !(x < fb.canvas.width && y < fb.canvas.height) ==> r == fb
  {
    if x < fb.canvas.width && y < fb.canvas.height then
      var k := Index(x, y, fb.canvas.width);
      IndexInRange(x, y, fb.canvas.width, fb.canvas.height);
      var buffer := fb.buffer[..4 * k] + Encode(c) + fb.buffer[4 * k + 4..];
      assert Quad(buffer, k) == Encode(c);
      assert forall i :: 0 <= i < |fb.canvas.pixels| && i != k ==> Quad(buffer, i) == Quad(fb.buffer, i);
      Framebuffer(Cameras.WritePixel(fb.canvas, x, y, c), buffer)
    else fb
  }

  /** Reading back a written in-range pixel gives its colour; every other pixel reads as before. */
  lemma WriteThenGet(fb: Framebuffer, x: nat, y: nat, c: Colour, x': nat, y': nat)
    requires fb.Valid()
    ensures x < fb.canvas.width && y < fb.canvas.height ==> GetPixelColour(WritePixel(fb, x, y, c), x, y) == c
    ensures (x' != x || y' != y) ==> GetPixelColour(WritePixel(fb, x, y, c), x', y') == GetPixelColour(fb, x', y')
  {
  }

  /** Writing a pixel keeps the buffer the encoding of the colours. */
  lemma WritePixelKeepsSynced(fb: Framebuffer, x: nat, y: nat, c: Colour)
    requires fb.Valid() && fb.Synced()
    ensures WritePixel(fb, x, y, c).Synced()
  {
    var r := WritePixel(fb, x, y, c);
    if x < fb.canvas.width && y < fb.canvas.height {
      var k := Index(x, y, fb.canvas.width);
      var enc := EncodeAll(r.canvas.pixels);
      forall i | 0 <= i < |fb.canvas.pixels|
        ensures Quad(r.buffer, i) == Quad(enc, i)
      {
        if i == k {
          assert r.canvas.pixels[k] == c;
        } else {
          assert r.canvas.pixels[i] == fb.canvas.pixels[i];
        }
      }
      QuadsDetermine(r.buffer, enc, |fb.canvas.pixels|);
    }
  }

  /**
   * `update_buffer_from_colours`: writes each colour's four bytes at four
   * times its index, so afterwards the buffer is the colours' encoding.
   * The colours are untouched.
   */
  method UpdateBufferFromColours(fb: Framebuffer) returns (r: Framebuffer)
    requires fb.Valid()
    ensures r.Valid() && r.canvas == fb.canvas && r.Synced()
  {
    var cs := fb.canvas.pixels;
    var buffer := fb.buffer;
    var i := 0;
    while i < |cs|
      invariant 0 <= i <= |cs| && |buffer| == 4 * |cs|
      invariant buffer[..4 * i] == EncodeAll(cs[..i])
    {
      assert cs[..i + 1][..i] == cs[..i];
      buffer := buffer[..4 * i] + Encode(cs[i]) + buffer[4 * i + 4..];
      assert buffer[..4 * (i + 1)] == EncodeAll(cs[..i]) + Encode(cs[i]);
      i := i + 1;
    }
    assert cs[..i] == cs;
    assert buffer == buffer[..4 * i];
    r := Framebuffer(fb.canvas, buffer);
  }
}
