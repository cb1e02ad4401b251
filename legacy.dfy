/**
 * The legacy layout that the Rust tool's png_to_huh writes: width and height
 * as u32 in the host's byte order, then three raw bytes (R, G, B) per pixel
 * in the order the image iterator yields them. No magic, no version, no
 * metadata, no compression. Nothing in the tool reads this layout back;
 * ParseLegacy below is only a specification used to state what the bytes
 * determine.
 */
module LegacyLayout {
  import opened Wrappers
  import opened Bytes
  import opened Collaborators
  import HuhFormat

  /** image::Rgba<u8>: channels 0, 1, 2, 3 are R, G, B, A. */
  datatype Rgba8 = Rgba8(r: Byte, g: Byte, b: Byte, a: Byte)

  /** What png_to_huh uses of the opened image: width(), height() and the colours pixels() yields, in order. */
  datatype DynamicImage = DynamicImage(width: U32, height: U32, pixels: seq<Rgba8>)

  /** The three bytes pushed for each pixel, pixel after pixel. */
  function RgbStream(ps: seq<Rgba8>): (s: seq<Byte>)
    ensures |s| == 3 * |ps|
  {
    if ps == [] then []
    else
      var p := ps[|ps| - 1];
      RgbStream(ps[..|ps| - 1]) + [p.r, p.g, p.b]
  }

  /** The whole buffer png_to_huh builds and writes, for a host of byte order `e`. */
  function LegacyBytes(e: Endian, img: DynamicImage): (out: seq<Byte>)
    ensures |out| == 8 + 3 * |img.pixels|
    ensures out[..4] == U32Bytes(e, img.width) && out[4..8] == U32Bytes(e, img.height)
  {
    U32Bytes(e, img.width) + U32Bytes(e, img.height) + RgbStream(img.pixels)
  }

  /**
   * png_to_huh: `output` starts empty, takes the two dimension fields, then
   * grows by R, G and B of each pixel in turn.
   */
  method PngToHuh(e: Endian, img: DynamicImage) returns (output: seq<Byte>)
    ensures output == LegacyBytes(e, img)
  {
    output := [];
    output := output + U32Bytes(e, img.width);
    output := output + U32Bytes(e, img.height);
    for i := 0 to |img.pixels|
      invariant output == U32Bytes(e, img.width) + U32Bytes(e, img.height) + RgbStream(img.pixels[..i])
    {
      var pixel := img.pixels[i];
      output := output + [pixel.r];
      output := output + [pixel.g];
      output := output + [pixel.b];
      assert img.pixels[..i + 1][..i] == img.pixels[..i];
    }
    assert img.pixels[..|img.pixels|] == img.pixels;
  }

  lemma {:induction false} RgbStreamAt(ps: seq<Rgba8>, k: nat)
    requires k < |ps|
    ensures RgbStream(ps)[3 * k..3 * k + 3] == [ps[k].r, ps[k].g, ps[k].b]
  {
    var front := ps[..|ps| - 1];
    if k < |ps| - 1 {
      RgbStreamAt(front, k);
      assert RgbStream(ps)[3 * k..3 * k + 3] == RgbStream(front)[3 * k..3 * k + 3];
    } else {
      assert RgbStream(ps)[3 * k..3 * k + 3] == RgbStream(ps)[|RgbStream(front)|..];
    }
  }

  /**
   * The buffer is 8 + 3·(pixels visited) bytes long, begins with the width
   * and height fields, and pixel k sits at bytes 8+3k .. 8+3k+2 as R, G, B.
   */
  lemma LegacyLayoutAt(e: Endian, img: DynamicImage, k: nat)
    requires k < |img.pixels|
    ensures var out := LegacyBytes(e, img);
      && |out| == 8 + 3 * |img.pixels|
      && out[..4] == U32Bytes(e, img.width)
      && out[4..8] == U32Bytes(e, img.height)
      && out[8 + 3 * k..8 + 3 * k + 3] == [img.pixels[k].r, img.pixels[k].g, img.pixels[k].b]
  {
    var out := LegacyBytes(e, img);
    var rgb := RgbStream(img.pixels);
    RgbStreamAt(img.pixels, k);
    assert out[8..] == rgb;
    assert out[8 + 3 * k..8 + 3 * k + 3] == rgb[3 * k..3 * k + 3];
  }

  /** Reading the first eight bytes back in the same byte order gives the width and the height. */
  lemma LegacyHeaderReadBack(e: Endian, img: DynamicImage)
    ensures |LegacyBytes(e, img)| >= 8
    ensures U32Value(e, LegacyBytes(e, img)[..4]) == img.width
    ensures U32Value(e, LegacyBytes(e, img)[4..8]) == img.height
  {
    var out := LegacyBytes(e, img);
    assert out[..4] == U32Bytes(e, img.width);
    assert out[4..8] == U32Bytes(e, img.height);
    U32RoundTrip(e, img.width);
    U32RoundTrip(e, img.height);
  }

  /** Alpha is never written: pixels that agree on R, G and B give the same bytes. */
  lemma {:induction false} RgbStreamIgnoresAlpha(ps: seq<Rgba8>, qs: seq<Rgba8>)
    requires |ps| == |qs|
    requires forall k :: 0 <= k < |ps| ==> ps[k].r == qs[k].r && ps[k].g == qs[k].g && ps[k].b == qs[k].b
    ensures RgbStream(ps) == RgbStream(qs)
  {
    if ps != [] {
      RgbStreamIgnoresAlpha(ps[..|ps| - 1], qs[..|qs| - 1]);
    }
  }

  /** A colour without alpha, as the legacy bytes record it. */
  datatype Rgb = Rgb(r: Byte, g: Byte, b: Byte)

  datatype LegacyImage = LegacyImage(width: U32, height: U32, pixels: seq<Rgb>)

  /** The colours of the image without their alpha, in iteration order. */
  function Colours(ps: seq<Rgba8>): (cs: seq<Rgb>)
    ensures |cs| == |ps|
  {
    seq(|ps|, k requires 0 <= k < |ps| => Rgb(ps[k].r, ps[k].g, ps[k].b))
  }

  /** The n RGB triples that follow the eight header bytes. */
  function Triples(bytes: seq<Byte>, n: nat): (cs: seq<Rgb>)
    requires |bytes| == 8 + 3 * n
    ensures |cs| == n
  {
    seq(n, k requires 0 <= k < n => Rgb(bytes[8 + 3 * k], bytes[8 + 3 * k + 1], bytes[8 + 3 * k + 2]))
  }

  /**
   * The pixel count w·h of a legacy image (unbounded: the Rust side never
   * multiplies in u32). A function of its own only so that the product is
   * kept out of ParseLegacy's other arithmetic.
   */
  function Area(w: nat, h: nat): nat
  {
    w * h
  }

  /**
   * The meaning of a legacy buffer: two dimension fields in byte order `e`,
   * then exactly width·height RGB triples.
   */
  function ParseLegacy(e: Endian, bytes: seq<Byte>): Option<LegacyImage>
  {
    if |bytes| < 8 then None
    else
      var w: nat, h: nat := U32Value(e, bytes[..4]), U32Value(e, bytes[4..8]);
      var n := Area(w, h);
      if |bytes| != 8 + 3 * n then None
      else Some(LegacyImage(w, h, Triples(bytes, n)))
  }

  /** The triples after the header are the pixels' colours, whatever the dimension fields say. */
  lemma LegacyTriples(e: Endian, img: DynamicImage)
    ensures |LegacyBytes(e, img)| == 8 + 3 * |img.pixels|
    ensures Triples(LegacyBytes(e, img), |img.pixels|) == Colours(img.pixels)
  {
    var out := LegacyBytes(e, img);
    var n := |img.pixels|;
    forall k | 0 <= k < n
      ensures Triples(out, n)[k] == Colours(img.pixels)[k]
    {
      LegacyLayoutAt(e, img, k);
      assert out[8 + 3 * k..8 + 3 * k + 3][0] == out[8 + 3 * k];
      assert out[8 + 3 * k..8 + 3 * k + 3][1] == out[8 + 3 * k + 1];
      assert out[8 + 3 * k..8 + 3 * k + 3][2] == out[8 + 3 * k + 2];
    }
  }

  /**
   * Round trip: when the iterator yields width·height pixels (as it does for
   * a whole image), the buffer determines the dimensions and every pixel's
   * R, G, B, provided it is read in the byte order it was written in.
   */
  lemma LegacyRoundTrip(e: Endian, img: DynamicImage)
    requires |img.pixels| == img.width * img.height
    ensures ParseLegacy(e, LegacyBytes(e, img)) == Some(LegacyImage(img.width, img.height, Colours(img.pixels)))
  {
    LegacyHeaderReadBack(e, img);
    LegacyTriples(e, img);
  }

  /**
   * The Go decoder has no legacy path: a legacy buffer is turned away with
   * BadMagic, unless its width field happens to spell "HUH!" in the
   * writer's byte order (width 0x21485548 on a little-endian host).
   */
  lemma GoDecoderRejectsLegacy(j: Json, z: Flate, e: Endian, img: DynamicImage)
    ensures HuhFormat.Decode(j, z, LegacyBytes(e, img)) == Err(HuhFormat.BadMagic)
      <==> img.width != U32Value(e, HuhFormat.Magic)
  {
    var out := LegacyBytes(e, img);
    assert out[..4] == U32Bytes(e, img.width);
    HuhFormat.DecodeBadMagic(j, z, out);
    U32RoundTrip(e, img.width);
    U32BytesOfValue(e, HuhFormat.Magic);
  }
}
