/**
 * The current `.huh` layout as pure functions: what imageToHuh writes
 * (Encode) and what huhToImage accepts and rebuilds (Decode), with the
 * lemmas about header, field offsets, error exits, pixel placement and the
 * encode/decode round trip.
 *
 *   offset 0      "HUH!"
 *   offset 4      version byte 2
 *   offset 5      metadata length N, u32 little-endian
 *   offset 9      N bytes of JSON metadata
 *   offset 9+N    width, u32 little-endian
 *   offset 13+N   height, u32 little-endian
 *   offset 17+N   DEFLATE stream of row-major RGB triples
 */
module HuhFormat {
  import opened Wrappers
  import opened Bytes
  import opened Collaborators

  /** The ASCII bytes of "HUH!". */
  const Magic: seq<Byte> := [72, 85, 72, 33]
  const Version: Byte := 2

  /** A colour as color.Color.RGBA() reports it: 16-bit, alpha-premultiplied channels. */
  datatype Rgba64 = Rgba64(r: U16, g: U16, b: U16, a: U16)

  datatype Rectangle = Rectangle(minX: int, minY: int, maxX: int, maxY: int)

  /** The encoder's input: an image.Image, i.e. its Bounds() and its At(x, y). */
  datatype SourceImage = SourceImage(bounds: Rectangle, at: (int, int) -> Rgba64)

  /** An 8-bit colour of the decoder's image.RGBA. */
  datatype Rgba = Rgba(r: Byte, g: Byte, b: Byte, a: Byte)

  /** The zero colour every pixel of a fresh image.RGBA holds. */
  const Transparent: Rgba := Rgba(0, 0, 0, 0)

  /** image.RGBA with bounds (0, 0)-(width, height); pixel (x, y) is pix[y * width + x]. */
  datatype RgbaImage = RgbaImage(width: U32, height: U32, pix: seq<Rgba>)

  datatype Decoded = Decoded(image: RgbaImage, meta: Metadata)

  /** The ways huhToImage gives up; a partial image is never returned with any of them. */
  datatype DecodeError =
    | BadMagic
      /** the version byte read, or 0 when there was none to read */
    | UnsupportedVersion(version: Byte)
    | MissingMetadataLength
    | TruncatedMetadata
    | InvalidMetadata
    | TruncatedWidth
    | TruncatedHeight
    | TruncatedPixels

  /** image.RGBA.At: the stored colour inside the bounds, the zero colour outside. */
  function PixelAt(img: RgbaImage, x: int, y: int): (c: Rgba)
    ensures !(0 <= x < img.width && 0 <= y < img.height) ==> c == Transparent
  {
    if 0 <= x < img.width && 0 <= y < img.height && y * img.width + x < |img.pix|
    then img.pix[y * img.width + x]
    else Transparent
  }

  /** Row-major index arithmetic: (x, y) inside w×h is index y·w + x < w·h. */
  lemma RowMajorIndex(x: nat, y: nat, w: nat, h: nat)
    requires x < w && y < h
    ensures 0 <= y * w + x < w * h
  {
    assert y * w + x < (y + 1) * w;
    assert (y + 1) * w <= h * w;
  }

  /** ... and index i < w·h is the point (i mod w, i div w). */
  lemma IndexPoint(i: nat, w: nat, h: nat)
    requires i < w * h
    ensures w > 0 && i % w < w && i / w < h && (i / w) * w + i % w == i
  {
  }

  // ---------------------------------------------------------------------
  // Encoding (imageToHuh)
  // ---------------------------------------------------------------------

  /** uint32(Bounds().Max.X): Min is not consulted, and the value wraps at 2^32. */
  function Width(img: SourceImage): (w: U32)
    ensures 0 <= img.bounds.maxX < TWO_32 ==> w == img.bounds.maxX
  {
    Wrap32(img.bounds.maxX)
  }

  /** uint32(Bounds().Max.Y), likewise. */
  function Height(img: SourceImage): (h: U32)
    ensures 0 <= img.bounds.maxY < TWO_32 ==> h == img.bounds.maxY
  {
    Wrap32(img.bounds.maxY)
  }

  /** uint32(width * height): the pixel count the decoder uses, wrapped to 32 bits. */
  function Area32(w: U32, h: U32): (n: U32)
    ensures n <= w * h
    ensures w * h < TWO_32 ==> n == w * h
  {
    Wrap32(w * h)
  }

  /** byte(v >> 8): the high byte of a 16-bit channel. */
  function HighByte(v: U16): (b: Byte)
    ensures 256 * b <= v < 256 * (b + 1)
  {
    v / 256
  }

  /** The three bytes written for one pixel; alpha is dropped. */
  function RgbBytes(c: Rgba64): (s: seq<Byte>)
    ensures |s| == 3
  {
    [HighByte(c.r), HighByte(c.g), HighByte(c.b)]
  }

  /** What the decoder turns those three bytes back into. */
  function Opaque(c: Rgba64): Rgba
  {
    Rgba(HighByte(c.r), HighByte(c.g), HighByte(c.b), 255)
  }

  /** The bytes written for pixels (0, y) .. (n - 1, y) of one row. */
  function RowPrefix(img: SourceImage, y: int, n: nat): (s: seq<Byte>)
    ensures |s| == 3 * n
  {
    if n == 0 then [] else RowPrefix(img, y, n - 1) + RgbBytes(img.at(n - 1, y))
  }

  /** The bytes written for the first n rows of width w. */
  function Rows(img: SourceImage, w: nat, n: nat): (s: seq<Byte>)
    ensures |s| == 3 * (w * n)
  {
    if n == 0 then []
    else
      var prev := Rows(img, w, n - 1);
      assert w * n == w * (n - 1) + w;
      prev + RowPrefix(img, n - 1, w)
  }

  /** Everything handed to the compressor: y outer, x inner, three bytes per pixel. */
  function PixelStream(img: SourceImage): (s: seq<Byte>)
    ensures |s| == 3 * (Width(img) * Height(img))
  {
    Rows(img, Width(img), Height(img))
  }

  /** The whole file imageToHuh writes. */
  function Encode(j: Json, z: Flate, meta: Metadata, img: SourceImage): (file: seq<Byte>)
    ensures |file| >= 17 + |j.marshal(meta)|
    ensures file[..4] == Magic && file[4] == Version
  {
    var json := j.marshal(meta);
    var file := Magic + [Version] + U32Bytes(Little, Wrap32(|json|)) + json
      + U32Bytes(Little, Width(img)) + U32Bytes(Little, Height(img))
      + z.deflate(PixelStream(img));
    assert file[..4] == Magic;
    file
  }

  lemma {:induction false} RowPrefixAt(img: SourceImage, y: int, n: nat, x: nat, c: nat)
    requires x < n && c < 3
    ensures RowPrefix(img, y, n)[3 * x + c] == RgbBytes(img.at(x, y))[c]
  {
    if x < n - 1 {
      RowPrefixAt(img, y, n - 1, x, c);
    }
  }

  /** Where byte c of pixel (x, y) falls among n rows of width w: inside them, and inside the last row when y is the last. */
  lemma RowsOffset(w: nat, n: nat, x: nat, y: nat, c: nat)
    requires x < w && y < n && c < 3
    ensures 3 * (y * w + x) + c < 3 * (w * n)
    ensures y == n - 1 ==> 3 * (y * w + x) + c == 3 * (w * (n - 1)) + (3 * x + c)
  {
    var d: nat := n - 1 - y;
    assert w * n == y * w + w + w * d;
    assert y == n - 1 ==> y * w == w * (n - 1);
  }

  lemma {:induction false} RowsAt(img: SourceImage, w: nat, n: nat, x: nat, y: nat, c: nat)
    requires x < w && y < n && c < 3
    ensures 3 * (y * w + x) + c < |Rows(img, w, n)|
    ensures Rows(img, w, n)[3 * (y * w + x) + c] == RgbBytes(img.at(x, y))[c]
  {
    var prev := Rows(img, w, n - 1);
    var row := RowPrefix(img, n - 1, w);
    assert Rows(img, w, n) == prev + row;
    RowsOffset(w, n, x, y, c);
    if y == n - 1 {
      RowPrefixAt(img, y, w, x, c);
    } else {
      RowsAt(img, w, n - 1, x, y, c);
    }
  }

  /**
   * The pixel stream holds exactly 3·w·h bytes, and pixel (x, y) occupies the
   * three bytes at 3·(y·w + x): the high bytes of its R, G and B, in that order.
   */
  lemma PixelStreamAt(img: SourceImage, x: nat, y: nat, c: nat)
    requires x < Width(img) && y < Height(img) && c < 3
    ensures 0 <= y * Width(img) + x < Width(img) * Height(img)
    ensures |PixelStream(img)| == 3 * (Width(img) * Height(img))
    ensures var k := 3 * (y * Width(img) + x) + c;
      k < |PixelStream(img)| && PixelStream(img)[k] == RgbBytes(img.at(x, y))[c]
  {
    var w: nat, h: nat := Width(img), Height(img);
    RowMajorIndex(x, y, w, h);
    assert PixelStream(img) == Rows(img, w, h);
    RowsAt(img, w, h, x, y, c);
  }

  /** Where each field of an encoded file sits. */
  lemma EncodeLayout(j: Json, z: Flate, meta: Metadata, img: SourceImage)
    ensures var file, n := Encode(j, z, meta, img), |j.marshal(meta)|;
      && file[..4] == Magic
      && file[4] == Version
      && file[5..9] == U32Bytes(Little, Wrap32(n))
      && file[9..9 + n] == j.marshal(meta)
      && file[9 + n..13 + n] == U32Bytes(Little, Width(img))
      && file[13 + n..17 + n] == U32Bytes(Little, Height(img))
      && file[17 + n..] == z.deflate(PixelStream(img))
  {
    var json := j.marshal(meta);
    var n := |json|;
    var a := Magic + [Version];
    var b := U32Bytes(Little, Wrap32(n));
    var c := U32Bytes(Little, Width(img));
    var d := U32Bytes(Little, Height(img));
    var e := z.deflate(PixelStream(img));
    var file := Encode(j, z, meta, img);
    assert file == a + b + json + c + d + e;
    assert file[5..9] == b;
    assert file[9..9 + n] == json;
    assert file[9 + n..13 + n] == c;
    assert file[13 + n..17 + n] == d;
    assert file[17 + n..] == e;
  }

  lemma {:induction false} RowPrefixSame(img1: SourceImage, img2: SourceImage, y: int, n: nat)
    requires forall x: nat | x < n :: RgbBytes(img1.at(x, y)) == RgbBytes(img2.at(x, y))
    ensures RowPrefix(img1, y, n) == RowPrefix(img2, y, n)
  {
    if n > 0 {
      RowPrefixSame(img1, img2, y, n - 1);
    }
  }

  lemma {:induction false} RowsSame(img1: SourceImage, img2: SourceImage, w: nat, n: nat)
    requires forall x: nat, y: nat | x < w && y < n :: RgbBytes(img1.at(x, y)) == RgbBytes(img2.at(x, y))
    ensures Rows(img1, w, n) == Rows(img2, w, n)
  {
    if n > 0 {
      RowsSame(img1, img2, w, n - 1);
      RowPrefixSame(img1, img2, n - 1, w);
    }
  }

  /**
   * The file depends on the image only through Max.X, Max.Y and the high
   * bytes of R, G, B at the points (0..w-1, 0..h-1): Bounds().Min, alpha and
   * the low bytes of each channel are never written.
   */
  lemma EncodeDependsOnlyOn(j: Json, z: Flate, meta: Metadata, img1: SourceImage, img2: SourceImage)
    requires img1.bounds.maxX == img2.bounds.maxX && img1.bounds.maxY == img2.bounds.maxY
    requires forall x: nat, y: nat | x < Width(img1) && y < Height(img1) ::
      RgbBytes(img1.at(x, y)) == RgbBytes(img2.at(x, y))
    ensures Encode(j, z, meta, img1) == Encode(j, z, meta, img2)
  {
    RowsSame(img1, img2, Width(img1), Height(img1));
  }

  // ---------------------------------------------------------------------
  // Decoding (huhToImage)
  // ---------------------------------------------------------------------

  /** Pixel i rebuilt from bytes 3i, 3i+1, 3i+2 of the pixel buffer, fully opaque. */
  function OpaqueAt(buffer: seq<Byte>, i: nat): (c: Rgba)
    requires 3 * i + 2 < |buffer|
    ensures c.a == 255 && c != Transparent
    ensures [c.r, c.g, c.b] == buffer[3 * i..3 * i + 3]
  {
    Rgba(buffer[3 * i], buffer[3 * i + 1], buffer[3 * i + 2], 255)
  }

  /**
   * The pixels of the decoded w×h image: the first uint32(w*h) are set from
   * the buffer, the rest keep the zero colour of a fresh image.RGBA.
   */
  function DecodedPixels(w: U32, h: U32, buffer: seq<Byte>): (pix: seq<Rgba>)
    requires |buffer| == 3 * Area32(w, h)
    ensures |pix| == w * h
  {
    seq(w * h, k requires 0 <= k < w * h =>
      if k < Area32(w, h) then OpaqueAt(buffer, k) else Transparent)
  }

  /** huhToImage on the bytes of a file, read strictly front to back. */
  function Decode(j: Json, z: Flate, file: seq<Byte>): (r: Result<Decoded, DecodeError>)
    ensures r.Ok? ==> |file| >= 17 && file[..4] == Magic && file[4] == Version
    ensures r.Ok? ==> |r.value.image.pix| == r.value.image.width * r.value.image.height
  {
    if |file| < 4 || file[..4] != Magic then Err(BadMagic)
    else if |file| < 5 || file[4] != Version then
      Err(UnsupportedVersion(if |file| < 5 then 0 else file[4]))
    else if |file| < 9 then Err(MissingMetadataLength)
    else
      var n: nat := U32Value(Little, file[5..9]);
      if |file| < 9 + n then Err(TruncatedMetadata)
      else match j.unmarshal(file[9..9 + n])
        case None => Err(InvalidMetadata)
        case Some(meta) =>
          if |file| < 13 + n then Err(TruncatedWidth)
          else if |file| < 17 + n then Err(TruncatedHeight)
          else
            var w := U32Value(Little, file[9 + n..13 + n]);
            var h := U32Value(Little, file[13 + n..17 + n]);
            var total: nat := Area32(w, h);
            var stream := z.inflate(file[17 + n..]);
            if |stream| < 3 * total then Err(TruncatedPixels)
            else Ok(Decoded(RgbaImage(w, h, DecodedPixels(w, h, stream[..3 * total])), meta))
  }

  /** The success exit of Decode, for a file whose every field is present and well formed. */
  lemma DecodeAccepts(j: Json, z: Flate, file: seq<Byte>, n: U32, meta: Metadata, w: U32, h: U32)
    requires |file| >= 17 + n && file[..4] == Magic && file[4] == Version
    requires U32Value(Little, file[5..9]) == n
    requires j.unmarshal(file[9..9 + n]) == Some(meta)
    requires U32Value(Little, file[9 + n..13 + n]) == w
    requires U32Value(Little, file[13 + n..17 + n]) == h
    requires |z.inflate(file[17 + n..])| >= 3 * Area32(w, h)
    ensures Decode(j, z, file)
      == Ok(Decoded(RgbaImage(w, h, DecodedPixels(w, h, z.inflate(file[17 + n..])[..3 * Area32(w, h)])), meta))
  {
  }

  /** The magic is checked first: a file fails with BadMagic exactly when it lacks "HUH!". */
  lemma DecodeBadMagic(j: Json, z: Flate, file: seq<Byte>)
    ensures Decode(j, z, file) == Err(BadMagic) <==> |file| < 4 || file[..4] != Magic
  {
  }

  /** The version is checked second, before any metadata or dimension is read. */
  lemma DecodeBadVersion(j: Json, z: Flate, file: seq<Byte>)
    ensures (Decode(j, z, file).Err? && Decode(j, z, file).error.UnsupportedVersion?)
      <==> (|file| >= 4 && file[..4] == Magic && (|file| < 5 || file[4] != Version))
  {
  }

  /**
   * A successful decode has read every field in full: the metadata length,
   * that many bytes of metadata that parse, width, height, and at least
   * 3·uint32(w·h) bytes out of the decompressor.
   */
  lemma DecodeSuccess(j: Json, z: Flate, file: seq<Byte>)
    requires Decode(j, z, file).Ok?
    ensures |file| >= 9
    ensures var n := U32Value(Little, file[5..9]);
      && |file| >= 17 + n
      && j.unmarshal(file[9..9 + n]) == Some(Decode(j, z, file).value.meta)
      && Decode(j, z, file).value.image.width == U32Value(Little, file[9 + n..13 + n])
      && Decode(j, z, file).value.image.height == U32Value(Little, file[13 + n..17 + n])
      && |z.inflate(file[17 + n..])|
         >= 3 * Area32(Decode(j, z, file).value.image.width, Decode(j, z, file).value.image.height)
  {
  }

  /** The decoder's pixel loop puts buffer pixel i at (i mod w, i div w). */
  lemma PlacedPixel(w: U32, h: U32, buffer: seq<Byte>, i: nat)
    requires |buffer| == 3 * Area32(w, h)
    requires i < Area32(w, h)
    ensures w > 0
    ensures PixelAt(RgbaImage(w, h, DecodedPixels(w, h, buffer)), i % w, i / w) == OpaqueAt(buffer, i)
  {
    var img := RgbaImage(w, h, DecodedPixels(w, h, buffer));
    var wn: nat, hn: nat := w, h;
    IndexPoint(i, wn, hn);
    PixelAtInside(img, i % wn, i / wn);
    DecodedPixelsAt(w, h, buffer, i);
  }

  /**
   * Pixel placement: on success, buffer pixel i (i < uint32(w·h)) is found at
   * (i mod w, i div w) with R, G, B from buffer bytes 3i, 3i+1, 3i+2 and A = 255.
   */
  lemma DecodedPixelPlacement(j: Json, z: Flate, file: seq<Byte>, i: nat)
    requires Decode(j, z, file).Ok?
    requires i < Area32(Decode(j, z, file).value.image.width, Decode(j, z, file).value.image.height)
    ensures |file| >= 9 && |file| >= 17 + U32Value(Little, file[5..9])
    ensures var img, stream := Decode(j, z, file).value.image, z.inflate(file[17 + U32Value(Little, file[5..9])..]);
      && img.width > 0
      && 3 * i + 2 < |stream|
      && PixelAt(img, i % img.width, i / img.width) == OpaqueAt(stream, i)
  {
    DecodeSuccess(j, z, file);
    var d := Decode(j, z, file).value;
    var img := d.image;
    var n: nat := U32Value(Little, file[5..9]);
    var stream := z.inflate(file[17 + n..]);
    var buffer := stream[..3 * Area32(img.width, img.height)];
    DecodeAccepts(j, z, file, n, d.meta, img.width, img.height);
    PlacedPixel(img.width, img.height, buffer, i);
  }

  /** Pixels past uint32(w·h) are never set and keep the zero colour. */
  lemma DecodedBeyondWrap(j: Json, z: Flate, file: seq<Byte>, k: nat)
    requires Decode(j, z, file).Ok?
    requires var img := Decode(j, z, file).value.image;
      Area32(img.width, img.height) <= k < img.width * img.height
    ensures Decode(j, z, file).value.image.pix[k] == Transparent
  {
  }

  /** Inside the bounds of a well-formed image.RGBA, At reads pix[y·w + x]. */
  lemma PixelAtInside(img: RgbaImage, x: nat, y: nat)
    requires |img.pix| == img.width * img.height
    requires x < img.width && y < img.height
    ensures y * img.width + x < |img.pix|
    ensures PixelAt(img, x, y) == img.pix[y * img.width + x]
  {
    RowMajorIndex(x, y, img.width, img.height);
  }

  /** Entry k of the decoded pixels. */
  lemma DecodedPixelsAt(w: U32, h: U32, buffer: seq<Byte>, k: nat)
    requires |buffer| == 3 * Area32(w, h)
    requires k < w * h
    ensures DecodedPixels(w, h, buffer)[k] == if k < Area32(w, h) then OpaqueAt(buffer, k) else Transparent
  {
  }

  /** One pixel of the encoder's stream, as the decoder's pixel loop rebuilds it. */
  lemma StreamPixelDecoded(img: SourceImage, x: nat, y: nat)
    requires x < Width(img) && y < Height(img)
    ensures var w: nat, h: nat := Width(img), Height(img);
      var total: nat := Area32(w, h);
      3 * total <= |PixelStream(img)|
      && PixelAt(RgbaImage(w, h, DecodedPixels(w, h, PixelStream(img)[..3 * total])), x, y)
         == if y * w + x < total then Opaque(img.at(x, y)) else Transparent
  {
    var w: nat, h: nat := Width(img), Height(img);
    var total: nat := Area32(w, h);
    PixelStreamAt(img, x, y, 0);
    var buffer := PixelStream(img)[..3 * total];
    var out := RgbaImage(w, h, DecodedPixels(w, h, buffer));
    PixelAtInside(out, x, y);
    RowMajorIndex(x, y, w, h);
    var k: nat := y * w + x;
    DecodedPixelsAt(w, h, buffer, k);
    if k < total {
      OpaqueFromStream(img, x, y, 3 * total);
    }
  }

  /** A pixel the encoder streamed, read back by the decoder from a prefix of the stream that holds it. */
  lemma OpaqueFromStream(img: SourceImage, x: nat, y: nat, m: nat)
    requires x < Width(img) && y < Height(img)
    requires 3 * (y * Width(img) + x) + 2 < m <= |PixelStream(img)|
    ensures OpaqueAt(PixelStream(img)[..m], y * Width(img) + x) == Opaque(img.at(x, y))
  {
    var stream := PixelStream(img);
    PixelStreamAt(img, x, y, 0);
    var i: nat := y * Width(img) + x;
    var c := img.at(x, y);
    PixelStreamAt(img, x, y, 1);
    PixelStreamAt(img, x, y, 2);
    assert stream[3 * i] == HighByte(c.r);
    assert stream[3 * i + 1] == HighByte(c.g);
    assert stream[3 * i + 2] == HighByte(c.b);
  }

  /**
   * Round trip: with JSON and DEFLATE that round-trip and metadata shorter
   * than 4 GiB, decoding what the encoder wrote gives back the metadata, the
   * width and height, and for every pixel among the first uint32(w·h) the
   * encoded high bytes with alpha 255; any pixel past that count is lost.
   */
  lemma RoundTrip(j: Json, z: Flate, meta: Metadata, img: SourceImage)
    requires JsonRoundTrips(j) && FlateRoundTrips(z)
    requires |j.marshal(meta)| < TWO_32
    ensures var r := Decode(j, z, Encode(j, z, meta, img));
      && r.Ok?
      && r.value.meta == meta
      && r.value.image.width == Width(img)
      && r.value.image.height == Height(img)
      && forall x: nat, y: nat | x < Width(img) && y < Height(img) ::
           PixelAt(r.value.image, x, y)
           == if y * Width(img) + x < Area32(Width(img), Height(img)) then Opaque(img.at(x, y)) else Transparent
  {
    var json := j.marshal(meta);
    var n := |json|;
    var file := Encode(j, z, meta, img);
    var w: nat, h: nat := Width(img), Height(img);
    var stream := PixelStream(img);
    var total: nat := Area32(w, h);
    var pix := DecodedPixels(w, h, stream[..3 * total]);
    var out := RgbaImage(w, h, pix);
    EncodeLayout(j, z, meta, img);
    U32RoundTrip(Little, n);
    U32RoundTrip(Little, w);
    U32RoundTrip(Little, h);
    DecodeAccepts(j, z, file, n, meta, w, h);
    forall x: nat, y: nat | x < w && y < h
      ensures PixelAt(out, x, y) == if y * w + x < total then Opaque(img.at(x, y)) else Transparent
    {
      StreamPixelDecoded(img, x, y);
    }
  }

  /**
   * When w·h fits in 32 bits the round trip is exact: the decoded image has
   * the encoded bounds and, at every point, the encoded colour with alpha 255.
   */
  lemma RoundTripExact(j: Json, z: Flate, meta: Metadata, img: SourceImage)
    requires JsonRoundTrips(j) && FlateRoundTrips(z)
    requires |j.marshal(meta)| < TWO_32
    requires Width(img) * Height(img) < TWO_32
    ensures var r := Decode(j, z, Encode(j, z, meta, img));
      && r.Ok?
      && r.value.meta == meta
      && r.value.image.width == Width(img)
      && r.value.image.height == Height(img)
      && forall x: int, y: int ::
           PixelAt(r.value.image, x, y)
           == if 0 <= x < Width(img) && 0 <= y < Height(img) then Opaque(img.at(x, y)) else Transparent
  {
    RoundTrip(j, z, meta, img);
    var out := Decode(j, z, Encode(j, z, meta, img)).value.image;
    forall x: int, y: int
      ensures PixelAt(out, x, y)
        == if 0 <= x < Width(img) && 0 <= y < Height(img) then Opaque(img.at(x, y)) else Transparent
    {
      if 0 <= x < Width(img) && 0 <= y < Height(img) {
        RowMajorIndex(x, y, Width(img), Height(img));
      }
    }
  }

  /**
   * The uint32 product wraps: for an image with w·h >= 2^32 (65536×65536,
   * say) decoding the encoder's own file succeeds, yet its bottom-right pixel
   * comes back with alpha 0 although the encoder wrote it.
   */
  lemma AreaWrapLosesPixels(j: Json, z: Flate, meta: Metadata, img: SourceImage)
    requires JsonRoundTrips(j) && FlateRoundTrips(z)
    requires |j.marshal(meta)| < TWO_32
    requires Width(img) * Height(img) >= TWO_32
    ensures var r := Decode(j, z, Encode(j, z, meta, img));
      && r.Ok?
      && PixelAt(r.value.image, Width(img) - 1, Height(img) - 1) == Transparent
      && PixelAt(r.value.image, Width(img) - 1, Height(img) - 1) != Opaque(img.at(Width(img) - 1, Height(img) - 1))
  {
    var w: nat, h: nat := Width(img), Height(img);
    RoundTrip(j, z, meta, img);
    IndexPoint(w * h - 1, w, h);
    assert (h - 1) * w + (w - 1) == w * h - 1;
  }

  /**
   * Every prefix of an encoded file that stops before the pixel stream is
   * rejected, naming the field that was cut short.
   */
  lemma TruncatedHeaderRejected(j: Json, z: Flate, meta: Metadata, img: SourceImage, k: nat)
    requires JsonRoundTrips(j)
    requires |j.marshal(meta)| < TWO_32
    requires k < 17 + |j.marshal(meta)|
    ensures var n := |j.marshal(meta)|;
      Decode(j, z, Encode(j, z, meta, img)[..k])
      == Err(if k < 4 then BadMagic
             else if k < 5 then UnsupportedVersion(0)
             else if k < 9 then MissingMetadataLength
             else if k < 9 + n then TruncatedMetadata
             else if k < 13 + n then TruncatedWidth
             else TruncatedHeight)
  {
    var json := j.marshal(meta);
    var n := |json|;
    var file := Encode(j, z, meta, img);
    var cut := file[..k];
    EncodeLayout(j, z, meta, img);
    if k < 4 {
    } else if k < 9 {
      assert cut[..4] == file[..4];
      assert k >= 5 ==> cut[4] == Version;
    } else {
      assert cut[..4] == file[..4] && cut[4] == Version;
      assert forall i | 5 <= i < 9 :: cut[i] == file[i];
      assert cut[5..9] == file[5..9];
      U32RoundTrip(Little, n);
      if k >= 9 + n {
        assert cut[9..9 + n] == file[9..9 + n] == json;
        assert j.unmarshal(json) == Some(meta);
      }
    }
  }

  /**
   * A file cut right after the height field leaves the decompressor nothing
   * to read; when there is at least one pixel to fill, the decode fails
   * with TruncatedPixels.
   */
  lemma HeaderOnlyRejected(j: Json, z: Flate, meta: Metadata, img: SourceImage)
    requires JsonRoundTrips(j)
    requires |j.marshal(meta)| < TWO_32
    requires z.inflate([]) == []
    requires Area32(Width(img), Height(img)) > 0
    ensures Decode(j, z, Encode(j, z, meta, img)[..17 + |j.marshal(meta)|]) == Err(TruncatedPixels)
  {
    var json := j.marshal(meta);
    var n := |json|;
    var file := Encode(j, z, meta, img);
    var cut := file[..17 + n];
    EncodeLayout(j, z, meta, img);
    assert cut[..4] == file[..4] && cut[4] == Version;
    assert cut[5..9] == file[5..9];
    U32RoundTrip(Little, n);
    assert cut[9..9 + n] == json;
    assert cut[9 + n..13 + n] == file[9 + n..13 + n];
    assert cut[13 + n..17 + n] == file[13 + n..17 + n];
    U32RoundTrip(Little, Width(img));
    U32RoundTrip(Little, Height(img));
    assert cut[17 + n..] == [];
  }
}
