/**
 * imageToHuh and huhToImage as the step-by-step procedures they are: the
 * encoder appends to an output file and feeds a compressor pixel by pixel in
 * a nested y/x loop; the decoder consumes an input file through a read
 * cursor and fills a fresh RGBA pixel array in a loop. Each is proved to
 * produce exactly what the layout functions of HuhFormat describe.
 */
module HuhCodec {
  import opened Wrappers
  import opened Bytes
  import opened Collaborators
  import opened HuhFormat

  /** An open file being read front to back; `pos` is the file offset. */
  class FileReader {
    const data: seq<Byte>
    var pos: nat

    ghost predicate Valid()
      reads this
    {
      pos <= |data|
    }

    constructor (data: seq<Byte>)
      ensures Valid() && this.data == data && pos == 0
    {
      this.data := data;
      pos := 0;
    }

    /** The bytes not consumed yet. */
    function Rest(): (s: seq<Byte>)
      reads this
      requires Valid()
      ensures data == data[..pos] + s
    {
      data[pos..]
    }

    /**
     * io.ReadFull: exactly n bytes, or failure when the file ends first (the
     * bytes that were there are consumed all the same).
     */
    method ReadFull(n: nat) returns (chunk: Option<seq<Byte>>)
      requires Valid()
      modifies this`pos
      ensures Valid()
      ensures old(pos) + n <= |data| ==> chunk == Some(data[old(pos)..old(pos) + n]) && pos == old(pos) + n
      ensures |data| < old(pos) + n ==> chunk == None && pos == |data|
    {
      if pos + n <= |data| {
        chunk := Some(data[pos..pos + n]);
        pos := pos + n;
      } else {
        chunk := None;
        pos := |data|;
      }
    }

    /** binary.Read(file, binary.LittleEndian, &v) for a uint32 v. */
    method ReadU32() returns (v: Option<U32>)
      requires Valid()
      modifies this`pos
      ensures Valid()
      ensures old(pos) + 4 <= |data| ==> v == Some(U32Value(Little, data[old(pos)..old(pos) + 4])) && pos == old(pos) + 4
      ensures |data| < old(pos) + 4 ==> v == None && pos == |data|
    {
      var bytes := ReadFull(4);
      v := if bytes.None? then None else Some(U32Value(Little, bytes.value));
    }
  }

  /**
   * imageToHuh: magic, version, metadata length and metadata, width and
   * height, then every pixel, row by row, through the compressor.
   */
  method ImageToHuh(j: Json, z: Flate, meta: Metadata, img: SourceImage) returns (file: seq<Byte>)
    ensures file == Encode(j, z, meta, img)
  {
    file := Magic;
    file := file + [Version];
    var json := j.marshal(meta);
    file := file + U32Bytes(Little, Wrap32(|json|));
    file := file + json;
    var width: nat, height: nat := Width(img), Height(img);
    file := file + U32Bytes(Little, width);
    file := file + U32Bytes(Little, height);

    // what has been handed to the compressor so far
    var sink: seq<Byte> := [];
    var y := 0;
    while y < height
      invariant 0 <= y <= height
      invariant sink == Rows(img, width, y)
    {
      var x := 0;
      while x < width
        invariant 0 <= x <= width
        invariant sink == Rows(img, width, y) + RowPrefix(img, y, x)
      {
        var c := img.at(x, y);
        sink := sink + [HighByte(c.r), HighByte(c.g), HighByte(c.b)];
        x := x + 1;
      }
      y := y + 1;
    }
    file := file + z.deflate(sink);
  }

  /**
   * huhToImage: reads and checks each field in order, stopping at the first
   * failure, then rebuilds pixel i at (i mod w, i div w) for every i below
   * uint32(w * h).
   */
  method HuhToImage(j: Json, z: Flate, file: seq<Byte>) returns (r: Result<Decoded, DecodeError>)
    ensures r == Decode(j, z, file)
  {
    var f := new FileReader(file);
    var magic := f.ReadFull(4);
    if magic.None? || magic.value != Magic {
      return Err(BadMagic);
    }
    var version := f.ReadFull(1);
    if version.None? || version.value[0] != Version {
      return Err(UnsupportedVersion(if version.None? then 0 else version.value[0]));
    }
    var metaLen := f.ReadU32();
    if metaLen.None? {
      return Err(MissingMetadataLength);
    }
    var n: nat := metaLen.value;
    var metaJson := f.ReadFull(n);
    if metaJson.None? {
      return Err(TruncatedMetadata);
    }
    var meta := j.unmarshal(metaJson.value);
    if meta.None? {
      return Err(InvalidMetadata);
    }
    var width := f.ReadU32();
    if width.None? {
      return Err(TruncatedWidth);
    }
    var height := f.ReadU32();
    if height.None? {
      return Err(TruncatedHeight);
    }
    var w: nat, h: nat := width.value, height.value;
    var total: nat := Area32(w, h);
    assert f.pos == 17 + n;
    var stream := z.inflate(f.Rest());
    if |stream| < 3 * total {
      return Err(TruncatedPixels);
    }
    var buffer := stream[..3 * total];

    var pix := SetPixels(w, h, buffer);
    DecodeAccepts(j, z, file, n, meta.value, w, h);
    r := Ok(Decoded(RgbaImage(w, h, pix), meta.value));
  }

  /**
   * The decoder's pixel loop: a fresh w×h image.RGBA (all zero), then
   * img.Set((i mod w, i div w), RGBA(buffer[3i], buffer[3i+1], buffer[3i+2], 255))
   * for each i below uint32(w * h).
   */
  method SetPixels(w: U32, h: U32, buffer: seq<Byte>) returns (pixels: seq<Rgba>)
    requires |buffer| == 3 * Area32(w, h)
    ensures pixels == DecodedPixels(w, h, buffer)
  {
    var wn: nat, hn: nat, total: nat := w, h, Area32(w, h);
    var pix := new Rgba[wn * hn](_ => Transparent);
    var i := 0;
    while i < total
      invariant 0 <= i <= total
      invariant forall k :: 0 <= k < i ==> pix[k] == OpaqueAt(buffer, k)
      invariant forall k :: i <= k < pix.Length ==> pix[k] == Transparent
    {
      IndexPoint(i, wn, hn);
      var x, y := i % wn, i / wn;
      var offset := i * 3;
      pix[y * wn + x] := Rgba(buffer[offset], buffer[offset + 1], buffer[offset + 2], 255);
      i := i + 1;
    }
    pixels := pix[..];
    assert pixels == DecodedPixels(w, h, buffer);
  }
}
