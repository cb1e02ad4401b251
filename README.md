# A verified model of the `.huh` image container

`huh` is a small image tool. Its Go program (`src/main.go`) converts
ordinary raster images to and from its own container, `.huh`, and serves a
web page that uploads and lists such files. An older Rust tool
(`src/main.rs`) writes an earlier, headerless variant. This project models
the codec at the heart of both, plus the few string rules around it, and
proves what the layout guarantees.

The current container, written by `imageToHuh` and read by `huhToImage`:

| offset | bytes | field |
|---|---|---|
| 0 | 4 | magic `"HUH!"` |
| 4 | 1 | version, 2 |
| 5 | 4 | metadata length N, u32 little-endian (the low 32 bits of the JSON length) |
| 9 | N | the metadata map as JSON |
| 9+N | 4 | width, u32 little-endian (`uint32(Bounds().Max.X)`) |
| 13+N | 4 | height, u32 little-endian (`uint32(Bounds().Max.Y)`) |
| 17+N | … | DEFLATE stream of R, G, B high bytes, row by row, 3·w·h bytes |

Modules:

- `Wrappers`: `Option` and `Result`.
- `Bytes`: bytes, u16 and u32 values, Go's `uint32` wrap-around (`Wrap32`), and the four-byte encoding of a u32 in either byte order.
- `Collaborators`: JSON and DEFLATE. The codec calls both as libraries, so each is a parameter: a pair of total functions. What the codec relies on is a round-trip predicate (`JsonRoundTrips`, `FlateRoundTrips`). The lemmas that need one take it as a hypothesis.
- `HuhFormat`: the layout as pure functions. `Encode` is the file `imageToHuh` writes. `Decode` is `huhToImage`'s check chain with one error per exit. The module holds the lemmas about field offsets, error exits, pixel placement, the encode/decode round trip and the consequences of the 32-bit pixel count.
- `HuhCodec`: the two procedures in their imperative form.
  - `ImageToHuh` appends fields and runs the nested y/x loop into the compressor's input.
  - `HuhToImage` reads through a `FileReader` cursor.
  - `SetPixels` fills a zeroed RGBA pixel array in a loop.
  - Each is proved equal to the `HuhFormat` function that specifies it.
- `LegacyLayout`: the Rust `png_to_huh`.
  - Width and height come first as u32 in the host's byte order (`Endian` is a parameter), then R, G, B per pixel.
  - It is written as a loop (`PngToHuh`) proved against `LegacyBytes`.
  - `ParseLegacy` is only a specification, used to state the round trip. Nothing in the tool reads this layout.
- `Paths`: the string rules around the codec.
  - `filepath.Ext` and `filepath.Base` on Unix paths.
  - The convert command's extension dispatch.
  - The upload handler's `.huh` filter.
  - The listing loop.
  - The data-URL split at the first comma.

### Two consequences of the code worth knowing

- **No reader for headerless files.** `huhToImage` reads the first four bytes and gives up unless they are `"HUH!"` (src/main.go:152-155). It has no other path. A file written by the Rust tool is therefore refused with `BadMagic`, unless its width field spells `"HUH!"` (`LegacyLayout.GoDecoderRejectsLegacy`).
- **No dimension-overflow check.** The pixel count is `int(width * height)` (src/main.go:188). The multiplication is a `uint32` product, so it silently wraps.
  - The decoder sets only that many pixels and leaves the rest at the zero colour (`DecodedBeyondWrap`, `AreaWrapLosesPixels`).
  - The encoder's loops run over `int(height)` and `int(width)` and write every pixel (src/main.go:126-127).

## Model

| member | source | states |
|---|---|---|
| Bytes.Wrap32 | src/main.go:188 | the `uint32(...)` conversion leaves values below 2^32 unchanged |
| Bytes.U32Bytes | src/main.go:102-116 | `binary.Write` of a uint32 (the metadata length, the width, the height) emits exactly four bytes; `U32RoundTrip` and `U32BytesOfValue` make it the inverse of `U32Value` |
| Bytes.U32Value | src/main.go:176-182 | `binary.Read` into a uint32 takes the four little-endian bytes as the value's base-256 digits, least significant first: byte k of the field is digit k of the value (most significant first for a big-endian writer) |
| Bytes.U32RoundTrip | src/main.go:102-104 | a u32 written as four bytes in a byte order reads back as the same value in that order |
| Bytes.U32BytesOfValue | src/main.go:176-182 | every four-byte field read as a u32 is the encoding of that value, so distinct fields read as distinct values |
| HuhFormat.Width | src/main.go:109-110 | the width field is Bounds().Max.X, unchanged whenever it lies in 0..2^32-1 (it wraps otherwise, and Min is never consulted) |
| HuhFormat.Height | src/main.go:109-110 | the height field is Bounds().Max.Y, unchanged whenever it lies in 0..2^32-1 |
| HuhFormat.HighByte | src/main.go:128-129 | `byte(v >> 8)` is the b with 256·b <= v < 256·(b+1) |
| HuhFormat.RgbBytes | src/main.go:128-129 | three bytes are written per pixel (the high bytes of R, G, B; see `EncodeDependsOnlyOn` for what is not written) |
| HuhFormat.PixelAt | src/main.go:184 | reading the decoded image.RGBA outside its bounds (0, 0)-(w, h) gives the zero colour |
| HuhFormat.Area32 | src/main.go:188 | the decoder's pixel count never exceeds w·h and equals it exactly when w·h < 2^32 |
| HuhFormat.Encode | src/main.go:84-143 | every encoded file is at least 17 + N bytes and starts with "HUH!" and version 2 |
| HuhFormat.EncodeLayout | src/main.go:91-116 | magic at 0..4, version at 4, LE length at 5..9, the JSON at 9..9+N, LE width and height at 9+N and 13+N, the compressed pixels from 17+N |
| HuhFormat.RowPrefix | src/main.go:127-131 | one row's prefix of n pixels is 3·n bytes |
| HuhFormat.Rows | src/main.go:126-131 | n rows of width w are 3·(w·n) bytes |
| HuhFormat.PixelStream | src/main.go:124-131 | the compressor's whole input is exactly 3·w·h bytes |
| HuhFormat.RowPrefixAt | src/main.go:127-129 | within a row, pixel x's channel c is byte 3x+c of the row |
| HuhFormat.RowsAt | src/main.go:126-131 | across rows of width w, pixel (x, y)'s channel c is byte 3(y·w+x)+c |
| HuhFormat.PixelStreamAt | src/main.go:124-131 | the compressor receives exactly 3·w·h bytes, row-major (y outer, x inner), each the high byte of R, G or B; alpha is never written |
| HuhFormat.RowPrefixSame | src/main.go:127-129 | a row's bytes depend only on the high R, G, B bytes of its pixels |
| HuhFormat.RowsSame | src/main.go:126-131 | the rows' bytes depend only on the high R, G, B bytes of the pixels inside w×n |
| HuhFormat.EncodeDependsOnlyOn | src/main.go:109-131 | two images with the same Max.X and Max.Y whose pixels in (0..w-1, 0..h-1) agree on the high bytes of R, G, B encode to the same file: Bounds().Min, alpha, the low bytes and pixels outside that rectangle are never written |
| HuhFormat.DecodedPixels | src/main.go:184-197 | the decoded image always has w·h pixels |
| HuhFormat.OpaqueAt | src/main.go:196-197 | buffer pixel i becomes R, G, B = bytes 3i, 3i+1, 3i+2 with alpha 255, so a set pixel is never the zero colour |
| HuhFormat.Decode | src/main.go:145-207 | a decode succeeds only on a file of at least 17 bytes that starts with "HUH!" and version 2, and its image holds w·h pixels |
| HuhFormat.DecodeAccepts | src/main.go:162-206 | a file whose fields are all present and well formed decodes to its width, height, metadata and the pixels rebuilt from the first 3·uint32(w·h) decompressed bytes |
| HuhFormat.DecodeBadMagic | src/main.go:152-155 | a decode fails with BadMagic exactly when the file is shorter than 4 bytes or lacks "HUH!" |
| HuhFormat.DecodeBadVersion | src/main.go:157-160 | a decode fails with UnsupportedVersion exactly when the magic is right and the version byte is missing or is not 2 |
| HuhFormat.DecodeSuccess | src/main.go:162-192 | a successful decode had the length field, that many metadata bytes that parse to the returned map, both dimensions, and at least 3·uint32(w·h) decompressed bytes; any missing piece means no image |
| HuhFormat.PlacedPixel | src/main.go:194-197 | the pixel loop puts buffer pixel i at (i mod w, i div w) |
| HuhFormat.DecodedPixelPlacement | src/main.go:194-197 | on success, pixel i < uint32(w·h) is at (i mod w, i div w) with R, G, B from bytes 3i, 3i+1, 3i+2 and A = 255 |
| HuhFormat.DecodedBeyondWrap | src/main.go:184-197 | pixels at positions from uint32(w·h) up to w·h are never set and keep the zero colour |
| HuhFormat.StreamPixelDecoded | src/main.go:126-197 | one streamed pixel comes back opaque with its high bytes when it lies below uint32(w·h), and transparent otherwise |
| HuhFormat.OpaqueFromStream | src/main.go:126-197 | the decoder's triple for index y·w+x is the encoder's pixel (x, y) with alpha 255 |
| HuhFormat.RoundTrip | src/main.go:84-207 | with round-tripping JSON and DEFLATE and metadata under 4 GiB, decoding the encoder's file succeeds with the same metadata, width and height; every pixel below uint32(w·h) is the encoded high bytes with alpha 255, and the rest are transparent |
| HuhFormat.RoundTripExact | src/main.go:84-207 | when w·h < 2^32 as well, the decoded image equals the encoded colours with alpha 255 at every point |
| HuhFormat.AreaWrapLosesPixels | src/main.go:188-197 | when w·h >= 2^32, decoding the encoder's own file succeeds, but the bottom-right pixel comes back transparent instead of the colour the encoder wrote |
| HuhFormat.TruncatedHeaderRejected | src/main.go:152-182 | every prefix of an encoded file that ends before the pixel stream is rejected, with the error of the first field cut short |
| HuhFormat.HeaderOnlyRejected | src/main.go:188-192 | an encoded file cut right after the height field fails with TruncatedPixels whenever uint32(w·h) > 0, given a decompressor that yields nothing from no input |
| HuhCodec.FileReader.constructor | src/main.go:146-150 | a fresh reader is positioned at offset 0 |
| HuhCodec.FileReader.Rest | src/main.go:185 | the bytes left to the decompressor are the file after the consumed prefix |
| HuhCodec.FileReader.ReadFull | src/main.go:167-170 | reading n bytes yields exactly the next n and advances n, or fails when the file ends first |
| HuhCodec.FileReader.ReadU32 | src/main.go:162-165 | reading a u32 yields the little-endian value of the next four bytes, or fails when fewer remain |
| HuhCodec.ImageToHuh | src/main.go:84-143 | the appended fields and the nested y/x loop produce exactly `Encode` |
| HuhCodec.HuhToImage | src/main.go:145-207 | the sequential reads, their error exits and the pixel loop produce exactly `Decode` |
| HuhCodec.SetPixels | src/main.go:184-197 | setting pixel (i mod w, i div w) of a zeroed w×h image for each i < uint32(w·h) gives exactly `DecodedPixels` |
| LegacyLayout.RgbStream | src/main.rs:15-19 | three bytes are pushed per pixel |
| LegacyLayout.LegacyBytes | src/main.rs:10-19 | the buffer is 8 + 3·(pixels visited) bytes and begins with the width's four bytes, then the height's |
| LegacyLayout.PngToHuh | src/main.rs:4-27 | the buffer built by the two dimension writes and the pixel loop is exactly `LegacyBytes` |
| LegacyLayout.RgbStreamAt | src/main.rs:15-19 | pixel k's R, G, B are bytes 3k, 3k+1, 3k+2 of the pixel part |
| LegacyLayout.LegacyLayoutAt | src/main.rs:10-19 | the output is 8 + 3·(pixels visited) bytes: the width bytes, then the height bytes, then pixel k at 8+3k .. 8+3k+2 as R, G, B; there is no magic, version or metadata |
| LegacyLayout.LegacyHeaderReadBack | src/main.rs:12-13 | reading the first eight bytes back in the writer's byte order recovers the width and the height |
| LegacyLayout.RgbStreamIgnoresAlpha | src/main.rs:15-19 | alpha (channel 3) is never written: images that differ only in alpha give the same bytes |
| LegacyLayout.LegacyTriples | src/main.rs:15-19 | the triples after the header are the visited pixels' colours, in order |
| LegacyLayout.LegacyRoundTrip | src/main.rs:7-19 | when w·h pixels are visited, parsing the buffer in the writer's byte order gives back the width, the height and every pixel's R, G, B |
| LegacyLayout.GoDecoderRejectsLegacy | src/main.go:152-155 | the Go decoder refuses a Rust-written file with BadMagic exactly when its width field does not spell "HUH!" in the writer's byte order |
| Paths.ToLower | src/main.go:722-723 | lower-casing keeps the length, leaves no ASCII capital, and changes a character only into its capital's lower-case partner |
| Paths.HasSuffix | src/main.go:632 | `strings.HasSuffix(s, suffix)` holds exactly when `suffix` is what remains of `s` after some prefix |
| Paths.ExtWithin | src/main.go:722-723 | scanning back from position i: a non-empty result is a suffix of the path that starts with '.' and holds no '/' and no other '.'; an empty result means no '.' lies between the last '/' before i and i |
| Paths.Ext | src/main.go:722-723 | `filepath.Ext`: a non-empty extension is a suffix of the path that starts with '.' and holds no '/' and no other '.'; it is empty exactly when the final element has no '.' |
| Paths.IsHuhPath | src/main.go:572 | the test `strings.ToLower(filepath.Ext(p)) == ".huh"`, used by the upload handler and by the convert command (src/main.go:722-727), holds exactly when the extension is ".huh" in any mix of cases |
| Paths.HasHuhSuffix | src/main.go:632 | the listing test `strings.HasSuffix(strings.ToLower(name), ".huh")` holds exactly when the name's last four characters spell ".huh" in any mix of cases |
| Paths.HuhExtGivesSuffix | src/main.go:572 | a ".huh" extension in any case makes the lower-cased name end in ".huh" |
| Paths.SuffixGivesHuhExt | src/main.go:632 | a lower-cased name ending in ".huh" has ".huh" as its extension, in some case |
| Paths.ExtTestIsSuffixTest | src/main.go:572 | the lower-cased extension is ".huh" exactly when the lower-cased name ends in ".huh", so the upload test and the listing test agree |
| Paths.Base | src/main.go:571 | `filepath.Base`: "." for the empty path, "/" for a path of slashes only, and otherwise the suffix of the path after its last '/' once trailing slashes are dropped; never empty, and free of '/' unless it is "/" |
| Paths.AfterLastSlash | src/main.go:571 | the part after the last '/' is a suffix of the path, holds no '/', and is preceded by a '/' unless it is the whole path |
| Paths.BaseOfJoin | src/main.go:571-577 | a name without '/' is its own base, and the base of any `dir/name` is `name`; so the stored upload's base is the sanitized name and taking the base twice changes nothing |
| Paths.UploadName | src/main.go:570-575 | an upload is accepted exactly when its base name ends in ".huh" in any case; the stored name is that base name, non-empty and free of '/' |
| Paths.OutputFormat | src/main.go:735-744 | an output extension is unsupported exactly when it is none of .png, .jpg, .jpeg, .gif, and the error carries that extension |
| Paths.ConvertDispatch | src/main.go:722-763 | the plan decodes or refuses exactly when the input's lower-cased extension is ".huh", and encodes or refuses exactly when the output's is |
| Paths.ConvertDispatchCases | src/main.go:722-763 | exactly one branch is taken: .huh to other decodes, other to .huh encodes with `source_file` set to the input's base name, other to other converts, .huh to .huh is refused; a decode writes the format its output extension names, and an unknown one is unsupported |
| Paths.HuhNames | src/main.go:630-635 | every name the listing filter (`Listed`: not a directory, lower-cased name ends in ".huh") keeps ends in ".huh" in some case |
| Paths.Listed | src/main.go:632 | the whole listing condition: the entry is not a directory and its lower-cased name ends in ".huh" (`HasHuhSuffix`) |
| Paths.ListedIsUploadTest | src/main.go:632 | the listing condition holds exactly when the entry is not a directory and its name passes the upload handler's extension test |
| Paths.ListHuhFiles | src/main.go:630-635 | the loop keeps, in directory order, the names of the entries that the listing filter accepts |
| Paths.HuhNamesFromEntries | src/main.go:630-635 | every listed name is carried by an entry the listing test accepts, and the list is no longer than the directory |
| Paths.HuhNamesKeepsListed | src/main.go:630-635 | every entry the listing test accepts has its name in the list |
| Paths.HuhNamesMembers | src/main.go:630-635 | a name is listed exactly when some non-directory entry carries it and it ends in ".huh" in any case; the list is no longer than the directory |
| Paths.UploadedFileIsListed | src/main.go:572 | a file name accepted by the upload filter passes the listing filter |
| Paths.IndexByte | src/main.go:522 | the result is the first position of the character, or -1 exactly when the character is absent |
| Paths.DataUrlPayload | src/main.go:522 | the payload is a suffix of the data URL: the whole of it when it has no ',', and otherwise a strictly shorter suffix preceded by a ',' |
| Paths.DataUrlPayloadSplit | src/main.go:522 | without a comma the whole string is the payload; otherwise the string is a comma-free prefix, one ',', and the payload |

## Left out

- File creation, opening, closing and write errors. A file is a byte sequence; the model has no partially written file and no I/O failure.
- The ignored error of `compressor.Close()` and `decompressor.Close()`. These are not modelled.
- `json.Marshal`/`json.Unmarshal` and `compress/flate` internals. They are parameters with round-trip hypotheses. JSON's distinction between a `null` document (a nil map, accepted) and an empty object is left to the `unmarshal` parameter.
- The compressor is modelled as deflating the whole pixel stream at once. The interleaving of its output with the writes is not modelled. `inflate` is "every byte before end of stream or error", so a short read is the only failure the decoder sees.
- Memory exhaustion: `make([]byte, metaLen)` or `image.NewRGBA` running out of memory, or panicking, for huge sizes.
- Progress printing and its float32 arithmetic (both loops). It has no effect on the bytes or the image.
- The terminal viewer, ANSI colour output, the HTTP server and its handlers, and the stdout redirection in serve mode. The string checks from the handlers are kept.
- `convertImage`, `viewImage` and the PNG/JPEG/GIF codecs. Only the dispatch that picks them is modelled.
- The Rust `main` (argument and `file.txt` handling), the Rust tool's file writing and its success message.
- `image::open` failures, which panic via `expect`.
- The descending sort of the listing. `ListHuhFiles` returns the filtered names in directory order.
- The existence checks on the convert command's input path.
- Paths.ToLower: lower-cases ASCII only. Go's `strings.ToLower` also folds non-ASCII letters.
- Paths.Base: Unix paths only. Windows volume names and the `\` separator are not modelled.
- Go's `int` is taken to be 64 bits wide, so `int(width)`, `int(height)` and `int(width * height)` are never negative (src/main.go:124-127, 184, 188). On a 32-bit target they turn negative from 2^31. The encoder would then write no rows, and `make([]byte, totalPixels*3)` would panic. That case is not modelled.
- HuhFormat.HeaderOnlyRejected: assumes the decompressor yields no bytes from an empty input, as Go's flate reader does. Without that hypothesis nothing is promised for a file cut exactly after the height field.
- HuhFormat.RoundTrip: assumes the JSON is shorter than 2^32 bytes. Beyond that the length field wraps (as `Encode` models), and the decoder reads the wrong span.
- HuhFormat.RoundTrip: metadata strings are modelled as Unicode strings, and `JsonRoundTrips` holds for Go's `encoding/json` only on valid UTF-8. `json.Marshal` replaces invalid UTF-8 with U+FFFD, so a value that is not valid UTF-8 (a `source_file` taken from a non-UTF-8 path, src/main.go:755) does not come back unchanged and lies outside the round trip.
- HuhFormat.RoundTripExact: also assumes w·h < 2^32. Otherwise `AreaWrapLosesPixels` applies.
