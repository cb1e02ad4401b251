/**
 * The two libraries the container codec calls but does not implement:
 * JSON (encoding/json, for the metadata map) and DEFLATE (compress/flate,
 * for the pixel stream). Each is passed to the codec as a pair of total
 * functions; what the codec relies on is stated as a round-trip predicate
 * that the lemmas take as a hypothesis.
 */
module Collaborators {
  import opened Wrappers
  import opened Bytes

  /** The metadata map: string keys to string values. */
  type Metadata = map<string, string>

  /**
   * json.Marshal of a map[string]string (it never fails for that type) and
   * json.Unmarshal into one (None for bytes that are not such a JSON object).
   */
  datatype Json = Json(marshal: Metadata -> seq<Byte>, unmarshal: seq<Byte> -> Option<Metadata>)

  ghost predicate JsonRoundTrips(j: Json)
  {
    forall m :: j.unmarshal(j.marshal(m)) == Some(m)
  }

  /**
   * A DEFLATE writer run to completion over its whole input, and a DEFLATE
   * reader: `inflate(s)` is every byte the reader yields from `s` before it
   * reports end of stream or a corrupt stream.
   */
  datatype Flate = Flate(deflate: seq<Byte> -> seq<Byte>, inflate: seq<Byte> -> seq<Byte>)

  ghost predicate FlateRoundTrips(z: Flate)
  {
    forall s :: z.inflate(z.deflate(s)) == s
  }
}
