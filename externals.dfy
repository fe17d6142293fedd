/** The two foreign libraries the services call, seen only through what they
    return: the TagLib container reader and the Hashids id codec. Their
    internals are not part of this model. */
module Externals {
  import opened Common

  /** The descriptive tags TagLib reads from a container. */
  datatype Tag = Tag(title: string, album: string, performers: seq<string>, genres: seq<string>)

  /** What `TagLib.File.Create` returns: the tags and the audio properties.
      A duration is a `TimeSpan`, counted in 100-nanosecond ticks. */
  datatype TagFile = TagFile(
    tag: Tag,
    audioBitrate: int,
    durationTicks: nat,
    mimeType: string,
    invariantEndPosition: int)

  /** The outcome of reading a container: the tags, a `CorruptFileException`,
      or any other exception TagLib throws. */
  datatype TagParse = Parsed(file: TagFile) | Corrupt | Unreadable

  /** `Tag.FirstPerformer`: null (here empty) when there is none. */
  function FirstPerformer(t: Tag): string
  {
    if |t.performers| == 0 then "" else t.performers[0]
  }

  /** `Tag.FirstGenre`: null (here empty) when there is none. */
  function FirstGenre(t: Tag): string
  {
    if |t.genres| == 0 then "" else t.genres[0]
  }

  /** A Hashids instance: `Encode(int)` and `DecodeSingle(string)`, the latter
      failing (None) on a token it cannot decode. */
  datatype Codec = Codec(encode: int -> string, decode: string -> Option<int>)

  /** The one fact the services rely on: decoding an encoded id gives the id
      back. Hashids encodes only non-negative numbers, so the fact is stated
      for those. */
  ghost predicate DecodeInvertsEncode(codec: Codec)
  {
    forall id: nat :: codec.decode(codec.encode(id)) == Some(id)
  }
}
