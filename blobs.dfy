/** Binary payloads: a browser `Blob` is its bytes and its MIME type. */
module Blobs {

  type byte = x: int | 0 <= x < 256

  datatype Blob = Blob(bytes: seq<byte>, mime: string)

  /** `blob.size`. */
  function Size(b: Blob): nat
  {
    |b.bytes|
  }
}
