/**
 * Bytes as the image pipeline of PresentationCreator2 handles them: a byte
 * is 0..255 (the signed Java byte read as unsigned), bodies arrive in chunks,
 * and no image may exceed MAX_IMAGE_BYTES.
 */
module Bytes {
  newtype byte = b: int | 0 <= b < 256

  /** The size cap for a downloaded or cached image: 10 MiB. */
  const MAX_IMAGE_BYTES: nat := 10 * 1024 * 1024

  /** The chunks of a stream, one after the other. */
  function Flatten(chunks: seq<seq<byte>>): seq<byte>
  {
    if chunks == [] then [] else Flatten(chunks[..|chunks| - 1]) + chunks[|chunks| - 1]
  }

  /** The bytes read up to some chunk are a prefix of all the bytes; in particular never more. */
  lemma {:induction false} FlattenPrefix(chunks: seq<seq<byte>>, i: nat)
    requires i <= |chunks|
    ensures Flatten(chunks[..i]) <= Flatten(chunks)
    decreases |chunks| - i
  {
    if i == |chunks| {
      assert chunks[..i] == chunks;
    } else {
      FlattenPrefix(chunks, i + 1);
      assert chunks[..i + 1][..i] == chunks[..i];
    }
  }
}
