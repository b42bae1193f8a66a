/**
 Symbolic SHA-256 digests of the revision stream. Every hash domain of the stream is a
 constructor, so two digests are equal exactly when their hashed fields are; module Preimages
 shows what this costs for a real hash. `Foreign` stands for 32 bytes that are not known to be
 the hash of anything, which an answer may carry anywhere.
 */
module Digests {
  import opened Words

  type Stream = Bytes

  /** The longest stream identifier. */
  const MAX_STREAM_BYTES := 1_024

  /** sha256(payload) carries no domain, so it lives in its own type: no proof separates it by tag. */
  datatype PayloadDigest = OfPayload(payload: Bytes) | Unopened(id: nat)

  datatype PeakRoot = PeakRoot(height: U8, start: U64, root: Digest)

  datatype Digest =
    | Zero
    | Content(stream: Stream, previous: Digest, revision: U64, occurredAt: I64, payload: PayloadDigest)
    | Leaf(stream: Stream, revision: U64, content: Digest)
    | Node(stream: Stream, height: U8, start: U64, left: Digest, right: Digest)
    | Root(stream: Stream, leafCount: U64, peaks: seq<PeakRoot>)
    | Head(stream: Stream, revision: U64, occurredAt: I64, content: Digest, proofRoot: Digest)
    | Foreign(id: nat)

  /** A digest field of a record: 64 lowercase hexadecimal characters, or text that is not. */
  datatype Hex<+D> = Hex(digest: D) | Malformed(text: string)
}
