/**
 * The foreign primitives the validator relies on: UTF-8 encoding, SHA-256 and
 * Base64. They are library calls, so they are kept abstract: a `Primitives`
 * value carries one function of each kind, and `WellFormed` records the only
 * facts about them that the ETag layout needs.
 */
module Crypto {

  newtype byte = x: int | 0 <= x < 256

  /** Size in bytes of a SHA-256 digest. */
  const Sha256Size: nat := 32

  /** Length of the Base64 text of a 32-byte input (43 symbols and one `=`). */
  const Base64Of32Length: nat := 44

  datatype Primitives = Primitives(
    utf8: string -> seq<byte>,
    sha256: seq<byte> -> seq<byte>,
    base64: seq<byte> -> string)
  {
    /** SHA-256 always yields 32 bytes, and Base64 turns 32 bytes into 44 characters. */
    ghost predicate WellFormed() {
      && (forall b :: |sha256(b)| == Sha256Size)
      && (forall b: seq<byte> :: |b| == Sha256Size ==> |base64(b)| == Base64Of32Length)
    }
  }

  /** Base64 of the SHA-256 digest of the UTF-8 encoding of `s`. */
  function HashText(p: Primitives, s: string): (h: string)
    requires p.WellFormed()
    ensures |h| == Base64Of32Length
  {
    p.base64(p.sha256(p.utf8(s)))
  }
}
