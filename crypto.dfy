/** The cryptographic and encoding primitives the credential code calls, taken as given. */
module Crypto {

  newtype byte = b: int | 0 <= b < 256

  /** Output size of HMAC-SHA-512 in bytes (FIPS 180-4, SHA-512 digest of 512 bits). */
  const HashSize: nat := 64
  /** Size in bytes of the key that `new HMACSHA512()` generates. */
  const KeySize: nat := 128

  type Digest = s: seq<byte> | |s| == HashSize witness seq(HashSize, _ => 0)
  type Key = s: seq<byte> | |s| == KeySize witness seq(KeySize, _ => 0)

  /** HMAC-SHA-512 (RFC 2104) as a deterministic function of key and message, and
      `Encoding.UTF8.GetBytes`; neither is interpreted further. */
  datatype Primitives = Primitives(
    hmacSha512: (seq<byte>, seq<byte>) -> Digest,
    utf8: string -> seq<byte>)
}
