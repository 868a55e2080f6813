/**
 * The homomorphic ciphertext type `tfhe::FheUint8`, abstracted.
 *
 * Encryption under the client key is the constructor `Encrypt`, so it is
 * injective, and `Decrypt` undoes it. Key generation, the server key and the
 * randomness of real ciphertexts are not part of this model.
 */
module Fhe {
  import opened Prelude

  /** `FheUint8`: the encryption of one byte. */
  datatype FheUint8 = Encrypt(plain: byte)

  /** `FheDecrypt::<u8>::decrypt` with the client key. */
  function Decrypt(c: FheUint8): (b: byte)
    ensures Encrypt(b) == c
  {
    c.plain
  }

  /** Encrypting each byte of a sequence in turn. */
  function EncryptAll(bs: seq<byte>): (cs: seq<FheUint8>)
    ensures |cs| == |bs|
    ensures forall i :: 0 <= i < |bs| ==> Decrypt(cs[i]) == bs[i]
  {
    seq(|bs|, i requires 0 <= i < |bs| => Encrypt(bs[i]))
  }

  /** Decrypting each ciphertext of a sequence in turn, keeping positions. */
  function DecryptAll(cs: seq<FheUint8>): (bs: seq<byte>)
    ensures |bs| == |cs|
    ensures forall i :: 0 <= i < |cs| ==> Encrypt(bs[i]) == cs[i]
  {
    seq(|cs|, i requires 0 <= i < |cs| => Decrypt(cs[i]))
  }

  /** Decryption undoes encryption of a whole sequence, and conversely. */
  lemma RoundTrip(bs: seq<byte>, cs: seq<FheUint8>)
    ensures DecryptAll(EncryptAll(bs)) == bs
    ensures EncryptAll(DecryptAll(cs)) == cs
  {
  }

  /** Encrypting a concatenation encrypts its parts in order. */
  lemma EncryptAllAppend(a: seq<byte>, b: seq<byte>)
    ensures EncryptAll(a + b) == EncryptAll(a) + EncryptAll(b)
  {
  }

  /** Encrypting a sequence with one more byte adds that byte's ciphertext at the end. */
  lemma EncryptAllSnoc(a: seq<byte>, b: byte)
    ensures EncryptAll(a + [b]) == EncryptAll(a) + [Encrypt(b)]
  {
    EncryptAllAppend(a, [b]);
    assert EncryptAll([b]) == [Encrypt(b)];
  }
}
