/**
 * The client side `decrypt_result`: decrypt the result ciphertexts one by
 * one, in order, and read the bytes as a UTF-8 string.
 */
module ResultDecoder {
  import opened Prelude
  import opened Fhe
  import Utf8
  import opened RowStore

  /**
   * `decrypt_result`: the decrypted bytes keep the ciphertexts' order and
   * number; the call fails exactly when they are not well-formed UTF-8, and
   * otherwise returns the text those bytes encode.
   */
  method DecryptResult(encryptedResult: EncryptedResult) returns (r: Result<string, Utf8.FromUtf8Error>)
    ensures r.Ok? <==> Utf8.Valid(DecryptAll(encryptedResult.result))
    ensures r.Ok? ==> Utf8.Encode(r.value) == DecryptAll(encryptedResult.result)
    ensures r.Err? ==> r.error.bytes == DecryptAll(encryptedResult.result)
  {
    var cs := encryptedResult.result;
    var decryptedBytes: seq<byte> := [];
    for i := 0 to |cs|
      invariant decryptedBytes == DecryptAll(cs[..i])
    {
      assert DecryptAll(cs[..i + 1]) == DecryptAll(cs[..i]) + [Decrypt(cs[i])];
      decryptedBytes := decryptedBytes + [Decrypt(cs[i])];
    }
    assert cs[..|cs|] == cs;
    r := Utf8.FromUtf8(decryptedBytes);
  }

  /** Result bytes below 0x80 always decode, one character per byte, each the byte's value. */
  lemma SmallValuesDecode(bs: seq<byte>)
    requires forall i :: 0 <= i < |bs| ==> bs[i] < 0x80
    ensures Utf8.FromUtf8(bs).Ok?
    ensures var text := Utf8.FromUtf8(bs).value;
      |text| == |bs| && forall i :: 0 <= i < |bs| ==> text[i] as int == bs[i]
  {
    Utf8.AsciiDecodes(bs);
  }

  /** A lone result byte of 0x80 or more is not well formed, so such a value on its own makes the call fail. */
  lemma LoneHighByteRejected(b: byte)
    requires b >= 0x80
    ensures Utf8.FromUtf8([b]) == Err(Utf8.FromUtf8Error([b]))
  {
    assert Utf8.LeadingLength([b]) == 0;
  }

  /** The text a client encrypted byte by byte decrypts back to that text. */
  lemma DecryptEncryptedText(s: string)
    ensures Utf8.FromUtf8(DecryptAll(EncryptAll(Utf8.Encode(s)))) == Ok(s)
  {
    RoundTrip(Utf8.Encode(s), []);
    Utf8.FromUtf8Encode(s);
  }
}
