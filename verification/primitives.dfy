/** The collaborators the cookie store calls but does not define: the
    nacl/secretbox authenticated-encryption pair, standard base64 and the
    key-derivation hash. Each is a record of total functions; the laws the
    store relies on are ghost predicates that the lemmas needing them require. */
module Primitives {
  import opened Wrappers
  import opened Bytes

  const KeySize: nat := 32
  const NonceSize: nat := 24

  type Key = b: Bytes | |b| == KeySize witness seq(32, i => 0)
  type Nonce = b: Bytes | |b| == NonceSize witness seq(24, i => 0)

  /** secretbox.Seal and secretbox.Open, with the output prefix argument left out:
      seal(key, nonce, message) is the sealed box, open(key, nonce, box) the
      message or None when authentication fails. */
  datatype SecretBox = SecretBox(
    seal: (Key, Nonce, Bytes) -> Bytes,
    open: (Key, Nonce, Bytes) -> Option<Bytes>)

  /** Opening what was sealed under the same key and nonce gives the message back. */
  ghost predicate SealOpens(box: SecretBox) {
    forall k: Key, n: Nonce, m: Bytes :: box.open(k, n, box.seal(k, n, m)) == Some(m)
  }

  /** base64.StdEncoding.EncodeToString and DecodeString. */
  datatype Base64 = Base64(
    encode: Bytes -> string,
    decode: string -> Option<Bytes>)

  /** Decoding an encoding gives the bytes back. */
  ghost predicate DecodesEncoding(codec: Base64) {
    forall b: Bytes :: codec.decode(codec.encode(b)) == Some(b)
  }

  /** The derivation of the store key from the secret (SHA-256 in the source). */
  type Kdf = string -> Key

  /** A box that tags the message with its nonce: it satisfies SealOpens, so the
      law is not vacuous, and its open can fail. */
  function TaggingBox(): SecretBox {
    SecretBox(
      (k: Key, n: Nonce, m: Bytes) => n + m,
      (k: Key, n: Nonce, c: Bytes) =>
        if |c| >= NonceSize && c[..NonceSize] == n then Some(c[NonceSize..]) else None)
  }

  lemma TaggingBoxSealOpens()
    ensures SealOpens(TaggingBox())
  {
    forall k: Key, n: Nonce, m: Bytes
      ensures TaggingBox().open(k, n, TaggingBox().seal(k, n, m)) == Some(m)
    {
      assert (n + m)[..NonceSize] == n;
      assert (n + m)[NonceSize..] == m;
    }
  }

  /** A codec that spells each byte as the character with that code: it
      satisfies DecodesEncoding and rejects characters above 255. */
  function LatinCodec(): Base64 {
    Base64(
      (b: Bytes) => seq(|b|, i requires 0 <= i < |b| => b[i] as char),
      (s: string) =>
        if forall i :: 0 <= i < |s| ==> s[i] as int < 256
        then Some(seq(|s|, i requires 0 <= i < |s| => (s[i] as int) % 256))
        else None)
  }

  lemma LatinCodecDecodesEncoding()
    ensures DecodesEncoding(LatinCodec())
  {
    forall b: Bytes
      ensures LatinCodec().decode(LatinCodec().encode(b)) == Some(b)
    {
      var s := LatinCodec().encode(b);
      assert forall i :: 0 <= i < |s| ==> s[i] as int == b[i];
      var d := LatinCodec().decode(s);
      assert d.Some? && |d.value| == |b|;
      assert forall i :: 0 <= i < |b| ==> d.value[i] == b[i];
      assert d.value == b;
    }
  }
}
