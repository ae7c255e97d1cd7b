/** The collaborators the keychain treats as opaque: the symmetric key
    provider, AES-GCM (NIST SP 800-38D), the Base64 codec (section 4 of
    RFC 4648) and the platform's default charset. Each is a function the
    model is parameterised by; what the keychain relies on is stated as a
    predicate that properties take as a hypothesis. */
module Crypto {
  import opened Base

  /** Opaque handle to a key held by the platform key store. */
  datatype SecretKey = SecretKey(handle: nat)

  /** AES-GCM envelope sizes: a 96-bit nonce and a 128-bit tag. */
  const NonceSize: nat := 12
  const TagSize: nat := 16

  /** Authenticated encryption with the associated data given as a string;
      None stands for the failure (null result) of the primitive. */
  datatype Aead = Aead(
    seal: (Bytes, SecretKey, string) -> Option<Bytes>,
    open: (Bytes, SecretKey, string) -> Option<Bytes>)

  /** What a correct AES-GCM gives: a sealed envelope carries nonce and tag
      and opens back to its plaintext under the same key and associated data. */
  ghost predicate Sound(aead: Aead) {
    forall plaintext, key, aad ::
      aead.seal(plaintext, key, aad).Some? ==>
        && |aead.seal(plaintext, key, aad).value| >= NonceSize + TagSize
        && aead.open(aead.seal(plaintext, key, aad).value, key, aad) == Some(plaintext)
  }

  /** The Base64 codec: `encode` is the unwrapped form the keychain stores,
      `encodeDefault` the line-wrapped default form, and `decode` yields
      None when the decoder rejects its input. */
  datatype Base64 = Base64(
    encode: Bytes -> string,
    encodeDefault: Bytes -> string,
    decode: string -> Option<Bytes>)

  /** Decoding inverts both encoders. */
  ghost predicate Decodes(codec: Base64) {
    && (forall bytes :: codec.decode(codec.encode(bytes)) == Some(bytes))
    && (forall bytes :: codec.decode(codec.encodeDefault(bytes)) == Some(bytes))
  }

  /** The platform's default charset: String.getBytes and new String(bytes). */
  datatype Charset = Charset(getBytes: string -> Bytes, newString: Bytes -> string)

  /** `text` survives a trip through the charset (not every string does:
      an unpaired surrogate is replaced when encoded to UTF-8). */
  predicate Lossless(charset: Charset, text: string) {
    charset.newString(charset.getBytes(text)) == text
  }

  /** Everything the keychain consumes from the platform. */
  datatype Platform = Platform(aead: Aead, base64: Base64, charset: Charset)
}
