/** The self-test that decides whether the platform key store can back the
    encrypted keychain on this device. It takes no store: it never reads or
    writes preferences. */
module SelfTest {
  import opened Base
  import opened Crypto
  import EncryptedKeychain

  /** Associated data of the self-test round-trips. */
  const TestIdentifier: string := "TestIdentifier"

  /** `data` seals under `key` and opens back to exactly `data`. */
  predicate RoundTrips(aead: Aead, key: SecretKey, data: Bytes) {
    && aead.seal(data, key, TestIdentifier).Some?
    && aead.open(aead.seal(data, key, TestIdentifier).value, key, TestIdentifier) == Some(data)
  }

  /** verifyKeystoreEncryption: a key is obtained, then the empty payload and
      the bytes of the marker key each survive a seal and an open. */
  function VerifyKeystoreEncryption(p: Platform, masterKey: Option<SecretKey>): (ok: bool)
    ensures ok <==>
      && masterKey.Some?
      && RoundTrips(p.aead, masterKey.value, [])
      && RoundTrips(p.aead, masterKey.value, p.charset.getBytes(EncryptedKeychain.VersionKey))
  {
    if masterKey.None? then false
    else
      var key := masterKey.value;
      var empty: Bytes := [];
      match p.aead.seal(empty, key, TestIdentifier)
      case None => false
      case Some(encrypted) =>
        var decrypted := p.aead.open(encrypted, key, TestIdentifier);
        if decrypted.None? || decrypted.value != empty then false
        else
          var testData := p.charset.getBytes(EncryptedKeychain.VersionKey);
          match p.aead.seal(testData, key, TestIdentifier)
          case None => false
          case Some(encrypted') =>
            var decrypted' := p.aead.open(encrypted', key, TestIdentifier);
            !(decrypted'.None? || decrypted'.value != testData)
  }

  /** With a working AES-GCM the test passes exactly when a key is obtained
      and both seals succeed: the opens cannot be what fails. */
  lemma SoundAeadPasses(p: Platform, masterKey: Option<SecretKey>)
    requires Sound(p.aead)
    ensures VerifyKeystoreEncryption(p, masterKey) <==>
      && masterKey.Some?
      && p.aead.seal([], masterKey.value, TestIdentifier).Some?
      && p.aead.seal(p.charset.getBytes(EncryptedKeychain.VersionKey), masterKey.value, TestIdentifier).Some?
  {
  }
}
