# Encrypted keychain of the PowerAuth mobile SDK (Android), in Dafny

This project models `EncryptedKeychain`, the Android keychain that keeps each
value of a per-identifier `SharedPreferences` file encrypted. A user value is
stored as `Base64(AES-GCM seal(value, key, aad = identifier))`. AES-GCM follows
NIST SP 800-38D, and Base64 follows section 4 of RFC 4648.

The model is functional. The preference file is an immutable
`map<string, PrefValue>` where `PrefValue = Str | IntV | Other`. Each public
call is a pure function from the old map, plus what the collaborators return
during the call, to a result and, for writes, the new map. A thrown exception
is a `Failure`. When a call throws, the store is the one passed in.

The collaborators are parameters:

- **Key provider.** The key provider's answer for the call is an
  `Option<SecretKey>`. `None` stands for a null key.
- **Crypto oracles.** `Crypto.Platform` bundles four oracles as total
  functions:
  - AES-GCM `seal`/`open`, where `None` stands for a null result;
  - Base64 `encode` (`NO_WRAP`);
  - Base64 `encodeDefault` (`DEFAULT`);
  - Base64 `decode`, where `None` means the decoder threw
    `IllegalArgumentException`.
- **Charset.** The default charset is `Charset(getBytes, newString)`.
- **Assumed properties.** A property that needs the collaborators to behave
  takes that as a hypothesis:
  - `Crypto.Sound`: an envelope holds at least nonce plus tag and opens back
    to its plaintext;
  - `Crypto.Decodes`: decode inverts both encoders;
  - `Crypto.Lossless`: a text survives the charset.
- **Batch editor.** `Prefs` models the `SharedPreferences` batch editor:
  - a clear flag;
  - per key, the last pending change (a `null` string or `remove` deletes);
  - `Apply`, which clears first and then applies the changes.

  Without this, `removeAll` and the import batch could not be stated.
- **Typed getters.** `getString` and `getInt` throw `ClassCastException` on a
  value of another type, so the model reports `ClassCast`.

Modules:

- `Base`: `Option`, `Result`, `Bytes` and the exceptions.
- `Prefs`: the preference store and its editor.
- `Crypto`: the oracles and their assumed properties.
- `Text`: Java's `String.trim`.
- `EncryptedKeychain`: the accessors, the reserved-key guard, the version
  marker and the marker test.
- `SelfTest`: `verifyKeystoreEncryption`.
- `LegacyImport`: `importFromLegacyKeychain`.
- `KeychainProperties`: properties that relate several calls.

`dataForKey` and `putDataForKey` only delegate to the private `getValue` and
`setValue`. `GetValue` and `SetValue` therefore model both the private helpers
and those two public accessors.

Some behaviour follows from the code itself:

- **Corrupted stored text.** A stored string that the Base64 decoder rejects
  makes `getValue` throw (`BadBase64`); it does not read as absent. Ciphertext
  that decodes but does not open reads as absent.
- **Rejected legacy text.** During the import, a legacy text that the decoder
  rejects throws out of `importFromLegacyKeychain`, because the exception is
  not caught. An example is a text with bad padding. Nothing is written in that
  case, since the editor is only created after the loop.
- **Classification heuristic.** The heuristic compares the trimmed `DEFAULT`
  re-encoding with the trimmed text. So a plain text that happens to be a
  canonical unwrapped Base64 string, such as `YQ==`, is imported as the bytes
  it encodes. The general rule is in `LegacyImport.Classify`, and the case of
  an unwrapped Base64 text is `KeychainProperties.ClassifyNoWrap`.

## Model

| member | source | states |
|---|---|---|
| EncryptedKeychain.GetValue | proj-android/PowerAuthLibrary/src/main/java/io/getlime/security/powerauth/keychain/impl/EncryptedKeychain.java:286-301 | getValue (and dataForKey): a reserved key throws ReservedKey before the store is read; a non-string entry throws ClassCast; a text the decoder rejects throws BadBase64; a missing entry, an empty decoded envelope, or no key yields null; otherwise the result is exactly what opening the envelope with the identifier as associated data returns (null when the open fails) |
| EncryptedKeychain.SetValue | proj-android/PowerAuthLibrary/src/main/java/io/getlime/security/powerauth/keychain/impl/EncryptedKeychain.java:309-332 | setValue (and putDataForKey): throws iff the key is reserved; no other key ever changes; without a key or when the seal fails the store is untouched, even for a null value; with a key a null value removes the entry and a sealed value is stored as Base64 of the envelope |
| EncryptedKeychain.ContainsDataForKey | proj-android/PowerAuthLibrary/src/main/java/io/getlime/security/powerauth/keychain/impl/EncryptedKeychain.java:94-97 | true iff dataForKey would return non-null; throws exactly when it would |
| EncryptedKeychain.RemoveDataForKey | proj-android/PowerAuthLibrary/src/main/java/io/getlime/security/powerauth/keychain/impl/EncryptedKeychain.java:99-106 | throws iff the key is reserved; otherwise the result is the store without that key, whatever the key provider does |
| EncryptedKeychain.RemoveAll | proj-android/PowerAuthLibrary/src/main/java/io/getlime/security/powerauth/keychain/impl/EncryptedKeychain.java:108-115 | after clear plus putInt in one batch the store is exactly the version marker set to 1 |
| EncryptedKeychain.StringForKey | proj-android/PowerAuthLibrary/src/main/java/io/getlime/security/powerauth/keychain/impl/EncryptedKeychain.java:130-138 | null exactly when getValue is null, otherwise the charset decoding of getValue's bytes; throws exactly when getValue throws |
| EncryptedKeychain.PutStringForKey | proj-android/PowerAuthLibrary/src/main/java/io/getlime/security/powerauth/keychain/impl/EncryptedKeychain.java:140-144 | a null text is setValue with null, otherwise setValue with the text's charset bytes |
| EncryptedKeychain.IsEncryptedContent | proj-android/PowerAuthLibrary/src/main/java/io/getlime/security/powerauth/keychain/impl/EncryptedKeychain.java:166-169 | true iff the marker is present and equals 1; a missing marker reads as 0 and so false; a marker of another type throws |
| SelfTest.VerifyKeystoreEncryption | proj-android/PowerAuthLibrary/src/main/java/io/getlime/security/powerauth/keychain/impl/EncryptedKeychain.java:177-207 | true iff a key is obtained and both the empty payload and the marker key's bytes seal and open back to themselves under "TestIdentifier"; it takes no store, so it cannot write one |
| SelfTest.SoundAeadPasses | proj-android/PowerAuthLibrary/src/main/java/io/getlime/security/powerauth/keychain/impl/EncryptedKeychain.java:177-207 | with a correct AES-GCM the self-test passes iff a key is obtained and both seals succeed |
| LegacyImport.Classify | proj-android/PowerAuthLibrary/src/main/java/io/getlime/security/powerauth/keychain/impl/EncryptedKeychain.java:229-240 | a legacy text throws iff the decoder rejects it; otherwise it yields its decoded bytes when their trimmed DEFAULT re-encoding equals the trimmed text, and its charset bytes when it does not |
| LegacyImport.ScanLegacy | proj-android/PowerAuthLibrary/src/main/java/io/getlime/security/powerauth/keychain/impl/EncryptedKeychain.java:224-253 | the loop over the legacy entries, in any order, completes iff every string entry classifies and seals; it then holds exactly one sealed text per string entry and exactly the non-string keys; it stops only at an entry the decoder rejects or whose seal fails |
| LegacyImport.ImportFromLegacyKeychain | proj-android/PowerAuthLibrary/src/main/java/io/getlime/security/powerauth/keychain/impl/EncryptedKeychain.java:217-267 | without a key: false, store untouched; when every string entry classifies and seals: true and the store is the one-batch import; a false result leaves the store untouched and implies a failed seal; a throw implies a rejected legacy text |
| LegacyImport.ScanComplete | proj-android/PowerAuthLibrary/src/main/java/io/getlime/security/powerauth/keychain/impl/EncryptedKeychain.java:228-253 | once every entry has been visited, the collected maps are exactly the entries written and the keys dropped by a successful import |
| Text.Trim | proj-android/PowerAuthLibrary/src/main/java/io/getlime/security/powerauth/keychain/impl/EncryptedKeychain.java:234 | Java trim: the result is the infix of the text with only characters at or below U+0020 cut before and after it; it neither starts nor ends with such a character, and it is empty iff the text is all such characters |
| Text.TrimCut | proj-android/PowerAuthLibrary/src/main/java/io/getlime/security/powerauth/keychain/impl/EncryptedKeychain.java:234 | cutting a run of characters at or below U+0020 from the front and then from the back leaves an infix of the text, and it is empty only when the whole text is such characters |
| Text.TrimPadded | proj-android/PowerAuthLibrary/src/main/java/io/getlime/security/powerauth/keychain/impl/EncryptedKeychain.java:234 | leading and trailing whitespace do not change a text's trimmed form |
| Text.TrimIdempotent | proj-android/PowerAuthLibrary/src/main/java/io/getlime/security/powerauth/keychain/impl/EncryptedKeychain.java:234 | trimming twice is trimming once |
| KeychainProperties.ReservedKeyRejected | proj-android/PowerAuthLibrary/src/main/java/io/getlime/security/powerauth/keychain/impl/EncryptedKeychain.java:286-310 | every user read, write, contains and remove on a reserved key throws ReservedKey, so no store is produced |
| KeychainProperties.PutThenGet | proj-android/PowerAuthLibrary/src/main/java/io/getlime/security/powerauth/keychain/impl/EncryptedKeychain.java:286-331 | with a correct AES-GCM and codec, a successful write of bytes followed by a read with the same key returns those bytes |
| KeychainProperties.PutStringThenGetString | proj-android/PowerAuthLibrary/src/main/java/io/getlime/security/powerauth/keychain/impl/EncryptedKeychain.java:130-144 | putStringForKey then stringForKey returns the text, for texts the charset carries without loss |
| KeychainProperties.FailedPutKeepsValue | proj-android/PowerAuthLibrary/src/main/java/io/getlime/security/powerauth/keychain/impl/EncryptedKeychain.java:309-326 | a write without a key, or whose seal fails, changes no later read of any key |
| KeychainProperties.PutKeepsOtherKeys | proj-android/PowerAuthLibrary/src/main/java/io/getlime/security/powerauth/keychain/impl/EncryptedKeychain.java:328-331 | a write changes no read of any other key |
| KeychainProperties.PutNullIsRemove | proj-android/PowerAuthLibrary/src/main/java/io/getlime/security/powerauth/keychain/impl/EncryptedKeychain.java:316-319 | with a key available, storing null is the same as removeDataForKey |
| KeychainProperties.RemoveThenGet | proj-android/PowerAuthLibrary/src/main/java/io/getlime/security/powerauth/keychain/impl/EncryptedKeychain.java:99-106 | after a remove the key reads as null and contains is false, with or without a key |
| KeychainProperties.RemoveAllKeepsOnlyMarker | proj-android/PowerAuthLibrary/src/main/java/io/getlime/security/powerauth/keychain/impl/EncryptedKeychain.java:108-115 | after removeAll the marker test is true, the store is in the encrypted layout and every user key reads as null |
| KeychainProperties.WritesKeepLayout | proj-android/PowerAuthLibrary/src/main/java/io/getlime/security/powerauth/keychain/impl/EncryptedKeychain.java:309-331 | writes and removes keep the encrypted layout: the marker (if present) is 1 and every other entry is a string |
| KeychainProperties.LayoutReadsCleanly | proj-android/PowerAuthLibrary/src/main/java/io/getlime/security/powerauth/keychain/impl/EncryptedKeychain.java:286-301 | in the encrypted layout the marker test never throws and reports the marker's presence, and a read throws only for a reserved key or a text the decoder rejects |
| KeychainProperties.ClassifyEncoded | proj-android/PowerAuthLibrary/src/main/java/io/getlime/security/powerauth/keychain/impl/EncryptedKeychain.java:231-236 | a text that is exactly a default Base64 encoding is imported as the bytes it encodes |
| KeychainProperties.ClassifyNoWrap | proj-android/PowerAuthLibrary/src/main/java/io/getlime/security/powerauth/keychain/impl/EncryptedKeychain.java:232-236 | a legacy text in unwrapped Base64 form is imported as the bytes it encodes whenever their DEFAULT encoding differs from it only by surrounding whitespace |
| KeychainProperties.ClassifyPadded | proj-android/PowerAuthLibrary/src/main/java/io/getlime/security/powerauth/keychain/impl/EncryptedKeychain.java:232-236 | surrounding whitespace that the decoder skips does not stop a Base64 text from being imported as bytes |
| KeychainProperties.ClassifyPlainText | proj-android/PowerAuthLibrary/src/main/java/io/getlime/security/powerauth/keychain/impl/EncryptedKeychain.java:237-240 | a decodable text whose trimmed re-encoding differs from the trimmed text is imported as its charset bytes |
| KeychainProperties.ImportedStoreAt | proj-android/PowerAuthLibrary/src/main/java/io/getlime/security/powerauth/keychain/impl/EncryptedKeychain.java:255-266 | for any key, the committed batch leaves: the marker at 1; a legacy string as its sealed Base64 text; a non-string legacy key gone; a key the legacy file lacks as it was |
| KeychainProperties.ImportThenRead | proj-android/PowerAuthLibrary/src/main/java/io/getlime/security/powerauth/keychain/impl/EncryptedKeychain.java:229-247 | after a successful import each legacy string reads back through the keychain as the bytes the heuristic chose |
| KeychainProperties.ImportDropsUnsupported | proj-android/PowerAuthLibrary/src/main/java/io/getlime/security/powerauth/keychain/impl/EncryptedKeychain.java:248-252 | after a successful import a non-string legacy key is not contained |
| KeychainProperties.ImportedTextReadsBack | proj-android/PowerAuthLibrary/src/main/java/io/getlime/security/powerauth/keychain/impl/EncryptedKeychain.java:237-247 | a plain legacy text reads back through stringForKey unchanged after the import |
| KeychainProperties.ImportInPlace | proj-android/PowerAuthLibrary/src/main/java/io/getlime/security/powerauth/keychain/impl/EncryptedKeychain.java:255-267 | importing a file into itself leaves the encrypted layout with the marker test true |

## Left out

- Reserved keys: `ReservedKeyImpl` is not part of this model. The reserved set is taken to be the version marker key alone, the one reserved key this class defines.
- `getIdentifier`, `isEncrypted` and `isReservedKey` return a field, a constant and the policy's answer. They carry no logic beyond `IsReserved`.
- The key provider, the Android Keystore and `AesGcmImpl` are opaque oracles. Nonce randomness is not modelled, because seal is a fixed function per platform value. Every property is stated for all such functions.
- Confidentiality at rest, and the failure to open an envelope moved to another identifier, are properties of AES-GCM, not of this class. The model shows only that every seal and open uses the keychain's identifier as associated data.
- The Base64 codec and the default charset are abstract. Line wrapping, whitespace skipping and UTF-8 replacement characters appear only through the hypotheses `Decodes` and `Lossless` and through `ClassifyPadded`'s requirement.
- `synchronized`, the asynchronous `apply()` persistence, `Context` and `getSharedPreferences`, and `PA2Log` logging are left out. Each public call is one atomic step on the map, and `apply()` takes effect at once.
- The one-shot nature of the import is left out. Guarding against a second import is the caller's job, through the marker test. The model does not restate what a repeated import does.
