/** The one-shot import of a legacy (plaintext) preference file into the
    encrypted keychain. Every string entry is sealed, every other entry is
    dropped, and the version marker is written, all in one batch; any seal
    failure abandons the import before anything is written. */
module LegacyImport {
  import opened Base
  import opened Prefs
  import opened Crypto
  import opened Text
  import opened EncryptedKeychain

  /** The bytes a legacy text stands for: its decoded bytes when re-encoding
      them gives back the text up to surrounding whitespace, otherwise its
      default-charset bytes. The decoder's rejection propagates. */
  function Classify(p: Platform, text: string): (r: Result<Bytes, Exception>)
    ensures r.Failure? <==> p.base64.decode(text).None?
    ensures r.Failure? ==> r.error == BadBase64(text)
    ensures r.Success? ==> r.value == p.base64.decode(text).value || r.value == p.charset.getBytes(text)
    ensures p.base64.decode(text).Some? && Trim(p.base64.encodeDefault(p.base64.decode(text).value)) == Trim(text) ==>
      r == Success(p.base64.decode(text).value)
    ensures p.base64.decode(text).Some? && Trim(p.base64.encodeDefault(p.base64.decode(text).value)) != Trim(text) ==>
      r == Success(p.charset.getBytes(text))
  {
    match p.base64.decode(text)
    case None => Failure(BadBase64(text))
    case Some(decoded) =>
      if Trim(p.base64.encodeDefault(decoded)) == Trim(text) then Success(decoded)
      else Success(p.charset.getBytes(text))
  }

  /** The legacy text classifies and its bytes seal under `key`. */
  predicate Sealable(kc: Keychain, p: Platform, key: SecretKey, text: string) {
    && Classify(p, text).Success?
    && p.aead.seal(Classify(p, text).value, key, kc.identifier).Some?
  }

  /** The stored form of an imported text: Base64 of its sealed bytes. */
  function SealedText(kc: Keychain, p: Platform, key: SecretKey, text: string): string
    requires Sealable(kc, p, key, text)
  {
    p.base64.encode(p.aead.seal(Classify(p, text).value, key, kc.identifier).value)
  }

  /** Every string entry of the legacy file can be imported. */
  predicate Importable(kc: Keychain, p: Platform, key: SecretKey, legacy: Store) {
    forall k :: k in legacy && legacy[k].Str? ==> Sealable(kc, p, key, legacy[k].s)
  }

  /** The entries the import writes: one sealed text per legacy string. */
  function SealedEntries(kc: Keychain, p: Platform, key: SecretKey, legacy: Store): map<string, string>
    requires Importable(kc, p, key, legacy)
  {
    map k | k in legacy && legacy[k].Str? :: SealedText(kc, p, key, legacy[k].s)
  }

  /** The legacy keys whose values the keychain cannot hold. */
  function UnsupportedKeys(legacy: Store): set<string> {
    set k | k in legacy && !legacy[k].Str?
  }

  /** The single batch a successful import commits. */
  function ImportBatch(entries: map<string, string>, unsupported: set<string>): Editor {
    PutInt(RemoveKeys(PutStrings(Edit(), entries), unsupported), VersionKey, Version)
  }

  /** The keychain's store after a successful import of `legacy`. */
  function ImportedStore(kc: Keychain, p: Platform, key: SecretKey, legacy: Store, target: Store): Store
    requires Importable(kc, p, key, legacy)
  {
    Apply(target, ImportBatch(SealedEntries(kc, p, key, legacy), UnsupportedKeys(legacy)))
  }

  /** The keychain's store after the call, and the boolean the call returns. */
  datatype ImportResult = ImportResult(store: Store, imported: bool)

  /** What the pass over the legacy entries ends with: the entries to write
      and the keys to drop, or the first entry that stopped it. */
  datatype Scan =
    | Scanned(entries: map<string, string>, unsupported: set<string>)
    | Rejected(text: string)   // the Base64 decoder threw on this text
    | SealFailed               // sealing some entry returned null

  /** Once every legacy entry is visited, the collected entries and keys are
      exactly those a successful import writes and drops. */
  lemma ScanComplete(kc: Keychain, p: Platform, key: SecretKey, legacy: Store,
                     entries: map<string, string>, unsupported: set<string>)
    requires forall k :: k in legacy && legacy[k].Str? ==> Sealable(kc, p, key, legacy[k].s)
    requires forall k :: k in entries <==> k in legacy && legacy[k].Str?
    requires forall k :: k in entries ==> entries[k] == SealedText(kc, p, key, legacy[k].s)
    requires forall k :: k in unsupported <==> k in legacy && !legacy[k].Str?
    ensures Importable(kc, p, key, legacy)
    ensures entries == SealedEntries(kc, p, key, legacy)
    ensures unsupported == UnsupportedKeys(legacy)
  {
  }

  /** The loop of importFromLegacyKeychain over the legacy entries, visited
      in an arbitrary order as a hash map's are. */
  method ScanLegacy(kc: Keychain, p: Platform, key: SecretKey, legacy: Store) returns (scan: Scan)
    ensures Importable(kc, p, key, legacy) ==> scan.Scanned?
    ensures scan.Scanned? ==>
      && Importable(kc, p, key, legacy)
      && scan.entries == SealedEntries(kc, p, key, legacy)
      && scan.unsupported == UnsupportedKeys(legacy)
    ensures scan.Rejected? ==>
      exists k :: k in legacy && legacy[k] == Str(scan.text) && p.base64.decode(scan.text).None?
    ensures scan.SealFailed? ==>
      exists k :: k in legacy && legacy[k].Str? && Classify(p, legacy[k].s).Success? && !Sealable(kc, p, key, legacy[k].s)
  {
    var entries: map<string, string> := map[];
    var unsupported: set<string> := {};
    var visited: set<string> := {};
    while visited != legacy.Keys
      invariant visited <= legacy.Keys
      invariant forall k :: k in visited && legacy[k].Str? ==> Sealable(kc, p, key, legacy[k].s)
      invariant forall k :: k in entries <==> k in visited && legacy[k].Str?
      invariant forall k :: k in entries ==> entries[k] == SealedText(kc, p, key, legacy[k].s)
      invariant forall k :: k in unsupported <==> k in visited && !legacy[k].Str?
      decreases legacy.Keys - visited
    {
      assert legacy.Keys - visited != {};
      var k :| k in legacy.Keys - visited;
      visited := visited + {k};
      var value := legacy[k];
      if value.Str? {
        var bytes := Classify(p, value.s);
        if bytes.Failure? {
          return Rejected(value.s);
        }
        var encrypted := p.aead.seal(bytes.value, key, kc.identifier);
        if encrypted.None? {
          assert !Sealable(kc, p, key, legacy[k].s);
          return SealFailed;
        }
        entries := entries[k := p.base64.encode(encrypted.value)];
      } else {
        unsupported := unsupported + {k};
      }
    }
    ScanComplete(kc, p, key, legacy, entries, unsupported);
    return Scanned(entries, unsupported);
  }

  /** importFromLegacyKeychain: reads the `legacy` snapshot and writes the
      keychain's own store `target`, all or nothing. */
  method ImportFromLegacyKeychain(kc: Keychain, p: Platform, masterKey: Option<SecretKey>, legacy: Store, target: Store)
    returns (r: Result<ImportResult, Exception>)
    ensures masterKey.None? ==> r == Success(ImportResult(target, false))
    ensures masterKey.Some? && Importable(kc, p, masterKey.value, legacy) ==>
      r == Success(ImportResult(ImportedStore(kc, p, masterKey.value, legacy, target), true))
    ensures r.Success? && !r.value.imported ==> r.value.store == target
    ensures r.Success? && r.value.imported ==> masterKey.Some? && Importable(kc, p, masterKey.value, legacy)
    ensures r.Failure? ==>
      && masterKey.Some?
      && exists k :: k in legacy && legacy[k].Str? && r.error == BadBase64(legacy[k].s) && p.base64.decode(legacy[k].s).None?
    ensures r.Success? && !r.value.imported && masterKey.Some? ==>
      exists k :: k in legacy && legacy[k].Str? && Classify(p, legacy[k].s).Success? && !Sealable(kc, p, masterKey.value, legacy[k].s)
  {
    if masterKey.None? {
      return Success(ImportResult(target, false));
    }
    var scan := ScanLegacy(kc, p, masterKey.value, legacy);
    match scan {
      case Rejected(text) =>
        return Failure(BadBase64(text));
      case SealFailed =>
        return Success(ImportResult(target, false));
      case Scanned(entries, unsupported) =>
        var editor := Edit();
        editor := PutStrings(editor, entries);
        editor := RemoveKeys(editor, unsupported);
        editor := PutInt(editor, VersionKey, Version);
        return Success(ImportResult(Apply(target, editor), true));
    }
  }
}
