/** Properties that relate several keychain calls: round-trips, what a
    failed call leaves behind, the layout every call keeps, and what the
    legacy import leaves in the store. */
module KeychainProperties {
  import opened Base
  import opened Prefs
  import opened Crypto
  import opened Text
  import opened EncryptedKeychain
  import opened LegacyImport

  /** Every user accessor refuses a reserved key, and so leaves the store alone. */
  lemma ReservedKeyRejected(kc: Keychain, p: Platform, masterKey: Option<SecretKey>, store: Store, key: string,
                            data: Option<Bytes>, text: Option<string>)
    requires IsReserved(key)
    ensures GetValue(kc, p, masterKey, store, key) == Failure(ReservedKey(key))
    ensures SetValue(kc, p, masterKey, store, key, data) == Failure(ReservedKey(key))
    ensures ContainsDataForKey(kc, p, masterKey, store, key) == Failure(ReservedKey(key))
    ensures RemoveDataForKey(store, key) == Failure(ReservedKey(key))
    ensures StringForKey(kc, p, masterKey, store, key) == Failure(ReservedKey(key))
    ensures PutStringForKey(kc, p, masterKey, store, key, text) == Failure(ReservedKey(key))
  {
  }

  /** Writing bytes and reading them back with the same key gives the bytes. */
  lemma PutThenGet(kc: Keychain, p: Platform, key: SecretKey, store: Store, k: string, data: Bytes)
    requires Sound(p.aead) && Decodes(p.base64)
    requires !IsReserved(k)
    requires p.aead.seal(data, key, kc.identifier).Some?
    ensures SetValue(kc, p, Some(key), store, k, Some(data)).Success?
    ensures GetValue(kc, p, Some(key), SetValue(kc, p, Some(key), store, k, Some(data)).value, k) == Success(Some(data))
  {
  }

  /** Writing a text and reading it back gives the text, for every text the
      charset carries without loss. */
  lemma PutStringThenGetString(kc: Keychain, p: Platform, key: SecretKey, store: Store, k: string, text: string)
    requires Sound(p.aead) && Decodes(p.base64) && Lossless(p.charset, text)
    requires !IsReserved(k)
    requires p.aead.seal(p.charset.getBytes(text), key, kc.identifier).Some?
    ensures PutStringForKey(kc, p, Some(key), store, k, Some(text)).Success?
    ensures StringForKey(kc, p, Some(key), PutStringForKey(kc, p, Some(key), store, k, Some(text)).value, k)
            == Success(Some(text))
  {
  }

  /** A write that finds no key, or whose seal fails, leaves every later
      read exactly as it would have been without the write. */
  lemma FailedPutKeepsValue(kc: Keychain, p: Platform, masterKey: Option<SecretKey>, readKey: Option<SecretKey>,
                            store: Store, k: string, k': string, data: Bytes)
    requires !IsReserved(k)
    requires masterKey.None? || p.aead.seal(data, masterKey.value, kc.identifier).None?
    ensures SetValue(kc, p, masterKey, store, k, Some(data)).Success?
    ensures GetValue(kc, p, readKey, SetValue(kc, p, masterKey, store, k, Some(data)).value, k')
            == GetValue(kc, p, readKey, store, k')
  {
  }

  /** A write touches no other key: reads of other keys are unchanged. */
  lemma PutKeepsOtherKeys(kc: Keychain, p: Platform, masterKey: Option<SecretKey>, readKey: Option<SecretKey>,
                          store: Store, k: string, k': string, data: Option<Bytes>)
    requires !IsReserved(k) && k' != k
    ensures SetValue(kc, p, masterKey, store, k, data).Success?
    ensures GetValue(kc, p, readKey, SetValue(kc, p, masterKey, store, k, data).value, k')
            == GetValue(kc, p, readKey, store, k')
  {
  }

  /** Storing null with a key available removes the entry, like remove. */
  lemma PutNullIsRemove(kc: Keychain, p: Platform, key: SecretKey, store: Store, k: string)
    requires !IsReserved(k)
    ensures SetValue(kc, p, Some(key), store, k, None) == RemoveDataForKey(store, k)
  {
  }

  /** After a remove the key reads as absent, under any key. */
  lemma RemoveThenGet(kc: Keychain, p: Platform, masterKey: Option<SecretKey>, store: Store, k: string)
    requires !IsReserved(k)
    ensures RemoveDataForKey(store, k).Success?
    ensures GetValue(kc, p, masterKey, RemoveDataForKey(store, k).value, k) == Success(None)
    ensures ContainsDataForKey(kc, p, masterKey, RemoveDataForKey(store, k).value, k) == Success(false)
  {
  }

  /** After removeAll the store is encrypted content with no user entry. */
  lemma RemoveAllKeepsOnlyMarker(kc: Keychain, p: Platform, masterKey: Option<SecretKey>, store: Store, k: string)
    requires !IsReserved(k)
    ensures IsEncryptedContent(RemoveAll(store)) == Success(true)
    ensures EncryptedLayout(RemoveAll(store))
    ensures GetValue(kc, p, masterKey, RemoveAll(store), k) == Success(None)
  {
  }

  /** Writes and removes keep the encrypted layout. */
  lemma WritesKeepLayout(kc: Keychain, p: Platform, masterKey: Option<SecretKey>, store: Store, k: string, data: Option<Bytes>)
    requires EncryptedLayout(store) && !IsReserved(k)
    ensures EncryptedLayout(SetValue(kc, p, masterKey, store, k, data).value)
    ensures EncryptedLayout(RemoveDataForKey(store, k).value)
  {
  }

  /** In the encrypted layout no read throws a class-cast exception, and the
      marker test reads the marker's presence. */
  lemma LayoutReadsCleanly(kc: Keychain, p: Platform, masterKey: Option<SecretKey>, store: Store, k: string)
    requires EncryptedLayout(store)
    ensures IsEncryptedContent(store) == Success(VersionKey in store)
    ensures GetValue(kc, p, masterKey, store, k).Failure? ==>
      IsReserved(k) || GetValue(kc, p, masterKey, store, k).error.BadBase64?
  {
  }

  /** A text that is exactly a default Base64 encoding is imported as the
      bytes it encodes. */
  lemma ClassifyEncoded(p: Platform, bytes: Bytes)
    requires Decodes(p.base64)
    ensures Classify(p, p.base64.encodeDefault(bytes)) == Success(bytes)
  {
  }

  /** A legacy text stored in the unwrapped Base64 form is imported as the
      bytes it encodes, whenever the default encoding of those bytes differs
      from it only by surrounding whitespace (such as the trailing newline). */
  lemma ClassifyNoWrap(p: Platform, bytes: Bytes)
    requires Decodes(p.base64)
    requires Trim(p.base64.encodeDefault(bytes)) == Trim(p.base64.encode(bytes))
    ensures Classify(p, p.base64.encode(bytes)) == Success(bytes)
  {
  }

  /** Whitespace around a Base64 text does not stop it from being imported
      as bytes, provided the decoder skips that whitespace. */
  lemma ClassifyPadded(p: Platform, lead: string, bytes: Bytes, trail: string)
    requires AllTrimmed(lead) && AllTrimmed(trail)
    requires p.base64.decode(lead + p.base64.encodeDefault(bytes) + trail) == Some(bytes)
    ensures Classify(p, lead + p.base64.encodeDefault(bytes) + trail) == Success(bytes)
  {
    TrimPadded(lead, p.base64.encodeDefault(bytes), trail);
  }

  /** A text the decoder accepts but whose re-encoding differs from it, even
      after trimming, is imported as its charset bytes. */
  lemma ClassifyPlainText(p: Platform, text: string)
    requires p.base64.decode(text).Some?
    requires Trim(p.base64.encodeDefault(p.base64.decode(text).value)) != Trim(text)
    ensures Classify(p, text) == Success(p.charset.getBytes(text))
  {
  }

  /** What a successful import leaves under one key: the marker is 1, a
      legacy string holds its sealed text, any other legacy value is gone,
      and a key the legacy file does not mention is as it was. */
  lemma ImportedStoreAt(kc: Keychain, p: Platform, key: SecretKey, legacy: Store, target: Store, k: string)
    requires Importable(kc, p, key, legacy)
    ensures var s := ImportedStore(kc, p, key, legacy, target);
      if k == VersionKey then k in s && s[k] == IntV(Version)
      else if k in legacy && legacy[k].Str? then k in s && s[k] == Str(SealedText(kc, p, key, legacy[k].s))
      else if k in legacy then k !in s
      else (k in s <==> k in target) && (k in s ==> s[k] == target[k])
  {
  }

  /** After a successful import every legacy string reads back, through the
      keychain, as the bytes its classification chose. */
  lemma ImportThenRead(kc: Keychain, p: Platform, key: SecretKey, legacy: Store, target: Store, k: string)
    requires Sound(p.aead) && Decodes(p.base64)
    requires Importable(kc, p, key, legacy)
    requires k in legacy && legacy[k].Str? && !IsReserved(k)
    ensures GetValue(kc, p, Some(key), ImportedStore(kc, p, key, legacy, target), k)
            == Success(Some(Classify(p, legacy[k].s).value))
  {
  }

  /** After a successful import every unsupported legacy value reads as absent. */
  lemma ImportDropsUnsupported(kc: Keychain, p: Platform, masterKey: Option<SecretKey>, key: SecretKey,
                               legacy: Store, target: Store, k: string)
    requires Importable(kc, p, key, legacy)
    requires k in legacy && !legacy[k].Str? && !IsReserved(k)
    ensures ContainsDataForKey(kc, p, masterKey, ImportedStore(kc, p, key, legacy, target), k) == Success(false)
  {
  }

  /** A plain legacy text (one that is not its own Base64 re-encoding) reads
      back as the same text after the import. */
  lemma ImportedTextReadsBack(kc: Keychain, p: Platform, key: SecretKey, legacy: Store, target: Store, k: string)
    requires Sound(p.aead) && Decodes(p.base64)
    requires Importable(kc, p, key, legacy)
    requires k in legacy && legacy[k].Str? && !IsReserved(k)
    requires Lossless(p.charset, legacy[k].s)
    requires Trim(p.base64.encodeDefault(p.base64.decode(legacy[k].s).value)) != Trim(legacy[k].s)
    ensures StringForKey(kc, p, Some(key), ImportedStore(kc, p, key, legacy, target), k) == Success(Some(legacy[k].s))
  {
    ImportThenRead(kc, p, key, legacy, target, k);
  }

  /** Importing a file into itself leaves it in the encrypted layout with the
      marker set. */
  lemma ImportInPlace(kc: Keychain, p: Platform, key: SecretKey, store: Store)
    requires Importable(kc, p, key, store)
    ensures EncryptedLayout(ImportedStore(kc, p, key, store, store))
    ensures IsEncryptedContent(ImportedStore(kc, p, key, store, store)) == Success(true)
  {
  }
}
