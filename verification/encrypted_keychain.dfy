/** The encrypted keychain: a per-identifier facade over the preference
    store in which every user value is kept as Base64(seal(value)), sealed
    with the identifier as associated data. Each public call is one atomic
    step from the old store (plus what the key provider and the AEAD return
    during the call) to the new store and a result. */
module EncryptedKeychain {
  import opened Base
  import opened Prefs
  import opened Crypto

  /** Preference key of the version marker. */
  const VersionKey: string := "com.wultra.PowerAuthKeychain.IsEncrypted"

  /** Current version of the encrypted layout, stored under VersionKey. */
  const Version: int := 1

  /** Keys kept for the keychain's own metadata; user accessors refuse them. */
  predicate IsReserved(key: string) {
    key == VersionKey
  }

  /** One keychain instance; its identifier names the preference file and is
      the associated data of every seal and open. */
  datatype Keychain = Keychain(identifier: string)

  /** What a store of an encrypted keychain looks like: the marker, when
      present, holds the current version and every other entry is a string. */
  predicate EncryptedLayout(store: Store) {
    forall k :: k in store ==> if k == VersionKey then store[k] == IntV(Version) else store[k].Str?
  }

  /** getValue, the body of dataForKey: the opened plaintext stored under
      `key`, or null when there is no entry, the decoded envelope is empty,
      no key is available, or the envelope does not open. */
  function GetValue(kc: Keychain, p: Platform, masterKey: Option<SecretKey>, store: Store, key: string)
    : (r: Result<Option<Bytes>, Exception>)
    ensures IsReserved(key) ==> r == Failure(ReservedKey(key))
    ensures !IsReserved(key) && key !in store ==> r == Success(None)
    ensures r.Failure? && !IsReserved(key) ==>
      key in store && (store[key].Str? ==> r == Failure(BadBase64(store[key].s)) && p.base64.decode(store[key].s).None?)
    ensures r.Success? && masterKey.None? ==> r.value.None?
    ensures !IsReserved(key) && key in store && !store[key].Str? ==> r == Failure(ClassCast(key))
    ensures !IsReserved(key) && key in store && store[key].Str? && p.base64.decode(store[key].s).None? ==>
      r == Failure(BadBase64(store[key].s))
    ensures !IsReserved(key) && key in store && store[key].Str? && p.base64.decode(store[key].s).Some? ==>
      if |p.base64.decode(store[key].s).value| == 0 || masterKey.None? then r == Success(None)
      else r == Success(p.aead.open(p.base64.decode(store[key].s).value, masterKey.value, kc.identifier))
    ensures r.Success? && r.value.Some? ==>
      && masterKey.Some? && key in store && store[key].Str?
      && p.base64.decode(store[key].s).Some?
      && |p.base64.decode(store[key].s).value| > 0
      && p.aead.open(p.base64.decode(store[key].s).value, masterKey.value, kc.identifier) == r.value
  {
    if IsReserved(key) then Failure(ReservedKey(key))
    else match GetString(store, key)
      case Failure(e) => Failure(e)
      case Success(None) => Success(None)
      case Success(Some(encoded)) =>
        match p.base64.decode(encoded)
        case None => Failure(BadBase64(encoded))
        case Some(envelope) =>
          if |envelope| == 0 then Success(None)
          else if masterKey.None? then Success(None)
          else Success(p.aead.open(envelope, masterKey.value, kc.identifier))
  }

  /** setValue, the body of putDataForKey: stores the sealed value, or
      removes the entry when `value` is null. Without a key, or when sealing
      fails, the store is left exactly as it was. */
  function SetValue(kc: Keychain, p: Platform, masterKey: Option<SecretKey>, store: Store, key: string, value: Option<Bytes>)
    : (r: Result<Store, Exception>)
    ensures r.Failure? <==> IsReserved(key)
    ensures r.Failure? ==> r.error == ReservedKey(key)
    ensures r.Success? ==> r.value - {key} == store - {key}
    ensures r.Success? && masterKey.None? ==> r.value == store
    ensures r.Success? && masterKey.Some? && value.None? ==> r.value == store - {key}
    ensures r.Success? && masterKey.Some? && value.Some? ==>
      match p.aead.seal(value.value, masterKey.value, kc.identifier)
      case None => r.value == store
      case Some(envelope) => key in r.value && r.value[key] == Str(p.base64.encode(envelope))
  {
    if IsReserved(key) then Failure(ReservedKey(key))
    else if masterKey.None? then Success(store)
    else if value.None? then Success(Apply(store, PutString(Edit(), key, None)))
    else match p.aead.seal(value.value, masterKey.value, kc.identifier)
      case None => Success(store)
      case Some(envelope) => Success(Apply(store, PutString(Edit(), key, Some(p.base64.encode(envelope)))))
  }

  /** containsDataForKey: whether dataForKey would return a value. */
  function ContainsDataForKey(kc: Keychain, p: Platform, masterKey: Option<SecretKey>, store: Store, key: string)
    : (r: Result<bool, Exception>)
    ensures r.Failure? <==> GetValue(kc, p, masterKey, store, key).Failure?
    ensures r.Failure? ==> r.error == GetValue(kc, p, masterKey, store, key).error
    ensures r.Success? ==> (r.value <==> GetValue(kc, p, masterKey, store, key).value.Some?)
  {
    match GetValue(kc, p, masterKey, store, key)
    case Failure(e) => Failure(e)
    case Success(data) => Success(data.Some?)
  }

  /** removeDataForKey: the entry is gone, whatever the key provider does. */
  function RemoveDataForKey(store: Store, key: string): (r: Result<Store, Exception>)
    ensures r.Failure? <==> IsReserved(key)
    ensures r.Failure? ==> r.error == ReservedKey(key)
    ensures r.Success? ==> r.value == store - {key}
  {
    if IsReserved(key) then Failure(ReservedKey(key))
    else Success(Apply(store, Remove(Edit(), key)))
  }

  /** removeAll: clears the file and writes the version marker back. */
  function RemoveAll(store: Store): (r: Store)
    ensures r == map[VersionKey := IntV(Version)]
  {
    Apply(store, PutInt(Clear(Edit()), VersionKey, Version))
  }

  /** stringForKey: the stored bytes read back through the default charset. */
  function StringForKey(kc: Keychain, p: Platform, masterKey: Option<SecretKey>, store: Store, key: string)
    : (r: Result<Option<string>, Exception>)
    ensures r.Failure? <==> GetValue(kc, p, masterKey, store, key).Failure?
    ensures r.Failure? ==> r.error == GetValue(kc, p, masterKey, store, key).error
    ensures r.Success? ==> (r.value.Some? <==> GetValue(kc, p, masterKey, store, key).value.Some?)
    ensures r.Success? && r.value.Some? ==>
      r.value.value == p.charset.newString(GetValue(kc, p, masterKey, store, key).value.value)
  {
    match GetValue(kc, p, masterKey, store, key)
    case Failure(e) => Failure(e)
    case Success(None) => Success(None)
    case Success(Some(bytes)) => Success(Some(p.charset.newString(bytes)))
  }

  /** putStringForKey: the text's default-charset bytes go through setValue;
      a null text removes the entry. */
  function PutStringForKey(kc: Keychain, p: Platform, masterKey: Option<SecretKey>, store: Store, key: string, text: Option<string>)
    : (r: Result<Store, Exception>)
    ensures text.None? ==> r == SetValue(kc, p, masterKey, store, key, None)
    ensures text.Some? ==> r == SetValue(kc, p, masterKey, store, key, Some(p.charset.getBytes(text.value)))
  {
    var bytes := if text.Some? then Some(p.charset.getBytes(text.value)) else None;
    SetValue(kc, p, masterKey, store, key, bytes)
  }

  /** isEncryptedContentInSharedPreferences: the marker equals the current
      version, a missing marker reading as 0. */
  function IsEncryptedContent(store: Store): (r: Result<bool, Exception>)
    ensures VersionKey !in store ==> r == Success(false)
    ensures r == Success(true) <==> VersionKey in store && store[VersionKey] == IntV(Version)
    ensures r.Failure? <==> VersionKey in store && !store[VersionKey].IntV?
  {
    match GetInt(store, VersionKey, 0)
    case Failure(e) => Failure(e)
    case Success(version) => Success(Version == version)
  }
}
