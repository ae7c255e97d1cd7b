/** The flat preference store the keychain sits on: a map from string keys
    to scalar values, read with typed getters and written through a batch
    editor whose changes are applied in one step. */
module Prefs {
  import opened Base

  /** A scalar stored in the preferences; every type other than string and
      int is folded into Other. */
  datatype PrefValue = Str(s: string) | IntV(i: int) | Other

  type Store = map<string, PrefValue>

  /** getString(key, null): the string under `key`, null when the key is
      missing, and a class-cast failure when another type is stored there. */
  function GetString(store: Store, key: string): (r: Result<Option<string>, Exception>)
    ensures r == Success(None) <==> key !in store
    ensures r.Failure? <==> key in store && !store[key].Str?
    ensures r.Failure? ==> r.error == ClassCast(key)
    ensures r.Success? && r.value.Some? ==> key in store && store[key] == Str(r.value.value)
  {
    if key !in store then Success(None)
    else match store[key]
      case Str(s) => Success(Some(s))
      case _ => Failure(ClassCast(key))
  }

  /** getInt(key, default): the int under `key`, `default` when the key is
      missing, and a class-cast failure when another type is stored there. */
  function GetInt(store: Store, key: string, default: int): (r: Result<int, Exception>)
    ensures key !in store ==> r == Success(default)
    ensures key in store ==> (r.Success? <==> store[key].IntV?)
    ensures key in store && r.Success? ==> store[key] == IntV(r.value)
    ensures r.Failure? ==> r.error == ClassCast(key)
  {
    if key !in store then Success(default)
    else match store[key]
      case IntV(i) => Success(i)
      case _ => Failure(ClassCast(key))
  }

  /** Pending changes of a batch edit: whether the store is cleared first,
      and per key the value to write, where None removes the key. A later
      change to the same key replaces an earlier one. */
  datatype Editor = Editor(clear: bool, modified: map<string, Option<PrefValue>>)

  /** A fresh editor with no pending change. */
  function Edit(): Editor {
    Editor(false, map[])
  }

  /** putString; a null string removes the key. */
  function PutString(e: Editor, key: string, value: Option<string>): Editor {
    e.(modified := e.modified[key := if value.Some? then Some(Str(value.value)) else None])
  }

  function PutInt(e: Editor, key: string, value: int): Editor {
    e.(modified := e.modified[key := Some(IntV(value))])
  }

  function Remove(e: Editor, key: string): Editor {
    e.(modified := e.modified[key := None])
  }

  function Clear(e: Editor): Editor {
    e.(clear := true)
  }

  /** putString for every entry of `entries`, in any order. */
  function PutStrings(e: Editor, entries: map<string, string>): Editor {
    e.(modified := e.modified + map k | k in entries :: Some(Str(entries[k])))
  }

  /** remove for every key of `keys`, in any order. */
  function RemoveKeys(e: Editor, keys: set<string>): Editor {
    e.(modified := e.modified + map k | k in keys :: None)
  }

  /** Committing an editor: clear first if asked, then every pending change. */
  function Apply(store: Store, e: Editor): (r: Store)
    ensures forall k :: k in e.modified ==> (k in r <==> e.modified[k].Some?)
    ensures forall k :: k in e.modified && e.modified[k].Some? ==> k in r && r[k] == e.modified[k].value
    ensures forall k :: k !in e.modified ==> (k in r <==> !e.clear && k in store)
    ensures forall k :: k in r && k !in e.modified ==> k in store && r[k] == store[k]
  {
    var base := if e.clear then map[] else store;
    map k | k in base.Keys + e.modified.Keys && (k in e.modified ==> e.modified[k].Some?) ::
      if k in e.modified then e.modified[k].value else base[k]
  }
}
