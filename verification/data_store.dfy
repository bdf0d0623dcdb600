/**
 * The process-wide typed key-value store of the older engine
 * (libs/core/include/core/utils/data_store.hpp). The static map becomes an
 * explicit value that each operation takes and returns. A key is the value
 * of a `Hash` (libs/core/include/core/hash.hpp is not part of this model);
 * a stored object is opaque, tagged with the hash of its type.
 */
module DataStore {
  import opened Wrappers

  type Id = nat

  /** `typeid(T).hash_code()`. */
  type TypeHash = nat

  /** An opaque stored object. */
  type Value = nat

  /** `Model<T>`: the object and the hash of the type it was stored as. */
  datatype Entry = Entry(typeHash: TypeHash, value: Value)

  type Store = map<Id, Entry>

  /**
   * `emplace<T>(id, args...)`: `map.emplace` inserts only when `id` is absent,
   * and the call returns the object now under `id` viewed as a `T`. Viewing an
   * object of another type is a `static_cast` with undefined behaviour, which
   * the model reports as `Fatal`.
   */
  function Emplace(store: Store, id: Id, t: TypeHash, v: Value): (r: (Store, Result<Value>))
    ensures id !in store ==> r.0 == store[id := Entry(t, v)] && r.1 == Ok(v)
    ensures id in store ==> r.0 == store
    ensures id in store && store[id].typeHash == t ==> r.1 == Ok(store[id].value)
    ensures id in store && store[id].typeHash != t ==> r.1.Fatal?
  {
    var s: Store := if id in store then store else store[id := Entry(t, v)];
    var e := s[id];
    (s, if e.typeHash == t then Ok(e.value) else Fatal("static_cast to a type other than the stored one"))
  }

  /** `set<T>(id, t)`: the same as `emplace`. */
  function Set(store: Store, id: Id, t: TypeHash, v: Value): (r: (Store, Result<Value>))
    ensures id !in store ==> Find(r.0, id, t) == Some(v) && r.1 == Ok(v)
    ensures id in store ==> r.0 == store
  {
    Emplace(store, id, t, v)
  }

  /** `erase(id)`. */
  function Erase(store: Store, id: Id): (r: Store)
    ensures id !in r
    ensures forall k :: k != id ==> (k in r <==> k in store) && (k in r ==> r[k] == store[k])
  {
    store - {id}
  }

  /** `find<T>(id)`: the object when `id` is present and was stored as a `T`, else null. */
  function Find(store: Store, id: Id, t: TypeHash): (r: Option<Value>)
    ensures r.Some? <==> id in store && store[id].typeHash == t
    ensures r.Some? ==> r.value == store[id].value
  {
    if id in store && store[id].typeHash == t then Some(store[id].value) else None
  }

  /** `get<T>(id)`: dereferences `find`, so the entry must be there with the right type. */
  function Get(store: Store, id: Id, t: TypeHash): (r: Value)
    requires Find(store, id, t).Some?
    ensures Entry(t, r) == store[id]
  {
    Find(store, id, t).value
  }

  /** `contains(id)`. */
  predicate Contains(store: Store, id: Id) {
    id in store
  }

  /** A value stored under a fresh id is found again with its own type. */
  lemma EmplaceThenFind(store: Store, id: Id, t: TypeHash, v: Value)
    requires !Contains(store, id)
    ensures var s := Emplace(store, id, t, v).0; Contains(s, id) && Find(s, id, t) == Some(v) && Get(s, id, t) == v
  {
  }

  /** Emplacing under a taken id changes nothing, whatever the type and value. */
  lemma EmplaceNeverOverwrites(store: Store, id: Id, t: TypeHash, v: Value, t': TypeHash)
    requires Contains(store, id)
    ensures Emplace(store, id, t, v).0 == store
    ensures Find(Emplace(store, id, t, v).0, id, t') == Find(store, id, t')
  {
  }

  /** After `erase(id)`, `id` is absent and every other entry is as it was. */
  lemma EraseThenContains(store: Store, id: Id, other: Id, t: TypeHash)
    requires other != id
    ensures !Contains(Erase(store, id), id) && Find(Erase(store, id), id, t) == None
    ensures Find(Erase(store, id), other, t) == Find(store, other, t)
  {
  }

  /** Emplace under a fresh id and erase again restores the store. */
  lemma EmplaceEraseRoundTrip(store: Store, id: Id, t: TypeHash, v: Value)
    requires !Contains(store, id)
    ensures Erase(Emplace(store, id, t, v).0, id) == store
  {
  }
}
