/**
 * The asset store of the newer engine
 * (levk/engine/include/levk/engine/assets/asset_store.hpp and
 * levk/engine/src/assets/asset_store.cpp): assets keyed by the hash of their
 * URI and tagged with the sign of their type. Loaders, the file checks
 * behind `AssetLoadInfo::modified` and `std::hash` are parameters; the
 * resource cache is reduced to the set of loaded resource keys.
 */
module AssetStore {
  import opened Wrappers
  import opened Hashing

  /** `dens::detail::sign_t`: the identity of an asset type. */
  type Sign = nat

  /** An asset object, by id. */
  type Object = nat

  /**
   * `TAsset<T>`: its URI, its type's sign, whether it was loaded (so holds
   * `AssetLoadInfo`), whether its type is reloadable (so `doReload` is set)
   * and the object (null when added from a `nullptr`).
   */
  datatype Asset = Asset(uri: string, sign: Sign, loaded: bool, reloadable: bool, obj: Option<Object>)

  /** `m_assets` and the keys of `m_resources`. */
  datatype Store = Store(assets: map<Hash, Asset>, resources: set<Hash>)

  /** Every asset sits under the hash of its own URI. */
  ghost predicate Keyed(store: Store, strHash: string -> U64) {
    forall k :: k in store.assets ==> k == OfString(store.assets[k].uri, strHash)
  }

  /** `TAsset::dirty`: loaded, and its load info reports a modification. */
  predicate Dirty(a: Asset, modified: string -> bool) {
    a.loaded && modified(a.uri)
  }

  /**
   * The private `add(unique_ptr<TAsset<T>>)`: a null asset is refused;
   * otherwise it is inserted or replaces whatever was under `Hash(uri)`, and
   * the call returns its object.
   */
  function AddAsset(store: Store, tasset: Option<Asset>, strHash: string -> U64): (r: (Store, Option<Object>))
    ensures tasset.None? ==> r == (store, None)
    ensures tasset.Some? ==> var k := OfString(tasset.value.uri, strHash);
      r.0.assets == store.assets[k := tasset.value] && r.1 == tasset.value.obj
    ensures r.0.resources == store.resources
  {
    match tasset
    case None => (store, None)
    case Some(a) => (store.(assets := store.assets[OfString(a.uri, strHash) := a]), a.obj)
  }

  /** The public `add(uri, t)`: an asset that was not loaded, so never dirty and never reloaded. */
  function Add(store: Store, uri: string, sign: Sign, obj: Option<Object>, strHash: string -> U64): (r: (Store, Option<Object>))
    ensures r.1 == obj
    ensures Find(r.0, OfString(uri, strHash), sign) == obj
  {
    AddAsset(store, Some(Asset(uri, sign, false, false, obj)), strHash)
  }

  /**
   * `load<T>(uri, data)`: the asset is stored only when the loader returns
   * an object (`loaded`); otherwise the result is empty and the store is
   * unchanged.
   */
  function Load(store: Store, uri: string, sign: Sign, reloadable: bool, loaded: Option<Object>, strHash: string -> U64): (r: (Store, Option<Object>))
    ensures loaded.None? ==> r == (store, None)
    ensures loaded.Some? ==> r.1 == loaded && Find(r.0, OfString(uri, strHash), sign) == loaded
    ensures loaded.Some? ==> var k := OfString(uri, strHash); r.0.assets[k].loaded
  {
    match loaded
    case None => (store, None)
    case Some(_) => AddAsset(store, Some(Asset(uri, sign, true, reloadable, loaded)), strHash)
  }

  /** `find<T>(uri)`: the object when the key is present and stored with `T`'s sign. */
  function Find(store: Store, key: Hash, sign: Sign): (r: Option<Object>)
    ensures r.Some? ==> key in store.assets && store.assets[key].sign == sign
    ensures key in store.assets && store.assets[key].sign == sign ==> r == store.assets[key].obj
    ensures key !in store.assets || store.assets[key].sign != sign ==> r.None?
  {
    if key in store.assets && store.assets[key].sign == sign then store.assets[key].obj else None
  }

  /** `exists<T>(uri)`: `find<T>` is non-null. */
  function ExistsTyped(store: Store, key: Hash, sign: Sign): (r: bool)
    ensures r <==> key in store.assets && store.assets[key].sign == sign && store.assets[key].obj.Some?
  {
    Find(store, key, sign).Some?
  }

  /** Untyped `exists(uri)`: the key is present. */
  predicate Exists(store: Store, key: Hash) {
    key in store.assets
  }

  /** `unload<T>(uri)`: removes the entry only when it holds a `T`. */
  function UnloadTyped(store: Store, key: Hash, sign: Sign): (r: (Store, bool))
    ensures r.1 <==> key in store.assets && store.assets[key].sign == sign
    ensures r.1 ==> r.0.assets == store.assets - {key} && r.0.resources == store.resources
    ensures !r.1 ==> r.0 == store
  {
    if key in store.assets && store.assets[key].sign == sign then (store.(assets := store.assets - {key}), true)
    else (store, false)
  }

  /** Untyped `unload(uri)`: removes the entry whatever its type. */
  function Unload(store: Store, key: Hash): (r: (Store, bool))
    ensures r.1 <==> Exists(store, key)
    ensures !Exists(r.0, key)
    ensures forall k :: k != key ==> (k in r.0.assets <==> k in store.assets)
  {
    if key in store.assets then (store.(assets := store.assets - {key}), true) else (store, false)
  }

  /**
   * `reload<T>(uri)`: false for an absent key or another type; otherwise the
   * loader's `reload` result (`reloadOk`), which on success notifies the
   * asset's URI. Reloading an asset that was added rather than loaded
   * dereferences its empty load info, which the model reports as `Fatal`.
   */
  function Reload(store: Store, key: Hash, sign: Sign, reloadOk: bool): (r: Result<(bool, seq<string>)>)
    ensures key !in store.assets || store.assets[key].sign != sign ==> r == Ok((false, []))
    ensures r.Ok? && r.value.0 ==> key in store.assets && r.value.1 == [store.assets[key].uri] && reloadOk
    ensures r.Ok? && !r.value.0 ==> r.value.1 == []
    ensures r.Fatal? <==> key in store.assets && store.assets[key].sign == sign && !store.assets[key].loaded
  {
    if key in store.assets && store.assets[key].sign == sign then
      var a := store.assets[key];
      if !a.loaded then Fatal("reload of an asset without load info")
      else if reloadOk then Ok((true, [a.uri]))
      else Ok((false, []))
    else Ok((false, []))
  }

  /** Typed and untyped queries agree: `exists<T>` implies `exists`, and `unload<T>` success implies `unload` would succeed. */
  lemma TypedImpliesUntyped(store: Store, key: Hash, sign: Sign)
    ensures ExistsTyped(store, key, sign) ==> Exists(store, key)
    ensures UnloadTyped(store, key, sign).1 ==> Unload(store, key).1 && UnloadTyped(store, key, sign).0.assets == Unload(store, key).0.assets
  {
  }

  /** Adding under a URI that is present replaces the old asset, whatever its type. */
  lemma AddOverwrites(store: Store, uri: string, sign: Sign, sign': Sign, obj: Option<Object>, strHash: string -> U64)
    requires sign != sign'
    ensures var s := Add(store, uri, sign, obj, strHash).0;
            Find(s, OfString(uri, strHash), sign') == None && Exists(s, OfString(uri, strHash))
  {
  }

  /** A failed load leaves a previously stored asset under the same URI in place. */
  lemma FailedLoadKeepsOld(store: Store, uri: string, sign: Sign, reloadable: bool, strHash: string -> U64)
    ensures Load(store, uri, sign, reloadable, None, strHash).0 == store
  {
  }

  /** An added asset is never dirty, so `update` never reloads it. */
  lemma AddedNeverDirty(store: Store, uri: string, sign: Sign, obj: Option<Object>, strHash: string -> U64, modified: string -> bool)
    ensures var s := Add(store, uri, sign, obj, strHash).0;
            !Dirty(s.assets[OfString(uri, strHash)], modified)
  {
  }

  /** The keys `update` reloads: dirty assets with a reload function whose reload succeeds. */
  function Reloadable(store: Store, modified: string -> bool, reloadOk: Hash -> bool): set<Hash> {
    set k | k in store.assets && Reloads(store, modified, reloadOk, k)
  }

  /** `update` reloads the asset under `k`, and the reload succeeds. */
  predicate Reloads(store: Store, modified: string -> bool, reloadOk: Hash -> bool, k: Hash)
    requires k in store.assets
  {
    Dirty(store.assets[k], modified) && store.assets[k].reloadable && reloadOk(k)
  }

  /**
   * `update()`: visits the assets in map order (`keys`, each key once),
   * reloads the dirty ones that have a reload function and counts the
   * reloads that succeed. The result is that count and the URIs notified.
   */
  method Update(store: Store, keys: seq<Hash>, modified: string -> bool, reloadOk: Hash -> bool)
    returns (reloaded: nat, done: set<Hash>)
    requires forall k :: k in store.assets <==> k in keys
    requires forall i, j :: 0 <= i < j < |keys| ==> keys[i] != keys[j]
    ensures done == Reloadable(store, modified, reloadOk)
    ensures reloaded == |done|
  {
    reloaded, done := 0, {};
    var i := 0;
    while i < |keys|
      invariant 0 <= i <= |keys|
      invariant forall k :: k in done <==> k in keys[..i] && k in store.assets && Reloads(store, modified, reloadOk, k)
      invariant reloaded == |done|
    {
      var k := keys[i];
      assert k in store.assets;
      assert k !in keys[..i];
      assert k !in done;
      if Reloads(store, modified, reloadOk, k) {
        done := done + {k};
        reloaded := reloaded + 1;
      }
      assert keys[..i + 1] == keys[..i] + [k];
      i := i + 1;
    }
    assert keys[..i] == keys;
    assert forall k :: k in done <==> k in Reloadable(store, modified, reloadOk);
  }

  /** `clear()`: no assets and no resources remain. */
  function Clear(store: Store): (r: Store)
    ensures forall k :: !Exists(r, k) && k !in r.resources
  {
    Store(map[], {})
  }

  /** `uri.find(filter) != npos`. */
  predicate ContainsText(uri: string, filter: string) {
    exists i | 0 <= i <= |uri| :: filter <= uri[i..]
  }

  /** The index's filters: URI contains `filter` when it is non-empty, sign listed when `signs` is non-empty. */
  predicate Passes(a: Asset, signs: seq<Sign>, filter: string) {
    (filter == [] || ContainsText(a.uri, filter)) && (signs == [] || a.sign in signs)
  }

  /**
   * `index(signs, filter)`: the URIs of the passing assets grouped by sign.
   * Groups come out of an unordered map, so the model keys them by sign.
   */
  function Index(store: Store, signs: seq<Sign>, filter: string): (r: map<Sign, set<string>>)
    ensures forall s :: s in r ==> r[s] != {}
  {
    var passing := set k | k in store.assets && Passes(store.assets[k], signs, filter);
    var groups := set k | k in passing :: store.assets[k].sign;
    map s | s in groups :: Group(store, passing, s)
  }

  /** The URIs of the assets among `keys` whose sign is `s`. */
  function Group(store: Store, keys: set<Hash>, s: Sign): (r: set<string>)
    requires keys <= store.assets.Keys
    ensures (exists k :: k in keys && store.assets[k].sign == s) ==> r != {}
  {
    var r := set k | k in keys && store.assets[k].sign == s :: store.assets[k].uri;
    assert forall k :: k in keys && store.assets[k].sign == s ==> store.assets[k].uri in r;
    r
  }

  /**
   * A URI is listed under a sign exactly when an asset with that URI and
   * sign passes both filters.
   */
  lemma IndexSpec(store: Store, signs: seq<Sign>, filter: string, s: Sign, uri: string)
    ensures var r := Index(store, signs, filter);
            s in r && uri in r[s] <==> exists k :: k in store.assets && store.assets[k].uri == uri && store.assets[k].sign == s && Passes(store.assets[k], signs, filter)
  {
    var r := Index(store, signs, filter);
    var passing := set k | k in store.assets && Passes(store.assets[k], signs, filter);
    if exists k :: k in store.assets && store.assets[k].uri == uri && store.assets[k].sign == s && Passes(store.assets[k], signs, filter) {
      var k :| k in store.assets && store.assets[k].uri == uri && store.assets[k].sign == s && Passes(store.assets[k], signs, filter);
      assert k in passing;
      assert uri in Group(store, passing, s);
    }
  }

  /** With no filter and no signs every asset is indexed, under its own sign. */
  lemma IndexUnfiltered(store: Store, k: Hash)
    requires k in store.assets
    ensures var r := Index(store, [], "");
            store.assets[k].sign in r && store.assets[k].uri in r[store.assets[k].sign]
  {
    IndexSpec(store, [], "", store.assets[k].sign, store.assets[k].uri);
  }

  /** An asset of a sign not listed is left out of every group. */
  lemma IndexSignFilter(store: Store, signs: seq<Sign>, filter: string, s: Sign)
    requires signs != [] && s !in signs
    ensures s !in Index(store, signs, filter)
  {
    if s in Index(store, signs, filter) {
      assert false;
    }
  }

  /** `onModified(uri)`: a signal on the asset's URI, or an empty signal when absent. */
  function OnModified(store: Store, key: Hash): (r: Option<string>)
    ensures r.None? <==> !Exists(store, key)
    ensures r.Some? ==> r.value == store.assets[key].uri
  {
    if key in store.assets then Some(store.assets[key].uri) else None
  }

  /** Adding and loading keep every asset under the hash of its URI. */
  lemma AddKeepsKeyed(store: Store, uri: string, sign: Sign, obj: Option<Object>, reloadable: bool, strHash: string -> U64)
    requires Keyed(store, strHash)
    ensures Keyed(Add(store, uri, sign, obj, strHash).0, strHash)
    ensures Keyed(Load(store, uri, sign, reloadable, obj, strHash).0, strHash)
  {
  }
}
