/** The observable effect of `StorageService` (services/storage.ts) on an
    abstract database: each IndexedDB object store is a map from the record's
    `id` key path to the record. Opening the database and running a request
    either succeed or fail; which one happens is a parameter, and so is the
    order in which `getAll` lists a store. */
module Storage {
  import opened Wrappers
  import opened Types

  /** What the profile store holds: the profile with the fixed key added. */
  datatype ProfileRecord = ProfileRecord(id: string, profile: UserProfile)

  datatype Db = Db(
    wardrobe: map<string, ClothingItem>,
    profiles: map<string, ProfileRecord>,
    history: map<string, SavedOutfit>)

  const EmptyDb: Db := Db(map[], map[], map[])

  /** How one storage call goes: the database opens and the request or
      transaction succeeds, the database fails to open, or it opens and the
      request or transaction fails. */
  datatype Access = Available | OpenFails | RequestFails

  /** How the promise a call returns settles. */
  datatype Reply<T> = Resolves(value: T) | Rejects

  /** The one key the profile is stored under. */
  const ProfileKey: string := "main"

  /** No key occurs twice in `xs`. */
  predicate UniqueKeys<T>(xs: seq<T>, key: T -> string) {
    forall i, j :: 0 <= i < j < |xs| ==> key(xs[i]) != key(xs[j])
  }

  /** No element occurs twice in `xs`. */
  predicate NoDuplicates<T(==)>(xs: seq<T>) {
    forall i, j :: 0 <= i < j < |xs| ==> xs[i] != xs[j]
  }

  /** `xs[k]` is the last element of `xs` with its key. */
  predicate LastWithKey<T>(xs: seq<T>, key: T -> string, k: int)
    requires 0 <= k < |xs|
  {
    forall j :: k < j < |xs| ==> key(xs[j]) != key(xs[k])
  }

  function KeysOf<T>(xs: seq<T>, key: T -> string): set<string> {
    set k | 0 <= k < |xs| :: key(xs[k])
  }

  /** `xs.forEach(x => store.put(x))` on a store holding `m`: each record
      lands under its key and a later record with the same key replaces an
      earlier one; the other keys keep their records. */
  function PutAll<T>(m: map<string, T>, xs: seq<T>, key: T -> string): (r: map<string, T>)
    ensures r.Keys == m.Keys + KeysOf(xs, key)
    ensures forall k :: 0 <= k < |xs| && LastWithKey(xs, key, k) ==> r[key(xs[k])] == xs[k]
    ensures forall k :: k in m && k !in KeysOf(xs, key) ==> r[k] == m[k]
    ensures forall k :: k in r && k !in m ==> key(r[k]) == k
  {
    if |xs| == 0 then m
    else
      var init := xs[..|xs| - 1];
      var last := xs[|xs| - 1];
      var before := PutAll(m, init, key);
      KeysOfSnoc(xs, key);
      LastInPrefix(xs, key);
      before[key(last) := last]
  }

  /** The keys of a sequence are those of all but its last element plus the
      last one's. */
  lemma KeysOfSnoc<T>(xs: seq<T>, key: T -> string)
    requires |xs| > 0
    ensures KeysOf(xs, key) == KeysOf(xs[..|xs| - 1], key) + {key(xs[|xs| - 1])}
  {
    var init := xs[..|xs| - 1];
    forall k | k in KeysOf(xs, key) ensures k in KeysOf(init, key) + {key(xs[|xs| - 1])} {
      var i :| 0 <= i < |xs| && key(xs[i]) == k;
      if i < |xs| - 1 {
        assert init[i] == xs[i];
      }
    }
    forall k | k in KeysOf(init, key) ensures k in KeysOf(xs, key) {
      var i :| 0 <= i < |init| && key(init[i]) == k;
      assert xs[i] == init[i];
    }
  }

  /** An element that is last with its key stays so in a prefix. */
  lemma LastInPrefix<T>(xs: seq<T>, key: T -> string)
    requires |xs| > 0
    ensures forall k :: 0 <= k < |xs| - 1 && LastWithKey(xs, key, k) ==> LastWithKey(xs[..|xs| - 1], key, k)
  {
  }

  /** Every record sits under its own `id`, as the `keyPath: 'id'` of the
      stores guarantees; the profile sits under its record's `id`. */
  predicate KeyedById(db: Db) {
    && (forall id :: id in db.wardrobe ==> db.wardrobe[id].id == id)
    && (forall id :: id in db.history ==> db.history[id].id == id)
    && (forall id :: id in db.profiles ==> db.profiles[id].id == id)
  }

  /** Every save keeps records under their own ids. */
  lemma SavesKeepKeyedById(db: Db, items: seq<ClothingItem>, history: seq<SavedOutfit>, p: UserProfile, access: Access)
    requires KeyedById(db)
    ensures KeyedById(SaveWardrobe(db, items, access))
    ensures KeyedById(SaveHistory(db, history, access))
    ensures KeyedById(SaveProfile(db, p, access))
  {
  }

  /** `store.clear()` then a put of every record. */
  function Replace<T>(xs: seq<T>, key: T -> string): (r: map<string, T>)
    ensures r.Keys == KeysOf(xs, key)
    ensures forall k :: 0 <= k < |xs| && LastWithKey(xs, key, k) ==> r[key(xs[k])] == xs[k]
    ensures forall k :: k in r ==> key(r[k]) == k
  {
    PutAll(map[], xs, key)
  }

  function ItemId(item: ClothingItem): string { item.id }

  function OutfitId(outfit: SavedOutfit): string { outfit.id }

  /** `saveWardrobe(items)`: after a transaction that completes the store
      holds exactly the given items keyed by id (the last one wins for a
      repeated id); a failed transaction, or a database that does not open,
      leaves everything as it was. The other stores are never touched. */
  function SaveWardrobe(db: Db, items: seq<ClothingItem>, access: Access): (r: Db)
    ensures access != Available ==> r == db
    ensures r.profiles == db.profiles && r.history == db.history
    ensures access == Available ==>
      && r.wardrobe.Keys == KeysOf(items, ItemId)
      && (forall k :: 0 <= k < |items| && LastWithKey(items, ItemId, k) ==> r.wardrobe[items[k].id] == items[k])
      && (forall id :: id in r.wardrobe ==> r.wardrobe[id].id == id)
  {
    if access == Available then db.(wardrobe := Replace(items, ItemId)) else db
  }

  /** `saveHistory(history)`: the history store analogue of `SaveWardrobe`. */
  function SaveHistory(db: Db, history: seq<SavedOutfit>, access: Access): (r: Db)
    ensures access != Available ==> r == db
    ensures r.wardrobe == db.wardrobe && r.profiles == db.profiles
    ensures access == Available ==>
      && r.history.Keys == KeysOf(history, OutfitId)
      && (forall k :: 0 <= k < |history| && LastWithKey(history, OutfitId, k) ==> r.history[history[k].id] == history[k])
      && (forall id :: id in r.history ==> r.history[id].id == id)
  {
    if access == Available then db.(history := Replace(history, OutfitId)) else db
  }

  /** A completed save does not depend on what the store held before: no
      earlier record survives it. */
  lemma SaveForgetsEarlierRecords(db1: Db, db2: Db, items: seq<ClothingItem>, history: seq<SavedOutfit>)
    ensures SaveWardrobe(db1, items, Available).wardrobe == SaveWardrobe(db2, items, Available).wardrobe
    ensures SaveHistory(db1, history, Available).history == SaveHistory(db2, history, Available).history
  {
  }

  /** `saveProfile(profile)`: puts `{ id: 'main', ...profile }`. */
  function SaveProfile(db: Db, p: UserProfile, access: Access): (r: Db)
    ensures access != Available ==> r == db
    ensures r.wardrobe == db.wardrobe && r.history == db.history
    ensures access == Available ==> r.profiles.Keys == db.profiles.Keys + {ProfileKey}
    ensures access == Available ==> r.profiles[ProfileKey] == ProfileRecord(ProfileKey, p)
    ensures forall k :: k in db.profiles && k != ProfileKey ==> r.profiles[k] == db.profiles[k]
  {
    if access == Available then db.(profiles := db.profiles[ProfileKey := ProfileRecord(ProfileKey, p)]) else db
  }

  /** `getProfile(defaultProfile)`: the stored profile without its `id`, or
      the default when there is none, when the request fails, or when the
      database does not open. */
  function GetProfile(db: Db, defaultProfile: UserProfile, access: Access): (p: UserProfile)
    ensures access != Available || ProfileKey !in db.profiles ==> p == defaultProfile
    ensures access == Available && ProfileKey in db.profiles ==> p == db.profiles[ProfileKey].profile
  {
    if access == Available && ProfileKey in db.profiles then db.profiles[ProfileKey].profile
    else defaultProfile
  }

  /** A saved profile reads back unchanged, whatever the default. */
  lemma ProfileRoundTrip(db: Db, p: UserProfile, d: UserProfile)
    ensures GetProfile(SaveProfile(db, p, Available), d, Available) == p
  {
  }

  /** A profile store that was never written reads as the default. */
  lemma FreshProfileIsDefault(d: UserProfile, access: Access)
    ensures GetProfile(EmptyDb, d, access) == d
  {
  }

  /** `order` lists every key of `m` exactly once: the order in which
      `getAll` returns the records. */
  predicate Lists<T>(m: map<string, T>, order: seq<string>) {
    && (forall i, j :: 0 <= i < j < |order| ==> order[i] != order[j])
    && (forall k :: k in m ==> k in order)
    && (forall i :: 0 <= i < |order| ==> order[i] in m)
  }

  /** `store.getAll()`: every record of the store once, in the given key
      order. */
  function GetAll<T>(m: map<string, T>, order: seq<string>): (r: seq<T>)
    requires Lists(m, order)
    ensures |r| == |order|
    ensures forall k :: k in m ==> m[k] in r
    ensures forall i :: 0 <= i < |r| ==> order[i] in m && r[i] == m[order[i]]
  {
    var r := seq(|order|, i requires 0 <= i < |order| => m[order[i]]);
    assert forall k :: k in m ==> m[k] in r by {
      forall k | k in m ensures m[k] in r {
        var i :| 0 <= i < |order| && order[i] == k;
        assert r[i] == m[k];
      }
    }
    r
  }

  /** `getWardrobe()`: the stored items; `[]` when the database does not
      open; a failed request rejects the returned promise, since that
      rejection happens outside the `try`. */
  function GetWardrobe(db: Db, order: seq<string>, access: Access): (r: Reply<seq<ClothingItem>>)
    requires Lists(db.wardrobe, order)
    ensures access == OpenFails ==> r == Resolves([])
    ensures access == RequestFails <==> r.Rejects?
    ensures access == Available ==>
      && r.Resolves? && |r.value| == |order| == |db.wardrobe|
      && (forall id :: id in db.wardrobe ==> db.wardrobe[id] in r.value)
      && (forall i :: 0 <= i < |r.value| ==> order[i] in db.wardrobe && r.value[i] == db.wardrobe[order[i]])
  {
    match access
    case Available => ListsLength(db.wardrobe, order); Resolves(GetAll(db.wardrobe, order))
    case OpenFails => Resolves([])
    case RequestFails => Rejects
  }

  /** A key listing is as long as the map. */
  lemma {:induction false} ListsLength<T>(m: map<string, T>, order: seq<string>)
    requires Lists(m, order)
    ensures |order| == |m|
    decreases |order|
  {
    if |order| > 0 {
      var k := order[0];
      var m' := map k' | k' in m && k' != k :: m[k'];
      assert m'.Keys == m.Keys - {k};
      ListsLength(m', order[1..]);
    } else {
      assert m.Keys == {};
    }
  }

  /** History records from the newest to the oldest. */
  predicate NewestFirst(xs: seq<SavedOutfit>) {
    forall i, j :: 0 <= i < j < |xs| ==> xs[i].timestamp >= xs[j].timestamp
  }

  /** Places `x` in a newest-first list before every record that is not
      newer than it. */
  function InsertByTime(x: SavedOutfit, ys: seq<SavedOutfit>): (r: seq<SavedOutfit>)
    requires NewestFirst(ys)
    ensures NewestFirst(r)
    ensures multiset(r) == multiset(ys) + multiset{x}
  {
    if |ys| == 0 || ys[0].timestamp <= x.timestamp then [x] + ys
    else
      var rest := InsertByTime(x, ys[1..]);
      assert ys == [ys[0]] + ys[1..];
      forall k | 0 <= k < |rest| ensures rest[k].timestamp <= ys[0].timestamp {
        assert rest[k] in multiset(ys[1..]) + multiset{x};
        if rest[k] != x {
          NotNewerThanHead(ys, rest[k]);
        }
      }
      [ys[0]] + rest
  }

  /** In a newest-first list nothing after the head is newer than it. */
  lemma NotNewerThanHead(ys: seq<SavedOutfit>, z: SavedOutfit)
    requires NewestFirst(ys) && |ys| > 0 && z in multiset(ys[1..])
    ensures z.timestamp <= ys[0].timestamp
  {
    var j :| 0 <= j < |ys[1..]| && ys[1..][j] == z;
    assert ys[j + 1] == z;
  }

  /** `res.sort((a, b) => b.timestamp - a.timestamp)`: the same records,
      newest first. */
  function SortNewestFirst(xs: seq<SavedOutfit>): (r: seq<SavedOutfit>)
    ensures NewestFirst(r)
    ensures multiset(r) == multiset(xs)
  {
    if |xs| == 0 then []
    else
      assert xs == [xs[0]] + xs[1..];
      InsertByTime(xs[0], SortNewestFirst(xs[1..]))
  }

  /** `getHistory()`: the stored outfits newest first; `[]` when the
      request fails or the database does not open. It never rejects. */
  function GetHistory(db: Db, order: seq<string>, access: Access): (r: seq<SavedOutfit>)
    requires Lists(db.history, order)
    ensures NewestFirst(r)
    ensures access != Available ==> r == []
    ensures access == Available ==> multiset(r) == multiset(GetAll(db.history, order))
  {
    if access == Available then SortNewestFirst(GetAll(db.history, order)) else []
  }

  /** In a sequence without repeats each element counts once. */
  lemma {:induction false} CountInNoDuplicates<T>(xs: seq<T>, x: T)
    requires NoDuplicates(xs)
    ensures multiset(xs)[x] == if x in xs then 1 else 0
  {
    if |xs| > 0 {
      assert xs == [xs[0]] + xs[1..];
      CountInNoDuplicates(xs[1..], x);
    }
  }

  /** Two sequences without repeats holding the same elements are
      permutations of each other. */
  lemma SameElementsSameMultiset<T>(a: seq<T>, b: seq<T>)
    requires NoDuplicates(a) && NoDuplicates(b)
    requires forall x :: x in a <==> x in b
    ensures multiset(a) == multiset(b)
  {
    forall x ensures multiset(a)[x] == multiset(b)[x] {
      CountInNoDuplicates(a, x);
      CountInNoDuplicates(b, x);
    }
  }

  /** Saving a history whose ids are distinct and reading it back yields
      the same outfits, newest first. */
  lemma HistoryRoundTrip(db: Db, history: seq<SavedOutfit>, order: seq<string>)
    requires UniqueKeys(history, OutfitId)
    requires Lists(SaveHistory(db, history, Available).history, order)
    ensures var r := GetHistory(SaveHistory(db, history, Available), order, Available);
      NewestFirst(r) && multiset(r) == multiset(history)
  {
    var stored := SaveHistory(db, history, Available).history;
    var all := GetAll(stored, order);
    forall k | 0 <= k < |history| ensures LastWithKey(history, OutfitId, k) { }
    forall x ensures x in all <==> x in history {
      if x in history {
        var k :| 0 <= k < |history| && history[k] == x;
        assert stored[x.id] == x;
      }
    }
    assert NoDuplicates(all) by {
      forall i, j | 0 <= i < j < |all| ensures all[i] != all[j] {
        assert all[i].id == order[i] && all[j].id == order[j];
      }
    }
    assert NoDuplicates(history) by {
      forall i, j | 0 <= i < j < |history| ensures history[i] != history[j] {
        assert OutfitId(history[i]) != OutfitId(history[j]);
      }
    }
    SameElementsSameMultiset(all, history);
  }

  /** Saving a wardrobe whose ids are distinct and reading it back yields
      the same items, in the store's key order. */
  lemma WardrobeRoundTrip(db: Db, items: seq<ClothingItem>, order: seq<string>)
    requires UniqueKeys(items, ItemId)
    requires Lists(SaveWardrobe(db, items, Available).wardrobe, order)
    ensures var r := GetWardrobe(SaveWardrobe(db, items, Available), order, Available);
      r.Resolves? && multiset(r.value) == multiset(items)
  {
    var stored := SaveWardrobe(db, items, Available).wardrobe;
    var all := GetAll(stored, order);
    forall k | 0 <= k < |items| ensures LastWithKey(items, ItemId, k) { }
    forall x ensures x in all <==> x in items {
      if x in items {
        var k :| 0 <= k < |items| && items[k] == x;
        assert stored[x.id] == x;
      }
    }
    assert NoDuplicates(all) by {
      forall i, j | 0 <= i < j < |all| ensures all[i] != all[j] {
        assert all[i].id == order[i] && all[j].id == order[j];
      }
    }
    assert NoDuplicates(items) by {
      forall i, j | 0 <= i < j < |items| ensures items[i] != items[j] {
        assert ItemId(items[i]) != ItemId(items[j]);
      }
    }
    SameElementsSameMultiset(all, items);
  }
}
