/** The top-level state of the application (App.tsx): the closet, the
    profile and the outfit history, the handlers that change them, the
    initial load from storage and the save requests the persistence effects
    issue. */
module App {
  import opened Wrappers
  import opened Types
  import opened Seqs
  import opened Storage

  datatype AppState = AppState(
    loading: bool,
    closet: seq<ClothingItem>,
    profile: UserProfile,
    history: seq<SavedOutfit>)

  /** The state before the initial load finishes. */
  const Initial: AppState := AppState(true, [], DefaultProfile, [])

  /** `handleAddItem`: the new item goes in front of the closet. */
  function AddItem(s: AppState, item: ClothingItem): (r: AppState)
    ensures |r.closet| == |s.closet| + 1 && r.closet[0] == item && r.closet[1..] == s.closet
    ensures r.(closet := s.closet) == s
  {
    s.(closet := [item] + s.closet)
  }

  /** `prev.filter(item => item.id !== id)`. */
  function WithoutItem(closet: seq<ClothingItem>, id: string): seq<ClothingItem> {
    Keep(closet, (item: ClothingItem) => item.id != id)
  }

  /** `handleDeleteItem`: when the user confirms, exactly the items with
      another id stay, in their order and with their multiplicity; otherwise
      nothing changes. */
  function DeleteItem(s: AppState, id: string, confirmed: bool): (r: AppState)
    ensures !confirmed ==> r == s
    ensures confirmed ==>
      && (forall k :: 0 <= k < |r.closet| ==> r.closet[k].id != id)
      && (forall x: ClothingItem :: x.id != id ==> multiset(r.closet)[x] == multiset(s.closet)[x])
      && Subseq(r.closet, s.closet)
    ensures r.(closet := s.closet) == s
  {
    if confirmed then s.(closet := WithoutItem(s.closet, id)) else s
  }

  /** `handleSaveToHistory`: the new outfit goes in front of the history. */
  function SaveToHistory(s: AppState, outfit: SavedOutfit): (r: AppState)
    ensures |r.history| == |s.history| + 1 && r.history[0] == outfit && r.history[1..] == s.history
    ensures r.(history := s.history) == s
  {
    s.(history := [outfit] + s.history)
  }

  function WithoutOutfit(history: seq<SavedOutfit>, id: string): seq<SavedOutfit> {
    Keep(history, (h: SavedOutfit) => h.id != id)
  }

  /** `handleDeleteHistory`: exactly the outfits with another id stay, in
      their order. There is no confirmation. */
  function DeleteHistory(s: AppState, id: string): (r: AppState)
    ensures forall k :: 0 <= k < |r.history| ==> r.history[k].id != id
    ensures forall x: SavedOutfit :: x.id != id ==> multiset(r.history)[x] == multiset(s.history)[x]
    ensures Subseq(r.history, s.history)
    ensures r.(history := s.history) == s
  {
    s.(history := WithoutOutfit(s.history, id))
  }

  /** Deleting an item twice is deleting it once. */
  lemma DeleteItemIdempotent(s: AppState, id: string)
    ensures DeleteItem(DeleteItem(s, id, true), id, true) == DeleteItem(s, id, true)
  {
    KeepIdempotent(s.closet, (item: ClothingItem) => item.id != id);
  }

  /** Deleting an id no item has changes nothing. */
  lemma DeleteAbsentItem(s: AppState, id: string)
    requires forall k :: 0 <= k < |s.closet| ==> s.closet[k].id != id
    ensures DeleteItem(s, id, true) == s
  {
    KeepAll(s.closet, (item: ClothingItem) => item.id != id);
  }

  /** Adding an item under a fresh id and then deleting that id restores
      the state. */
  lemma DeleteUndoesAdd(s: AppState, item: ClothingItem)
    requires forall k :: 0 <= k < |s.closet| ==> s.closet[k].id != item.id
    ensures DeleteItem(AddItem(s, item), item.id, true) == s
  {
    var p := (x: ClothingItem) => x.id != item.id;
    KeepCons(item, s.closet, p);
    KeepAll(s.closet, p);
  }

  lemma DeleteHistoryIdempotent(s: AppState, id: string)
    ensures DeleteHistory(DeleteHistory(s, id), id) == DeleteHistory(s, id)
  {
    KeepIdempotent(s.history, (h: SavedOutfit) => h.id != id);
  }

  lemma DeleteAbsentOutfit(s: AppState, id: string)
    requires forall k :: 0 <= k < |s.history| ==> s.history[k].id != id
    ensures DeleteHistory(s, id) == s
  {
    KeepAll(s.history, (h: SavedOutfit) => h.id != id);
  }

  lemma DeleteUndoesSave(s: AppState, outfit: SavedOutfit)
    requires forall k :: 0 <= k < |s.history| ==> s.history[k].id != outfit.id
    ensures DeleteHistory(SaveToHistory(s, outfit), outfit.id) == s
  {
    var p := (x: SavedOutfit) => x.id != outfit.id;
    KeepCons(outfit, s.history, p);
    KeepAll(s.history, p);
  }

  /** A write the persistence effects hand to storage. */
  datatype SaveRequest =
    | SaveWardrobeRequest(items: seq<ClothingItem>)
    | SaveProfileRequest(profile: UserProfile)
    | SaveHistoryRequest(history: seq<SavedOutfit>)

  /** An effect runs on the first render and whenever its dependencies
      changed; `same` says its own slice of the state did not. */
  predicate Fires(prev: Option<AppState>, s: AppState, same: bool) {
    prev.None? || !same || prev.value.loading != s.loading
  }

  /** The three persistence effects after a render with state `s`; `prev`
      is the state of the previous render (`None` on the first). An effect
      runs when one of its dependencies, its own slice of the state or the
      `loading` flag, changed, and it writes only once loading is over. */
  function Effects(prev: Option<AppState>, s: AppState): (r: seq<SaveRequest>)
    ensures s.loading ==> r == []
    ensures !s.loading && (prev.None? || prev.value.loading) ==>
      r == [SaveWardrobeRequest(s.closet), SaveProfileRequest(s.profile), SaveHistoryRequest(s.history)]
    ensures !s.loading && prev.Some? && !prev.value.loading ==>
      && (SaveWardrobeRequest(s.closet) in r <==> prev.value.closet != s.closet)
      && (SaveProfileRequest(s.profile) in r <==> prev.value.profile != s.profile)
      && (SaveHistoryRequest(s.history) in r <==> prev.value.history != s.history)
    ensures forall k :: 0 <= k < |r| ==> r[k] in [SaveWardrobeRequest(s.closet), SaveProfileRequest(s.profile), SaveHistoryRequest(s.history)]
  {
    var wardrobe := if Fires(prev, s, prev.Some? && prev.value.closet == s.closet) then [SaveWardrobeRequest(s.closet)] else [];
    var profile := if Fires(prev, s, prev.Some? && prev.value.profile == s.profile) then [SaveProfileRequest(s.profile)] else [];
    var history := if Fires(prev, s, prev.Some? && prev.value.history == s.history) then [SaveHistoryRequest(s.history)] else [];
    if s.loading then [] else wardrobe + profile + history
  }

  /** What storage holds after the requests are carried out in order. */
  function Persist(db: Db, requests: seq<SaveRequest>): Db
    decreases |requests|
  {
    if |requests| == 0 then db
    else
      var db' := match requests[0]
        case SaveWardrobeRequest(items) => SaveWardrobe(db, items, Available)
        case SaveProfileRequest(p) => SaveProfile(db, p, Available)
        case SaveHistoryRequest(h) => SaveHistory(db, h, Available);
      Persist(db', requests[1..])
  }

  /** Any number of renders while loading issue no save. */
  lemma {:induction false} NothingSavedWhileLoading(prev: Option<AppState>, states: seq<AppState>)
    requires forall k :: 0 <= k < |states| ==> states[k].loading
    ensures Flatten(prev, states) == []
    decreases |states|
  {
    if |states| > 0 {
      NothingSavedWhileLoading(Some(states[0]), states[1..]);
    }
  }

  /** The requests issued over a run of renders. */
  function Flatten(prev: Option<AppState>, states: seq<AppState>): seq<SaveRequest>
    decreases |states|
  {
    if |states| == 0 then []
    else Effects(prev, states[0]) + Flatten(Some(states[0]), states[1..])
  }

  /** `initData`: the three reads run together (`Promise.all`); if one of
      them rejects, none of the loaded values is applied. Either way loading
      ends. */
  function InitialLoad(db: Db, wardrobeOrder: seq<string>, historyOrder: seq<string>,
                       wardrobeAccess: Access, profileAccess: Access, historyAccess: Access): (r: AppState)
    requires Lists(db.wardrobe, wardrobeOrder) && Lists(db.history, historyOrder)
    ensures !r.loading
    ensures wardrobeAccess == RequestFails ==> r == Initial.(loading := false)
    ensures wardrobeAccess != RequestFails ==>
      && r.profile == GetProfile(db, DefaultProfile, profileAccess)
      && NewestFirst(r.history)
      && multiset(r.history) == (if historyAccess == Available then multiset(GetAll(db.history, historyOrder)) else multiset{})
      && (wardrobeAccess == Available ==> multiset(r.closet) == multiset(GetAll(db.wardrobe, wardrobeOrder)))
      && (wardrobeAccess == OpenFails ==> r.closet == [])
  {
    match GetWardrobe(db, wardrobeOrder, wardrobeAccess)
    case Rejects => Initial.(loading := false)
    case Resolves(closet) =>
      AppState(false, closet, GetProfile(db, DefaultProfile, profileAccess),
               GetHistory(db, historyOrder, historyAccess))
  }

  /** Carrying out the three requests of one render, in order. */
  lemma PersistAll(db: Db, items: seq<ClothingItem>, p: UserProfile, h: seq<SavedOutfit>)
    ensures Persist(db, [SaveWardrobeRequest(items), SaveProfileRequest(p), SaveHistoryRequest(h)])
         == SaveHistory(SaveProfile(SaveWardrobe(db, items, Available), p, Available), h, Available)
  {
    var rs := [SaveWardrobeRequest(items), SaveProfileRequest(p), SaveHistoryRequest(h)];
    var db1 := SaveWardrobe(db, items, Available);
    var db2 := SaveProfile(db1, p, Available);
    var db3 := SaveHistory(db2, h, Available);
    assert rs[1..] == [SaveProfileRequest(p), SaveHistoryRequest(h)];
    assert rs[1..][1..] == [SaveHistoryRequest(h)];
    assert rs[1..][1..][1..] == [];
    assert Persist(db3, []) == db3;
    assert Persist(db2, rs[1..][1..]) == db3;
    assert Persist(db1, rs[1..]) == db3;
  }

  /** Two sequences that are permutations of each other have the same
      members. */
  lemma SameMembers<T>(a: seq<T>, b: seq<T>)
    requires multiset(a) == multiset(b)
    ensures forall i :: 0 <= i < |a| ==> a[i] in b
    ensures forall i :: 0 <= i < |b| ==> b[i] in a
  {
    forall i | 0 <= i < |a| ensures a[i] in b {
      assert a[i] in multiset(a);
    }
    forall i | 0 <= i < |b| ensures b[i] in a {
      assert b[i] in multiset(b);
    }
  }

  /** When loading ends, all three effects fire and write back what was
      just loaded: every store that was read keeps exactly its keys. */
  lemma LoadIsWrittenBack(db: Db, wardrobeOrder: seq<string>, historyOrder: seq<string>)
    requires KeyedById(db)
    requires Lists(db.wardrobe, wardrobeOrder) && Lists(db.history, historyOrder)
    ensures var s := InitialLoad(db, wardrobeOrder, historyOrder, Available, Available, Available);
      && Effects(Some(Initial), s) == [SaveWardrobeRequest(s.closet), SaveProfileRequest(s.profile), SaveHistoryRequest(s.history)]
      && Persist(db, Effects(Some(Initial), s)).wardrobe.Keys == db.wardrobe.Keys
      && Persist(db, Effects(Some(Initial), s)).history.Keys == db.history.Keys
      && Persist(db, Effects(Some(Initial), s)).profiles.Keys == db.profiles.Keys + {ProfileKey}
  {
    var s := InitialLoad(db, wardrobeOrder, historyOrder, Available, Available, Available);
    PersistAll(db, s.closet, s.profile, s.history);
    var all := GetAll(db.wardrobe, wardrobeOrder);
    SameMembers(s.closet, all);
    ListKeys(db.wardrobe, wardrobeOrder, s.closet, ItemId);
    SameMembers(s.history, GetAll(db.history, historyOrder));
    ListKeys(db.history, historyOrder, s.history, OutfitId);
  }

  /** Records read from a store whose records sit under their own ids carry
      exactly the store's keys. */
  lemma ListKeys<T>(m: map<string, T>, order: seq<string>, xs: seq<T>, key: T -> string)
    requires Lists(m, order)
    requires forall k :: k in m ==> key(m[k]) == k
    requires forall i :: 0 <= i < |xs| ==> xs[i] in GetAll(m, order)
    requires forall i :: 0 <= i < |GetAll(m, order)| ==> GetAll(m, order)[i] in xs
    ensures KeysOf(xs, key) == m.Keys
  {
    var all := GetAll(m, order);
    forall k | k in KeysOf(xs, key) ensures k in m {
      var i :| 0 <= i < |xs| && key(xs[i]) == k;
      var j :| 0 <= j < |all| && all[j] == xs[i];
    }
    forall k | k in m ensures k in KeysOf(xs, key) {
      var j :| 0 <= j < |order| && order[j] == k;
      var i :| 0 <= i < |xs| && xs[i] == all[j];
      assert key(xs[i]) == k;
    }
  }
}
