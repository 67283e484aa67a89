/**
 * The lazy loader (src/tree.ts): fetch an item's subtree from storage down to
 * a depth bound, marking frontier items whose children were not fetched as
 * not loaded. The concurrent fan-out over children is a sequential merge.
 */
module Loader {
  import opened Wrappers
  import opened Items
  import opened TreeState

  /** The `loadedState` action: the parts of the tree a load produced. */
  datatype LoadedState = LoadedState(root: Option<Id>, items: map<Id, Item>, loading: Option<bool>)

  /** The text of the item that seeds an empty notebook. */
  const WELCOME := Content("Hello, this is an empty notebook.")

  /** The item stored under `id`, marked loaded; None when storage has no record. */
  function GetItemByIdFromStorage(records: map<Id, ExportedItem>, id: Id): (r: Option<Item>)
    ensures r.Some? <==> id in records
    ensures r.Some? ==> r.value.loaded && SameRecord(r.value, FromJson(records[id]))
  {
    if id in records then Some(FromJson(records[id]).(loaded := true)) else None
  }

  function Level(n: int): nat {
    if n > 0 then n else 0
  }

  /**
   * `loadChildren`: the item itself plus, while levels remain, the merged
   * subtrees of its children one level down; an item at the last level that
   * still has children is marked not loaded.
   */
  function LoadChildren(records: map<Id, ExportedItem>, item: Option<Item>, maxLevel: int): (r: map<Id, Item>)
    ensures item.None? ==> r == map[]
    ensures item.Some? ==> item.value.id in r
    ensures WellKeyed(r)
    ensures item.Some? && maxLevel <= 0 ==>
      r.Keys == {item.value.id}
      && r[item.value.id].loaded == (item.value.loaded && |item.value.children| == 0)
    decreases Level(maxLevel), 0, 0
  {
    match item
    case None => map[]
    case Some(it) =>
      if maxLevel > 0 then map[it.id := it] + LoadForest(records, it.children, maxLevel - 1)
      else if |it.children| > 0 then map[it.id := it.(loaded := false)]
      else map[it.id := it]
  }

  /** The merge of the subtrees loaded for `ids` (`Promise.all` then `merge`, later ones winning). */
  function LoadForest(records: map<Id, ExportedItem>, ids: seq<Id>, level: int): (r: map<Id, Item>)
    ensures WellKeyed(r)
    decreases Level(level), 1, |ids|
  {
    if |ids| == 0 then map[]
    else
      LoadForest(records, ids[..|ids| - 1], level)
      + LoadChildren(records, GetItemByIdFromStorage(records, ids[|ids| - 1]), level)
  }

  /** `loadItemState`: load below `item` and record `item` itself as loaded. */
  function LoadItemState(records: map<Id, ExportedItem>, item: Item, maxLevel: int): (r: LoadedState)
    ensures r.root.None? && r.loading.None?
    ensures item.id in r.items && r.items[item.id] == item.(loaded := true)
    ensures r.items.Keys == LoadChildren(records, Some(item), maxLevel).Keys
    ensures WellKeyed(r.items)
  {
    LoadedState(None, LoadChildren(records, Some(item), maxLevel)[item.id := item.(loaded := true)], None)
  }

  /** `createEmptyState`: a single welcome item as the root. */
  function CreateEmptyState(rootId: Id, now: int): (r: LoadedState)
    ensures r.root == Some(rootId) && r.loading == Some(false)
    ensures r.items.Keys == {rootId} && r.items[rootId].parent.None? && r.items[rootId].children == []
  {
    LoadedState(Some(rootId), map[rootId := CreateItem(rootId, WELCOME, None, now)], Some(false))
  }

  /** `loadTreeState`: start from the stored root id, or seed a fresh notebook when there is none. */
  function LoadTreeState(st: Storage, maxLevel: int, freshId: Id, now: int): (r: LoadedState)
    ensures r.loading == Some(false) && r.root.Some?
    ensures st.root.None? ==> r == CreateEmptyState(freshId, now)
    ensures st.root.Some? ==> r.root == st.root
    ensures st.root.Some? ==> (r.items == map[] <==> st.root.value !in st.records)
  {
    if st.root.None? then CreateEmptyState(freshId, now)
    else
      var root := GetItemByIdFromStorage(st.records, st.root.value);
      LoadedState(st.root, LoadChildren(st.records, root, maxLevel), Some(false))
  }

  // ---------------------------------------------------------------------------
  // Which ids a load materialises

  /** The item fetched from storage for child id `c`. */
  function Fetched(records: map<Id, ExportedItem>, c: Id): Item
    requires c in records
  {
    GetItemByIdFromStorage(records, c).value
  }

  /** `k` is the id of `it` or of an item at most `level` child links below it in storage. */
  ghost predicate Within(records: map<Id, ExportedItem>, it: Item, level: int, k: Id)
    decreases Level(level)
  {
    k == it.id
    || (level > 0 && exists j | 0 <= j < |it.children| ::
          it.children[j] in records && Within(records, Fetched(records, it.children[j]), level - 1, k))
  }

  ghost predicate WithinSome(records: map<Id, ExportedItem>, ids: seq<Id>, level: int, k: Id) {
    exists j | 0 <= j < |ids| :: ids[j] in records && Within(records, Fetched(records, ids[j]), level, k)
  }

  /** A load holds exactly the ids within `maxLevel` links of the item. */
  lemma {:induction false} LoadChildrenKeys(records: map<Id, ExportedItem>, it: Item, maxLevel: int, k: Id)
    ensures k in LoadChildren(records, Some(it), maxLevel) <==> Within(records, it, maxLevel, k)
    decreases Level(maxLevel), 0, 0
  {
    if maxLevel > 0 {
      LoadForestKeys(records, it.children, maxLevel - 1, k);
    }
  }

  lemma {:induction false} LoadForestKeys(records: map<Id, ExportedItem>, ids: seq<Id>, level: int, k: Id)
    ensures k in LoadForest(records, ids, level) <==> WithinSome(records, ids, level, k)
    decreases Level(level), 1, |ids|
  {
    if |ids| > 0 {
      var init := ids[..|ids| - 1];
      var last := ids[|ids| - 1];
      LoadForestKeys(records, init, level, k);
      if last in records {
        LoadChildrenKeys(records, Fetched(records, last), level, k);
        assert GetItemByIdFromStorage(records, last) == Some(Fetched(records, last));
      }
      if WithinSome(records, ids, level, k) {
        var j :| 0 <= j < |ids| && ids[j] in records && Within(records, Fetched(records, ids[j]), level, k);
        if j < |ids| - 1 {
          assert init[j] == ids[j];
        }
      }
      if WithinSome(records, init, level, k) {
        var j :| 0 <= j < |init| && init[j] in records && Within(records, Fetched(records, init[j]), level, k);
        assert ids[j] == init[j];
      }
    }
  }

  // ---------------------------------------------------------------------------
  // What the `loaded` flag means after a load

  /** An entry is marked not loaded only when it has children left to fetch. */
  ghost predicate FlagsSound(r: map<Id, Item>) {
    forall k | k in r :: r[k].loaded || |r[k].children| > 0
  }

  /** A loaded entry has every child that storage holds present in the map. */
  ghost predicate LoadedComplete(records: map<Id, ExportedItem>, r: map<Id, Item>) {
    forall k, c | k in r && r[k].loaded && c in r[k].children && c in records :: records[c].id in r
  }

  lemma UnionKeepsLoadedComplete(records: map<Id, ExportedItem>, a: map<Id, Item>, b: map<Id, Item>)
    requires LoadedComplete(records, a) && LoadedComplete(records, b)
    ensures LoadedComplete(records, a + b)
  {
    forall k, c | k in a + b && (a + b)[k].loaded && c in (a + b)[k].children && c in records
      ensures records[c].id in a + b
    {
      if k in b {
        assert (a + b)[k] == b[k];
      } else {
        assert (a + b)[k] == a[k];
      }
    }
  }

  /**
   * Items fetched from storage are loaded, and an item loaded at the last
   * level keeps `loaded` only when it has no children. The requested item
   * itself is kept as given, so it must already satisfy the rule.
   */
  lemma {:induction false} LoadChildrenFlags(records: map<Id, ExportedItem>, it: Item, maxLevel: int)
    requires it.loaded || |it.children| > 0
    ensures FlagsSound(LoadChildren(records, Some(it), maxLevel))
    decreases Level(maxLevel), 0, 0
  {
    if maxLevel > 0 {
      LoadForestFlags(records, it.children, maxLevel - 1);
    }
  }

  lemma {:induction false} LoadForestFlags(records: map<Id, ExportedItem>, ids: seq<Id>, level: int)
    ensures FlagsSound(LoadForest(records, ids, level))
    decreases Level(level), 1, |ids|
  {
    if |ids| > 0 {
      LoadForestFlags(records, ids[..|ids| - 1], level);
      var last := ids[|ids| - 1];
      if last in records {
        LoadChildrenFlags(records, Fetched(records, last), level);
      }
    }
  }

  /**
   * After a load, every entry still marked loaded has all its stored children
   * in the map: `loaded = false` marks exactly the places a later load must resume.
   */
  lemma {:induction false} LoadChildrenComplete(records: map<Id, ExportedItem>, it: Item, maxLevel: int)
    ensures LoadedComplete(records, LoadChildren(records, Some(it), maxLevel))
    decreases Level(maxLevel), 0, 0
  {
    if maxLevel > 0 {
      var f := LoadForest(records, it.children, maxLevel - 1);
      LoadForestComplete(records, it.children, maxLevel - 1);
      var r := map[it.id := it] + f;
      forall k, c | k in r && r[k].loaded && c in r[k].children && c in records
        ensures records[c].id in r
      {
        if k !in f {
          assert r[k] == it;
          var j :| 0 <= j < |it.children| && it.children[j] == c;
        }
      }
    }
  }

  lemma {:induction false} LoadForestComplete(records: map<Id, ExportedItem>, ids: seq<Id>, level: int)
    ensures LoadedComplete(records, LoadForest(records, ids, level))
    ensures forall j | 0 <= j < |ids| && ids[j] in records :: records[ids[j]].id in LoadForest(records, ids, level)
    decreases Level(level), 1, |ids|
  {
    if |ids| > 0 {
      var init := ids[..|ids| - 1];
      var last := ids[|ids| - 1];
      LoadForestComplete(records, init, level);
      var b := LoadChildren(records, GetItemByIdFromStorage(records, last), level);
      if last in records {
        LoadChildrenComplete(records, Fetched(records, last), level);
        assert GetItemByIdFromStorage(records, last) == Some(Fetched(records, last));
      }
      UnionKeepsLoadedComplete(records, LoadForest(records, init, level), b);
      forall j | 0 <= j < |ids| && ids[j] in records ensures records[ids[j]].id in LoadForest(records, ids, level) {
        if j < |ids| - 1 {
          assert init[j] == ids[j];
        }
      }
    }
  }

  /**
   * `loadItemState` on any item, loaded or not (the node asks for it only when
   * the item is not yet loaded): every entry marked not loaded has children
   * left to fetch.
   */
  lemma LoadItemStateFlags(records: map<Id, ExportedItem>, it: Item, maxLevel: int)
    ensures FlagsSound(LoadItemState(records, it, maxLevel).items)
  {
    var r := LoadItemState(records, it, maxLevel).items;
    if maxLevel > 0 {
      var f := LoadForest(records, it.children, maxLevel - 1);
      LoadForestFlags(records, it.children, maxLevel - 1);
      forall k | k in r ensures r[k].loaded || |r[k].children| > 0 {
        if k != it.id {
          assert r[k] == f[k];
        }
      }
    }
  }

  /** With at least one level, the requested item ends up loaded and complete. */
  lemma LoadItemStateComplete(records: map<Id, ExportedItem>, it: Item, maxLevel: int)
    requires maxLevel > 0
    ensures LoadedComplete(records, LoadItemState(records, it, maxLevel).items)
  {
    var l := LoadChildren(records, Some(it), maxLevel);
    var f := LoadForest(records, it.children, maxLevel - 1);
    LoadChildrenComplete(records, it, maxLevel);
    LoadForestComplete(records, it.children, maxLevel - 1);
    var r := LoadItemState(records, it, maxLevel).items;
    assert f.Keys <= l.Keys;
    forall k, c | k in r && r[k].loaded && c in r[k].children && c in records
      ensures records[c].id in r
    {
      if k == it.id {
        var j :| 0 <= j < |it.children| && it.children[j] == c;
      } else {
        assert r[k] == l[k];
      }
    }
  }

  // ---------------------------------------------------------------------------
  // Where loaded entries come from

  ghost predicate FromStorage(records: map<Id, ExportedItem>, x: Item) {
    exists c | c in records :: SameRecord(x, FromJson(records[c]))
  }

  /** Every entry of a load is the requested item or a stored record. */
  lemma {:induction false} LoadChildrenSourced(records: map<Id, ExportedItem>, it: Item, maxLevel: int)
    ensures forall k | k in LoadChildren(records, Some(it), maxLevel) ::
      SameRecord(LoadChildren(records, Some(it), maxLevel)[k], it)
      || FromStorage(records, LoadChildren(records, Some(it), maxLevel)[k])
    decreases Level(maxLevel), 0, 0
  {
    if maxLevel > 0 {
      LoadForestSourced(records, it.children, maxLevel - 1);
    }
  }

  lemma {:induction false} LoadForestSourced(records: map<Id, ExportedItem>, ids: seq<Id>, level: int)
    ensures forall k | k in LoadForest(records, ids, level) :: FromStorage(records, LoadForest(records, ids, level)[k])
    decreases Level(level), 1, |ids|
  {
    if |ids| > 0 {
      var init := ids[..|ids| - 1];
      var last := ids[|ids| - 1];
      LoadForestSourced(records, init, level);
      if last in records {
        var x := Fetched(records, last);
        LoadChildrenSourced(records, x, level);
        assert GetItemByIdFromStorage(records, last) == Some(x);
        assert SameRecord(x, FromJson(records[last]));
        var b := LoadChildren(records, Some(x), level);
        forall k | k in b ensures FromStorage(records, b[k]) {
          if SameRecord(b[k], x) {
            assert SameRecord(b[k], FromJson(records[last]));
          }
        }
      }
    }
  }

  /** Saving a whole tree into empty storage writes one record per item and nothing else. */
  function SavedRecords(t: Tree): map<Id, ExportedItem>
    requires t.root.Some?
  {
    SaveTreeState(t, Storage(None, map[])).records
  }

  /** Every stored record sits under its own id. */
  ghost predicate StorageKeyed(st: Storage) {
    forall c | c in st.records :: st.records[c].id == c
  }

  /**
   * Saving a well-keyed tree over storage that already holds records (the
   * usual case, where children not yet loaded are stored but not in memory),
   * then loading any of its items: an entry for an id of the tree agrees with
   * the tree on every persisted field, and any other entry is the record
   * storage held before the save.
   */
  lemma SaveOverThenLoadItem(t: Tree, st: Storage, k: Id, maxLevel: int)
    requires t.root.Some? && WellKeyed(t.items) && k in t.items && StorageKeyed(st)
    ensures var r := LoadItemState(SaveTreeState(t, st).records, t.items[k], maxLevel).items;
      forall j | j in r ::
        && (j in t.items ==> SameRecord(r[j], t.items[j]))
        && (j !in t.items ==> j in st.records && SameRecord(r[j], FromJson(st.records[j])))
  {
    var records := SaveTreeState(t, st).records;
    var it := t.items[k];
    var l := LoadChildren(records, Some(it), maxLevel);
    LoadChildrenSourced(records, it, maxLevel);
    var r := LoadItemState(records, it, maxLevel).items;
    forall j | j in r
      ensures j in t.items ==> SameRecord(r[j], t.items[j])
      ensures j !in t.items ==> j in st.records && SameRecord(r[j], FromJson(st.records[j]))
    {
      if j != k {
        assert r[j] == l[j] && l[j].id == j && it.id == k;
        var c :| c in records && SameRecord(l[j], FromJson(records[c]));
        if c in t.items {
          assert records[c] == ToJson(t.items[c]);
          RecordRoundTrip(t.items[c]);
        } else {
          assert records[c] == st.records[c];
        }
      }
    }
  }

  /** `j` is `k` or an item of the map at most `level` child links below `k`. */
  ghost predicate Reach(m: map<Id, Item>, k: Id, level: int, j: Id)
    decreases Level(level)
  {
    k in m
    && (j == k
        || (level > 0 && exists i | 0 <= i < |m[k].children| ::
              m[k].children[i] in m && Reach(m, m[k].children[i], level - 1, j)))
  }

  /** In the storage a saved tree leaves, reach through records is reach through the tree. */
  lemma {:induction false} SavedWithinIsReach(t: Tree, it: Item, level: int, j: Id)
    requires t.root.Some? && WellKeyed(t.items)
    requires it.id in t.items && it.children == t.items[it.id].children
    ensures Within(SavedRecords(t), it, level, j) <==> Reach(t.items, it.id, level, j)
    decreases Level(level)
  {
    var records := SavedRecords(t);
    var m := t.items;
    var cs := it.children;
    if level > 0 {
      forall i | 0 <= i < |cs|
        ensures cs[i] in records <==> cs[i] in m
        ensures cs[i] in m ==>
          (Within(records, Fetched(records, cs[i]), level - 1, j) <==> Reach(m, cs[i], level - 1, j))
      {
        if cs[i] in m {
          var x := Fetched(records, cs[i]);
          assert records[cs[i]] == ToJson(m[cs[i]]);
          assert x.id == cs[i] && x.children == m[cs[i]].children;
          SavedWithinIsReach(t, x, level - 1, j);
        }
      }
      if Within(records, it, level, j) && j != it.id {
        var i :| 0 <= i < |cs| && cs[i] in records && Within(records, Fetched(records, cs[i]), level - 1, j);
        assert m[it.id].children[i] in m && Reach(m, m[it.id].children[i], level - 1, j);
      }
      if Reach(m, it.id, level, j) && j != it.id {
        var i :| 0 <= i < |m[it.id].children| && m[it.id].children[i] in m && Reach(m, m[it.id].children[i], level - 1, j);
        assert cs[i] in records && Within(records, Fetched(records, cs[i]), level - 1, j);
      }
    }
  }

  /**
   * Round trip: after saving a well-keyed tree into empty storage, loading any
   * of its items yields exactly the items within `maxLevel` child links of it,
   * each agreeing with the saved tree on id, parent, children, expand and content.
   */
  lemma SaveThenLoadItem(t: Tree, k: Id, maxLevel: int)
    requires t.root.Some? && WellKeyed(t.items) && k in t.items
    ensures var r := LoadItemState(SavedRecords(t), t.items[k], maxLevel).items;
      && (forall j | j in r :: j in t.items && SameRecord(r[j], t.items[j]))
      && (forall j :: j in r <==> Reach(t.items, k, maxLevel, j))
  {
    forall j ensures j in LoadItemState(SavedRecords(t), t.items[k], maxLevel).items <==> Reach(t.items, k, maxLevel, j) {
      LoadChildrenKeys(SavedRecords(t), t.items[k], maxLevel, j);
      SavedWithinIsReach(t, t.items[k], maxLevel, j);
    }
    var records := SavedRecords(t);
    var it := t.items[k];
    var l := LoadChildren(records, Some(it), maxLevel);
    LoadChildrenSourced(records, it, maxLevel);
    var r := LoadItemState(records, it, maxLevel).items;
    forall j | j in r ensures j in t.items && SameRecord(r[j], t.items[j]) {
      if j != k {
        assert r[j] == l[j] && l[j].id == j;
        if !SameRecord(l[j], it) {
          var c :| c in records && SameRecord(l[j], FromJson(records[c]));
          assert records[c] == ToJson(t.items[c]);
          RecordRoundTrip(t.items[c]);
        }
      }
    }
  }
}
