/**
 * Queries over the item map and the move primitive that the reducer imports
 * from `../tree` (src/reducers/tree.ts:1). Their definitions are not covered
 * here, so this module defines them: lookups fail with `NotFound`,
 * navigation follows the visible depth-first order, and `MoveInto` removes
 * then re-inserts at a clamped index.
 */
module Oracle {
  import opened Wrappers
  import opened Lists
  import opened Items

  /** `getItem`: the item stored under `id`. */
  function GetItem(m: map<Id, Item>, id: Id): (r: Result<Item, Error>)
    ensures r.Ok? <==> id in m
    ensures r.Ok? ==> r.value == m[id]
    ensures r.Err? ==> r.error == NotFound(id)
  {
    if id in m then Ok(m[id]) else Err(NotFound(id))
  }

  /** `getItemAndParent`: the item and its parent; fails for the root or a missing parent. */
  function GetItemAndParent(m: map<Id, Item>, id: Id): (r: Result<(Item, Item), Error>)
    ensures r.Ok? <==> id in m && m[id].parent.Some? && m[id].parent.value in m
    ensures r.Ok? ==> r.value == (m[id], m[m[id].parent.value])
  {
    var item :- GetItem(m, id);
    if item.parent.None? then Err(NoParent(id))
    else
      var parent :- GetItem(m, item.parent.value);
      Ok((item, parent))
  }

  /** `getItemPosition`: where `id` sits among `parent`'s children. */
  function GetItemPosition(id: Id, parent: Item): (r: Result<nat, Error>)
    ensures r.Ok? <==> id in parent.children
    ensures r.Ok? ==> r.value < |parent.children| && parent.children[r.value] == id
    ensures r.Ok? ==> id !in parent.children[..r.value]
    ensures r.Err? ==> r.error == NotFound(id)
  {
    var i := IndexOf(parent.children, id);
    if i < 0 then Err(NotFound(id)) else Ok(i)
  }

  /**
   * `moveInto`: take `id` out of `from`'s children, insert it into `to`'s
   * children at `index` clamped to the list, and make `to` its parent.
   */
  function MoveInto(m: map<Id, Item>, id: Id, from: Id, to: Id, index: int): (r: Result<map<Id, Item>, Error>)
    ensures r.Ok? <==> id in m && from in m && to in m
    ensures r.Ok? ==> r.value.Keys == m.Keys && r.value[id].parent == Some(to)
  {
    var _ :- GetItem(m, id);
    var fromItem :- GetItem(m, from);
    var _ :- GetItem(m, to);
    var base := MoveBase(m, id, from, to);
    Ok(Relink(m, id, from, to, Without(fromItem.children, id), InsertAt(base, Clamp(index, |base|), id)))
  }

  /**
   * The three map updates of a move: `from` gets the list `c`, then `to` gets
   * the list `d`, then `id` gets `to` as its parent.
   */
  function Relink(m: map<Id, Item>, id: Id, from: Id, to: Id, c: seq<Id>, d: seq<Id>): (r: map<Id, Item>)
    requires id in m && from in m && to in m
    ensures r.Keys == m.Keys && r[id].parent == Some(to) && r[to].children == d
  {
    var m1 := m[from := m[from].(children := c)];
    var m2 := m1[to := m1[to].(children := d)];
    m2[id := m2[id].(parent := Some(to))]
  }

  /** One entry after `Relink`: only its parent link and its children list can differ. */
  lemma RelinkEntry(m: map<Id, Item>, id: Id, from: Id, to: Id, c: seq<Id>, d: seq<Id>, k: Id)
    requires id in m && from in m && to in m && k in m
    ensures var r := Relink(m, id, from, to, c, d);
      && r[k].parent == (if k == id then Some(to) else m[k].parent)
      && r[k].children == (if k == to then d else if k == from then c else m[k].children)
      && r[k] == m[k].(parent := r[k].parent, children := r[k].children)
  {
  }

  /** The list `id` is inserted into: `to`'s children, without `id` when moving within one parent. */
  function MoveBase(m: map<Id, Item>, id: Id, from: Id, to: Id): seq<Id>
    requires from in m && to in m
  {
    if from == to then Without(m[from].children, id) else m[to].children
  }

  /** One entry after `MoveInto`: only its parent link and its children list can differ. */
  lemma MoveIntoEntry(m: map<Id, Item>, id: Id, from: Id, to: Id, index: int, k: Id)
    requires id in m && from in m && to in m && k in m
    ensures var r := MoveInto(m, id, from, to, index).value;
      var base := MoveBase(m, id, from, to);
      && r[k].parent == (if k == id then Some(to) else m[k].parent)
      && r[k].children == (if k == to then InsertAt(base, Clamp(index, |base|), id)
                           else if k == from then Without(m[from].children, id)
                           else m[k].children)
      && r[k] == m[k].(parent := r[k].parent, children := r[k].children)
  {
    MoveIntoIsRelink(m, id, from, to, index);
    var base := MoveBase(m, id, from, to);
    RelinkEntry(m, id, from, to, Without(m[from].children, id), InsertAt(base, Clamp(index, |base|), id), k);
  }

  /** A successful `MoveInto` is `Relink` with `from`'s list less `id` and the base list with `id` inserted. */
  lemma MoveIntoIsRelink(m: map<Id, Item>, id: Id, from: Id, to: Id, index: int)
    requires id in m && from in m && to in m
    ensures var base := MoveBase(m, id, from, to);
      MoveInto(m, id, from, to, index) == Ok(Relink(m, id, from, to, Without(m[from].children, id), InsertAt(base, Clamp(index, |base|), id)))
  {
  }

  /**
   * What `MoveInto` changes: only `id`'s parent link, `from`'s children (which
   * lose `id`) and `to`'s children (which gain `id` at the clamped index).
   */
  lemma MoveIntoShape(m: map<Id, Item>, id: Id, from: Id, to: Id, index: int)
    requires id in m && from in m && to in m
    ensures var r := MoveInto(m, id, from, to, index).value;
      && (forall k | k in m && k != id :: r[k].parent == m[k].parent)
      && (forall k | k in m :: r[k] == m[k].(parent := r[k].parent, children := r[k].children))
      && (forall k | k in m && k != from && k != to :: r[k].children == m[k].children)
      && (from != to ==> r[from].children == Without(m[from].children, id))
  {
    forall k | k in m {
      MoveIntoEntry(m, id, from, to, index, k);
    }
  }

  /** Where `MoveInto` puts `id`: at the clamped index of the base list, which it otherwise keeps. */
  lemma MoveIntoPlaces(m: map<Id, Item>, id: Id, from: Id, to: Id, index: int)
    requires id in m && from in m && to in m
    ensures var r := MoveInto(m, id, from, to, index).value;
      var base := MoveBase(m, id, from, to);
      var i := Clamp(index, |base|);
      && r[to].children == InsertAt(base, i, id)
      && r[to].children[i] == id
      && r[to].children[..i] + r[to].children[i + 1..] == base
  {
    var r := MoveInto(m, id, from, to, index).value;
    var base := MoveBase(m, id, from, to);
    var i := Clamp(index, |base|);
    assert r[to].children == InsertAt(base, i, id);
    assert r[to].children[..i] + r[to].children[i + 1..] == base[..i] + base[i..];
    assert base[..i] + base[i..] == base;
  }

  /** The last visible descendant of `k` (itself when folded or childless). */
  function LastVisible(m: map<Id, Item>, k: Id, fuel: nat): (r: Id)
    requires k in m
    ensures r in m
    decreases fuel
  {
    var it := m[k];
    if fuel == 0 || !it.expand || |it.children| == 0 || it.children[|it.children| - 1] !in m then k
    else LastVisible(m, it.children[|it.children| - 1], fuel - 1)
  }

  /**
   * `getPrevItem`: the item before `it` in visible depth-first order — the last
   * visible descendant of its previous sibling, or else its parent; the root
   * has nothing before it and yields itself.
   */
  function GetPrevItem(m: map<Id, Item>, it: Item): (r: Item)
    ensures r == it || r in m.Values
  {
    if it.parent.None? || it.parent.value !in m then it
    else
      var parent := m[it.parent.value];
      var i := IndexOf(parent.children, it.id);
      if i >= 1 && parent.children[i - 1] in m then m[LastVisible(m, parent.children[i - 1], |m|)]
      else parent
  }

  /**
   * Climb from `k` to the nearest ancestor-or-self that has a next sibling and
   * return that sibling; when there is none, return the topmost item reached.
   */
  function NextUp(m: map<Id, Item>, k: Id, fuel: nat): (r: Id)
    requires k in m
    ensures r in m
    decreases fuel
  {
    var it := m[k];
    if it.parent.None? || it.parent.value !in m then k
    else
      var siblings := m[it.parent.value].children;
      var i := IndexOf(siblings, k);
      if 0 <= i && i + 1 < |siblings| && siblings[i + 1] in m then siblings[i + 1]
      else if fuel == 0 then k
      else NextUp(m, it.parent.value, fuel - 1)
  }

  /**
   * `getNextItemId`: the id after `it` in visible depth-first order — its first
   * child when expanded, otherwise the next sibling of it or of its nearest
   * ancestor; the root when `it` is the last visible item.
   */
  function GetNextItemId(m: map<Id, Item>, it: Item): (r: Id)
    ensures r in m || r == it.id
  {
    if it.expand && |it.children| > 0 && it.children[0] in m then it.children[0]
    else if it.id in m then NextUp(m, it.id, |m|)
    else it.id
  }
}
