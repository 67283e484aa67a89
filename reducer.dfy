/**
 * The tree reducer (src/reducers/tree.ts): a pure function from a tree and an
 * action to the next tree plus an effect telling the caller whether to save,
 * whether to push an undo record, and which mode to switch to. A thrown
 * error is an `Err` result; the clock reading is a parameter.
 */
module Reducer {
  import opened Wrappers
  import opened Lists
  import opened Items
  import opened TreeState
  import opened Oracle

  datatype TreeAction =
    | Create(item: Item, above: Option<Id>)
    | Update(item: Item, record: bool)
    | Edit(id: Id, source: Content)
    | Remove(id: Id)
    | Toggle(id: Id)
    | Expand(id: Id)
    | Fold(id: Id)
    | Reorder(id: Id, delta: int)
    | Indent(id: Id, parent: Id)
    | UnIndent(id: Id, parent: Id)
    | GotoNext(id: Id)
    | GotoPrev(id: Id)
    | Drop(id: Id, target: Id, position: DropPosition)
    | Unknown(kind: string)   // any other action type

  /** The next tree and what the caller must do with it; `mode`, when present, replaces the current mode. */
  datatype EffectTree = EffectTree(tree: Tree, save: bool, record: bool, mode: Option<Mode>)

  /** `doNothing`: neither persist nor record. */
  function DoNothing(t: Tree): (r: EffectTree)
    ensures r.tree == t && !r.save && !r.record && r.mode.None?
  {
    EffectTree(t, false, false, None)
  }

  /** `saveAndRecord`: persist and push an undo record. */
  function SaveAndRecord(t: Tree): (r: EffectTree)
    ensures r.tree == t && r.save && r.record && r.mode.None?
  {
    EffectTree(t, true, true, None)
  }

  /** The slot a created item takes: just after `above` when it is a child, else the front. */
  function CreateSlot(children: seq<Id>, above: Option<Id>): (i: nat)
    ensures i <= |children|
    ensures above.Some? && above.value in children ==> i > 0 && children[i - 1] == above.value
    ensures above.None? || above.value !in children ==> i == 0
  {
    if above.Some? then IndexOf(children, above.value) + 1 else 0
  }

  /** `create`: store the new item and insert it among its parent's children. */
  function HandleCreate(t: Tree, item: Item, above: Option<Id>): (r: Result<EffectTree, Error>)
    ensures item.parent.None? ==> r == Err(CreateWithoutParent)
    ensures r.Ok? <==> item.parent.Some? && item.parent.value in t.items
    ensures r.Ok? ==>
      && r.value.tree.items.Keys == t.items.Keys + {item.id}
      && r.value.save && r.value.record && r.value.mode == Some(EditMode(item.id))
      && r.value.tree == t.(items := r.value.tree.items)
  {
    if item.parent.None? then Err(CreateWithoutParent)
    else
      var parentId := item.parent.value;
      var parent :- GetItem(t.items, parentId);
      var children := InsertAt(parent.children, CreateSlot(parent.children, above), item.id);
      var m := t.items[item.id := item][parentId := parent.(children := children)];
      Ok(EffectTree(t.(items := m), true, true, Some(EditMode(item.id))))
  }

  /** `handleRemove`: unlist the item from its parent and edit the item before it. */
  function HandleRemove(t: Tree, id: Id): (r: Result<EffectTree, Error>)
    ensures r.Ok? <==> GetItemAndParent(t.items, id).Ok?
    ensures r.Ok? && WellKeyed(t.items) ==> r.value.tree.items.Keys == t.items.Keys
    ensures r.Ok? ==>
      && r.value.save && r.value.record
      && r.value.mode == Some(EditMode(GetPrevItem(t.items, t.items[id]).id))
      && r.value.tree == t.(items := r.value.tree.items)
  {
    var pair :- GetItemAndParent(t.items, id);
    var (item, parent) := pair;
    var prev := GetPrevItem(t.items, item);
    var children := Without(parent.children, item.id);
    var m := t.items[parent.id := parent.(children := children)];
    Ok(EffectTree(t.(items := m), true, true, Some(EditMode(prev.id))))
  }

  /** `indent`: make the item the last child of its previous sibling; a first child stays put. */
  function HandleIndent(t: Tree, id: Id, parentId: Id): (r: Result<EffectTree, Error>)
    ensures parentId !in t.items ==> r == Err(NotFound(parentId))
    ensures r.Ok? && IndexOf(t.items[parentId].children, id) < 1 ==> r.value == DoNothing(t)
    ensures r.Ok? && IndexOf(t.items[parentId].children, id) >= 1 ==>
      r.value.save && r.value.record && r.value.mode.None?
  {
    var parent :- GetItem(t.items, parentId);
    var index := IndexOf(parent.children, id);
    if index < 1 then Ok(DoNothing(t))
    else
      var nextParent :- GetItem(t.items, parent.children[index - 1]);
      var m :- MoveInto(t.items, id, parentId, nextParent.id, |nextParent.children|);
      Ok(SaveAndRecord(t.(items := m)))
  }

  /** `unIndent`: move the item out to its grandparent, just after its old parent. */
  function HandleUnIndent(t: Tree, id: Id): (r: Result<EffectTree, Error>)
    ensures GetItemAndParent(t.items, id).Err? ==> r.Err?
    ensures r.Ok? && t.items[t.items[id].parent.value].parent.None? ==> r.value == DoNothing(t)
    ensures r.Ok? && t.items[t.items[id].parent.value].parent.Some? ==>
      r.value.save && r.value.record && r.value.mode.None?
  {
    var pair :- GetItemAndParent(t.items, id);
    var (item, parent) := pair;
    if parent.parent.None? then Ok(DoNothing(t))
    else
      var grandParent :- GetItem(t.items, parent.parent.value);
      var order := IndexOf(grandParent.children, parent.id);
      var m :- MoveInto(t.items, item.id, parent.id, grandParent.id, order + 1);
      Ok(SaveAndRecord(t.(items := m)))
  }

  /** `handleUpdate`: replace the entry under the item's id; never saved, recorded on request. */
  function HandleUpdate(t: Tree, item: Item, record: bool): (r: EffectTree)
    ensures r.tree.items.Keys == t.items.Keys + {item.id} && r.tree.items[item.id] == item
    ensures forall k | k in t.items && k != item.id :: r.tree.items[k] == t.items[k]
    ensures !r.save && r.record == record && r.mode.None?
    ensures r.tree.root == t.root && r.tree.mode == t.mode
  {
    EffectTree(t.(items := t.items[item.id := item]), false, record, None)
  }

  /** `edit`: replace the content and stamp the time; identical content is saved but not recorded. */
  function HandleEdit(t: Tree, id: Id, source: Content, now: int): (r: Result<EffectTree, Error>)
    ensures r.Ok? <==> id in t.items
    ensures r.Ok? ==> r.value.save && r.value.mode.None?
    ensures r.Ok? ==> (r.value.record <==> t.items[id].content != source)
    ensures r.Ok? && t.items[id].content == source ==> r.value.tree == t
    ensures r.Ok? && t.items[id].content != source ==>
      r.value.tree == t.(items := t.items[id := t.items[id].(content := source, modified := Some(now))])
  {
    var prevItem :- GetItem(t.items, id);
    if prevItem.content == source then Ok(EffectTree(t, true, false, None))
    else
      var item := prevItem.(content := source, modified := Some(now));
      Ok(EffectTree(t.(items := t.items[id := item]), true, true, None))
  }

  /** `reorder`: move the item `delta` places among its siblings; out-of-range targets change nothing. */
  function HandleReorder(t: Tree, id: Id, delta: int): (r: Result<EffectTree, Error>)
    ensures delta == 0 ==> r == Ok(DoNothing(t))
    ensures delta != 0 && GetItemAndParent(t.items, id).Err? ==> r.Err?
    ensures r.Ok? && delta != 0 ==> r.value.save && r.value.record && r.value.mode.None?
    ensures r.Ok? ==> r.value.tree.items.Keys == t.items.Keys
  {
    if delta == 0 then Ok(DoNothing(t))
    else
      var pair :- GetItemAndParent(t.items, id);
      var (item, parent) := pair;
      var itemIndex :- GetItemPosition(item.id, parent);
      var order := itemIndex + delta;
      if order < 0 || order > |parent.children| then Ok(SaveAndRecord(t))
      else
        var m :- MoveInto(t.items, item.id, parent.id, parent.id, order);
        Ok(SaveAndRecord(t.(items := m)))
  }

  /**
   * Where an above/below drop inserts: the target's position, one less when the
   * dragged item sits earlier in the same list (its removal shifts the target),
   * then one more for `below`.
   */
  function DropIndex(item: Item, parent: Item, target: Item, targetIndex: nat, position: DropPosition): (r: Result<int, Error>)
    ensures item.parent != target.parent ==> r == Ok(if position == Below then targetIndex + 1 else targetIndex)
    ensures item.parent == target.parent ==> (r.Ok? <==> item.id in parent.children)
    ensures item.parent == target.parent && r.Ok? ==>
      var itemIndex := IndexOf(parent.children, item.id);
      var shifted := if itemIndex < targetIndex then targetIndex - 1 else targetIndex;
      r.value == if position == Below then shifted + 1 else shifted
  {
    var shifted :- if item.parent == target.parent then
        var itemIndex :- GetItemPosition(item.id, parent);
        Ok(if itemIndex < targetIndex then targetIndex - 1 else targetIndex)
      else Ok(targetIndex);
    Ok(if position == Below then shifted + 1 else shifted)
  }

  /** `applyDrop`: move the dragged item into the target (inner) or beside it (above/below). */
  function ApplyDrop(t: Tree, id: Id, targetId: Id, position: DropPosition): (r: Result<EffectTree, Error>)
    ensures r.Ok? ==> GetItemAndParent(t.items, id).Ok? && GetItemAndParent(t.items, targetId).Ok?
    ensures r.Ok? ==> r.value.save && r.value.record && r.value.mode.None?
    ensures r.Ok? ==> r.value.tree.items.Keys == t.items.Keys
    ensures r.Ok? ==> r.value.tree == t.(items := r.value.tree.items)
  {
    var pair :- GetItemAndParent(t.items, id);
    var (item, parent) := pair;
    var targetPair :- GetItemAndParent(t.items, targetId);
    var (target, targetParent) := targetPair;
    var targetIndex :- GetItemPosition(target.id, targetParent);
    if position == Inner then
      var m :- MoveInto(t.items, id, parent.id, target.id, 0);
      Ok(SaveAndRecord(t.(items := m)))
    else
      var index :- DropIndex(item, parent, target, targetIndex, position);
      var m :- MoveInto(t.items, id, parent.id, targetParent.id, index);
      Ok(SaveAndRecord(t.(items := m)))
  }

  /** `toggle`: flip (Toggle), set (Expand) or clear (Fold) the item's `expand` flag. */
  function HandleToggle(t: Tree, a: TreeAction): (r: Result<EffectTree, Error>)
    requires a.Toggle? || a.Expand? || a.Fold?
    ensures r.Ok? <==> a.id in t.items
    ensures r.Ok? ==> !r.value.save && !r.value.record && r.value.mode.None?
    ensures r.Ok? ==>
      var it := t.items[a.id];
      r.value.tree == t.(items := t.items[it.id := it.(expand := if a.Toggle? then !it.expand else a.Expand?)])
  {
    var item :- GetItem(t.items, a.id);
    var expand := match a
      case Toggle(_) => !item.expand
      case Expand(_) => true
      case Fold(_) => false;
    Ok(EffectTree(t.(items := t.items[item.id := item.(expand := expand)]), false, false, None))
  }

  /** `gotoNext`: edit the next visible item, unless that is the root. */
  function HandleGotoNext(t: Tree, id: Id): (r: Result<EffectTree, Error>)
    ensures r.Ok? <==> id in t.items
    ensures r.Ok? ==> r.value.tree == t && !r.value.save && !r.value.record
    ensures r.Ok? ==>
      var next := GetNextItemId(t.items, t.items[id]);
      r.value.mode == if Some(next) != t.root then Some(EditMode(next)) else None
  {
    var item :- GetItem(t.items, id);
    var nextId := GetNextItemId(t.items, item);
    if Some(nextId) != t.root then Ok(EffectTree(t, false, false, Some(EditMode(nextId))))
    else Ok(DoNothing(t))
  }

  /** `gotoPrev`: edit the previous visible item. */
  function HandleGotoPrev(t: Tree, id: Id): (r: Result<EffectTree, Error>)
    ensures r.Ok? <==> id in t.items
    ensures r.Ok? ==> r.value.tree == t && !r.value.save && !r.value.record
    ensures r.Ok? ==> r.value.mode == Some(EditMode(GetPrevItem(t.items, t.items[id]).id))
  {
    var item :- GetItem(t.items, id);
    var prev := GetPrevItem(t.items, item);
    Ok(EffectTree(t, false, false, Some(EditMode(prev.id))))
  }

  /** `treeReducer`: dispatch on the action type; an unknown type is an error. */
  function TreeReducer(t: Tree, a: TreeAction, now: int): (r: Result<EffectTree, Error>)
    ensures a.Unknown? ==> r == Err(Unimplemented(a.kind))
    ensures r.Ok? ==> r.value.tree.root == t.root && r.value.tree.mode == t.mode
    ensures r.Ok? && !a.Create? && !a.Update? && WellKeyed(t.items) ==> r.value.tree.items.Keys == t.items.Keys
  {
    match a
    case Create(item, above) => HandleCreate(t, item, above)
    case Update(item, record) => Ok(HandleUpdate(t, item, record))
    case Edit(id, source) => HandleEdit(t, id, source, now)
    case Remove(id) => HandleRemove(t, id)
    case Toggle(_) => HandleToggle(t, a)
    case Fold(_) => HandleToggle(t, a)
    case Expand(_) => HandleToggle(t, a)
    case Reorder(id, delta) => HandleReorder(t, id, delta)
    case Indent(id, parent) => HandleIndent(t, id, parent)
    case UnIndent(id, _) => HandleUnIndent(t, id)
    case GotoNext(id) => HandleGotoNext(t, id)
    case GotoPrev(id) => HandleGotoPrev(t, id)
    case Drop(id, target, position) => ApplyDrop(t, id, target, position)
    case Unknown(kind) => Err(Unimplemented(kind))
  }
}
