/**
 * What the reducer preserves: every structural action keeps the item map
 * linked and acyclic, and every action except removal keeps each parent
 * listing its children. The reducer never checks for cycles itself, so a
 * drop is admissible only when the target is not below the dragged item.
 */
module ReducerLaws {
  import opened Wrappers
  import opened Lists
  import opened Items
  import opened TreeState
  import opened Ancestry
  import opened Oracle
  import opened Invariants
  import opened Reducer

  // ---------------------------------------------------------------------------
  // Walks that cannot meet the moved item

  /** In an acyclic map an item is not its own parent. */
  lemma ParentIsOther(m: map<Id, Item>, id: Id)
    requires Acyclic(m) && id in m && m[id].parent.Some?
    ensures m[id].parent.value != id
  {
    var p := m[id].parent.value;
    if p in m {
      NoReturn(m, id, 1, 0);
    }
  }

  /** The walk from an item's parent never meets the item. */
  lemma ParentWalkAvoids(m: map<Id, Item>, id: Id)
    requires Acyclic(m) && id in m && m[id].parent.Some?
    ensures forall i: nat :: Up(m, m[id].parent.value, i) != Some(id)
  {
    var p := m[id].parent.value;
    forall i: nat ensures Up(m, p, i) != Some(id) {
      if p in m {
        NoReturn(m, id, 1, i);
      }
    }
  }

  /** The walk from an item's grandparent never meets the item. */
  lemma GrandparentWalkAvoids(m: map<Id, Item>, id: Id)
    requires Acyclic(m) && id in m && m[id].parent.Some?
    requires m[id].parent.value in m && m[m[id].parent.value].parent.Some?
    ensures forall i: nat :: Up(m, m[m[id].parent.value].parent.value, i) != Some(id)
  {
    var g := m[m[id].parent.value].parent.value;
    forall i: nat ensures Up(m, g, i) != Some(id) {
      if g in m {
        assert Up(m, id, 2) == Some(g);
        NoReturn(m, id, 2, i);
      }
    }
  }

  /** Prefixing a walk that avoids `id` with one more item other than `id` still avoids it. */
  lemma ChildWalkAvoids(m: map<Id, Item>, x: Id, q: Id, id: Id)
    requires x in m && m[x].parent == Some(q) && x != id
    requires forall i: nat :: Up(m, q, i) != Some(id)
    ensures forall i: nat :: Up(m, x, i) != Some(id)
  {
    forall i: nat ensures Up(m, x, i) != Some(id) {
      if i > 0 {
        assert Up(m, x, i) == Up(m, q, i - 1);
      }
    }
  }

  /**
   * The walk from the parent of a drop target avoids the dragged item when the
   * target is not below it (the target may be the dragged item itself).
   */
  lemma BesideWalkAvoids(m: map<Id, Item>, x: Id, id: Id)
    requires WellKeyed(m) && Acyclic(m) && x in m && m[x].parent.Some?
    requires !Descends(m, x, id)
    ensures forall i: nat :: Up(m, m[x].parent.value, i) != Some(id)
  {
    var q := m[x].parent.value;
    if x == id {
      ParentWalkAvoids(m, id);
    } else {
      forall i: nat ensures Up(m, q, i) != Some(id) {
        assert Up(m, x, i + 1) == Up(m, q, i);
      }
    }
  }

  /** Maps with the same keys, ids, parents and children lists share every structural invariant. */
  ghost predicate SameLinks(m: map<Id, Item>, r: map<Id, Item>) {
    && r.Keys == m.Keys
    && forall k | k in m :: r[k].id == m[k].id && r[k].parent == m[k].parent && r[k].children == m[k].children
  }

  lemma SameLinksKeepLinked(m: map<Id, Item>, r: map<Id, Item>)
    requires SameLinks(m, r) && Linked(m)
    ensures Linked(r)
  {
    assert WellKeyed(r) && ParentsExist(r) && DistinctChildren(r) by {
      assert forall k | k in r :: r[k].id == m[k].id && r[k].parent == m[k].parent && r[k].children == m[k].children;
    }
    SameLinksKeepChildrenPointBack(m, r);
  }

  lemma SameLinksKeepChildrenPointBack(m: map<Id, Item>, r: map<Id, Item>)
    requires SameLinks(m, r) && ChildrenPointBack(m)
    ensures ChildrenPointBack(r)
  {
    forall p, c | p in r && c in r[p].children ensures c in r && r[c].parent == Some(p) {
      assert c in m[p].children;
    }
  }

  lemma SameLinksKeepParentsList(m: map<Id, Item>, r: map<Id, Item>)
    requires SameLinks(m, r) && ParentsList(m)
    ensures ParentsList(r)
  {
    forall k | k in r && r[k].parent.Some? ensures r[k].parent.value in r && k in r[r[k].parent.value].children {
      var p := m[k].parent.value;
      assert r[k].parent == m[k].parent && p in m && k in m[p].children;
      assert r[p].children == m[p].children;
    }
  }

  lemma SameLinksKeep(m: map<Id, Item>, r: map<Id, Item>)
    requires SameLinks(m, r)
    ensures Linked(m) ==> Linked(r)
    ensures ParentsList(m) ==> ParentsList(r)
    ensures Acyclic(m) ==> Acyclic(r)
  {
    if Linked(m) {
      SameLinksKeepLinked(m, r);
    }
    if ParentsList(m) {
      SameLinksKeepParentsList(m, r);
    }
    if Acyclic(m) {
      SameParentsKeepAcyclic(m, r);
    }
  }

  // ---------------------------------------------------------------------------
  // Each structural action keeps the invariants

  /** The invariants carried from `m` to `r`: links, acyclicity, and parents listing children. */
  ghost predicate Keeps(m: map<Id, Item>, r: map<Id, Item>) {
    Linked(r) && Acyclic(r) && (ParentsList(m) ==> ParentsList(r))
  }

  /** The map after a create: the new item stored, its parent's list grown by it. */
  ghost predicate Created(m: map<Id, Item>, r: map<Id, Item>, item: Item, p: Id, c: seq<Id>)
    requires p in m
  {
    && r.Keys == m.Keys + {item.id}
    && r[item.id] == item
    && r[p] == m[p].(children := c)
    && (forall k | k in m && k != p :: r[k] == m[k])
    && (forall x :: x in c <==> x == item.id || x in m[p].children)
  }

  lemma CreateCreated(t: Tree, item: Item, above: Option<Id>)
    requires item.id !in t.items
    requires HandleCreate(t, item, above).Ok?
    ensures var p := item.parent.value;
      var c := InsertAt(t.items[p].children, CreateSlot(t.items[p].children, above), item.id);
      && Created(t.items, HandleCreate(t, item, above).value.tree.items, item, p, c)
      && (NoDup(t.items[p].children) && item.id !in t.items[p].children ==> NoDup(c))
  {
    var p := item.parent.value;
    var children := t.items[p].children;
    var c := InsertAt(children, CreateSlot(children, above), item.id);
    InsertAtMembers(children, CreateSlot(children, above), item.id);
    if NoDup(children) && item.id !in children {
      InsertKeepsNoDup(children, CreateSlot(children, above), item.id);
    }
  }

  lemma CreatedLinked(m: map<Id, Item>, r: map<Id, Item>, item: Item, p: Id, c: seq<Id>)
    requires Linked(m) && p in m && item.id !in m && item.children == [] && item.parent == Some(p)
    requires Created(m, r, item, p, c) && NoDup(c)
    ensures Linked(r)
  {
    forall q, x | q in r && x in r[q].children ensures x in r && r[x].parent == Some(q) {
      if q == p {
        if x != item.id {
          assert x in m[p].children;
        }
      } else if q != item.id {
        assert r[q] == m[q];
      }
    }
    forall q | q in r ensures NoDup(r[q].children) {
      if q != p && q != item.id {
        assert r[q] == m[q];
      }
    }
  }

  lemma CreatedParentsList(m: map<Id, Item>, r: map<Id, Item>, item: Item, p: Id, c: seq<Id>)
    requires ParentsList(m) && p in m && item.id !in m && item.parent == Some(p)
    requires Created(m, r, item, p, c)
    ensures ParentsList(r)
  {
    forall k | k in r && r[k].parent.Some? ensures r[k].parent.value in r && k in r[r[k].parent.value].children {
      if k == item.id {
        assert r[p].children == c && item.id in c;
      } else {
        var q := m[k].parent.value;
        assert r[k].parent == m[k].parent && q in m && k in m[q].children;
        if q == p {
          assert r[p].children == c && k in c;
        } else {
          assert r[q] == m[q];
        }
      }
    }
  }

  lemma CreatedKeeps(m: map<Id, Item>, r: map<Id, Item>, item: Item, p: Id, c: seq<Id>)
    requires Linked(m) && Acyclic(m) && p in m && item.id !in m && item.children == [] && item.parent == Some(p)
    requires Created(m, r, item, p, c) && NoDup(c)
    ensures Keeps(m, r)
  {
    CreatedLinked(m, r, item, p, c);
    if ParentsList(m) {
      CreatedParentsList(m, r, item, p, c);
    }
    forall j | j in m ensures r[j].parent == m[j].parent && m[j].parent != Some(item.id) {
      assert j != item.id;
    }
    AddLeafKeepsAcyclic(m, r, item.id, p);
  }

  lemma CreateKeeps(t: Tree, item: Item, above: Option<Id>)
    requires Linked(t.items) && Acyclic(t.items)
    requires item.id !in t.items && item.children == []
    requires HandleCreate(t, item, above).Ok?
    ensures Keeps(t.items, HandleCreate(t, item, above).value.tree.items)
  {
    var m := t.items;
    var p := item.parent.value;
    var c := InsertAt(m[p].children, CreateSlot(m[p].children, above), item.id);
    assert item.id !in m[p].children;
    CreateCreated(t, item, above);
    CreatedKeeps(m, HandleCreate(t, item, above).value.tree.items, item, p, c);
  }

  lemma RemoveKeeps(t: Tree, id: Id)
    requires Linked(t.items) && Acyclic(t.items)
    requires HandleRemove(t, id).Ok?
    ensures Linked(HandleRemove(t, id).value.tree.items) && Acyclic(HandleRemove(t, id).value.tree.items)
  {
    var m := t.items;
    var p := m[id].parent.value;
    assert HandleRemove(t, id).value.tree.items == m[p := m[p].(children := Without(m[p].children, id))];
    UnlistedKeeps(m, id, p);
  }

  /** Taking `id` out of its parent's list, and nothing else, keeps the links and the absence of cycles. */
  lemma UnlistedKeeps(m: map<Id, Item>, id: Id, p: Id)
    requires Linked(m) && Acyclic(m) && p in m
    ensures var r := m[p := m[p].(children := Without(m[p].children, id))];
      Linked(r) && Acyclic(r)
  {
    var r := m[p := m[p].(children := Without(m[p].children, id))];
    WithoutKeepsNoDup(m[p].children, id);
    WithoutMembers(m[p].children, id);
    forall q, x | q in r && x in r[q].children ensures x in r && r[x].parent == Some(q) {
      if q == p {
        assert x in m[p].children;
      } else {
        assert r[q] == m[q];
      }
    }
    SameParentsKeepAcyclic(m, r);
  }

  lemma IndentKeeps(t: Tree, id: Id, pid: Id)
    requires Linked(t.items) && Acyclic(t.items)
    requires HandleIndent(t, id, pid).Ok?
    ensures Keeps(t.items, HandleIndent(t, id, pid).value.tree.items)
  {
    var m := t.items;
    var children := m[pid].children;
    var index := IndexOf(children, id);
    if index >= 1 {
      var s := children[index - 1];
      assert s in children[..index];
      assert id in m && m[id].parent == Some(pid) && s in m && m[s].parent == Some(pid);
      ParentWalkAvoids(m, id);
      ChildWalkAvoids(m, s, pid, id);
      MoveIntoKeeps(m, id, pid, s, |m[s].children|);
    }
  }

  lemma UnIndentKeeps(t: Tree, id: Id)
    requires Linked(t.items) && Acyclic(t.items)
    requires HandleUnIndent(t, id).Ok?
    ensures Keeps(t.items, HandleUnIndent(t, id).value.tree.items)
  {
    var m := t.items;
    var p := m[id].parent.value;
    if m[p].parent.Some? {
      var g := m[p].parent.value;
      GrandparentWalkAvoids(m, id);
      MoveIntoKeeps(m, id, p, g, IndexOf(m[g].children, p) + 1);
    }
  }

  lemma ReorderKeeps(t: Tree, id: Id, delta: int)
    requires Linked(t.items) && Acyclic(t.items)
    requires HandleReorder(t, id, delta).Ok?
    ensures Keeps(t.items, HandleReorder(t, id, delta).value.tree.items)
  {
    var m := t.items;
    if delta != 0 {
      var p := m[id].parent.value;
      var order := IndexOf(m[p].children, id) + delta;
      if 0 <= order <= |m[p].children| {
        assert HandleReorder(t, id, delta).value.tree.items == MoveInto(m, id, p, p, order).value;
        ParentWalkAvoids(m, id);
        MoveIntoKeeps(m, id, p, p, order);
      } else {
        assert HandleReorder(t, id, delta).value.tree.items == m;
      }
    }
  }

  /** A drop keeps the invariants when the target is not below the dragged item and an inner drop is not onto itself. */
  lemma DropKeeps(t: Tree, id: Id, target: Id, position: DropPosition)
    requires Linked(t.items) && Acyclic(t.items)
    requires !Descends(t.items, target, id) && (position == Inner ==> target != id)
    requires ApplyDrop(t, id, target, position).Ok?
    ensures Keeps(t.items, ApplyDrop(t, id, target, position).value.tree.items)
  {
    var m := t.items;
    var p := m[id].parent.value;
    var tp := m[target].parent.value;
    if position == Inner {
      NotDescendantAvoids(m, target, id);
      MoveIntoKeeps(m, id, p, target, 0);
    } else {
      BesideWalkAvoids(m, target, id);
      var index := DropIndex(m[id], m[p], m[target], IndexOf(m[tp].children, target), position).value;
      MoveIntoKeeps(m, id, p, tp, index);
    }
  }

  lemma UpdateKeeps(t: Tree, item: Item, record: bool)
    requires item.id in t.items
    requires item.parent == t.items[item.id].parent && item.children == t.items[item.id].children
    requires WellKeyed(t.items)
    ensures Linked(t.items) ==> Linked(HandleUpdate(t, item, record).tree.items)
    ensures ParentsList(t.items) ==> ParentsList(HandleUpdate(t, item, record).tree.items)
    ensures Acyclic(t.items) ==> Acyclic(HandleUpdate(t, item, record).tree.items)
  {
    SameLinksKeep(t.items, HandleUpdate(t, item, record).tree.items);
  }

  lemma EditKeeps(t: Tree, id: Id, source: Content, now: int)
    requires HandleEdit(t, id, source, now).Ok?
    ensures Linked(t.items) ==> Linked(HandleEdit(t, id, source, now).value.tree.items)
    ensures ParentsList(t.items) ==> ParentsList(HandleEdit(t, id, source, now).value.tree.items)
    ensures Acyclic(t.items) ==> Acyclic(HandleEdit(t, id, source, now).value.tree.items)
  {
    SameLinksKeep(t.items, HandleEdit(t, id, source, now).value.tree.items);
  }

  lemma ToggleKeeps(t: Tree, a: TreeAction)
    requires a.Toggle? || a.Expand? || a.Fold?
    requires WellKeyed(t.items) && HandleToggle(t, a).Ok?
    ensures Linked(t.items) ==> Linked(HandleToggle(t, a).value.tree.items)
    ensures ParentsList(t.items) ==> ParentsList(HandleToggle(t, a).value.tree.items)
    ensures Acyclic(t.items) ==> Acyclic(HandleToggle(t, a).value.tree.items)
  {
    SameLinksKeep(t.items, HandleToggle(t, a).value.tree.items);
  }

  // ---------------------------------------------------------------------------
  // The whole reducer

  /**
   * What a caller owes the reducer beyond what it checks: a created item is
   * new and childless, an update keeps the item's links, and a drop target is
   * not below the dragged item (nor the item itself for an inner drop).
   */
  ghost predicate Admissible(m: map<Id, Item>, a: TreeAction) {
    match a
    case Create(item, _) => item.id !in m && item.children == []
    case Update(item, _) =>
      item.id in m && item.parent == m[item.id].parent && item.children == m[item.id].children
    case Drop(id, target, position) => !Descends(m, target, id) && (position == Inner ==> target != id)
    case _ => true
  }

  /**
   * Every accepted admissible action keeps the item map linked and acyclic;
   * every one but removal also keeps each parent listing its children.
   */
  lemma ReducerKeeps(t: Tree, a: TreeAction, now: int)
    requires Linked(t.items) && Acyclic(t.items) && Admissible(t.items, a)
    requires TreeReducer(t, a, now).Ok?
    ensures Linked(TreeReducer(t, a, now).value.tree.items)
    ensures Acyclic(TreeReducer(t, a, now).value.tree.items)
    ensures ParentsList(t.items) && !a.Remove? ==> ParentsList(TreeReducer(t, a, now).value.tree.items)
  {
    match a
    case Create(item, above) => CreateKeeps(t, item, above);
    case Update(item, record) => UpdateKeeps(t, item, record);
    case Edit(id, source) => EditKeeps(t, id, source, now);
    case Remove(id) => RemoveKeeps(t, id);
    case Toggle(_) => ToggleKeeps(t, a);
    case Fold(_) => ToggleKeeps(t, a);
    case Expand(_) => ToggleKeeps(t, a);
    case Reorder(id, delta) => ReorderKeeps(t, id, delta);
    case Indent(id, parent) => IndentKeeps(t, id, parent);
    case UnIndent(id, _) => UnIndentKeeps(t, id);
    case GotoNext(_) =>
    case GotoPrev(_) =>
    case Drop(id, target, position) => DropKeeps(t, id, target, position);
  }

  /** Without removals, accepted admissible actions keep the map consistent and acyclic. */
  lemma ReducerKeepsConsistent(t: Tree, a: TreeAction, now: int)
    requires Consistent(t.items) && Acyclic(t.items) && Admissible(t.items, a) && !a.Remove?
    requires TreeReducer(t, a, now).Ok?
    ensures Consistent(TreeReducer(t, a, now).value.tree.items)
    ensures Acyclic(TreeReducer(t, a, now).value.tree.items)
  {
    ConsistentIsLinked(t.items);
    ReducerKeeps(t, a, now);
  }
}
