/**
 * Where each structural action puts things: the slot a created item takes,
 * what a removal detaches, where indent, unindent, reorder and drop move an
 * item, the laws relating actions (toggle twice, indent then unindent), and
 * navigation between adjacent siblings.
 */
module ReducerMoves {
  import opened Wrappers
  import opened Lists
  import opened Items
  import opened TreeState
  import opened Ancestry
  import opened Oracle
  import opened Invariants
  import opened Reducer
  import opened ReducerLaws

  /**
   * A created item is stored and lands just after `above` when `above` is one
   * of the parent's children, otherwise at the front; the other children keep
   * their order.
   */
  lemma CreatePlaces(t: Tree, item: Item, above: Option<Id>)
    requires item.parent.Some? && item.parent.value in t.items && item.id != item.parent.value
    ensures HandleCreate(t, item, above).Ok?
    ensures var r := HandleCreate(t, item, above).value.tree.items;
      var p := item.parent.value;
      var before := t.items[p].children;
      var c := r[p].children;
      && r[item.id] == item
      && (forall k | k in t.items && k != p && k != item.id :: r[k] == t.items[k])
      && (above.Some? && above.value in before ==>
            var j := IndexOf(before, above.value);
            j + 1 < |c| && c[j] == above.value && c[j + 1] == item.id && c[..j + 1] + c[j + 2..] == before)
      && (above.None? || above.value !in before ==> c[0] == item.id && c[1..] == before)
  {
    var p := item.parent.value;
    var before := t.items[p].children;
    var i := CreateSlot(before, above);
    var c := InsertAt(before, i, item.id);
    assert HandleCreate(t, item, above).value.tree.items[p].children == c;
    assert before == before[..i] + before[i..];
    if i > 0 {
      assert c[i - 1] == c[..i][i - 1];
    }
  }

  /** Unlisting an item from its parent leaves it in no children list at all. */
  lemma UnlistedEverywhere(m: map<Id, Item>, id: Id, p: Id)
    requires ChildrenPointBack(m) && id in m && m[id].parent == Some(p) && p in m
    ensures var r := m[p := m[p].(children := Without(m[p].children, id))];
      forall q | q in r :: id !in r[q].children
  {
    var r := m[p := m[p].(children := Without(m[p].children, id))];
    WithoutMembers(m[p].children, id);
    forall q | q in r ensures id !in r[q].children {
      if q != p {
        assert r[q] == m[q];
      }
    }
  }

  /**
   * A removal takes the item out of every children list and touches nothing
   * but its parent's list: the removed entry itself stays in the map.
   */
  lemma RemoveDetaches(t: Tree, id: Id)
    requires Linked(t.items) && Acyclic(t.items)
    requires HandleRemove(t, id).Ok?
    ensures var r := HandleRemove(t, id).value.tree.items;
      var p := t.items[id].parent.value;
      && id in r && r[id] == t.items[id]
      && r[p] == t.items[p].(children := Without(t.items[p].children, id))
      && (forall k | k in t.items && k != p :: r[k] == t.items[k])
      && (forall q | q in r :: id !in r[q].children)
  {
    var m := t.items;
    var p := m[id].parent.value;
    ParentIsOther(m, id);
    assert HandleRemove(t, id).value.tree.items == m[p := m[p].(children := Without(m[p].children, id))];
    UnlistedEverywhere(m, id, p);
  }

  /** Moving an item to the end of another item's list appends it there. */
  lemma MoveToEnd(m: map<Id, Item>, id: Id, from: Id, to: Id)
    requires id in m && from in m && to in m && from != to
    ensures var r := MoveInto(m, id, from, to, |m[to].children|).value;
      && r[id].parent == Some(to)
      && r[to].children == m[to].children + [id]
      && r[from].children == Without(m[from].children, id)
  {
    MoveIntoShape(m, id, from, to, |m[to].children|);
    MoveIntoPlaces(m, id, from, to, |m[to].children|);
    var base := m[to].children;
    assert InsertAt(base, |base|, id) == base + [id];
  }

  /** Indenting an item that has a previous sibling makes it that sibling's last child. */
  lemma IndentMoves(t: Tree, id: Id, pid: Id)
    requires Linked(t.items) && Acyclic(t.items) && pid in t.items
    requires IndexOf(t.items[pid].children, id) >= 1
    ensures HandleIndent(t, id, pid).Ok?
    ensures var c := t.items[pid].children;
      var s := c[IndexOf(c, id) - 1];
      var r := HandleIndent(t, id, pid).value.tree.items;
      && HandleIndent(t, id, pid).value == SaveAndRecord(t.(items := r))
      && r[id].parent == Some(s)
      && r[s].children == t.items[s].children + [id]
      && r[pid].children == Without(c, id)
  {
    var m := t.items;
    var c := m[pid].children;
    var i := IndexOf(c, id);
    var s := c[i - 1];
    assert s in c[..i];
    assert s in m && m[s].parent == Some(pid) && m[s].id == s && id in m;
    ParentIsOther(m, s);
    assert HandleIndent(t, id, pid) == Ok(SaveAndRecord(t.(items := MoveInto(m, id, pid, s, |m[s].children|).value)));
    MoveToEnd(m, id, pid, s);
  }

  /** Unindenting an item whose parent has a parent puts it in the grandparent's list just after the old parent. */
  lemma UnIndentMoves(t: Tree, id: Id)
    requires Consistent(t.items) && Acyclic(t.items)
    requires id in t.items && t.items[id].parent.Some?
    requires t.items[t.items[id].parent.value].parent.Some?
    ensures HandleUnIndent(t, id).Ok?
    ensures var p := t.items[id].parent.value;
      var g := t.items[p].parent.value;
      var j := IndexOf(t.items[g].children, p);
      var r := HandleUnIndent(t, id).value.tree.items;
      var c := r[g].children;
      && 0 <= j && j + 1 < |c|
      && r[id].parent == Some(g)
      && c[j] == p && c[j + 1] == id && c[..j + 1] + c[j + 2..] == t.items[g].children
      && r[p].children == Without(t.items[p].children, id)
  {
    var m := t.items;
    var p := m[id].parent.value;
    var g := m[p].parent.value;
    assert p in m && g in m && p in m[g].children;
    var j := IndexOf(m[g].children, p);
    ParentIsOther(m, p);
    MoveIntoShape(m, id, p, g, j + 1);
    MoveIntoPlaces(m, id, p, g, j + 1);
    var r := MoveInto(m, id, p, g, j + 1).value;
    assert r[g].children[..j + 1][j] == m[g].children[j];
  }

  /** `r` differs from `m` at most in parent links and children lists. */
  ghost predicate OnlyLinksChange(m: map<Id, Item>, r: map<Id, Item>) {
    r.Keys == m.Keys && forall k | k in m :: r[k] == m[k].(parent := r[k].parent, children := r[k].children)
  }

  lemma MoveIntoOnlyLinks(m: map<Id, Item>, id: Id, from: Id, to: Id, index: int)
    requires id in m && from in m && to in m
    ensures OnlyLinksChange(m, MoveInto(m, id, from, to, index).value)
    ensures Moved(m, MoveInto(m, id, from, to, index).value, id, from, to, index)
  {
    MoveIntoShape(m, id, from, to, index);
    MoveIntoMoved(m, id, from, to, index);
  }

  /** There and back, the old parent's list: spliced out, then reinserted at the same index. */
  lemma BackInParentList(m: map<Id, Item>, m1: map<Id, Item>, m2: map<Id, Item>, id: Id, p: Id, s: Id, i: nat)
    requires Linked(m) && id in m && p in m && s in m && s != p && s != id
    requires i < |m[p].children| && m[p].children[i] == id && m[id].parent == Some(p)
    requires Moved(m, m1, id, p, s, |m[s].children|)
    requires Moved(m1, m2, id, s, p, i)
    ensures m2[p].children == m[p].children
  {
    var c := m[p].children;
    WithoutAt(c, i, id);
    assert m1[p].children == c[..i] + c[i + 1..];
    InsertRemoved(c, i);
  }

  /** There and back, the sibling's list: appended to, then the appended item removed. */
  lemma BackInSiblingList(m: map<Id, Item>, m1: map<Id, Item>, m2: map<Id, Item>, id: Id, p: Id, s: Id, i: nat)
    requires Linked(m) && id in m && p in m && s in m && s != p && s != id
    requires i < |m[p].children| && m[p].children[i] == id && m[id].parent == Some(p)
    requires Moved(m, m1, id, p, s, |m[s].children|)
    requires Moved(m1, m2, id, s, p, i)
    ensures m2[s].children == m[s].children
  {
    assert m1[s].children == InsertAt(m[s].children, |m[s].children|, id);
    assert m1[s].children == m[s].children + [id];
    assert id !in m[s].children;
    WithoutAppended(m[s].children, id);
  }

  /**
   * Moving an item to the end of a sibling's list and then back to its old
   * index in its old parent restores the map exactly.
   */
  lemma MovedThereAndBack(m: map<Id, Item>, m1: map<Id, Item>, m2: map<Id, Item>, id: Id, p: Id, s: Id, i: nat)
    requires Linked(m) && id in m && p in m && s in m && s != p && s != id
    requires i < |m[p].children| && m[p].children[i] == id && m[id].parent == Some(p)
    requires Moved(m, m1, id, p, s, |m[s].children|) && OnlyLinksChange(m, m1)
    requires Moved(m1, m2, id, s, p, i) && OnlyLinksChange(m1, m2)
    ensures m2 == m
  {
    BackInParentList(m, m1, m2, id, p, s, i);
    BackInSiblingList(m, m1, m2, id, p, s, i);
    forall k | k in m ensures m2[k] == m[k] {
      assert m2[k].parent == m[k].parent;
      assert m2[k].children == m[k].children;
      assert m2[k] == m1[k].(parent := m2[k].parent, children := m2[k].children);
      assert m1[k] == m[k].(parent := m1[k].parent, children := m1[k].children);
    }
  }

  lemma IndentIsMove(t: Tree, id: Id, pid: Id)
    requires WellKeyed(t.items) && pid in t.items
    requires IndexOf(t.items[pid].children, id) >= 1
    requires t.items[pid].children[IndexOf(t.items[pid].children, id) - 1] in t.items
    requires HandleIndent(t, id, pid).Ok?
    ensures var c := t.items[pid].children;
      var s := c[IndexOf(c, id) - 1];
      HandleIndent(t, id, pid).value.tree == t.(items := MoveInto(t.items, id, pid, s, |t.items[s].children|).value)
  {
  }

  lemma UnIndentIsMove(t: Tree, id: Id)
    requires WellKeyed(t.items) && GetItemAndParent(t.items, id).Ok?
    requires t.items[t.items[id].parent.value].parent.Some?
    requires t.items[t.items[id].parent.value].parent.value in t.items
    ensures var p := t.items[id].parent.value;
      var g := t.items[p].parent.value;
      HandleUnIndent(t, id) == Ok(SaveAndRecord(t.(items := MoveInto(t.items, id, p, g, IndexOf(t.items[g].children, p) + 1).value)))
  {
  }

  /** The map-level half of the inverse law: the state after the indent, and the move back. */
  lemma IndentedAndBack(m: map<Id, Item>, id: Id, pid: Id)
    requires Consistent(m) && Acyclic(m) && pid in m
    requires IndexOf(m[pid].children, id) >= 1
    ensures var c := m[pid].children;
      var i := IndexOf(c, id);
      var s := c[i - 1];
      s in m
      && var m1 := MoveInto(m, id, pid, s, |m[s].children|).value;
      && WellKeyed(m1) && id in m1 && m1[id].parent == Some(s)
      && s in m1 && m1[s].parent == Some(pid) && pid in m1
      && IndexOf(m1[pid].children, s) + 1 == i
      && MoveInto(m1, id, s, pid, i).value == m
  {
    var c := m[pid].children;
    var i := IndexOf(c, id);
    var s := c[i - 1];
    assert s in c[..i];
    assert s in m && id in m && m[s].parent == Some(pid) && m[id].parent == Some(pid);
    ParentIsOther(m, s);
    var m1 := MoveInto(m, id, pid, s, |m[s].children|).value;
    MoveIntoOnlyLinks(m, id, pid, s, |m[s].children|);
    MoveToEnd(m, id, pid, s);
    assert m1[s].parent == Some(pid);
    WithoutAt(c, i, id);
    WithoutKeepsNoDup(c, id);
    var b := c[..i] + c[i + 1..];
    assert m1[pid].children == b && b[i - 1] == s;
    IndexOfAt(b, i - 1);
    MoveIntoOnlyLinks(m1, id, s, pid, i);
    MovedThereAndBack(m, m1, MoveInto(m1, id, s, pid, i).value, id, pid, s, i);
  }

  /** Unindenting right after an indent restores the tree exactly. */
  lemma IndentThenUnIndent(t: Tree, id: Id, pid: Id)
    requires Consistent(t.items) && Acyclic(t.items) && pid in t.items
    requires IndexOf(t.items[pid].children, id) >= 1
    ensures HandleIndent(t, id, pid).Ok?
    ensures var t1 := HandleIndent(t, id, pid).value.tree;
      HandleUnIndent(t1, id).Ok? && HandleUnIndent(t1, id).value.tree == t
  {
    var m := t.items;
    var c := m[pid].children;
    var i := IndexOf(c, id);
    var s := c[i - 1];
    assert s in m by { IndentedAndBack(m, id, pid); }
    var m1 := MoveInto(m, id, pid, s, |m[s].children|).value;
    var t1 := t.(items := m1);
    var m2 := MoveInto(m1, id, s, pid, i).value;
    assert HandleIndent(t, id, pid).Ok? && HandleIndent(t, id, pid).value.tree == t1 by {
      IndentMoves(t, id, pid);
      IndentIsMove(t, id, pid);
    }
    assert HandleUnIndent(t1, id) == Ok(SaveAndRecord(t1.(items := m2))) by {
      IndentedAndBack(m, id, pid);
      UnIndentIsMove(t1, id);
    }
    assert t1.(items := m2) == t by { IndentedAndBack(m, id, pid); }
  }

  /** A listed item whose stored parent lists it can always be reordered, by any offset. */
  lemma ReorderAccepted(t: Tree, id: Id, p: Id, delta: int, now: int)
    requires id in t.items && t.items[id].parent == Some(p) && p in t.items
    requires t.items[id].id == id && t.items[p].id == p && id in t.items[p].children
    ensures TreeReducer(t, Reorder(id, delta), now).Ok?
  {
    assert GetItemAndParent(t.items, id) == Ok((t.items[id], t.items[p]));
    assert GetItemPosition(id, t.items[p]).Ok?;
  }

  /** When every listed child exists, indenting under an existing parent is always accepted. */
  lemma IndentAccepted(t: Tree, id: Id, p: Id, now: int)
    requires WellKeyed(t.items) && ChildrenPointBack(t.items) && p in t.items
    ensures TreeReducer(t, Indent(id, p), now).Ok?
  {
    var c := t.items[p].children;
    var i := IndexOf(c, id);
    if i >= 1 {
      assert c[i - 1] in c && id in c;
    }
  }

  /**
   * When every parent link names an existing item, unindenting an item with a
   * parent is always accepted (the reducer ignores the parent the action names).
   */
  lemma UnIndentAccepted(t: Tree, id: Id, p: Id, now: int)
    requires WellKeyed(t.items) && ParentsExist(t.items) && id in t.items && t.items[id].parent.Some?
    ensures TreeReducer(t, UnIndent(id, p), now).Ok?
  {
    var q := t.items[id].parent.value;
    assert q in t.items;
    if t.items[q].parent.Some? {
      assert t.items[q].parent.value in t.items;
    }
  }

  /** What the reducer's lookups return for a well-keyed item listed under its stored parent. */
  lemma Lookups(m: map<Id, Item>, id: Id, p: Id)
    requires id in m && m[id].parent == Some(p) && p in m
    requires m[id].id == id && m[p].id == p && id in m[p].children
    ensures GetItemAndParent(m, id) == Ok((m[id], m[p]))
    ensures GetItemPosition(id, m[p]) == Ok(IndexOf(m[p].children, id))
  {
  }

  /**
   * A reorder whose target index lies within the list is a move of the item
   * within its own parent's list to that index (see `MoveWithinList` for
   * where that puts it), saved and recorded.
   */
  lemma ReorderIsMove(t: Tree, id: Id, p: Id, delta: int)
    requires delta != 0 && id in t.items && t.items[id].parent == Some(p) && p in t.items
    requires t.items[id].id == id && t.items[p].id == p && id in t.items[p].children
    requires 0 <= IndexOf(t.items[p].children, id) + delta <= |t.items[p].children|
    ensures HandleReorder(t, id, delta)
      == Ok(SaveAndRecord(t.(items := MoveInto(t.items, id, p, p, IndexOf(t.items[p].children, id) + delta).value)))
  {
    var i := IndexOf(t.items[p].children, id);
    Lookups(t.items, id, p);
    ReorderStep(t, id, p, delta, i, MoveInto(t.items, id, p, p, i + delta).value);
  }

  /** The reorder's steps, with the lookups' and the move's results given. */
  lemma ReorderStep(t: Tree, id: Id, p: Id, delta: int, i: int, x: map<Id, Item>)
    requires delta != 0 && id in t.items && p in t.items
    requires GetItemAndParent(t.items, id) == Ok((t.items[id], t.items[p]))
    requires t.items[id].id == id && t.items[p].id == p
    requires GetItemPosition(id, t.items[p]) == Ok(i)
    requires 0 <= i + delta <= |t.items[p].children|
    requires MoveInto(t.items, id, p, p, i + delta) == Ok(x)
    ensures HandleReorder(t, id, delta) == Ok(SaveAndRecord(t.(items := x)))
  {
  }

  /** Moving an item within its own list to `order` puts it there, or last when `order` is the list's size. */
  lemma MoveWithinList(m: map<Id, Item>, id: Id, p: Id, order: int)
    requires id in m && p in m && NoDup(m[p].children) && id in m[p].children
    requires 0 <= order <= |m[p].children|
    ensures var c := m[p].children;
      var j := if order == |c| then |c| - 1 else order;
      var r := MoveInto(m, id, p, p, order).value;
      && r[id].parent == Some(p)
      && 0 <= j < |r[p].children| && r[p].children[j] == id
      && r[p].children[..j] + r[p].children[j + 1..] == Without(c, id)
  {
    var c := m[p].children;
    MoveIntoPlaces(m, id, p, p, order);
    WithoutAt(c, IndexOf(c, id), id);
  }

  /** A reorder past either end changes nothing in the tree yet still asks to save and record. */
  lemma ReorderOutOfRange(t: Tree, id: Id, delta: int, now: int)
    requires delta != 0 && GetItemAndParent(t.items, id).Ok?
    requires var c := t.items[t.items[id].parent.value].children;
      t.items[id].id in c && !(0 <= IndexOf(c, t.items[id].id) + delta <= |c|)
    ensures TreeReducer(t, Reorder(id, delta), now) == Ok(SaveAndRecord(t))
  {
  }

  /**
   * An inner drop makes the dragged item the target's first child, ahead of
   * the target's other children in their old order.
   */
  lemma DropInnerPlaces(t: Tree, id: Id, target: Id)
    requires Linked(t.items) && target != id
    requires ApplyDrop(t, id, target, Inner).Ok?
    ensures var r := ApplyDrop(t, id, target, Inner).value.tree.items;
      && r[id].parent == Some(target)
      && r[target].children == [id] + Without(t.items[target].children, id)
  {
    var m := t.items;
    var p := m[id].parent.value;
    assert ApplyDrop(t, id, target, Inner) == Ok(SaveAndRecord(t.(items := MoveInto(m, id, p, target, 0).value)));
    MoveIntoPlaces(m, id, p, target, 0);
    if p != target {
      assert id !in m[target].children;
      WithoutAbsent(m[target].children, id);
    }
    var r := MoveInto(m, id, p, target, 0).value;
    assert r[target].children == [id] + r[target].children[1..];
  }

  /** Moving `id` next to position `j` of the list it is inserted into. */
  lemma LandBeside(m: map<Id, Item>, id: Id, p: Id, tp: Id, j: nat, after: bool)
    requires Linked(m) && id in m && m[id].parent == Some(p) && p in m && tp in m
    requires j < |MoveBase(m, id, p, tp)|
    ensures var base := MoveBase(m, id, p, tp);
      var i := if after then j + 1 else j;
      var c := MoveInto(m, id, p, tp, i).value[tp].children;
      && NoDup(c) && IndexOf(c, id) == i
      && (after ==> c[i - 1] == base[j])
      && (!after ==> c[i + 1] == base[j])
      && c[..i] + c[i + 1..] == base
      && base == Without(m[tp].children, id)
  {
    var c := m[tp].children;
    var base := MoveBase(m, id, p, tp);
    var i := if after then j + 1 else j;
    WithoutKeepsNoDup(c, id);
    WithoutMembers(c, id);
    if p != tp {
      assert id !in c;
      WithoutAbsent(c, id);
    }
    assert NoDup(base) && id !in base;
    MoveIntoPlaces(m, id, p, tp, i);
    PlaceBeside(base, j, id, after);
    InsertKeepsNoDup(base, i, id);
    IndexOfAt(MoveInto(m, id, p, tp, i).value[tp].children, i);
  }

  /** Where the target sits in the list the dragged item is inserted into, and the drop index relative to it. */
  lemma TargetSlot(m: map<Id, Item>, id: Id, p: Id, target: Id, tp: Id, ti: nat, position: DropPosition) returns (j: nat)
    requires Linked(m) && target != id
    requires id in m && m[id].parent == Some(p) && p in m
    requires target in m && m[target].parent == Some(tp) && tp in m
    requires ti < |m[tp].children| && m[tp].children[ti] == target
    requires DropIndex(m[id], m[p], m[target], ti, position).Ok?
    ensures j < |MoveBase(m, id, p, tp)| && MoveBase(m, id, p, tp)[j] == target
    ensures DropIndex(m[id], m[p], m[target], ti, position).value == if position == Below then j + 1 else j
  {
    var c := m[tp].children;
    assert NoDup(c);
    if p == tp {
      var ii := IndexOf(c, id);
      assert 0 <= ii && ii != ti;
      WithoutAt(c, ii, id);
      ShiftAfterRemoval(c, ii, ti);
      j := if ii < ti then ti - 1 else ti;
    } else {
      assert id !in c;
      j := ti;
    }
  }

  /**
   * A drop above (below) the target lands the dragged item right before (after)
   * the target in the target's parent's list; the rest of that list keeps its order.
   */
  lemma DropBesidePlaces(t: Tree, id: Id, target: Id, position: DropPosition)
    requires Linked(t.items) && target != id && position != Inner
    requires ApplyDrop(t, id, target, position).Ok?
    ensures var m := t.items;
      var tp := m[target].parent.value;
      var r := ApplyDrop(t, id, target, position).value.tree.items;
      var c := r[tp].children;
      var k := IndexOf(c, id);
      && r[id].parent == Some(tp)
      && NoDup(c) && 0 <= k
      && (position == Above ==> k + 1 < |c| && c[k + 1] == target)
      && (position == Below ==> 1 <= k && c[k - 1] == target)
      && c[..k] + c[k + 1..] == Without(m[tp].children, id)
  {
    var m := t.items;
    var p := m[id].parent.value;
    var tp := m[target].parent.value;
    var ti := GetItemPosition(target, m[tp]).value;
    var idx := DropIndex(m[id], m[p], m[target], ti, position).value;
    var r := MoveInto(m, id, p, tp, idx).value;
    assert ApplyDrop(t, id, target, position).value.tree.items == r by {
      assert ApplyDrop(t, id, target, position) == Ok(SaveAndRecord(t.(items := r)));
    }
    var j := TargetSlot(m, id, p, target, tp, ti, position);
    assert idx == if position == Below then j + 1 else j;
    LandBeside(m, id, p, tp, j, position == Below);
  }

  /** Toggling twice restores the tree; neither toggle asks to save, record or switch mode. */
  lemma ToggleTwice(t: Tree, id: Id, now: int)
    requires id in t.items && t.items[id].id == id
    ensures var r1 := TreeReducer(t, Toggle(id), now);
      && r1.Ok? && !r1.value.save && !r1.value.record && r1.value.mode.None?
      && r1.value.tree.items[id].expand == !t.items[id].expand
      && TreeReducer(r1.value.tree, Toggle(id), now) == Ok(DoNothing(t))
  {
    var it := t.items[id];
    var t1 := t.(items := t.items[id := it.(expand := !it.expand)]);
    assert TreeReducer(t, Toggle(id), now) == Ok(EffectTree(t1, false, false, None));
    assert t1.items[id := it.(expand := !!it.expand)] == t.items;
  }

  /**
   * Visible-order navigation between adjacent siblings: when the first is folded
   * or childless, going to the next item from it reaches the second, and going
   * to the previous item from the second comes back to it.
   */
  lemma NextPrevSiblings(m: map<Id, Item>, p: Id, i: nat)
    requires Consistent(m) && p in m && i + 1 < |m[p].children|
    requires m[p].children[i] in m
    requires var s := m[m[p].children[i]]; !s.expand || |s.children| == 0
    ensures var c := m[p].children;
      && GetNextItemId(m, m[c[i]]) == c[i + 1]
      && GetPrevItem(m, m[c[i + 1]]) == m[c[i]]
  {
    var c := m[p].children;
    var s := c[i];
    var x := c[i + 1];
    assert NoDup(c) && m[s].parent == Some(p) && x in m && m[x].parent == Some(p);
    assert m[s].id == s && m[x].id == x;
    IndexOfAt(c, i);
    IndexOfAt(c, i + 1);
    assert GetNextItemId(m, m[s]) == NextUp(m, s, |m|);
    assert LastVisible(m, s, |m|) == s;
  }
}
