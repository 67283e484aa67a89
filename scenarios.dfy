/**
 * Worked examples of the tree reducer on small outlines: where created,
 * dropped, reordered, indented and removed items end up. Each scenario lemma
 * holds in any tree that has the named entries, whatever else it holds.
 */
module Scenarios {
  import opened Wrappers
  import opened Lists
  import opened Items
  import opened TreeState
  import opened Oracle
  import opened Reducer

  // The ids in the scenarios below: the parent `R`, its children `A`, `B`, `C`, and `N`, the item created or moved.
  const A: Id := 0
  const B: Id := 1
  const C: Id := 2
  const N: Id := 3
  const R: Id := 4

  /** `p` is stored under its own id and lists `kids` as its children. */
  predicate HasChildren(t: Tree, p: Id, kids: seq<Id>) {
    p in t.items && t.items[p].id == p && t.items[p].children == kids
  }

  /** `k` is stored under its own id and names `p` as its parent. */
  predicate Under(t: Tree, k: Id, p: Id) {
    k in t.items && t.items[k].id == k && t.items[k].parent == Some(p)
  }

  lemma CreateFacts()
    ensures IndexOf([A, B], A) == 0
    ensures InsertAt([A, B], 1, N) == [A, N, B]
  {
  }

  /** Creating `N` below `A` in [A, B] gives [A, N, B], saved, recorded, and `N` in edit mode. */
  lemma CreateAfterSibling(t: Tree, now: int)
    requires HasChildren(t, R, [A, B])
    ensures var item := CreateItem(N, EMPTY_CONTENT, Some(R), now);
      var r := TreeReducer(t, Create(item, Some(A)), now);
      && r.Ok? && r.value.tree.items[R].children == [A, N, B]
      && r.value.tree.items[N] == item
      && r.value.save && r.value.record && r.value.mode == Some(EditMode(N))
  {
    CreateFacts();
  }

  lemma DropFacts()
    ensures var c: seq<Id> := [A, N, B, C];
      && IndexOf(c, B) == 2 && IndexOf(c, N) == 1
      && Without(c, N) == [A, B, C]
      && InsertAt([A, B, C], 1, N) == c
      && InsertAt([A, B, C], 2, N) == [A, B, N, C]
  {
    var c: seq<Id> := [A, N, B, C];
    assert IndexOf(c, B) == 2 by { assert c[1..][1..] == [B, C]; }
    assert IndexOf(c, N) == 1 by { assert c[1..] == [N, B, C]; }
    assert Without(c, N) == [A, B, C] by {
      assert c[1..][1..] == [B, C];
      assert Without([B, C], N) == [B, C];
    }
    assert InsertAt([A, B, C], 1, N) == c;
    assert InsertAt([A, B, C], 2, N) == [A, B, N, C];
  }

  /**
   * In [A, N, B, C], a drop of `N` beside `B` that puts it at `index` is a
   * move of `N` within `R`'s list, saved and recorded.
   */
  lemma DropWithin(t: Tree, now: int, position: DropPosition, index: int)
    requires HasChildren(t, R, [A, N, B, C]) && Under(t, N, R) && Under(t, B, R)
    requires position != Inner && DropIndex(t.items[N], t.items[R], t.items[B], 2, position) == Ok(index)
    ensures MoveInto(t.items, N, R, R, index).Ok?
    ensures TreeReducer(t, Drop(N, B, position), now)
      == Ok(SaveAndRecord(t.(items := MoveInto(t.items, N, R, R, index).value)))
  {
    assert GetItemPosition(B, t.items[R]) == Ok(2) by { DropFacts(); }
  }

  /**
   * In [A, N, B, C], dropping `N` above `B` leaves the order as it is: `N`
   * already sits right above `B`.
   */
  lemma DropAboveInPlace(t: Tree, now: int)
    requires HasChildren(t, R, [A, N, B, C]) && Under(t, N, R) && Under(t, B, R)
    ensures var r := TreeReducer(t, Drop(N, B, Above), now);
      r.Ok? && r.value.tree.items[R].children == [A, N, B, C]
  {
    var m := t.items;
    DropFacts();
    assert DropIndex(m[N], m[R], m[B], 2, Above) == Ok(1);
    DropWithin(t, now, Above, 1);
  }

  /** In [A, N, B, C], dropping `N` below `B` gives [A, B, N, C]. */
  lemma DropBelowSwaps(t: Tree, now: int)
    requires HasChildren(t, R, [A, N, B, C]) && Under(t, N, R) && Under(t, B, R)
    ensures var r := TreeReducer(t, Drop(N, B, Below), now);
      r.Ok? && r.value.tree.items[R].children == [A, B, N, C]
  {
    var m := t.items;
    DropFacts();
    assert DropIndex(m[N], m[R], m[B], 2, Below) == Ok(2);
    DropWithin(t, now, Below, 2);
  }

  lemma InnerFacts()
    ensures IndexOf([A, B, C], A) == 0
    ensures Without([A, B, C], C) == [A, B]
    ensures InsertAt([], 0, C) == [C]
  {
    var c: seq<Id> := [A, B, C];
    assert c[1..][1..] == [C];
    assert Without([C], C) == [];
  }

  /** Dropping `C` into `A` (childless) in [A, B, C] makes `C` the only child of `A` and leaves [A, B]. */
  lemma DropInto(t: Tree, now: int)
    requires HasChildren(t, R, [A, B, C]) && Under(t, C, R) && Under(t, A, R) && HasChildren(t, A, [])
    ensures var r := TreeReducer(t, Drop(C, A, Inner), now);
      && r.Ok? && r.value.tree.items[R].children == [A, B]
      && r.value.tree.items[A].children == [C] && r.value.tree.items[C].parent == Some(A)
  {
    var m := t.items;
    InnerFacts();
    var r := MoveInto(m, C, R, A, 0).value;
    assert TreeReducer(t, Drop(C, A, Inner), now) == Ok(SaveAndRecord(t.(items := r)));
  }

  lemma ReorderFacts()
    ensures IndexOf([A, B], B) == 1
    ensures Without([A, B], B) == [A]
    ensures InsertAt([A], 0, B) == [B, A]
    ensures InsertAt([A], 1, B) == [A, B]
  {
    var c: seq<Id> := [A, B];
    assert c[1..] == [B];
    assert Without([B], B) == [];
  }

  /** Moving `B` up in [A, B] gives [B, A]. */
  lemma ReorderUp(t: Tree, now: int)
    requires HasChildren(t, R, [A, B]) && Under(t, B, R)
    ensures var r := TreeReducer(t, Reorder(B, -1), now);
      r.Ok? && r.value.tree.items[R].children == [B, A]
  {
    ReorderFacts();
    var r := MoveInto(t.items, B, R, R, 0).value;
    assert TreeReducer(t, Reorder(B, -1), now) == Ok(SaveAndRecord(t.(items := r)));
  }

  /**
   * Moving the last item of [A, B] one down is accepted (the new index equals
   * the list size) and leaves the list as it is; two down is past the end and
   * leaves the whole tree as it is. Both still ask to save and record.
   */
  lemma ReorderPastEnd(t: Tree, now: int)
    requires HasChildren(t, R, [A, B]) && Under(t, B, R)
    ensures var one := TreeReducer(t, Reorder(B, 1), now);
      && one.Ok? && one.value.tree.items[R].children == [A, B] && one.value.save && one.value.record
    ensures TreeReducer(t, Reorder(B, 2), now) == Ok(SaveAndRecord(t))
  {
    ReorderFacts();
    var r := MoveInto(t.items, B, R, R, 2).value;
    assert TreeReducer(t, Reorder(B, 1), now) == Ok(SaveAndRecord(t.(items := r)));
  }

  lemma RemoveFacts()
    ensures IndexOf([A], A) == 0
    ensures Without([A], A) == []
  {
  }

  /** Removing `A`, the only child of `R`, empties `R`'s list, keeps `A`'s entry, and edits `R`. */
  lemma RemoveOnlyChild(t: Tree, now: int)
    requires HasChildren(t, R, [A]) && Under(t, A, R)
    ensures var r := TreeReducer(t, Remove(A), now);
      && r.Ok? && r.value.tree.items[R].children == []
      && r.value.tree.items[A] == t.items[A]
      && r.value.mode == Some(EditMode(R))
  {
    RemoveFacts();
    assert GetPrevItem(t.items, t.items[A]) == t.items[R];
  }

  lemma IndentFacts()
    ensures IndexOf([A, B], B) == 1 && IndexOf([A], A) == 0
    ensures Without([A, B], B) == [A] && Without([B], B) == []
    ensures InsertAt([], 0, B) == [B] && InsertAt([A], 1, B) == [A, B]
  {
    var c: seq<Id> := [A, B];
    assert c[1..] == [B];
  }

  /**
   * Indenting `B` in [A, B] (with `A` childless) makes `B` the only child of
   * `A`; unindenting it then puts it back after `A` under `R`.
   */
  lemma IndentThenBack(t: Tree, now: int)
    requires HasChildren(t, R, [A, B]) && HasChildren(t, A, []) && Under(t, A, R) && Under(t, B, R)
    ensures var r := TreeReducer(t, Indent(B, R), now);
      && r.Ok? && r.value.tree.items[R].children == [A]
      && r.value.tree.items[A].children == [B] && r.value.tree.items[B].parent == Some(A)
      && var back := TreeReducer(r.value.tree, UnIndent(B, A), now);
      && back.Ok? && back.value.tree.items[R].children == [A, B]
      && back.value.tree.items[A].children == [] && back.value.tree.items[B].parent == Some(R)
  {
    IndentFacts();
    var m := t.items;
    var m1 := MoveInto(m, B, R, A, 0).value;
    var t1 := t.(items := m1);
    assert TreeReducer(t, Indent(B, R), now) == Ok(SaveAndRecord(t1));
    assert m1[A].parent == Some(R) && m1[R].id == R && m1[A].id == A;
    var m2 := MoveInto(m1, B, A, R, 1).value;
    assert TreeReducer(t1, UnIndent(B, A), now) == Ok(SaveAndRecord(t1.(items := m2)));
  }
}
