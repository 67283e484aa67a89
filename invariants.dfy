/**
 * The structural invariants of the item map: every entry is stored under its
 * own id, parent links and children lists agree, children lists hold no
 * duplicates — and the move primitive keeps all of them.
 */
module Invariants {
  import opened Wrappers
  import opened Lists
  import opened Items
  import opened TreeState
  import opened Ancestry
  import opened Oracle

  /** An item's parent exists and lists the item among its children. */
  ghost predicate ParentsList(m: map<Id, Item>) {
    forall k | k in m && m[k].parent.Some? :: m[k].parent.value in m && k in m[m[k].parent.value].children
  }

  /** Every listed child exists and names the lister as its parent. */
  ghost predicate ChildrenPointBack(m: map<Id, Item>) {
    forall p, c | p in m && c in m[p].children :: c in m && m[c].parent == Some(p)
  }

  ghost predicate DistinctChildren(m: map<Id, Item>) {
    forall p | p in m :: NoDup(m[p].children)
  }

  /** Parent/child consistency of a (fully materialised) item map. */
  ghost predicate Consistent(m: map<Id, Item>) {
    WellKeyed(m) && ParentsList(m) && ChildrenPointBack(m) && DistinctChildren(m)
  }

  /** Every parent link names an existing item. */
  ghost predicate ParentsExist(m: map<Id, Item>) {
    forall k | k in m && m[k].parent.Some? :: m[k].parent.value in m
  }

  /**
   * What survives a removal: a removed item keeps its entry and its parent
   * link (a tombstone) but is no longer listed, so only `ParentsList` is lost.
   */
  ghost predicate Linked(m: map<Id, Item>) {
    WellKeyed(m) && ParentsExist(m) && ChildrenPointBack(m) && DistinctChildren(m)
  }

  lemma ConsistentIsLinked(m: map<Id, Item>)
    requires Consistent(m)
    ensures Linked(m)
  {
  }

  /** The initial tree satisfies every invariant. */
  lemma InitTreeValid()
    ensures Consistent(InitTree().items) && Acyclic(InitTree().items)
  {
  }

  /** `r` is `m` with `id` moved from `from` to `to` at `index`, as `MoveInto` does it. */
  ghost predicate Moved(m: map<Id, Item>, r: map<Id, Item>, id: Id, from: Id, to: Id, index: int)
    requires id in m && from in m && to in m
  {
    var base := MoveBase(m, id, from, to);
    && r.Keys == m.Keys
    && r[id].parent == Some(to)
    && (forall k | k in m && k != id :: r[k].parent == m[k].parent)
    && (forall k | k in m :: r[k].id == m[k].id)
    && (forall k | k in m && k != from && k != to :: r[k].children == m[k].children)
    && (from != to ==> r[from].children == Without(m[from].children, id))
    && r[to].children == InsertAt(base, Clamp(index, |base|), id)
  }

  lemma MoveIntoMoved(m: map<Id, Item>, id: Id, from: Id, to: Id, index: int)
    requires id in m && from in m && to in m
    ensures Moved(m, MoveInto(m, id, from, to, index).value, id, from, to, index)
  {
    MoveIntoShape(m, id, from, to, index);
    MoveIntoPlaces(m, id, from, to, index);
    var r := MoveInto(m, id, from, to, index).value;
    forall k | k in m ensures r[k].id == m[k].id {
      assert r[k] == m[k].(parent := r[k].parent, children := r[k].children);
    }
  }

  /** The list `id` joins never already holds it, and holds no duplicates. */
  lemma MoveBaseFacts(m: map<Id, Item>, id: Id, from: Id, to: Id)
    requires Linked(m)
    requires id in m && m[id].parent == Some(from) && to in m
    ensures from in m
    ensures id !in MoveBase(m, id, from, to) && NoDup(MoveBase(m, id, from, to))
    ensures forall c :: c in MoveBase(m, id, from, to) ==> c in m[to].children
  {
    assert from in m;
    assert NoDup(m[from].children) && NoDup(m[to].children);
    if from == to {
      WithoutKeepsNoDup(m[from].children, id);
      WithoutMembers(m[from].children, id);
    }
  }

  lemma MovedKeepsDistinct(m: map<Id, Item>, r: map<Id, Item>, id: Id, from: Id, to: Id, index: int)
    requires Linked(m)
    requires id in m && m[id].parent == Some(from) && to in m
    requires Moved(m, r, id, from, to, index)
    ensures WellKeyed(r) && DistinctChildren(r)
  {
    MoveBaseFacts(m, id, from, to);
    var base := MoveBase(m, id, from, to);
    InsertKeepsNoDup(base, Clamp(index, |base|), id);
    forall p | p in r ensures NoDup(r[p].children) {
      if p == from && p != to {
        WithoutKeepsNoDup(m[from].children, id);
      } else if p != to {
        assert NoDup(m[p].children);
      }
    }
  }

  lemma MovedPointsBackAt(m: map<Id, Item>, r: map<Id, Item>, id: Id, from: Id, to: Id, index: int, p: Id, c: Id)
    requires ChildrenPointBack(m)
    requires id in m && m[id].parent == Some(from) && from in m && to in m
    requires Moved(m, r, id, from, to, index)
    requires p in r && c in r[p].children
    ensures c in r && r[c].parent == Some(p)
  {
    var base := MoveBase(m, id, from, to);
    if c == id {
      if p != to && p != from {
        assert r[p].children == m[p].children;
        assert m[id].parent == Some(p);
      } else if p != to {
        WithoutMembers(m[from].children, id);
      }
    } else {
      assert c in m[p].children by {
        if p == to {
          InsertAtMembers(base, Clamp(index, |base|), id);
          assert c in base;
          if from == to {
            WithoutMembers(m[from].children, id);
          }
        } else if p == from {
          WithoutMembers(m[from].children, id);
        } else {
          assert r[p].children == m[p].children;
        }
      }
      assert m[c].parent == Some(p);
      assert r[c].parent == m[c].parent;
    }
  }

  lemma MovedKeepsChildrenPointBack(m: map<Id, Item>, r: map<Id, Item>, id: Id, from: Id, to: Id, index: int)
    requires ChildrenPointBack(m)
    requires id in m && m[id].parent == Some(from) && from in m && to in m
    requires Moved(m, r, id, from, to, index)
    ensures ChildrenPointBack(r)
  {
    forall p | p in r ensures forall c | c in r[p].children :: c in r && r[c].parent == Some(p) {
      MovedPointsBackFrom(m, r, id, from, to, index, p);
    }
  }

  lemma MovedPointsBackFrom(m: map<Id, Item>, r: map<Id, Item>, id: Id, from: Id, to: Id, index: int, p: Id)
    requires ChildrenPointBack(m)
    requires id in m && m[id].parent == Some(from) && from in m && to in m
    requires Moved(m, r, id, from, to, index)
    requires p in r
    ensures forall c | c in r[p].children :: c in r && r[c].parent == Some(p)
  {
    forall c | c in r[p].children ensures c in r && r[c].parent == Some(p) {
      MovedPointsBackAt(m, r, id, from, to, index, p, c);
    }
  }

  lemma MovedKeepsParentsExist(m: map<Id, Item>, r: map<Id, Item>, id: Id, from: Id, to: Id, index: int)
    requires ParentsExist(m)
    requires id in m && from in m && to in m
    requires Moved(m, r, id, from, to, index)
    ensures ParentsExist(r)
  {
    forall k | k in r && r[k].parent.Some? ensures r[k].parent.value in r {
      if k != id {
        assert r[k].parent == m[k].parent;
      }
    }
  }

  lemma MovedKeepsParentsList(m: map<Id, Item>, r: map<Id, Item>, id: Id, from: Id, to: Id, index: int)
    requires Consistent(m)
    requires id in m && m[id].parent == Some(from) && to in m
    requires Moved(m, r, id, from, to, index)
    ensures ParentsList(r)
  {
    MoveBaseFacts(m, id, from, to);
    var base := MoveBase(m, id, from, to);
    forall k | k in r && r[k].parent.Some?
      ensures r[k].parent.value in r && k in r[r[k].parent.value].children
    {
      if k == id {
        InsertAtMembers(base, Clamp(index, |base|), id);
      } else {
        var q := m[k].parent.value;
        assert r[k].parent == m[k].parent;
        assert k in m[q].children;
        if q == to {
          assert k in base by {
            if from == to {
              WithoutMembers(m[from].children, id);
            }
          }
          InsertAtMembers(base, Clamp(index, |base|), id);
        } else if q == from {
          WithoutMembers(m[from].children, id);
        }
      }
    }
  }

  /**
   * Moving an item from its actual parent to an existing item whose upward
   * walk avoids it keeps the map linked and acyclic, and keeps every parent
   * listing its children when that held before.
   */
  lemma MoveIntoKeeps(m: map<Id, Item>, id: Id, from: Id, to: Id, index: int)
    requires Linked(m) && Acyclic(m)
    requires id in m && m[id].parent == Some(from) && to in m
    requires forall i: nat :: Up(m, to, i) != Some(id)
    ensures MoveInto(m, id, from, to, index).Ok?
    ensures Linked(MoveInto(m, id, from, to, index).value)
    ensures Acyclic(MoveInto(m, id, from, to, index).value)
    ensures ParentsList(m) ==> ParentsList(MoveInto(m, id, from, to, index).value)
  {
    assert from in m;
    var r := MoveInto(m, id, from, to, index).value;
    MoveIntoMoved(m, id, from, to, index);
    MovedKeepsDistinct(m, r, id, from, to, index);
    MovedKeepsChildrenPointBack(m, r, id, from, to, index);
    MovedKeepsParentsExist(m, r, id, from, to, index);
    if ParentsList(m) {
      MovedKeepsParentsList(m, r, id, from, to, index);
    }
    MoveIntoKeepsAcyclic(m, id, from, to, index);
  }

  /** Moving an item from its actual parent to any existing item keeps the map consistent. */
  lemma MoveIntoKeepsConsistent(m: map<Id, Item>, id: Id, from: Id, to: Id, index: int)
    requires Consistent(m)
    requires id in m && m[id].parent == Some(from) && to in m
    ensures MoveInto(m, id, from, to, index).Ok?
    ensures Consistent(MoveInto(m, id, from, to, index).value)
  {
    assert from in m;
    var r := MoveInto(m, id, from, to, index).value;
    MoveIntoMoved(m, id, from, to, index);
    MovedKeepsDistinct(m, r, id, from, to, index);
    MovedKeepsChildrenPointBack(m, r, id, from, to, index);
    MovedKeepsParentsList(m, r, id, from, to, index);
  }

  /**
   * Moving `id` under `to` keeps the map acyclic when the walk up from `to`
   * never meets `id` — the check callers owe before a drag or an indent.
   */
  lemma MoveIntoKeepsAcyclic(m: map<Id, Item>, id: Id, from: Id, to: Id, index: int)
    requires Acyclic(m)
    requires id in m && from in m && to in m
    requires forall i: nat :: Up(m, to, i) != Some(id)
    ensures Acyclic(MoveInto(m, id, from, to, index).value)
  {
    MoveIntoShape(m, id, from, to, index);
    ReparentKeepsAcyclic(m, MoveInto(m, id, from, to, index).value, id, to);
  }

  /** `to` not being `id` nor below it means the walk from `to` avoids `id`. */
  lemma NotDescendantAvoids(m: map<Id, Item>, to: Id, id: Id)
    requires WellKeyed(m) && to != id && !Descends(m, to, id)
    ensures forall i: nat :: Up(m, to, i) != Some(id)
  {
  }
}
