/**
 * Walking parent links: the ancestor test `isChildrenOf` (src/tree.ts) and the
 * acyclicity of the parent relation that its termination depends on.
 */
module Ancestry {
  import opened Wrappers
  import opened Items

  /**
   * The key reached after following `n` parent links upward from key `k`,
   * or None once the walk leaves the map or passes the topmost item.
   */
  function Up(m: map<Id, Item>, k: Id, n: nat): (r: Option<Id>)
    ensures r.Some? ==> r.value in m
    ensures n > 0 && r.Some? ==> k in m && m[k].parent.Some?
    decreases n
  {
    if k !in m then None
    else if n == 0 then Some(k)
    else if m[k].parent.None? then None
    else Up(m, m[k].parent.value, n - 1)
  }

  /** Every upward walk ends: no item is its own ancestor. */
  ghost predicate Acyclic(m: map<Id, Item>) {
    forall k | k in m :: exists n: nat :: Up(m, k, n).None?
  }

  /**
   * `child` lies strictly below `parent`: the walk upward from `child` reaches
   * an item whose id is `parent`.
   */
  ghost predicate Descends(m: map<Id, Item>, child: Id, parent: Id) {
    child != parent && exists n: nat :: Up(m, child, n).Some? && m[Up(m, child, n).value].id == parent
  }

  /** One more step of a walk is one parent link taken from where it stands. */
  lemma {:induction false} UpStep(m: map<Id, Item>, k: Id, n: nat)
    ensures Up(m, k, n + 1) ==
      match Up(m, k, n)
      case None => None
      case Some(j) => if m[j].parent.None? then None else Up(m, m[j].parent.value, 0)
    decreases n
  {
    if k in m && n > 0 && m[k].parent.Some? {
      UpStep(m, m[k].parent.value, n - 1);
    }
  }

  /** A walk that has ended stays ended. */
  lemma {:induction false} UpNoneStays(m: map<Id, Item>, k: Id, a: nat, b: nat)
    requires a <= b && Up(m, k, a).None?
    ensures Up(m, k, b).None?
    decreases a
  {
    if k in m && a > 0 && m[k].parent.Some? {
      UpNoneStays(m, m[k].parent.value, a - 1, b - 1);
    }
  }

  /** A walk of `a + b` steps is a walk of `b` steps from where `a` steps lead. */
  lemma {:induction false} UpConcat(m: map<Id, Item>, k: Id, a: nat, b: nat)
    requires Up(m, k, a).Some?
    ensures Up(m, k, a + b) == Up(m, Up(m, k, a).value, b)
    decreases a
  {
    if a > 0 {
      UpConcat(m, m[k].parent.value, a - 1, b);
    }
  }

  /** A walk that comes back to its start after `c > 0` steps never ends. */
  lemma {:induction false} UpCycleForever(m: map<Id, Item>, k: Id, c: nat, n: nat)
    requires c > 0 && Up(m, k, c) == Some(k)
    ensures Up(m, k, n).Some?
    decreases n
  {
    if n < c {
      if Up(m, k, n).None? {
        UpNoneStays(m, k, n, c);
      }
    } else {
      UpConcat(m, k, c, n - c);
      UpCycleForever(m, k, c, n - c);
    }
  }

  /** In an acyclic map, the walk from any proper ancestor of `k` never meets `k`. */
  lemma NoReturn(m: map<Id, Item>, k: Id, j: nat, i: nat)
    requires Acyclic(m) && j > 0 && Up(m, k, j).Some?
    ensures Up(m, Up(m, k, j).value, i) != Some(k)
  {
    var a := Up(m, k, j).value;
    if Up(m, a, i) == Some(k) {
      UpConcat(m, k, j, i);
      assert k in m;
      var bound: nat :| Up(m, k, bound).None?;
      UpCycleForever(m, k, j + i, bound);
    }
  }

  /** Two maps whose keys and parent links agree have the same walks. */
  lemma {:induction false} SameParentsSameWalk(m: map<Id, Item>, m': map<Id, Item>, k: Id, n: nat)
    requires m'.Keys == m.Keys
    requires forall j | j in m :: m'[j].parent == m[j].parent
    ensures Up(m', k, n) == Up(m, k, n)
    decreases n
  {
    if k in m {
      assert m'[k].parent == m[k].parent;
      if n > 0 && m[k].parent.Some? {
        SameParentsSameWalk(m, m', m[k].parent.value, n - 1);
      }
    }
  }

  /** Changing anything but keys and parent links keeps a map acyclic. */
  lemma SameParentsKeepAcyclic(m: map<Id, Item>, m': map<Id, Item>)
    requires Acyclic(m)
    requires m'.Keys == m.Keys
    requires forall j | j in m :: m'[j].parent == m[j].parent
    ensures Acyclic(m')
  {
    forall k | k in m' ensures exists n: nat :: Up(m', k, n).None? {
      var n: nat :| Up(m, k, n).None?;
      SameParentsSameWalk(m, m', k, n);
    }
  }

  /** A walk in `m` that never meets `id` is unaffected by re-linking `id`. */
  lemma {:induction false} AvoidingWalkUnchanged(m: map<Id, Item>, m': map<Id, Item>, id: Id, k: Id, n: nat)
    requires m'.Keys == m.Keys
    requires forall j | j in m && j != id :: m'[j].parent == m[j].parent
    requires forall i: nat :: Up(m, k, i) != Some(id)
    ensures Up(m', k, n) == Up(m, k, n)
    decreases n
  {
    assert k in m ==> Up(m, k, 0) == Some(k);
    assert k in m ==> m'[k].parent == m[k].parent;
    if k in m && n > 0 && m[k].parent.Some? {
      var q := m[k].parent.value;
      forall i: nat ensures Up(m, q, i) != Some(id) {
        assert Up(m, k, i + 1) == Up(m, q, i);
      }
      AvoidingWalkUnchanged(m, m', id, q, n - 1);
    }
  }

  /** Every walk of `m'` ends, by induction on the length of the walk of `m`. */
  lemma {:induction false} ReparentedWalkEnds(m: map<Id, Item>, m': map<Id, Item>, id: Id, to: Id, k: Id, bound: nat)
    requires Acyclic(m)
    requires m'.Keys == m.Keys
    requires forall j | j in m && j != id :: m'[j].parent == m[j].parent
    requires id in m ==> m'[id].parent == Some(to)
    requires forall i: nat :: Up(m, to, i) != Some(id)
    requires Up(m, k, bound).None?
    ensures exists n: nat :: Up(m', k, n).None?
    decreases bound
  {
    if k !in m {
      assert Up(m', k, 0).None?;
    } else if k == id {
      var n0: nat;
      if to in m {
        n0 :| Up(m, to, n0).None?;
      } else {
        n0 := 0;
      }
      AvoidingWalkUnchanged(m, m', id, to, n0);
      assert Up(m', k, n0 + 1) == Up(m', to, n0);
    } else if m[k].parent.None? {
      assert Up(m', k, 1).None?;
    } else {
      var q := m[k].parent.value;
      assert bound > 0;
      assert Up(m, q, bound - 1).None?;
      ReparentedWalkEnds(m, m', id, to, q, bound - 1);
      var n: nat :| Up(m', q, n).None?;
      assert Up(m', k, n + 1) == Up(m', q, n);
    }
  }

  /**
   * Re-linking `id` under `to` keeps the map acyclic, provided the walk from
   * `to` never meets `id` (that is, `to` is not `id` or one of its descendants).
   */
  lemma ReparentKeepsAcyclic(m: map<Id, Item>, m': map<Id, Item>, id: Id, to: Id)
    requires Acyclic(m)
    requires m'.Keys == m.Keys
    requires forall j | j in m && j != id :: m'[j].parent == m[j].parent
    requires id in m ==> m'[id].parent == Some(to)
    requires forall i: nat :: Up(m, to, i) != Some(id)
    ensures Acyclic(m')
  {
    forall k | k in m' ensures exists n: nat :: Up(m', k, n).None? {
      var bound: nat :| Up(m, k, bound).None?;
      ReparentedWalkEnds(m, m', id, to, k, bound);
    }
  }

  /** Adding a new key keeps every old walk as it was. */
  lemma {:induction false} AddedKeyWalkUnchanged(m: map<Id, Item>, m': map<Id, Item>, added: Id, k: Id, n: nat)
    requires added !in m && m'.Keys == m.Keys + {added}
    requires forall j | j in m :: m'[j].parent == m[j].parent
    requires forall j | j in m :: m[j].parent != Some(added)
    requires k in m
    ensures Up(m', k, n) == Up(m, k, n)
    decreases n
  {
    assert m'[k].parent == m[k].parent;
    if n > 0 && m[k].parent.Some? {
      var q := m[k].parent.value;
      assert q != added;
      if q in m {
        AddedKeyWalkUnchanged(m, m', added, q, n - 1);
      }
    }
  }

  /** Adding a new item under an existing one keeps the map acyclic. */
  lemma AddLeafKeepsAcyclic(m: map<Id, Item>, m': map<Id, Item>, added: Id, p: Id)
    requires Acyclic(m)
    requires added !in m && p in m && m'.Keys == m.Keys + {added}
    requires forall j | j in m :: m'[j].parent == m[j].parent
    requires forall j | j in m :: m[j].parent != Some(added)
    requires m'[added].parent == Some(p)
    ensures Acyclic(m')
  {
    forall k | k in m' ensures exists n: nat :: Up(m', k, n).None? {
      var start := if k == added then p else k;
      var n: nat :| Up(m, start, n).None?;
      AddedKeyWalkUnchanged(m, m', added, start, n);
      if k == added {
        assert Up(m', k, n + 1) == Up(m', p, n);
      }
    }
  }

  /**
   * `isChildrenOf`: walk up from `child` until an item with id `parent` or the
   * top is reached. The source loop only terminates on an acyclic map.
   */
  method IsChildrenOf(m: map<Id, Item>, child: Id, parent: Id) returns (r: bool)
    requires Acyclic(m)
    ensures r == Descends(m, child, parent)
  {
    if child == parent {
      return false;
    }
    var now: Option<Item> := if child in m then Some(m[child]) else None;
    ghost var key := child;
    ghost var steps: nat := 0;
    ghost var bound: nat;
    if child in m {
      bound :| Up(m, child, bound).None?;
    } else {
      bound := 0;
    }
    while now.Some? && now.value.id != parent && now.value.parent.Some?
      invariant now.Some? ==> Up(m, child, steps) == Some(key) && now.value == m[key]
      invariant now.None? ==> Up(m, child, steps).None?
      invariant forall i | 0 <= i < steps :: Up(m, child, i).Some? && m[Up(m, child, i).value].id != parent
      invariant now.Some? ==> steps < bound
      decreases bound - steps
    {
      UpStep(m, child, steps);
      var q := now.value.parent.value;
      now := if q in m then Some(m[q]) else None;
      key := q;
      steps := steps + 1;
      if now.Some? && steps >= bound {
        UpNoneStays(m, child, bound, steps);
      }
    }
    r := if now.Some? then now.value.id == parent else false;
    if !r {
      if now.Some? {
        UpStep(m, child, steps);
      }
      forall n: nat ensures !(Up(m, child, n).Some? && m[Up(m, child, n).value].id == parent) {
        if n > steps || (n == steps && now.None?) {
          var from := if now.None? then steps else steps + 1;
          UpNoneStays(m, child, from, n);
        }
      }
    }
  }
}
