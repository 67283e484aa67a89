/**
 * The immutable-list operations the reducer relies on (`indexOf`, `filter`,
 * `insert`, `unshift`), stated over Dafny sequences.
 */
module Lists {

  /** No element occurs twice. */
  ghost predicate NoDup<T>(s: seq<T>) {
    forall i, j | 0 <= i < j < |s| :: s[i] != s[j]
  }

  /** Index of the first occurrence of `x`, or -1 when `x` is absent (like `List.indexOf`). */
  function IndexOf<T(==)>(s: seq<T>, x: T): (r: int)
    ensures -1 <= r < |s|
    ensures r == -1 <==> x !in s
    ensures 0 <= r ==> s[r] == x && x !in s[..r]
  {
    if |s| == 0 then -1
    else if s[0] == x then 0
    else
      var k := IndexOf(s[1..], x);
      if k == -1 then -1
      else
        assert s[..k + 1] == [s[0]] + s[1..][..k];
        k + 1
  }

  /** `s` with every occurrence of `x` dropped, order kept (like `filter(v => v !== x)`). */
  function Without<T(==,!new)>(s: seq<T>, x: T): (r: seq<T>)
    ensures |r| <= |s|
  {
    if |s| == 0 then []
    else if s[0] == x then Without(s[1..], x)
    else [s[0]] + Without(s[1..], x)
  }

  /** `s` with `x` inserted so that it lands at index `i` (like `List.insert`). */
  function InsertAt<T(!new)>(s: seq<T>, i: nat, x: T): (r: seq<T>)
    requires i <= |s|
    ensures |r| == |s| + 1 && r[i] == x
    ensures r[..i] == s[..i] && r[i + 1..] == s[i..]
  {
    s[..i] + [x] + s[i..]
  }

  /** `Without` keeps exactly the elements other than `x`. */
  lemma {:induction false} WithoutMembers<T(!new)>(s: seq<T>, x: T)
    ensures forall y :: y in Without(s, x) <==> y in s && y != x
  {
    if |s| > 0 {
      WithoutMembers(s[1..], x);
      assert s == [s[0]] + s[1..];
    }
  }

  /** Filtering a concatenation filters each part and keeps them in order. */
  lemma {:induction false} WithoutConcat<T(!new)>(a: seq<T>, b: seq<T>, x: T)
    ensures Without(a + b, x) == Without(a, x) + Without(b, x)
  {
    if |a| == 0 {
      assert a + b == b;
    } else {
      assert (a + b)[0] == a[0] && (a + b)[1..] == a[1..] + b;
      WithoutConcat(a[1..], b, x);
    }
  }

  /** `InsertAt` adds `x` to the elements of `s`. */
  lemma InsertAtMembers<T(!new)>(s: seq<T>, i: nat, x: T)
    requires i <= |s|
    ensures forall y :: y in InsertAt(s, i, x) <==> y == x || y in s
  {
    assert s == s[..i] + s[i..];
  }

  /** `index` forced into `[0, size]`. */
  function Clamp(index: int, size: nat): (r: nat)
    ensures r <= size
    ensures 0 <= index <= size ==> r == index
  {
    if index < 0 then 0 else if index > size then size else index
  }

  lemma {:induction false} WithoutKeepsNoDup<T(!new)>(s: seq<T>, x: T)
    requires NoDup(s)
    ensures NoDup(Without(s, x))
  {
    if |s| > 0 {
      assert NoDup(s[1..]);
      WithoutKeepsNoDup(s[1..], x);
      if s[0] != x {
        var w := Without(s[1..], x);
        assert s[0] !in s[1..];
        WithoutMembers(s[1..], x);
        assert s[0] !in w;
        assert Without(s, x) == [s[0]] + w;
        forall i, j | 0 <= i < j < |[s[0]] + w| ensures ([s[0]] + w)[i] != ([s[0]] + w)[j] {
          if i == 0 {
            assert ([s[0]] + w)[j] == w[j - 1];
            assert w[j - 1] in w;
          } else {
            assert ([s[0]] + w)[i] == w[i - 1] && ([s[0]] + w)[j] == w[j - 1];
          }
        }
      }
    }
  }

  lemma {:induction false} WithoutAbsent<T(!new)>(s: seq<T>, x: T)
    requires x !in s
    ensures Without(s, x) == s
  {
    if |s| > 0 {
      WithoutAbsent(s[1..], x);
      assert s == [s[0]] + s[1..];
    }
  }

  /** Dropping the only occurrence of `x`, found at index `i`, splices the list around `i`. */
  lemma {:induction false} WithoutAt<T(!new)>(s: seq<T>, i: nat, x: T)
    requires NoDup(s) && i < |s| && s[i] == x
    ensures Without(s, x) == s[..i] + s[i + 1..]
  {
    if i == 0 {
      assert x !in s[1..] by {
        forall j | 0 <= j < |s[1..]| ensures s[1..][j] != x {
          assert s[1..][j] == s[j + 1];
        }
      }
      WithoutAbsent(s[1..], x);
    } else {
      assert NoDup(s[1..]);
      assert s[1..][i - 1] == x;
      WithoutAt(s[1..], i - 1, x);
      assert s[0] != x;
      assert s[..i] == [s[0]] + s[1..][..i - 1];
      assert s[i + 1..] == s[1..][i..];
    }
  }

  lemma InsertKeepsNoDup<T(!new)>(s: seq<T>, i: nat, x: T)
    requires NoDup(s) && x !in s && i <= |s|
    ensures NoDup(InsertAt(s, i, x))
  {
    var r := InsertAt(s, i, x);
    forall a, b | 0 <= a < b < |r| ensures r[a] != r[b] {
      if a < i {
        assert r[a] == s[a];
        if b == i { assert s[a] in s; }
        else if b > i { assert r[b] == r[i + 1..][b - i - 1] == s[b - 1]; }
      } else if a == i {
        assert r[b] == r[i + 1..][b - i - 1] == s[b - 1];
        assert s[b - 1] in s;
      } else {
        assert r[a] == r[i + 1..][a - i - 1] == s[a - 1];
        assert r[b] == r[i + 1..][b - i - 1] == s[b - 1];
      }
    }
  }

  /** In a list without duplicates, `IndexOf` finds the position an element sits at. */
  lemma IndexOfAt<T>(s: seq<T>, i: nat)
    requires NoDup(s) && i < |s|
    ensures IndexOf(s, s[i]) == i
  {
    assert s[i] in s;
  }

  /** Removing an element appended to a list without it gives the list back. */
  lemma WithoutAppended<T(!new)>(s: seq<T>, x: T)
    requires NoDup(s) && x !in s
    ensures Without(s + [x], x) == s
  {
    InsertKeepsNoDup(s, |s|, x);
    assert InsertAt(s, |s|, x) == s + [x];
    WithoutAt(s + [x], |s|, x);
    assert (s + [x])[..|s|] == s;
  }

  /** Splicing out index `i` and inserting the same element back at `i` restores the list. */
  lemma InsertRemoved<T(!new)>(s: seq<T>, i: nat)
    requires i < |s|
    ensures InsertAt(s[..i] + s[i + 1..], i, s[i]) == s
  {
    var b := s[..i] + s[i + 1..];
    var r := InsertAt(b, i, s[i]);
    assert b[..i] == s[..i];
    assert b[i..] == s[i + 1..];
    assert r == r[..i] + [r[i]] + r[i + 1..];
    assert s == s[..i] + [s[i]] + s[i + 1..];
  }

  /**
   * Inserting `x` at index `j` (or `j + 1`) puts it just before (or just after)
   * the element at `j` and keeps the rest of the list in order.
   */
  lemma PlaceBeside<T(!new)>(base: seq<T>, j: nat, x: T, after: bool)
    requires j < |base|
    ensures var i := if after then j + 1 else j;
      var r := InsertAt(base, i, x);
      && r[i] == x && r[..i] + r[i + 1..] == base
      && (after ==> r[j] == base[j])
      && (!after ==> r[j + 1] == base[j])
  {
    var i := if after then j + 1 else j;
    var r := InsertAt(base, i, x);
    assert base == base[..i] + base[i..];
    if after {
      assert r[j] == r[..i][j];
    } else {
      assert r[j + 1] == r[i + 1..][0];
    }
  }

  /** Removing the element at `i` shifts every later element one place to the left. */
  lemma ShiftAfterRemoval<T>(s: seq<T>, i: nat, k: nat)
    requires i < |s| && k < |s| && i != k
    ensures var j := if i < k then k - 1 else k;
      j < |s| - 1 && (s[..i] + s[i + 1..])[j] == s[k]
  {
    if i < k {
      assert (s[..i] + s[i + 1..])[k - 1] == s[i + 1..][k - 1 - i];
    } else {
      assert (s[..i] + s[i + 1..])[k] == s[..i][k];
    }
  }
}
