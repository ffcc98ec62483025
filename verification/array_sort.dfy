/**
 * `Array.prototype.sort(comparefn)` as section 23.1.3.30 of ECMA-262 (2023)
 * describes it for a consistent comparator: the array is rearranged in place
 * into a sorted permutation of itself, and elements the comparator ties keep
 * their relative order (the sort is stable).
 *
 * `StableSort` is the specification (an insertion that places each element
 * after every earlier element the comparator does not put after it);
 * `SortInPlace` is an in-place insertion sort proved to compute it, and
 * `StableSortIsTheStableSort` shows that no other sorted and stable
 * arrangement exists, so the choice of algorithm does not matter.
 */
module ArraySort {

  /**
   * A consistent comparator in the sense of section 23.1.3.30 of ECMA-262,
   * in the form that comparators answering -1, 0 or 1 take: swapping the
   * arguments negates the answer, and "not after" is transitive.
   */
  ghost predicate IsConsistentComparator<T(!new)>(cmp: (T, T) -> int)
  {
    && (forall a, b :: cmp(a, b) == -cmp(b, a))
    && (forall a, b, c :: cmp(a, b) <= 0 && cmp(b, c) <= 0 ==> cmp(a, c) <= 0)
  }

  /** No element is placed before one the comparator puts first. */
  ghost predicate Sorted<T(!new)>(cmp: (T, T) -> int, s: seq<T>)
  {
    forall i, j :: 0 <= i < j < |s| ==> cmp(s[i], s[j]) <= 0
  }

  /** The elements of `s` that the comparator ties with `e`, in their order in `s`. */
  function Ties<T(!new)>(cmp: (T, T) -> int, s: seq<T>, e: T): seq<T>
  {
    if s == [] then []
    else Ties(cmp, s[..|s| - 1], e) + (if cmp(s[|s| - 1], e) == 0 then [s[|s| - 1]] else [])
  }

  /** `r` keeps every group of tied elements of `s` in its order in `s`. */
  ghost predicate Stable<T(!new)>(cmp: (T, T) -> int, s: seq<T>, r: seq<T>)
  {
    forall e :: Ties(cmp, r, e) == Ties(cmp, s, e)
  }

  /**
   * Inserts `x` into `t` after every element that the comparator does not put
   * after `x`: one step of a stable insertion sort.
   */
  function Insert<T(!new)>(cmp: (T, T) -> int, t: seq<T>, x: T): seq<T>
  {
    if t == [] then [x]
    else if cmp(t[|t| - 1], x) > 0 then Insert(cmp, t[..|t| - 1], x) + [t[|t| - 1]]
    else t + [x]
  }

  /** The stable sort of `s` under `cmp`: a permutation of `s`. */
  function StableSort<T(!new)>(cmp: (T, T) -> int, s: seq<T>): (r: seq<T>)
    ensures multiset(r) == multiset(s)
  {
    if s == [] then []
    else
      var init := s[..|s| - 1];
      InsertPermutation(cmp, StableSort(cmp, init), s[|s| - 1]);
      assert s == init + [s[|s| - 1]];
      Insert(cmp, StableSort(cmp, init), s[|s| - 1])
  }

  lemma {:induction false} InsertPermutation<T(!new)>(cmp: (T, T) -> int, t: seq<T>, x: T)
    ensures multiset(Insert(cmp, t, x)) == multiset(t) + multiset{x}
  {
    if t != [] && cmp(t[|t| - 1], x) > 0 {
      InsertPermutation(cmp, t[..|t| - 1], x);
      assert t == t[..|t| - 1] + [t[|t| - 1]];
    }
  }

  /** No element of `s` is placed after `b` by the comparator. */
  ghost predicate NotAfter<T(!new)>(cmp: (T, T) -> int, s: seq<T>, b: T)
  {
    forall i :: 0 <= i < |s| ==> cmp(s[i], b) <= 0
  }

  lemma {:induction false} InsertNotAfter<T(!new)>(cmp: (T, T) -> int, t: seq<T>, x: T, b: T)
    requires NotAfter(cmp, t, b) && cmp(x, b) <= 0
    ensures NotAfter(cmp, Insert(cmp, t, x), b)
  {
    if t != [] && cmp(t[|t| - 1], x) > 0 {
      InsertNotAfter(cmp, t[..|t| - 1], x, b);
    }
  }

  lemma {:induction false} InsertSorted<T(!new)>(cmp: (T, T) -> int, t: seq<T>, x: T)
    requires IsConsistentComparator(cmp)
    requires Sorted(cmp, t)
    ensures Sorted(cmp, Insert(cmp, t, x))
  {
    if t == [] {
    } else if cmp(t[|t| - 1], x) > 0 {
      var init, last := t[..|t| - 1], t[|t| - 1];
      assert Sorted(cmp, init);
      InsertSorted(cmp, init, x);
      assert cmp(x, last) == -cmp(last, x);
      InsertNotAfter(cmp, init, x, last);
    } else {
      var last := t[|t| - 1];
      forall i | 0 <= i < |t| - 1
        ensures cmp(t[i], x) <= 0
      {
        assert cmp(t[i], last) <= 0;
      }
    }
  }

  /** The sort's result is non-decreasing under the comparator. */
  lemma {:induction false} StableSortSorted<T(!new)>(cmp: (T, T) -> int, s: seq<T>)
    requires IsConsistentComparator(cmp)
    ensures Sorted(cmp, StableSort(cmp, s))
  {
    if s != [] {
      StableSortSorted(cmp, s[..|s| - 1]);
      InsertSorted(cmp, StableSort(cmp, s[..|s| - 1]), s[|s| - 1]);
    }
  }

  lemma {:induction false} InsertStable<T(!new)>(cmp: (T, T) -> int, t: seq<T>, x: T, e: T)
    requires IsConsistentComparator(cmp)
    ensures Ties(cmp, Insert(cmp, t, x), e) == Ties(cmp, t, e) + (if cmp(x, e) == 0 then [x] else [])
  {
    if t == [] {
      assert Ties(cmp, [x], e) == Ties(cmp, [], e) + (if cmp(x, e) == 0 then [x] else []);
    } else if cmp(t[|t| - 1], x) > 0 {
      var init, last := t[..|t| - 1], t[|t| - 1];
      var u := Insert(cmp, init, x);
      InsertStable(cmp, init, x, e);
      assert cmp(e, x) == -cmp(x, e);
      assert cmp(last, e) <= 0 && cmp(e, x) <= 0 ==> cmp(last, x) <= 0;
      assert (u + [last])[..|u + [last]| - 1] == u;
    } else {
      assert (t + [x])[..|t + [x]| - 1] == t;
    }
  }

  /** Elements the comparator ties keep their relative input order. */
  lemma {:induction false} StableSortStable<T(!new)>(cmp: (T, T) -> int, s: seq<T>, e: T)
    requires IsConsistentComparator(cmp)
    ensures Ties(cmp, StableSort(cmp, s), e) == Ties(cmp, s, e)
  {
    if s != [] {
      StableSortStable(cmp, s[..|s| - 1], e);
      InsertStable(cmp, StableSort(cmp, s[..|s| - 1]), s[|s| - 1], e);
    }
  }

  /** An input that is already sorted comes back unchanged. */
  lemma {:induction false} SortedIsFixpoint<T(!new)>(cmp: (T, T) -> int, s: seq<T>)
    requires Sorted(cmp, s)
    ensures StableSort(cmp, s) == s
  {
    if s != [] {
      var init := s[..|s| - 1];
      assert Sorted(cmp, init);
      SortedIsFixpoint(cmp, init);
      var x := s[|s| - 1];
      assert init == [] || cmp(init[|init| - 1], x) <= 0;
      assert Insert(cmp, init, x) == init + [x];
      assert s == init + [x];
    }
  }

  /** Sorting twice gives the same result as sorting once. */
  lemma StableSortIdempotent<T(!new)>(cmp: (T, T) -> int, s: seq<T>)
    requires IsConsistentComparator(cmp)
    ensures StableSort(cmp, StableSort(cmp, s)) == StableSort(cmp, s)
  {
    StableSortSorted(cmp, s);
    SortedIsFixpoint(cmp, StableSort(cmp, s));
  }

  lemma {:induction false} TiesMember<T(!new)>(cmp: (T, T) -> int, s: seq<T>, e: T, x: T)
    requires x in Ties(cmp, s, e)
    ensures x in s && cmp(x, e) == 0
  {
    var init := s[..|s| - 1];
    if x in Ties(cmp, init, e) {
      TiesMember(cmp, init, e, x);
      assert x in s[..|s| - 1];
    }
  }

  lemma {:induction false} TiesComplete<T(!new)>(cmp: (T, T) -> int, s: seq<T>, e: T, x: T)
    requires x in s && cmp(x, e) == 0
    ensures x in Ties(cmp, s, e)
  {
    var init := s[..|s| - 1];
    if x != s[|s| - 1] {
      assert s == init + [s[|s| - 1]];
      TiesComplete(cmp, init, e, x);
    }
  }

  lemma SortedLastIsMaximal<T(!new)>(cmp: (T, T) -> int, s: seq<T>, x: T)
    requires IsConsistentComparator(cmp)
    requires Sorted(cmp, s) && x in s
    ensures cmp(x, s[|s| - 1]) <= 0
  {
    var i :| 0 <= i < |s| && s[i] == x;
    assert cmp(x, x) == -cmp(x, x);
  }

  lemma TiesOfLast<T(!new)>(cmp: (T, T) -> int, s: seq<T>, e: T)
    requires s != []
    ensures Ties(cmp, s, e) == Ties(cmp, s[..|s| - 1], e) + (if cmp(s[|s| - 1], e) == 0 then [s[|s| - 1]] else [])
  {
  }

  /** A non-empty sequence has a non-empty group of ties with its last element. */
  lemma LastHasTies<T(!new)>(cmp: (T, T) -> int, s: seq<T>)
    requires IsConsistentComparator(cmp)
    requires s != []
    ensures Ties(cmp, s, s[|s| - 1]) != []
    ensures Ties(cmp, s, s[|s| - 1])[|Ties(cmp, s, s[|s| - 1])| - 1] == s[|s| - 1]
  {
    var x := s[|s| - 1];
    assert cmp(x, x) == -cmp(x, x);
    TiesOfLast(cmp, s, x);
  }

  /** Two sorted sequences with the same groups of ties end with the same element. */
  lemma SameLast<T(!new)>(cmp: (T, T) -> int, r: seq<T>, q: seq<T>)
    requires IsConsistentComparator(cmp)
    requires Sorted(cmp, r) && Sorted(cmp, q) && r != [] && q != []
    requires forall e :: Ties(cmp, r, e) == Ties(cmp, q, e)
    ensures r[|r| - 1] == q[|q| - 1]
  {
    var x, y := r[|r| - 1], q[|q| - 1];
    LastHasTies(cmp, r);
    LastHasTies(cmp, q);
    assert x in Ties(cmp, q, x);
    TiesMember(cmp, q, x, x);
    SortedLastIsMaximal(cmp, q, x);
    assert y in Ties(cmp, r, y);
    TiesMember(cmp, r, y, y);
    SortedLastIsMaximal(cmp, r, y);
    assert cmp(x, y) == 0 && cmp(y, x) == 0;
    TiesOfLast(cmp, q, x);
  }

  /** Dropping the same last element from both keeps their groups of ties equal. */
  lemma DropLastTies<T(!new)>(cmp: (T, T) -> int, r: seq<T>, q: seq<T>, e: T)
    requires r != [] && q != [] && r[|r| - 1] == q[|q| - 1]
    requires Ties(cmp, r, e) == Ties(cmp, q, e)
    ensures Ties(cmp, r[..|r| - 1], e) == Ties(cmp, q[..|q| - 1], e)
  {
    var x := r[|r| - 1];
    TiesOfLast(cmp, r, e);
    TiesOfLast(cmp, q, e);
    var tail := if cmp(x, e) == 0 then [x] else [];
    var tr := Ties(cmp, r, e);
    assert Ties(cmp, r[..|r| - 1], e) == tr[..|tr| - |tail|];
    assert Ties(cmp, q[..|q| - 1], e) == tr[..|tr| - |tail|];
  }

  /**
   * Two sorted sequences that order every group of tied elements alike are
   * equal: a sorted and stable result is determined by its input.
   */
  lemma {:induction false} SortedStableUnique<T(!new)>(cmp: (T, T) -> int, r: seq<T>, q: seq<T>)
    requires IsConsistentComparator(cmp)
    requires Sorted(cmp, r) && Sorted(cmp, q)
    requires forall e :: Ties(cmp, r, e) == Ties(cmp, q, e)
    ensures r == q
    decreases |r| + |q|
  {
    if r == [] && q != [] {
      LastHasTies(cmp, q);
    } else if r != [] && q == [] {
      LastHasTies(cmp, r);
    } else if r != [] {
      SameLast(cmp, r, q);
      var r', q' := r[..|r| - 1], q[..|q| - 1];
      forall e
        ensures Ties(cmp, r', e) == Ties(cmp, q', e)
      {
        DropLastTies(cmp, r, q, e);
      }
      assert Sorted(cmp, r');
      assert Sorted(cmp, q');
      SortedStableUnique(cmp, r', q');
      assert r == r' + [r[|r| - 1]] && q == q' + [q[|q| - 1]];
    }
  }

  /**
   * `StableSort` is the only sorted and stable arrangement of its input, so
   * it is what any conforming implementation of the sort returns.
   */
  lemma StableSortIsTheStableSort<T(!new)>(cmp: (T, T) -> int, s: seq<T>, r: seq<T>)
    requires IsConsistentComparator(cmp)
    requires Sorted(cmp, r) && Stable(cmp, s, r)
    ensures r == StableSort(cmp, s)
  {
    StableSortSorted(cmp, s);
    forall e
      ensures Ties(cmp, r, e) == Ties(cmp, StableSort(cmp, s), e)
    {
      StableSortStable(cmp, s, e);
    }
    SortedStableUnique(cmp, r, StableSort(cmp, s));
  }

  /**
   * Where `Insert` puts `x`: after `t[..j]` when every later element is put
   * after `x` and `t[j - 1]`, if any, is not.
   */
  lemma {:induction false} InsertAt<T(!new)>(cmp: (T, T) -> int, t: seq<T>, j: nat, x: T)
    requires j <= |t|
    requires forall k :: j <= k < |t| ==> cmp(t[k], x) > 0
    requires j == 0 || cmp(t[j - 1], x) <= 0
    ensures Insert(cmp, t, x) == t[..j] + [x] + t[j..]
    decreases |t|
  {
    if j < |t| {
      var init := t[..|t| - 1];
      InsertAt(cmp, init, j, x);
      assert init[..j] == t[..j];
      assert init[j..] + [t[|t| - 1]] == t[j..];
    }
  }

  /**
   * Shifts one place right every element at the end of `a[..i]` that the
   * comparator puts after `x`, and returns the gap left before them.
   */
  method ShiftAfter<T(!new)>(a: array<T>, i: nat, x: T, cmp: (T, T) -> int) returns (j: nat)
    requires i < a.Length
    modifies a
    ensures j <= i
    ensures forall k :: 0 <= k < j ==> a[k] == old(a[k])
    ensures forall k :: j < k <= i ==> a[k] == old(a[k - 1]) && cmp(a[k], x) > 0
    ensures forall k :: i < k < a.Length ==> a[k] == old(a[k])
    ensures j == 0 || cmp(a[j - 1], x) <= 0
  {
    j := i;
    while j > 0 && cmp(a[j - 1], x) > 0
      invariant 0 <= j <= i
      invariant forall k :: 0 <= k < j ==> a[k] == old(a[k])
      invariant forall k :: j < k <= i ==> a[k] == old(a[k - 1]) && cmp(a[k], x) > 0
      invariant forall k :: i < k < a.Length ==> a[k] == old(a[k])
    {
      a[j] := a[j - 1];
      j := j - 1;
    }
  }

  /**
   * The array after the shift and the store of `x` into the gap at `j`: its
   * first `i + 1` cells hold the old prefix with `x` placed at `j`, and the
   * cells after them are as before.
   */
  lemma {:induction false} ShiftedThenPlaced<T>(o: seq<T>, m: seq<T>, i: nat, j: nat, x: T)
    requires j <= i < |o| == |m|
    requires forall k :: 0 <= k < j ==> m[k] == o[k]
    requires forall k :: j < k <= i ==> m[k] == o[k - 1]
    requires forall k :: i < k < |o| ==> m[k] == o[k]
    ensures m[j := x][..i + 1] == o[..i][..j] + [x] + o[..i][j..]
    ensures m[j := x][i + 1..] == o[i + 1..]
  {
    var r := m[j := x];
    var want := o[..i][..j] + [x] + o[..i][j..];
    forall k | 0 <= k <= i
      ensures r[k] == want[k]
    {
      if k > j {
        assert want[k] == o[..i][j..][k - j - 1];
      }
    }
  }

  /**
   * Moves `a[i]` left past every element at the end of the sorted prefix
   * `a[..i]` that the comparator puts after it.
   */
  method InsertInPlace<T(!new)>(a: array<T>, i: nat, cmp: (T, T) -> int)
    requires i < a.Length
    modifies a
    ensures a[..i + 1] == Insert(cmp, old(a[..i]), old(a[i]))
    ensures a[i + 1..] == old(a[i + 1..])
  {
    ghost var o := a[..];
    ghost var t := a[..i];
    var x := a[i];
    var j := ShiftAfter(a, i, x, cmp);
    ghost var m := a[..];
    forall k | j <= k < i
      ensures cmp(t[k], x) > 0
    {
      assert t[k] == m[k + 1];
    }
    InsertAt(cmp, t, j, x);
    a[j] := x;
    assert a[..] == m[j := x];
    ShiftedThenPlaced(o, m, i, j, x);
    assert a[..i + 1] == a[..][..i + 1] && a[i + 1..] == a[..][i + 1..];
  }

  /** Sorting one more element of `s` inserts it into the sorted shorter prefix. */
  lemma StableSortPrefix<T(!new)>(cmp: (T, T) -> int, s: seq<T>, i: nat)
    requires i < |s|
    ensures StableSort(cmp, s[..i + 1]) == Insert(cmp, StableSort(cmp, s[..i]), s[i])
  {
    assert s[..i + 1][..i] == s[..i];
  }

  /** `a.sort(cmp)`: a stable insertion sort in place. */
  method SortInPlace<T(!new)>(a: array<T>, cmp: (T, T) -> int)
    modifies a
    ensures a[..] == StableSort(cmp, old(a[..]))
  {
    ghost var s := a[..];
    var i := 0;
    while i < a.Length
      invariant 0 <= i <= a.Length
      invariant a[..i] == StableSort(cmp, s[..i])
      invariant a[i..] == s[i..]
    {
      ghost var prev := a[..];
      assert prev[i] == s[i] by {
        assert a[i..][0] == a[i] && s[i..][0] == s[i];
      }
      assert a[i + 1..] == s[i + 1..] by {
        assert a[i + 1..] == a[i..][1..] && s[i + 1..] == s[i..][1..];
      }
      InsertInPlace(a, i, cmp);
      StableSortPrefix(cmp, s, i);
      i := i + 1;
    }
    assert s[..a.Length] == s;
  }
}
