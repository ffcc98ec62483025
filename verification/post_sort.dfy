/**
 * The two sorting helpers of the post list, `sortMyPostsByTitle` and
 * `sortMyPostsById`. Each spreads the caller's array into a new one and sorts
 * the copy with a comparator that answers -1, 1 or 0 from `<` and `>` on one
 * string per post: the lower-cased title, or the id.
 */
module PostSort {
  import opened JsStrings
  import opened ArraySort

  /** A post record as the list holds it. */
  datatype Post = Post(id: JsString, title: JsString, content: JsString)

  /** Which of the two comparators a helper hands to `sort`. */
  datatype Order = ByTitle | ById

  /** The string the comparator of `o` looks at. */
  function Key(o: Order, p: Post): JsString
  {
    match o
    case ByTitle => ToLowerCase(p.title)
    case ById => p.id
  }

  /**
   * The comparator: -1 when `a`'s key is below `b`'s under `<`, 1 when it is
   * above under `>`, 0 otherwise; the first two cases exclude each other.
   */
  function Compare(o: Order, a: Post, b: Post): (r: int)
    ensures r == -1 || r == 0 || r == 1
    ensures r < 0 <==> IsLessThan(Key(o, a), Key(o, b))
    ensures r > 0 <==> IsLessThan(Key(o, b), Key(o, a))
  {
    var ka, kb := Key(o, a), Key(o, b);
    if IsLessThan(ka, kb) then IsLessThanAsymmetric(ka, kb); -1
    else if IsLessThan(kb, ka) then 1
    else 0
  }

  /** The comparator as the function value passed to `sort`. */
  function Comparator(o: Order): (Post, Post) -> int
  {
    (a, b) => Compare(o, a, b)
  }

  /** `ka` is not after `kb` in code-unit order. */
  predicate NotAfterKey(ka: JsString, kb: JsString)
  {
    ka == kb || IsLessThan(ka, kb)
  }

  /** The comparator answers -1, 0 or 1, and 0 exactly on equal keys. */
  lemma CompareZeroIffSameKey(o: Order, a: Post, b: Post)
    ensures Compare(o, a, b) == -1 || Compare(o, a, b) == 0 || Compare(o, a, b) == 1
    ensures Compare(o, a, b) == 0 <==> Key(o, a) == Key(o, b)
  {
    IsLessThanTrichotomy(Key(o, a), Key(o, b));
    IsLessThanIrreflexive(Key(o, a));
  }

  /** Swapping the arguments turns -1 into 1 and back. */
  lemma CompareAntisymmetric(o: Order, a: Post, b: Post)
    ensures Compare(o, a, b) == -Compare(o, b, a)
  {
    if IsLessThan(Key(o, a), Key(o, b)) {
      IsLessThanAsymmetric(Key(o, a), Key(o, b));
    }
  }

  /** The comparator puts `a` first, or ties it, exactly when its key is not after `b`'s. */
  lemma CompareNotAfter(o: Order, a: Post, b: Post)
    ensures Compare(o, a, b) <= 0 <==> NotAfterKey(Key(o, a), Key(o, b))
  {
    IsLessThanTrichotomy(Key(o, a), Key(o, b));
    if IsLessThan(Key(o, a), Key(o, b)) {
      IsLessThanAsymmetric(Key(o, a), Key(o, b));
    }
  }

  /** "Not after" is transitive. */
  lemma CompareTransitive(o: Order, a: Post, b: Post, c: Post)
    requires Compare(o, a, b) <= 0 && Compare(o, b, c) <= 0
    ensures Compare(o, a, c) <= 0
  {
    var ka, kb, kc := Key(o, a), Key(o, b), Key(o, c);
    CompareNotAfter(o, a, b);
    CompareNotAfter(o, b, c);
    CompareNotAfter(o, a, c);
    if IsLessThan(ka, kb) && IsLessThan(kb, kc) {
      IsLessThanTransitive(ka, kb, kc);
    }
  }

  /** Both comparators meet the requirement `sort` places on a comparator. */
  lemma ComparatorIsConsistent(o: Order)
    ensures IsConsistentComparator(Comparator(o))
  {
    var cmp := Comparator(o);
    forall a, b
      ensures cmp(a, b) == -cmp(b, a)
    {
      CompareAntisymmetric(o, a, b);
    }
    forall a, b, c | cmp(a, b) <= 0 && cmp(b, c) <= 0
      ensures cmp(a, c) <= 0
    {
      CompareTransitive(o, a, b, c);
    }
  }

  /** Sorted under the comparator means the keys never decrease in code-unit order. */
  lemma SortedMeansKeysNonDecreasing(o: Order, s: seq<Post>)
    ensures Sorted(Comparator(o), s) <==>
      forall i, j :: 0 <= i < j < |s| ==> NotAfterKey(Key(o, s[i]), Key(o, s[j]))
  {
    forall i, j | 0 <= i < j < |s|
      ensures Comparator(o)(s[i], s[j]) <= 0 <==> NotAfterKey(Key(o, s[i]), Key(o, s[j]))
    {
      CompareNotAfter(o, s[i], s[j]);
    }
  }

  /** Two posts are tied by the comparator exactly when they have the same key. */
  lemma TiesShareTheKey(o: Order, s: seq<Post>, e: Post, p: Post)
    ensures p in Ties(Comparator(o), s, e) <==> p in s && Key(o, p) == Key(o, e)
  {
    CompareZeroIffSameKey(o, p, e);
    if p in Ties(Comparator(o), s, e) {
      TiesMember(Comparator(o), s, e, p);
    } else if p in s && Key(o, p) == Key(o, e) {
      TiesComplete(Comparator(o), s, e, p);
    }
  }

  /** Sorting an already sorted list again changes nothing: sorting twice is sorting once. */
  lemma SortTwiceIsSortOnce(o: Order, s: seq<Post>)
    ensures StableSort(Comparator(o), StableSort(Comparator(o), s)) == StableSort(Comparator(o), s)
  {
    ComparatorIsConsistent(o);
    StableSortIdempotent(Comparator(o), s);
  }

  /**
   * Spreads `original` into a fresh array and sorts it: the result is a
   * sorted, stable permutation of the input, and the input is left alone.
   */
  method SortCopy(original: array<Post>, o: Order) returns (copy: array<Post>)
    ensures fresh(copy)
    ensures original[..] == old(original[..])
    ensures copy[..] == StableSort(Comparator(o), original[..])
    ensures multiset(copy[..]) == multiset(original[..])
    ensures Sorted(Comparator(o), copy[..])
    ensures Stable(Comparator(o), original[..], copy[..])
  {
    copy := new Post[original.Length](i reads original requires 0 <= i < original.Length => original[i]);
    assert copy[..] == original[..];
    SortInPlace(copy, Comparator(o));
    ComparatorIsConsistent(o);
    StableSortSorted(Comparator(o), original[..]);
    forall e
      ensures Ties(Comparator(o), copy[..], e) == Ties(Comparator(o), original[..], e)
    {
      StableSortStable(Comparator(o), original[..], e);
    }
  }

  /** `sortMyPostsByTitle`: a sorted copy, by lower-cased title. */
  method SortMyPostsByTitle(original: array<Post>) returns (copy: array<Post>)
    ensures fresh(copy)
    ensures original[..] == old(original[..])
    ensures copy[..] == StableSort(Comparator(ByTitle), original[..])
    ensures multiset(copy[..]) == multiset(original[..])
    ensures Sorted(Comparator(ByTitle), copy[..])
    ensures Stable(Comparator(ByTitle), original[..], copy[..])
  {
    copy := SortCopy(original, ByTitle);
  }

  /** `sortMyPostsById`: a sorted copy, by id. */
  method SortMyPostsById(original: array<Post>) returns (copy: array<Post>)
    ensures fresh(copy)
    ensures original[..] == old(original[..])
    ensures copy[..] == StableSort(Comparator(ById), original[..])
    ensures multiset(copy[..]) == multiset(original[..])
    ensures Sorted(Comparator(ById), copy[..])
    ensures Stable(Comparator(ById), original[..], copy[..])
  {
    copy := SortCopy(original, ById);
  }
}
