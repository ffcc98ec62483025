# Post list and to-do list state, in Dafny

This project models the client-side logic of a small React application: the
`PostList` component (a list of posts fetched from a REST endpoint, which the
user can reload, extend with a new title, and sort by title or by id) and the
`ToDo` component (a list of strings with add and delete).

- `js_strings.dfy` (module `JsStrings`): JavaScript strings as sequences of
  UTF-16 code units, the `<`/`>` order on them (IsLessThan, section 7.2.13 of
  ECMA-262), and `toLowerCase` for ASCII letters.
- `array_sort.dfy` (module `ArraySort`): `Array.prototype.sort(comparefn)` for a
  consistent comparator (section 23.1.3.30 of ECMA-262, 2023 edition), taken in
  the form that comparators answering -1, 0 or 1 have: swapping the arguments
  negates the answer exactly, and "not after" is transitive. The
  function `StableSort` is the specification. It is proved to give a sorted,
  stable permutation of its input, and to be the only sorted and stable
  arrangement of it, so any conforming engine returns the same array.
  `SortInPlace` is an in-place insertion sort proved to compute it.
- `post_sort.dfy` (module `PostSort`): the post record, the two comparators of
  `sortMyPostsByTitle` and `sortMyPostsById`, their consistency, and the two
  helpers, which sort a fresh copy and leave the caller's array alone.
- `post_list.dfy` (module `PostListState`): the component's `posts` and
  `titleInput` as fields of a class. The handlers `reloadPost`, `addPost`,
  `clickSortTitle` and `clickSortId` are methods. Each network request is
  replaced by a parameter that says how it settled: thrown, or answered with
  `ok`/status and a body. `posts` is an array reference that each handler
  replaces and never writes into, as `setPosts` does.
- `todo.dfy` (module `ToDoList`): the component's `todos` and `value` as fields
  of a class, with `addTodo` and `deleteToDo`.

`addPost` reloads the list and clears the title only when the POST reply's
status is *not* 200 (`src/PostList.tsx:91`). On status 200, nothing changes.
The model keeps this behaviour exactly as the code has it. The code has no
`data` fallback for `records`, no search filtering, no date or author sorting
and no loading flag, so none is modelled.

## Model

| member | source | states |
|---|---|---|
| JsStrings.IsLessThan | src/PostList.tsx:45-46 | `a < b` on two strings: nothing is below the empty string, and a string below another never starts with a larger code unit |
| JsStrings.IsLessThanIsFirstDifference | src/PostList.tsx:45-46 | `a < b` holds exactly when, at the first index where the strings differ, both have a code unit and `a`'s is smaller, or there is no such index and `a` is the shorter (a proper prefix): the definition in section 7.2.13 of ECMA-262 |
| JsStrings.IsLessThanIrreflexive | src/PostList.tsx:45-46 | no title or id is less than itself under `<` |
| JsStrings.IsLessThanAsymmetric | src/PostList.tsx:45-46 | `a < b` and `b < a` never both hold, so at most one of the comparator's first two branches can apply to a pair |
| JsStrings.IsLessThanTransitive | src/PostList.tsx:55-56 | code-unit order on strings is transitive |
| JsStrings.IsLessThanTrichotomy | src/PostList.tsx:55-57 | two strings are equal, or one is less than the other, so the comparator's fall-through `return 0` is reached only for equal keys |
| JsStrings.ToLowerCase | src/PostList.tsx:43-44 | `.toLowerCase()` keeps the length, leaves no capital A-Z in the result, maps each capital to its small letter and keeps every other code unit |
| JsStrings.ToLowerCaseIdempotent | src/PostList.tsx:43-44 | lower-casing an already lower-cased title changes nothing |
| ArraySort.StableSort | src/PostList.tsx:42 | the array `sort` produces: a permutation of its input (same multiset, hence same length); its order is given by the lemmas below |
| ArraySort.StableSortSorted | src/PostList.tsx:42 | for a consistent comparator (one whose answer is negated when its arguments are swapped, as the -1/0/1 comparators here are) the result is sorted: no element comes before one the comparator puts first |
| ArraySort.StableSortStable | src/PostList.tsx:42 | elements that the comparator ties keep their relative input order |
| ArraySort.SortedIsFixpoint | src/PostList.tsx:42 | sorting an already sorted array leaves it as it is |
| ArraySort.StableSortIdempotent | src/PostList.tsx:42 | sorting twice gives the same result as sorting once |
| ArraySort.SortedStableUnique | src/PostList.tsx:42 | two sorted arrays whose groups of tied elements are equal and in the same order are equal |
| ArraySort.StableSortIsTheStableSort | src/PostList.tsx:42 | any sorted and stable rearrangement of the input is the model's result, so the choice of sorting algorithm cannot change the outcome |
| ArraySort.SortInPlace | src/PostList.tsx:54 | the in-place sort leaves the array holding the stable sort of its old contents |
| PostSort.Compare | src/PostList.tsx:42-48 | the comparator answers -1, 0 or 1; below 0 exactly when the first lower-cased title (or id) is below the second under `<`, above 0 exactly when it is above under `>`, so the two `return` branches never both apply |
| PostSort.CompareZeroIffSameKey | src/PostList.tsx:43-47 | the title comparator answers -1, 0 or 1, and 0 exactly when the lower-cased titles are equal (and the id comparator exactly when the ids are equal) |
| PostSort.CompareAntisymmetric | src/PostList.tsx:45-46 | swapping the two posts turns -1 into 1 and back |
| PostSort.CompareNotAfter | src/PostList.tsx:55-57 | the comparator answers -1 or 0 exactly when the first key is equal to or less than the second |
| PostSort.CompareTransitive | src/PostList.tsx:42-48 | "not after" is transitive for both comparators |
| PostSort.ComparatorIsConsistent | src/PostList.tsx:54-58 | both comparators are consistent comparators in the sense `sort` requires |
| PostSort.SortedMeansKeysNonDecreasing | src/PostList.tsx:42-47 | a list is sorted by the comparator exactly when its lower-cased titles (or ids) never decrease in code-unit order |
| PostSort.TiesShareTheKey | src/PostList.tsx:43-47 | the posts tied with a post are exactly those with the same lower-cased title (or id), so stability is about equal titles |
| PostSort.SortTwiceIsSortOnce | src/PostList.tsx:41-49 | sorting by title (or id) twice gives the same list as sorting once |
| PostSort.SortCopy | src/PostList.tsx:41-42 | the spread copy is fresh, sorted, stable and a permutation of the input, and the input array is unchanged |
| PostSort.SortMyPostsByTitle | src/PostList.tsx:40-50 | returns a fresh array holding a sorted, stable permutation of the input by lower-cased title; the caller's array is unchanged |
| PostSort.SortMyPostsById | src/PostList.tsx:52-60 | returns a fresh array holding a sorted, stable permutation of the input by id; the caller's array is unchanged |
| PostListState.Loaded | src/PostList.tsx:70-73 | `setPosts` is reached exactly when the request settles with an ok reply whose body can be read; it receives `records` when present and an empty list when `records` is missing or falsy |
| PostListState.ReloadsAfterPost | src/PostList.tsx:84-94 | `addPost` goes on to reload and clear the field never for an empty title, a thrown request or status 200, and always for a non-empty title whose POST settles with any other status |
| PostListState.PostList.constructor | src/PostList.tsx:65-81 | both fields start empty, and the mount effect then loads the list once |
| PostListState.PostList.ReloadPost | src/PostList.tsx:68-77 | a thrown request, a not-ok reply or an unreadable body leave `posts` unchanged; an ok reply sets it to `records`, or to an empty list when `records` is missing or falsy; the title is untouched |
| PostListState.PostList.EditTitle | src/PostList.tsx:151 | the title field holds the typed text and the list is unchanged |
| PostListState.PostList.AddPost | src/PostList.tsx:83-98 | an empty title sends nothing and changes nothing; otherwise the title is sent with the fixed content; the list reloads and the title clears exactly when the POST settles with a status other than 200 |
| PostListState.PostList.ClickSortTitle | src/PostList.tsx:101-104 | the list becomes a fresh array sorted by lower-cased title; the previous array is not written to; the title is untouched |
| PostListState.PostList.ClickSortId | src/PostList.tsx:106-109 | the list becomes a fresh array sorted by id; the previous array is not written to; the title is untouched |
| ToDoList.WithoutIndex | src/ToDo.tsx:14 | the filter by position removes exactly the element at an in-range index and returns the list unchanged for any other index |
| ToDoList.AppendThenRemoveLast | src/ToDo.tsx:9-14 | removing the position just appended restores the original list |
| ToDoList.ToDo.constructor | src/ToDo.tsx:5-6 | both fields start empty |
| ToDoList.ToDo.EditValue | src/ToDo.tsx:33 | the input field holds the typed text and the list is unchanged |
| ToDoList.ToDo.AddTodo | src/ToDo.tsx:8-11 | appends the field's text, even when it is empty, as the last element; earlier elements keep their places; the field is cleared |
| ToDoList.ToDo.DeleteToDo | src/ToDo.tsx:13-15 | an in-range index removes exactly that element and keeps the others in order; any other index leaves the list unchanged; the field is untouched |
| ToDoList.AddThenDelete | src/ToDo.tsx:8-15 | `addTodo` followed by `deleteToDo` at the old length restores the list and leaves the field empty |

## Left out

- The `fetch` calls, JSON parsing, `console.error` and the endpoint URLs (`src/PostList.tsx:70-97`). These are network I/O. Each reply is a parameter of the handler instead, and `addPost` returns the body it would send.
- JSX, theme colours and styling (`src/PostList.tsx:13-36`, `src/PostList.tsx:111-224`, `src/ToDo.tsx:24-37`), including the six-character id chip. Only the two input fields' `onChange` handlers are modelled, as `EditTitle` and `EditValue`.
- JsStrings.ToLowerCase: folds only the ASCII capitals A-Z. `String.prototype.toLowerCase` also maps non-ASCII capitals and can change a string's length; titles with such characters are not modelled.
- PostListState.PostList.ReloadPost: a `records` field that is truthy but not an array of posts is not modelled; the reply is either a list of posts or missing/falsy.
- ToDoList.ToDo.DeleteToDo: the index is an integer. The handler only ever receives positions from the list's own `map`, so fractional or non-numeric JavaScript numbers are not modelled.
- Overlapping or concurrent handler runs (two reloads in flight, a handler reading a stale render's state). Each handler runs to completion before the next one starts.
- `src/App.tsx`, `src/LearningHooks.tsx` and `src/main.tsx` are not part of this model: they hold the login request, React re-render demonstrations and the mount call.
