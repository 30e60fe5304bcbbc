# UserTable: derived rows and fetch state

This project models the logic of the `UserTable` React component of a small
front-end exercise. The component fetches a list of users, maps them to table
rows, filters and sorts the rows per the user's column choices, and shows a
loading or an error placeholder when there is nothing to show. The model is
written in Dafny and its properties are proved.

- `rows.dfy`, module `Rows`: the `DataRow` shape, the raw API user and the
  record mapper `toDataTable`.
- `text.dfy`, module `Text`: JavaScript's `<` on strings, with the order
  lemmas the comparator needs, and an ASCII `toUpperCase` used in the worked
  sorting examples.
- `filtering.dfy`, module `Filtering`: the per-row callback of `data.filter`,
  written test by test as the code does it, and `Select`, the reference
  meaning it is proved against (a row is kept exactly when every truthy
  pattern of firstName, lastName, email, company and phone matches its field).
  The regular-expression engine is a parameter (`RegexEngine`): whether
  `new RegExp(p, "i")` succeeds and whether `search` finds a match.
- `sorting.dfy`, module `Sorting`: the comparator, `SortRows` (the stable
  insertion order it induces), and `SortInPlace`, the in-place array sort that
  `data.sort(...)` performs. `toUpperCase` is a parameter `upper` here: the
  order lemmas hold for any upper-casing function, and the examples use the
  ASCII one.
- `user_table.dfy`, module `UserTableComponent`: the component as a class with
  the fields `dataTable` (an array), `loading`, `error`, `filter` and `sort`;
  mounting, the end of a fetch, `onSort`, `onFilter`, the memoised derivation
  and the placeholder conditions.
- `wrappers.dfy`, module `Wrappers`: `Option` and `Result`; an `Err` stands for
  a thrown exception.

Behaviour reproduced as the code has it, including where a reader would
expect otherwise:

- The sort direction `"desc"` gives the multiplier 1, so it lists keys from
  smallest to largest. Every other direction lists them from largest to
  smallest (`DescendingExample`, `AscendingExample`).
- `fetchData` never sets `loading` back to true, so a retry does not re-enter
  a loading state. `error` is never cleared, not even by a successful retry.
- Without a filter object the derived array is the stored `dataTable` itself,
  so sorting reorders the stored rows (`Derive`). Clearing the sort afterwards
  shows the last sorted order, not the fetch order.
- A malformed pattern is not ignored: `new RegExp` throws, and the exception
  escapes the derivation (`Thrown`). It throws only when every earlier tested
  column matched the row, and never when there are no rows.
- `onFilter(undefined)` stores `{}`, which is a filter object. From then on
  the derived array is a copy even when no pattern is set.
- The two placeholders depend only on the flags and on the row count. But
  `loading` is true only before the first fetch ends, and then `error` is
  false. So in reachable states they never show together (`Valid`,
  `PlaceholdersExclusive`), provided the `catch` and `finally` updates of a
  failed first fetch render together, as with React 18's automatic batching.
  A render between `setError(true)` and `setLoading(false)` would show both.
- Overlapping fetches settle in whatever order they finish. Each completion
  is one `Settle` call, so the last successful one to finish decides
  `dataTable`; a later failure keeps those rows and sets `error`.

## Model

| member | source | states |
|---|---|---|
| `Rows.ToDataTable` | src/components/UserTable/UserTable.tsx:41-53 | the mapper succeeds exactly when every user has a company object; the result has one row per user, in order, with `id`, `email`, `birthDate`, `phone` copied, `firstName`/`lastName` from `firstname`/`lastname` and `company` from `company.name` |
| `Rows.ToDataTableRoundTrip` | src/components/UserTable/UserTable.tsx:41-53 | mapping the API form of any rows gives back exactly those rows |
| `Text.LessTrichotomous` | src/components/UserTable/UserTable.tsx:126 | any two keys compare as less, equal or greater |
| `Text.LessTransitive` | src/components/UserTable/UserTable.tsx:126 | string `<` is transitive |
| `Sorting.Compare` | src/components/UserTable/UserTable.tsx:121-127 | the comparator returns -1, 0 or 1 |
| `Sorting.CompareZeroIff` | src/components/UserTable/UserTable.tsx:123-127 | the comparator returns 0 exactly when the upper-cased keys are equal |
| `Sorting.CompareAntisymmetric` | src/components/UserTable/UserTable.tsx:123-127 | `cmp(a, b) == -cmp(b, a)` |
| `Sorting.CompareTransitive` | src/components/UserTable/UserTable.tsx:123-127 | "not after" is transitive, so the comparator is consistent |
| `Sorting.SortPermutes` | src/components/UserTable/UserTable.tsx:122-128 | for any comparator, the sorted rows are the input rows, each as often, and as many |
| `Sorting.SortSorted` | src/components/UserTable/UserTable.tsx:122-128 | each sorted row is no later than its successor by the comparator |
| `Sorting.SortStable` | src/components/UserTable/UserTable.tsx:122-128 | rows with equal keys keep their relative input order |
| `Sorting.SortUnique` | src/components/UserTable/UserTable.tsx:122-128 | every sorted, stable permutation of the rows equals `SortRows`, so any stable sort gives this result |
| `Sorting.SortKeepsSorted` | src/components/UserTable/UserTable.tsx:122-128 | rows already in order are left as they are |
| `Sorting.SortIdempotent` | src/components/UserTable/UserTable.tsx:122-128 | sorting sorted rows again by the same key changes nothing |
| `Sorting.SortedPairwise` | src/components/UserTable/UserTable.tsx:122-128 | in sorted rows every row is no later than every row behind it |
| `Sorting.DescendingDirectionAscends` | src/components/UserTable/UserTable.tsx:121-128 | with direction "desc" the upper-cased keys are non-decreasing |
| `Sorting.OtherDirectionDescends` | src/components/UserTable/UserTable.tsx:121-128 | with any other direction the upper-cased keys are non-increasing |
| `Sorting.DescendingExample` | src/components/UserTable/UserTable.tsx:121-127 | first names Bob, alice, Carl sorted "desc" give alice, Bob, Carl |
| `Sorting.AscendingExample` | src/components/UserTable/UserTable.tsx:121-127 | the same names sorted "asc" give Carl, Bob, alice |
| `Sorting.SortInPlace` | src/components/UserTable/UserTable.tsx:122 | the array is rearranged in place into the stable insertion order of its old contents under the given comparator (`SortRows` for the table's comparator) |
| `Sorting.InsertAt` | src/components/UserTable/UserTable.tsx:122 | one insertion pass puts `a[i]` into the sorted prefix and leaves the rest alone |
| `Filtering.GuardedStepIsFirstNameStep` | src/components/UserTable/UserTable.tsx:91-114 | the guarded tests of lastName, email, company and phone agree with the plain `filtered && match` test on every input |
| `Filtering.KeepRow` | src/components/UserTable/UserTable.tsx:88-117 | the callback returns true exactly when every truthy pattern of the five columns compiles and matches its field, returns false otherwise when it returns, never throws when all truthy patterns compile, and throws only when one does not |
| `Filtering.FilterRows` | src/components/UserTable/UserTable.tsx:87-118 | the filter stage returns the admitted rows in input order (`Select`), throws exactly when the callback throws on some row, and never when all patterns compile |
| `Filtering.SelectIsSubsequence` | src/components/UserTable/UserTable.tsx:88-117 | the kept rows are an order-preserving subsequence of the input, unchanged |
| `Filtering.SelectMembers` | src/components/UserTable/UserTable.tsx:88-117 | a row is in the result exactly when it is an input row the filter admits |
| `Filtering.FilterWithoutPatterns` | src/components/UserTable/UserTable.tsx:87-118 | with no truthy pattern on a filterable column the rows come back unchanged |
| `Filtering.FilterIgnoresIdAndBirthDate` | src/components/UserTable/UserTable.tsx:91-116 | the `id` and `birthDate` patterns never change the result |
| `UserTableComponent.DeriveRows` | src/components/UserTable/UserTable.tsx:84-133 | without a filter object the derivation never throws; it throws exactly when the filter callback does; without a sort the result is the filter stage's; with one it is the stable insertion order `SortRows` of that result, so it is a sorted permutation of it and keeps equal keys in filter order (`SortStable`) |
| `UserTableComponent.UserTable.constructor` | src/components/UserTable/UserTable.tsx:35-39 | the component starts with no rows, `loading` set, `error` clear and neither filter nor sort |
| `UserTableComponent.UserTable.Settle` | src/components/UserTable/UserTable.tsx:55-71 | after a fetch ends `loading` is false; a delivered, well-formed body replaces `dataTable` with exactly the mapped rows and leaves `error` as it was; any failure sets `error` and keeps the old rows; filter and sort are untouched |
| `UserTableComponent.UserTable.OnSort` | src/components/UserTable/UserTable.tsx:77-79 | the sort intent is replaced |
| `UserTableComponent.UserTable.OnFilter` | src/components/UserTable/UserTable.tsx:80-82 | the filter becomes a copy of the reported object, `{}` when it is undefined |
| `UserTableComponent.UserTable.Derive` | src/components/UserTable/UserTable.tsx:84-133 | the rendered rows are `DeriveRows` of the stored rows; without a filter they are the stored array itself, now sorted in place; with one the stored rows are untouched and the result is a new array |
| `UserTableComponent.UserTable.PlaceholdersExclusive` | src/components/UserTable/UserTable.tsx:167-188 | in a reachable state the loading and error placeholders never show together, the loading one only while no rows are stored, and neither when there are rows |

## Left out

- The HTTP request, `response.json()` and `console.error` are not modelled. A
  fetch is reduced to its outcome, `FetchOutcome`, which is given to `Settle`.
- The `catch` and `finally` handlers are merged into one step, `Settle`. No
  render between them is modelled; such a render after a failed first fetch
  would have `loading` and `error` both set, which `Valid` excludes.
- React itself is not modelled: hooks, memoisation, re-rendering, unmounting,
  and the `vienna-ui` `Table` and `EmptyState` widgets. `Derive` is one run
  of the memoised callback. What React does with an exception thrown during
  render is not modelled.
- The JavaScript `RegExp` engine is left abstract as `RegexEngine`.
- `toUpperCase` is an abstract parameter of the sort stage, so every sorting
  property holds whatever the case mapping is. The worked examples use
  `Text.ToUpper`, which maps ASCII letters only; full Unicode case mapping
  (which can change a string's length, `ß` becomes `SS`) is not modelled.
- String `<` compares Dafny characters, which are Unicode scalar values.
  JavaScript compares UTF-16 code units, so the two orders can differ for
  characters outside the Basic Multilingual Plane.
- `Sorting.SortSpec`: the sort field is one of the seven row keys. A field
  name that is not a key would make the comparator throw, and that is not
  modelled. The table only reports sortable columns.
- `Rows.RawUser`: every field is a string, and only a missing `company`
  object is treated as malformed. JSON values of other types, such as a
  numeric `id`, and a `company` object without `name` are not modelled.
- `Filtering.Filter`: patterns are strings. Filter values of other types,
  which `new RegExp` would convert to text, are not modelled.
- `Sorting.SortInPlace` uses insertion sort; the engine's real algorithm is
  not modelled. `Sorting.SortUnique` shows that any stable sort gives the
  same result with this comparator.
- The source's static page, `src/App.tsx`, is not part of this model.
