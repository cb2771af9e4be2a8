# Data-table sorting and `cn` of the demo front-end, in Dafny

This project models the two pieces of logic in the demo application's front-end that are more than markup:

- **The data table's sorting** (`demo-app/src/components/ui/data-table.tsx`). The table keeps a sort state. It is either no sort, or a column key with a direction. A click on a column header advances that state. A click on the active column goes ascending → descending → no sort. A click on any other column starts ascending on that column. The rows shown are the given rows when there is no sort. Otherwise they are a copy sorted by a comparator. Null or undefined cells compare equal to each other and come after every present cell. Present cells compare by the string collation, negated when descending.
- **The `cn` class-name combiner** (`demo-app/src/lib/utils.ts`). It keeps its truthy arguments and joins them with single spaces.

Files:

- `wrappers.dfy`: the `Option` type. `None` stands for a JavaScript `null` or `undefined` cell.
- `array_sort.dfy` (module `ArraySort`): `Array.prototype.sort(compareFn)`, modelled as an in-place insertion sort of an `array`. The comparator is generic. It must be *consistent*, which is what ECMAScript requires of a comparator for the result to be defined: swapping the arguments flips the sign, and "at most" is transitive.
- `data_table.dfy` (module `DataTable`):
  - the sort state and its transition `NextSort`;
  - `Replay`, which runs a sequence of clicks, with lemmas about repeated clicks;
  - the class `SortCell` for the component's state cell, with `HandleSort`;
  - the row comparator, and `SortedRows`, which copies the rows into a fresh array and sorts that copy.
- `class_names.dfy` (module `ClassNames`): `cn` as `Join(Kept(classes), " ")`. Beside it is a reference inverse, `Split`/`Words` (splitting on spaces), used to state that separators appear only between kept names.

Modelling choices:

- A row is a `map<string, Option<string>>` that stands for every value `row[key]` can read. A key with no value reads as `None`, the same as JavaScript's `undefined`, and `undefined` sorts exactly like `null`.
- The collation `localeCompare(…, "ja", { numeric: true })` is a library call into ICU. Here it is a parameter `collate: (string, string) -> int` that must be consistent. Nothing is assumed about which strings it orders how.
- The arguments of `cn` are the datatype `ClassValue = Name(string) | False | Null | Undefined`. Truthy means a non-empty `Name`.

## Model

| member | source | states |
|---|---|---|
| `DataTable.CellOf` | demo-app/src/components/ui/data-table.tsx:53-54 | No contract of its own: it reads `row[sort.key]`, with `null` and `undefined` both as `None`. The sorting lemmas below state what follows from it. |
| `DataTable.Compare` | demo-app/src/components/ui/data-table.tsx:55-59 | No contract of its own. Its properties are proved in `DescendingNegatesAscending`, `RowComparatorConsistent` and `SortedByMeans`. |
| `DataTable.RowComparator` | demo-app/src/components/ui/data-table.tsx:52-60 | No contract of its own: it is the arrow passed to `sort`. `RowComparatorConsistent` proves it consistent, and `SortedByMeans` says what being sorted by it means. |
| `DataTable.NextSort` | demo-app/src/components/ui/data-table.tsx:63-71 | The result is ascending on the clicked column iff the previous state was not a sort on that column. It is descending iff the previous state was ascending on that column. It is no sort iff the previous state was descending on that column. A result that sorts always sorts on the clicked column. |
| `DataTable.PhaseStep` | demo-app/src/components/ui/data-table.tsx:65-70 | One more click on the same column moves a run of clicks to its next phase: ascending, then descending, then no sort, then ascending again. |
| `DataTable.ReplayAppend` | demo-app/src/components/ui/data-table.tsx:63-64 | Running two click sequences one after the other gives the same state as running their concatenation. |
| `DataTable.ClickCycle` | demo-app/src/components/ui/data-table.tsx:63-72 | Start from a state that does not sort on column k, and click k n times (n > 0, or n = 0 from no sort). The state is then ascending, descending or no sort, according to n mod 3. |
| `DataTable.ThreeClicksReset` | demo-app/src/components/ui/data-table.tsx:63-72 | From no sort, three clicks on one column return to no sort. One click or two clicks do not. |
| `DataTable.ClicksAfterSwitch` | demo-app/src/components/ui/data-table.tsx:65-70 | After any clicks, then a click on another column, then n > 0 clicks on k, the state depends only on n mod 3. Whatever direction the other column had, the run on k starts ascending. |
| `DataTable.SortCell.constructor` | demo-app/src/components/ui/data-table.tsx:48 | The state cell starts with no sort and no clicks. |
| `DataTable.SortCell.HandleSort` | demo-app/src/components/ui/data-table.tsx:63-72 | The new state is the transition applied to the old state. The cell's state is always the replay of every click received. |
| `DataTable.DescendingNegatesAscending` | demo-app/src/components/ui/data-table.tsx:55-59 | For two present cells, the descending comparison is the negated ascending one. A comparison that involves an absent cell does not depend on the direction. An absent cell compares greater than a present one. |
| `DataTable.RowComparatorConsistent` | demo-app/src/components/ui/data-table.tsx:52-60 | In either direction, the row comparator (nulls last, then collation) is a consistent comparator whenever the collation is one. |
| `DataTable.SortedByMeans` | demo-app/src/components/ui/data-table.tsx:55-59 | Rows are sorted by the table's comparator iff both of these hold: every row with an absent cell comes after every row with a present cell, and the present cells are in collation order (reverse collation order when descending). |
| `DataTable.SortedRows` | demo-app/src/components/ui/data-table.tsx:50-61 | With no sort, the given rows come back unchanged. Otherwise the result has the same length and the same multiset of rows, and it is sorted by the comparator for the state's column and direction. |
| `ArraySort.SortInPlace` | demo-app/src/components/ui/data-table.tsx:52 | Sorting the copy in place leaves it sorted by the consistent comparator, with the same multiset of elements. |
| `ClassNames.Truthy` | demo-app/src/lib/utils.ts:12 | No contract of its own: `Boolean(v)` for the argument type, true only for a non-empty string. `KeptEmpty`, `CnEmpty` and `CnDropsFalsy` use it. |
| `ClassNames.Join` | demo-app/src/lib/utils.ts:12 | `.join(sep)` of no parts is "". Of n > 0 parts it is as long as the parts together plus n - 1 separators. `JoinAppend`, `JoinEdges` and `SplitJoin` state where those separators are. |
| `ClassNames.Cn` | demo-app/src/lib/utils.ts:11-13 | The result is "" iff nothing is kept. Otherwise its length is that of the kept names plus one space between each neighbouring pair. `CnEmpty` through `CnEdges` carry the rest of its properties. |
| `ClassNames.Kept` | demo-app/src/lib/utils.ts:12 | `filter(Boolean)` keeps no more entries than it was given, and every kept entry is a non-empty string. |
| `ClassNames.KeptAppend` | demo-app/src/lib/utils.ts:12 | Filtering preserves order: the kept names of `xs + ys` are those of `xs` followed by those of `ys`. |
| `ClassNames.KeptEmpty` | demo-app/src/lib/utils.ts:9-12 | Nothing is kept iff no argument is truthy. |
| `ClassNames.JoinAppend` | demo-app/src/lib/utils.ts:12 | Joining two non-empty lists puts exactly one separator between the two joins. |
| `ClassNames.JoinEdges` | demo-app/src/lib/utils.ts:12 | A non-empty join begins with its first part and ends with its last part. |
| `ClassNames.SplitJoin` | demo-app/src/lib/utils.ts:12 | Join space-free parts with single spaces and split the result on spaces: you get the parts back. |
| `ClassNames.CnEmpty` | demo-app/src/lib/utils.ts:11-12 | `cn` returns "" iff no argument is truthy. This covers `cn()` and calls with only falsy arguments. |
| `ClassNames.CnSingle` | demo-app/src/lib/utils.ts:11-12 | `cn(s) == s` for every string s, including `cn("") == ""`. |
| `ClassNames.CnDropsFalsy` | demo-app/src/lib/utils.ts:9-12 | A falsy argument (`false`, `null`, `undefined` or "") can be removed from any position without changing the result. |
| `ClassNames.CnConcat` | demo-app/src/lib/utils.ts:11-12 | `cn(xs ++ ys) == cn(cn(xs), cn(ys))`. |
| `ClassNames.CnWords` | demo-app/src/lib/utils.ts:8-12 | If no truthy argument contains a space, the space-separated words of the result are exactly the truthy arguments, in their original order. So `cn` only inserts separators between kept names. |
| `ClassNames.CnEdges` | demo-app/src/lib/utils.ts:12 | The result begins with the first kept name and ends with the last one, so `cn` adds no space at either end. |

## Left out

- JSX rendering: header and cell markup, `alignClass`, the arrows and the empty-table message. These are presentation, not behaviour.
- The ICU collation `localeCompare(…, "ja", { numeric: true })`. It is a parameter that only has to be consistent. Numeric-aware ordering is not specified.
- `String(value)` coercion of arbitrary cell values. Cells are `Option<string>`.
- DataTable.SortedRows, ArraySort.SortInPlace: `Array.prototype.sort` has been stable since ES2019. The insertion sort here is stable too, because it swaps only when the comparator is positive. But no contract states stability: these members promise only sorted order and the same multiset of rows.
- Inherited object properties. A plain-object row also reads prototype members such as `constructor` or `toString` through `row[key]`. Such a value is a function, so it is non-null and compares through `String(...)`. A row map holds only the values it is given.
- `useMemo` caching and React's re-rendering. `SortedRows` is the memoised computation, run on its inputs.
- `formatNumber`, `formatPercent` and `formatDate`: locale, floating-point and date-library formatting.
- `generateId`, `randomBetween`, `randomInt` and `pickRandom`: randomness and the clock.
- `delay`: a timer.
- The health-check route and the chart, chat-message, KPI and status-badge components: environment, network and presentational lookup tables.
- The Python image-generation tools and the batch driver. Their source is not part of this model.
