# SortOrder rank maintenance, modelled in Dafny

SortOrder keeps a user-reorderable list in a CoreData store. Every `Item`
row carries an Int64 rank, `index`, and the list shows the rows sorted by it,
lowest first. `ContentViewController` gives ranks to new and moved rows
without renumbering the whole table:

- `assignIndex` draws a random rank from an inclusive interval;
- `add` and `move` pick that interval from the neighbours of the target position;
- `validate` is a repair pass made of three steps:
  - `recalculateBounds` checks density and widens the bounds;
  - `checkUniqueness` splits collisions;
  - `cleanUp` forces one row back to rank 0.

This project models that controller and proves what each operation does to
the table.

## Layout

- `runtime.dfy` (module `Runtime`): Swift's runtime behaviour.
  - `Option`.
  - `Checked`, the outcome of code that may stop at a runtime trap.
  - Int64 bounds, and the checked subtraction and `abs` that trap on overflow.
- `store.dfy` (module `Store`): the Item table.
  - `Item` is a datatype of an identity, an `index` and a timestamp.
  - The visible order is an insertion sort by index, ties broken by timestamp.
  - Every fetch helper is a pure function over the table: a filter, a sort, and an offset or fetch limit.
- `controller.dfy` (module `Controller`): the controller.
  - The class `ContentViewController` holds the table in a `table` field.
  - Each `item.index = …` of the source is a write to one row of that field.
  - `add`, `move`, `validate` and its three steps are methods that modify it.
  - `Int64.random(in:)` is `AssignIndex`, a nondeterministic choice that traps on an empty range.

## Modelling decisions

- **Ties in the visible order.** The store's sorts use `index` alone, which leaves ties open. The model breaks them by timestamp, earlier first (`Store.Precedes`). `fetchLowestItems` sorts by index and then by timestamp, both descending, so the model reads it as the visible order backwards. That reading is exact.
- **Well-formed tables.** `Store.WellFormed` describes the tables the model works on: identities are unique, timestamps are unique, and every index fits in an Int64. Every method keeps it.
- **Traps.** A Swift runtime trap becomes the `Trap` outcome. These are:
  - an empty `Int64.random` range;
  - Int64 overflow in `-`, `abs` or `*`;
  - a zero stride;
  - a subscript out of range.

  A trap ends the process, so nothing is promised about the table afterwards.
- **Negative fetch offsets.** `fetchItem(at: 0)` asks for `fetchOffset` -1. The model assumes such a request finds no row and returns `None`. This matters only for `move`'s tail branch with destination 1.
- **`add` and the new row.** `add(item:)` expects the new row to be in the store already, so `Add` requires its id to be in the table. The source drops the first row of `fetchLowestItems` on the grounds that it is the row just added. `AddKeepsNewItemAtZero` proves this holds when the new row has the latest timestamp.
- **`fetchParentNeighbour(above:)`.** It filters on `index <= r` but sorts ascending. So it returns the first row of the whole table whenever any index is at most `r`, and the model states exactly that.

The code does less than its names and comments suggest, and the model
follows the code:

- ranks are drawn from inclusive intervals, not strictly between the bounds;
- `move` with destination 0 acts whatever the origin;
- `cleanUp` zeroes the row with the greatest index at or below 0, not the head of the visible order;
- the stride loop subscripts the three-row window with rank values instead of spacing the ranks evenly;
- the collision split never succeeds.

These consequences of the code are proved:

- With three rows, recalculateBounds' stride loop traps whenever it runs at all. A zero step traps when the stride is created; otherwise the fourth rank `newLower + 3*step` is not a window position (`Stride`).
- checkUniqueness's branch always traps. The range of the second draw, `[lowerBound.index, similar.index]`, is always empty. The first draw can only rewrite `similar`'s own index. So checkUniqueness never changes the table (`SplitRangesDegenerate`, `Split`, `CheckUniqueness`).

## Model

| member | source | states |
|---|---|---|
| `Runtime.AbsDiff` | SortOrder/ContentViewController.swift:155-165 | `abs(a - b)` on Int64 returns \|a − b\| exactly when neither the subtraction nor `abs` overflows, and traps otherwise |
| `Controller.AssignIndex` | SortOrder/ContentViewController.swift:202-204 | succeeds exactly when start ≤ end, and then returns a rank in [start, end] |
| `Controller.ContentViewController.AssignTo` | SortOrder/ContentViewController.swift:25-27 | writes a rank from [start, end] to one row and changes nothing else; traps exactly when start > end |
| `Store.Sort` | SortOrder/ContentViewController.swift:64 | the visible order: ascending by (index, timestamp), and a permutation of the table |
| `Store.FirstWhere` | SortOrder/ContentViewController.swift:113-124 | a fetch with a predicate, the ascending sort and fetchLimit 1: nothing exactly when no row matches, otherwise a matching row that precedes every matching row |
| `Store.FetchAtOffset` | SortOrder/ContentViewController.swift:87-98 | a fetch with an offset: nothing exactly when the offset is outside the table, otherwise a table row with all earlier positions before it and all later ones after it |
| `Store.FetchDescendingNeighbourAt` | SortOrder/ContentViewController.swift:87-98 | `fetchDescendingNeighbour(at: d)` is position d of the visible order, and nothing when d is out of range |
| `Store.FetchItemAt` | SortOrder/ContentViewController.swift:126-137 | `fetchItem(at: d)` is position d − 1 of the visible order, and nothing unless 1 ≤ d ≤ the table size |
| `Store.FetchIndexAt` | SortOrder/ContentViewController.swift:139-142 | `fetchIndex(at: d)` is the index of `fetchItem(at: d)`, and nothing when that finds nothing |
| `Store.FetchHighestIndex` | SortOrder/ContentViewController.swift:62-72 | on a non-empty table (the force-unwrap), a table row that precedes every row, so it has the least index |
| `Store.FetchDescendingNeighbourBelow` | SortOrder/ContentViewController.swift:100-111 | the row with the least index strictly above r; nothing exactly when no index exceeds r |
| `Store.FetchParentNeighbourAbove` | SortOrder/ContentViewController.swift:113-124 | nothing exactly when every index exceeds r; otherwise a row with index ≤ r that precedes the whole table |
| `Store.FetchLowestItems` | SortOrder/ContentViewController.swift:74-85 | at most 3 rows drawn from the table (as a sub-multiset), all with index ≤ 0, in descending visible order; every row at or below 0 is listed or comes before the third; empty exactly when every index is positive; every row at or below 0 comes before the first, or is the first |
| `Controller.AddKeepsNewItemAtZero` | SortOrder/ContentViewController.swift:15-20 | when the added row is the newest, fetchLowestItems lists it first after it is set to 0, and the row taken as `lowest` is a different one |
| `Controller.ContentViewController.Add` | SortOrder/ContentViewController.swift:15-31 | the new row gets index 0; when the second lowest row sits at 0, only that row changes again, to a rank in [third row's index, 0] or [-99999, 0]; otherwise nothing else changes |
| `Controller.NeighboursInOrder` | SortOrder/ContentViewController.swift:43-45 | `fetchItem(at: d)` comes before `fetchDescendingNeighbour(at: d)`, so the interval move draws from is never empty |
| `Controller.ContentViewController.Move` | SortOrder/ContentViewController.swift:33-60 | for each branch, what changes: destination 0 gives the row a rank in [-99999, least index], trapping when that range is empty; origin = destination changes nothing; between two neighbours, the row gets a rank between them, followed by validate's effect; at the tail, the row at d − 1 gets a rank in [index at d − 2, 0], trapping when that index is above 0, and the moved row 0 |
| `Controller.ContentViewController.PlaceBetween` | SortOrder/ContentViewController.swift:43-53 | the row gets a rank between the two neighbours, and then the table is what validate makes of it |
| `Controller.ContentViewController.Validate` | SortOrder/ContentViewController.swift:145-149 | returns normally exactly when the bound step passes and no row is split, and then only cleanUp's write changes the table |
| `Controller.Max` | SortOrder/ContentViewController.swift:152 | the window's greatest index: a member of the window, and no member is greater |
| `Controller.Min` | SortOrder/ContentViewController.swift:153 | the window's least index: a member of the window, and no member is less |
| `Controller.WidenedUpperIs` | SortOrder/ContentViewController.swift:156-159 | the widened upper bound exactly: with no index at or below `upper`, -99999; otherwise, with m the least index of the table, m when it lies at least 100 below `upper` and -99999 when it is nearer; traps exactly when `m - upper` (or `-99999 - upper`) overflows or is Int64.min |
| `Controller.NextAbove` | SortOrder/ContentViewController.swift:160 | `fetchDescendingNeighbour(below: r)?.index ?? 0` is the least index strictly above r, or 0 when no index exceeds r |
| `Controller.WidenedLowerIs` | SortOrder/ContentViewController.swift:160-163 | the widened lower bound exactly: with n the least index above `lower` (or 0) and m the least index above n (or 0), n when \|lower − n\| ≥ 100 and m otherwise; traps exactly when `lower - n` overflows or is Int64.min |
| `Controller.BoundsBetween` | SortOrder/ContentViewController.swift:155-165 | a window whose spread overflows traps; it is spacious exactly when the spread fits an Int64 and is at least 10; a dense window gives `Expanded` exactly when both widened bounds succeed and their difference fits `abs`, and traps otherwise; the Expanded bounds are the widened bounds, and the step is a third of their distance |
| `Controller.ExpandedBounds` | SortOrder/ContentViewController.swift:151-165 | an empty window, or one whose max − min is at least 10 (without overflow), needs no recalculation, and only such windows |
| `Controller.ContentViewController.RecalculateBounds` | SortOrder/ContentViewController.swift:151-177 | a spacious window leaves the table unchanged; an overflow or a zero step traps; an empty stride changes nothing; a non-empty stride over at most three rows traps |
| `Controller.ContentViewController.Stride` | SortOrder/ContentViewController.swift:169-171 | an empty stride changes nothing; a non-empty one over a window of at most three rows always traps |
| `Controller.SimilarItem` | SortOrder/ContentViewController.swift:183-186 | a row with the same index and another timestamp, and nothing exactly when there is none |
| `Controller.NoSplitEvery` | SortOrder/ContentViewController.swift:182-192 | the recursive "no row of the window enters the branch" equals the same condition stated row by row |
| `Controller.RequestsSplit` | SortOrder/ContentViewController.swift:186-188 | when the same-index and lower-bound requests both find a row, the branch is entered |
| `Controller.SplitRangesDegenerate` | SortOrder/ContentViewController.swift:186-190 | whenever the branch is entered, all three requests find a row, and upper.index ≤ similar.index < lower.index |
| `Controller.RowRequests` | SortOrder/ContentViewController.swift:186-188 | the three requests all succeed exactly when the branch is entered, and then the draw ranges are ordered as above |
| `Controller.ContentViewController.Split` | SortOrder/ContentViewController.swift:189-190 | the two draws of the branch always end in a trap and leave the table as it was |
| `Controller.ContentViewController.CheckRow` | SortOrder/ContentViewController.swift:183-191 | one pass of the loop never changes the table, and traps exactly when the row enters the branch |
| `Controller.ContentViewController.CheckUniqueness` | SortOrder/ContentViewController.swift:179-193 | never changes the table; returns normally exactly when no row of the window enters the branch |
| `Controller.CleanUpEffect` | SortOrder/ContentViewController.swift:195-199 | when every index is positive, nothing changes; otherwise exactly one row changes, to 0: the one with the greatest index at or below 0 (ties go to the latest timestamp) |
| `Controller.CleanUpIdempotent` | SortOrder/ContentViewController.swift:195-199 | a second cleanUp right after the first changes nothing |
| `Controller.ContentViewController.CleanUp` | SortOrder/ContentViewController.swift:195-199 | the new table is the cleaned-up table, and it stays well formed |

## Left out

- CoreData plumbing is not modelled: `NSFetchRequest`, `NSPredicate`, `NSSortDescriptor`, `viewContext.fetch`, the failed-fetch `catch` paths, and the `shared` singletons. The store answers from a consistent in-memory table.
- Randomness is not modelled as a generator. `Int64.random(in:)` is an arbitrary choice within its inclusive range.
- `print` calls are logging only and are left out.
- Dates are not modelled. Timestamps are opaque integers, always present, so the force-unwrap of `item.timestamp` in checkUniqueness cannot trap.
- The table after a trap is not described.
- `ContentViewController.RecalculateBounds`: says nothing about the strided writes for windows of four or more rows. The source only ever passes three.
- `ContentViewController.Stride`: likewise says nothing about the strided writes for windows of four or more rows.
- `Controller.AddKeepsNewItemAtZero`: covers only the case where the added row is the newest. If an older row at index 0 has a later timestamp, `add` skips that row instead of the new one.
- SortOrder/ContentView.swift (the SwiftUI list and its own rank tweaks) is not part of this model. Neither is SortOrder/SortOrderApp.swift (app bootstrap) or the persistence controller.
