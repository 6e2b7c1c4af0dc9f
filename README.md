# useCycleList, modelled in Dafny

`useCycleList(list)` is a Vue composable that keeps a cursor, `activeIndex`, over a
list. The cursor starts at 0. `next` moves it forward and wraps from the last index
to 0. `prev` moves it back and wraps from 0 to the last index. `go(index)` jumps to
`index`, and throws when `index` is not below the list's length. A computed
`state` exposes `list[activeIndex]`.

`CycleList.dfy` holds one module, `UseCycleList`:

- `NextIndex`, `PrevIndex` and `GoIndex` are the cursor's new value after one call,
  exactly as the composable computes it, for every integer index below 2^53 in
  magnitude (where JavaScript numbers are exact and `++`/`--` move by one) and every list length. That includes the cases the composable does not guard: an empty list, a
  negative jump target, and a cursor at or past the end.
- `NextN` and `PrevN` are k calls in a row. `Step` and `Run` are any sequence of
  calls, where a rejected `go` leaves the cursor where it was.
- The class `CycleList<T>` is one instance of the composable. The list is a constant
  `items`, the cursor is the mutable field `activeIndex`, and `Next`, `Prev` and
  `Go` update it in place. Each method's postcondition ties the new cursor to the
  step function above. `Go` returns a `Result` whose `Failure` is the thrown error.
- `StateView` is the computed `state`. It indexes the argument as given, so it
  yields an element only when the list was passed as a plain array.
- The lemmas prove these facts: the round trips between `next` and `prev`; that
  `length` calls of either return to the start; that the cursor stays in range on a
  non-empty list; and what happens outside that range as the code is written.

## Model

| member | source | states |
|---|---|---|
| `UseCycleList.CycleList.constructor` | courses/vueschool/vue-composables-how-to-craft-reusable-stateful-logic/src/composables/useCycleList.ts:3-5 | a new instance keeps the list it was given and starts with the cursor at 0, which is on an element exactly when the list is non-empty |
| `UseCycleList.StateIsElementOnlyForPlainArray` | courses/vueschool/vue-composables-how-to-craft-reusable-stateful-logic/src/composables/useCycleList.ts:6 | with the cursor on the list, `state` is the element under the cursor exactly when the list was passed as a plain array; for a ref or a getter it is undefined although the element exists |
| `UseCycleList.StateOffListIsUndefined` | courses/vueschool/vue-composables-how-to-craft-reusable-stateful-logic/src/composables/useCycleList.ts:6 | with the cursor off the list (empty list, negative `go`), `state` is undefined whatever the list's form |
| `UseCycleList.StateAfterRunIsElement` | courses/vueschool/vue-composables-how-to-craft-reusable-stateful-logic/src/composables/useCycleList.ts:6-32 | on a non-empty plain array, after any sequence of `next`, `prev` and non-negative `go` calls from the start, the cursor is on the list and `state` is the element under it |
| `UseCycleList.StateAfterGo` | courses/vueschool/vue-composables-how-to-craft-reusable-stateful-logic/src/composables/useCycleList.ts:6-31 | on a plain array, after `go(j)` with 0 <= j < length, the instance's `state` is the j-th element |
| `UseCycleList.NextIndex` | courses/vueschool/vue-composables-how-to-craft-reusable-stateful-logic/src/composables/useCycleList.ts:8-14 | from an index on the list, `next` stays on the list and lands on (index + 1) mod length |
| `UseCycleList.CycleList.Next` | courses/vueschool/vue-composables-how-to-craft-reusable-stateful-logic/src/composables/useCycleList.ts:8-14 | the cursor becomes 0 when it was exactly on the last index and grows by one otherwise; the list is unchanged; an in-range cursor stays in range |
| `UseCycleList.PrevIndex` | courses/vueschool/vue-composables-how-to-craft-reusable-stateful-logic/src/composables/useCycleList.ts:16-22 | from an index on the list, `prev` stays on the list and lands on (index - 1) mod length |
| `UseCycleList.CycleList.Prev` | courses/vueschool/vue-composables-how-to-craft-reusable-stateful-logic/src/composables/useCycleList.ts:16-22 | the cursor becomes length - 1 when it was exactly 0 and shrinks by one otherwise; an in-range cursor stays in range |
| `UseCycleList.GoIndex` | courses/vueschool/vue-composables-how-to-craft-reusable-stateful-logic/src/composables/useCycleList.ts:24-32 | `go(index)` fails exactly when index >= length, with an error carrying the index that the message reports; otherwise the cursor becomes index, which is on the list when index >= 0 |
| `UseCycleList.CycleList.Go` | courses/vueschool/vue-composables-how-to-craft-reusable-stateful-logic/src/composables/useCycleList.ts:24-32 | fails exactly when index >= length and then leaves the cursor unchanged; otherwise sets the cursor to index, with no lower-bound check |
| `UseCycleList.PrevUndoesNext` | courses/vueschool/vue-composables-how-to-craft-reusable-stateful-logic/src/composables/useCycleList.ts:8-22 | on a non-empty list with the cursor on an element, `prev` after `next` restores the cursor |
| `UseCycleList.NextUndoesPrev` | courses/vueschool/vue-composables-how-to-craft-reusable-stateful-logic/src/composables/useCycleList.ts:8-22 | on a non-empty list with the cursor on an element, `next` after `prev` restores the cursor |
| `UseCycleList.RoundTripClient` | courses/vueschool/vue-composables-how-to-craft-reusable-stateful-logic/src/composables/useCycleList.ts:8-32 | using only the method contracts: next-then-prev, prev-then-next and a rejected `go` leave an in-range cursor where it was |
| `UseCycleList.NextNWalksUp` | courses/vueschool/vue-composables-how-to-craft-reusable-stateful-logic/src/composables/useCycleList.ts:11-12 | below the last index, k calls to `next` add exactly k |
| `UseCycleList.PrevNWalksDown` | courses/vueschool/vue-composables-how-to-craft-reusable-stateful-logic/src/composables/useCycleList.ts:19-20 | above 0, k calls to `prev` subtract exactly k |
| `UseCycleList.FullCycleOfNext` | courses/vueschool/vue-composables-how-to-craft-reusable-stateful-logic/src/composables/useCycleList.ts:8-14 | `length` consecutive calls to `next` return an in-range cursor to its starting index |
| `UseCycleList.FullCycleOfPrev` | courses/vueschool/vue-composables-how-to-craft-reusable-stateful-logic/src/composables/useCycleList.ts:16-22 | `length` consecutive calls to `prev` return an in-range cursor to its starting index |
| `UseCycleList.RunStaysInRange` | courses/vueschool/vue-composables-how-to-craft-reusable-stateful-logic/src/composables/useCycleList.ts:8-32 | on a non-empty list, any sequence of `next`, `prev` and non-negative `go` calls, failed ones included, keeps the cursor on an element |
| `UseCycleList.EmptyListLeavesRange` | courses/vueschool/vue-composables-how-to-craft-reusable-stateful-logic/src/composables/useCycleList.ts:8-22 | on an empty list `next` moves the cursor from 0 to 1 and `prev` moves it to -1, both off the list |
| `UseCycleList.NextNeverWrapsPastEnd` | courses/vueschool/vue-composables-how-to-craft-reusable-stateful-logic/src/composables/useCycleList.ts:9-12 | the wrap test is an equality, so from a cursor at or past the end, k calls to `next` add exactly k and never wrap, while the cursor stays within 2^53 |
| `UseCycleList.NegativeGoLeavesRange` | courses/vueschool/vue-composables-how-to-craft-reusable-stateful-logic/src/composables/useCycleList.ts:24-31 | `go` with a negative index succeeds and puts the cursor off the list, whatever its length |
| `UseCycleList.PrevNeverWrapsBelowZero` | courses/vueschool/vue-composables-how-to-craft-reusable-stateful-logic/src/composables/useCycleList.ts:16-22 | from a negative cursor, k calls to `prev` subtract exactly k and never wrap back onto the list, while the cursor stays within -2^53 |

## Left out

- Vue reactivity (`ref`, `toRef`, `computed`, `MaybeRefOrGetter`): the cursor is a plain mutable field, and `state` is a function read on demand.
- Changes to a reactive list between calls: the list is fixed when the instance is created. A list that has shrunk below the cursor is covered by applying the step functions with a smaller length (`NextNeverWrapsPastEnd`).
- Non-integer and non-exact JavaScript numbers: the cursor is a double, and `go` accepts any number below the length. A fractional, NaN, +Infinity (rejected by the source) or -Infinity (accepted) argument, or an integer at or beyond 2^53 in magnitude (where `++` and `--` stop moving the cursor by one), is not modelled: Dafny's unbounded `int` stands in for the cursor, and the lemmas about unbounded walks are stated only within 2^53.
- The text of the thrown error: `IndexPastEnd` carries the index that the message interpolates, not the message string itself.
- `courses/vueschool/vuejs-3-components-fundamentals/app.js` only declares component options and mounts an app. It has no behaviour to model.
- The Python exercises under `courses/edube` are not part of this model. That includes the FIFO queue exercises.
