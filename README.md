# EasyAdapter selection state machine in Dafny

The `androids` library ships two Kotlin versions of `EasyAdapter`, a RecyclerView
adapter that adds click, single-select and multi-select behaviour to any list:

- `cn.forward.androids.kt.views.EasyAdapter` (module `KtViews`, file `kt_easy_adapter.dfy`);
- `cn.forward.androids.views.EasyAdapter` (module `Views`, file `easy_adapter.dfy`).

Both keep a mode (`CLICK`, `SINGLE_SELECT`, `MULTI_SELECT`), a selection cap
(no cap when it is 0 or less) and a private `LinkedHashSet<Int>` of selected row indices.
Each is modelled as a Dafny `class` with the mode, cap and selection fields (plus
`singleSelectedPosition` in `kt.views`), one boolean per modelled listener slot, a
render counter and a ghost event trace. The selected set is a
`seq<int>` without repetitions, oldest entry first. Module `LinkedSets`
(`linked_sets.dfy`) models the set operations the adapters use:

- `add`, `+= x`;
- `remove`, `-= x`, `removeAll`;
- `+= iterable`;
- the ranges `0 until n` and `0..n`.

Every state-changing operation is a method. Its `modifies` clause names exactly the
fields the Kotlin code assigns. Its `ensures` clauses give the new selection, the
number of `notifyDataSetChanged()` calls (the `renders` counter) and the listener calls
made (a ghost `events` trace). A listener slot is a boolean field saying whether a
listener is registered; `listener?.call(...)` appends to the trace only when it is.
Each class keeps an invariant `Valid()` through every operation:

- `KtViews`: the selection is a set and a positive cap holds.
- `Views`: the selection is a set and holds at most one row in single-select.

Proved properties include:

- the eviction loop of the cap setters;
- `select` in `KtViews` as a loop against a recursive reference definition, with the
  cap and its reports;
- `reverseSelected` as the complement of the selection, which, applied twice, keeps
  exactly the old rows in range;
- `selectAll` followed by `reverseSelected` leaves nothing selected.

Module `Scenarios` (`scenarios.dfy`) states short concrete sessions on both classes
and proves the selection and the reports each one ends with.

The two variants differ, and the model follows each one's code:

- **Range of bulk operations.** `KtViews` uses `0 until itemCount`. `Views` uses
  `0..itemCount`, which includes the row numbered `itemCount`, one past the last
  (`Views.SelectAllOvershoots`, `Scenarios.ViewsSelectAllFive`).
- **Single-select state.** `KtViews` keeps a scalar `singleSelectedPosition` beside the
  set. `Views` keeps single-select in the same set, seeds it with row 0 when a row is
  bound, and `getSingleSelectedPosition` throws on an empty set.
- **Multi-select toggle.** `KtViews` toggles on every click. `Views` toggles only when a
  registered `OnItemSelectedListener` returns true; its answer is the `accept`
  parameter of `Views.EasyAdapter.OnClick`.
- **Mode changes.** `KtViews` reports them to `OnModeChangedListener` and keeps the
  selection. `Views` clears the selection when single-select is entered from another
  mode.
- **Cap check in `select`.** `KtViews.select(vararg)` refuses new rows once a positive
  cap is reached. `Views.select` checks `maxSelection > 1`, so a cap of 1 does not stop
  it (`Scenarios.ViewsSelectPastCapOfOne`).
- **Error paths.**
  - `KtViews.select()` in single-select with no arguments reads `position[0]` and throws.
    `KtViews.EasyAdapter.Select` returns `thrown` in that case and changes nothing.
  - `Views.getSingleSelectedPosition()` on an empty set throws `NoSuchElementException`.
    It is modelled as the `Lookup.NoSuchElement` result.

## Model

Source paths are relative to the repository root.

| member | source | states |
|---|---|---|
| LinkedSets.Elems | library/src/main/java/cn/forward/androids/kt/views/EasyAdapter.kt:196 | `HashSet(selectedSet)`: the copy has exactly the members of the selection |
| LinkedSets.ElemsSize | library/src/main/java/cn/forward/androids/views/EasyAdapter.kt:149 | the `HashSet` copy of a set has as many members as the set has entries |
| LinkedSets.Add | library/src/main/java/cn/forward/androids/views/EasyAdapter.kt:164 | `+= x` on a LinkedHashSet: members become the old ones plus x, the old entries stay in front in their order, at most one entry is appended, and a set stays a set |
| LinkedSets.Without | library/src/main/java/cn/forward/androids/kt/views/EasyAdapter.kt:198 | `removeAll(t)`: exactly the members not in t remain, and the set never grows |
| LinkedSets.WithoutNoDups | library/src/main/java/cn/forward/androids/kt/views/EasyAdapter.kt:140 | `remove` keeps a set free of repetitions |
| LinkedSets.AddAll | library/src/main/java/cn/forward/androids/kt/views/EasyAdapter.kt:179 | `+= iterable`: members become the union, the old entries stay in front, and a set stays a set |
| LinkedSets.Range | library/src/main/java/cn/forward/androids/kt/views/EasyAdapter.kt:179 | `lo until hi` has hi - lo entries (none when hi <= lo), the i-th being lo + i |
| LinkedSets.RangeFacts | library/src/main/java/cn/forward/androids/kt/views/EasyAdapter.kt:179 | `lo until hi` holds exactly the integers in [lo, hi), ascending and without repetitions |
| LinkedSets.WithoutLast | library/src/main/java/cn/forward/androids/kt/views/EasyAdapter.kt:32-34 | `selectedSet -= selectedSet.last()` on a non-empty set drops exactly the newest entry |
| LinkedSets.AddAllAppendsMissing | library/src/main/java/cn/forward/androids/kt/views/EasyAdapter.kt:179 | adding a repetition-free sequence appends exactly its elements that were missing, in its order |
| LinkedSets.ReverseIsComplement | library/src/main/java/cn/forward/androids/kt/views/EasyAdapter.kt:196-198 | copying the set, adding r and removing the copy leaves the elements of r that were not selected, in the order of r |
| LinkedSets.Complement | library/src/main/java/cn/forward/androids/kt/views/EasyAdapter.kt:196-198 | the rows of r that s lacks: a member of the result is in r and not in s, and every such row is one |
| LinkedSets.ComplementTwice | library/src/main/java/cn/forward/androids/kt/views/EasyAdapter.kt:193-201 | complementing twice within an ascending range keeps exactly the old members inside the range, ascending; it is the identity on an ascending selection inside the range |
| KtViews.Fire | library/src/main/java/cn/forward/androids/kt/views/EasyAdapter.kt:124-149 | `listener?.call(...)`: no call is recorded unless a listener is registered, and a registered one receives exactly the calls, in order |
| KtViews.CapReached | library/src/main/java/cn/forward/androids/kt/views/EasyAdapter.kt:214 | the cap check of `select`: never reached without a positive cap, and reached only by a non-empty set at least as large as the cap |
| KtViews.SelectCandidates | library/src/main/java/cn/forward/androids/kt/views/EasyAdapter.kt:211 | the `filter` of `select` keeps exactly the given positions that are not selected and lie below itemCount |
| KtViews.UnselectCandidates | library/src/main/java/cn/forward/androids/kt/views/EasyAdapter.kt:226 | the `filter` of `unselect` keeps exactly the given positions that are selected and lie below itemCount |
| KtViews.UnselectEvents | library/src/main/java/cn/forward/androids/kt/views/EasyAdapter.kt:227-230 | `unselect` reports one `onSelected(it, false)` per candidate, in order |
| KtViews.SelectStep | library/src/main/java/cn/forward/androids/kt/views/EasyAdapter.kt:214-218 | one candidate: at a reached cap the set is unchanged; otherwise the candidate is in the result; the old entries stay in front, at most one entry is appended, and it is the candidate |
| KtViews.SelectAfter | library/src/main/java/cn/forward/androids/kt/views/EasyAdapter.kt:211-220 | the `forEach` of `select` adds at most one entry per candidate |
| KtViews.SelectEvents | library/src/main/java/cn/forward/androids/kt/views/EasyAdapter.kt:211-220 | the `forEach` of `select` makes exactly one listener call per candidate |
| KtViews.SelectAfterBounds | library/src/main/java/cn/forward/androids/kt/views/EasyAdapter.kt:211-220 | the `forEach` of `select` keeps the old entries in front, adds only candidates, keeps a set a set, and never takes a set past a positive cap it respected |
| KtViews.SelectUnlimited | library/src/main/java/cn/forward/androids/kt/views/EasyAdapter.kt:211-220 | with no positive cap the `forEach` of `select` adds every candidate, as `addAll` would |
| KtViews.SelectEventsReport | library/src/main/java/cn/forward/androids/kt/views/EasyAdapter.kt:211-220 | each candidate is reported exactly once, in order, as selected or as out of max; out of max only once the cap is reached; a row reported selected ends up in the set |
| KtViews.ReverseOf | library/src/main/java/cn/forward/androids/kt/views/EasyAdapter.kt:193-201 | a reverse selects exactly the rows below itemCount that were not selected, ascending and without repetitions |
| KtViews.SelectAllComputes | library/src/main/java/cn/forward/androids/kt/views/EasyAdapter.kt:179 | `+= 0 until itemCount` keeps the old entries and appends the missing rows ascending; afterwards every row below itemCount is selected |
| KtViews.ReverseComputes | library/src/main/java/cn/forward/androids/kt/views/EasyAdapter.kt:196-198 | the copy, `+=` and `removeAll` sequence of `reverseSelected` computes the reverse selection |
| KtViews.ReverseTwice | library/src/main/java/cn/forward/androids/kt/views/EasyAdapter.kt:193-201 | reversing twice keeps exactly the old rows below itemCount, ascending: the old selection itself when it was ascending and in range |
| KtViews.SelectAllThenReverse | library/src/main/java/cn/forward/androids/kt/views/EasyAdapter.kt:176-201 | `selectAll` followed by `reverseSelected` leaves nothing selected |
| KtViews.EasyAdapter.constructor | library/src/main/java/cn/forward/androids/kt/views/EasyAdapter.kt:13-118 | the adapter starts in the given mode and cap, with position 0 single-selected, an empty set, no listeners and no render; the setters do not run |
| KtViews.EasyAdapter.SetMaxSelectionCount | library/src/main/java/cn/forward/androids/kt/views/EasyAdapter.kt:28-37 | a positive cap below the size truncates the set to its oldest `value` entries; otherwise the set is kept; the cap then holds; one render in every case |
| KtViews.EasyAdapter.SetMode | library/src/main/java/cn/forward/androids/kt/views/EasyAdapter.kt:42-51 | assigning the current mode does nothing; a new mode is stored, reported once as (old, new) to a registered mode listener, and rendered once; the selection is never touched |
| KtViews.EasyAdapter.SetSingleSelectedPosition | library/src/main/java/cn/forward/androids/kt/views/EasyAdapter.kt:56-64 | assigning the current position does nothing; a new position is stored, reported and rendered once |
| KtViews.EasyAdapter.BlocksClick | library/src/main/java/cn/forward/androids/kt/views/EasyAdapter.kt:132-134 | a multi-select click is refused only for a row not yet selected, so a selected row can always be released; never without a positive cap; only when something is selected |
| KtViews.EasyAdapter.OnClick | library/src/main/java/cn/forward/androids/kt/views/EasyAdapter.kt:124-149 | click mode only reports; single-select moves the single position and renders (twice if it changed); multi-select at a reached cap for a new row reports out of max only; otherwise it toggles the row, reports the new state and renders |
| KtViews.EasyAdapter.ShowsSelected | library/src/main/java/cn/forward/androids/kt/views/EasyAdapter.kt:163-171 | a bound row shows as selected never in click mode, iff it is the single position in single-select, and iff it is in the set in multi-select |
| KtViews.EasyAdapter.SelectAll | library/src/main/java/cn/forward/androids/kt/views/EasyAdapter.kt:176-182 | in any mode: with a positive cap nothing happens; otherwise the missing rows below itemCount are appended ascending, the resulting set is reported once as SELECT_ALL, and one render follows |
| KtViews.EasyAdapter.AddRows | library/src/main/java/cn/forward/androids/kt/views/EasyAdapter.kt:179 | `selectedSet += 0 until itemCount` appends the missing rows ascending and keeps a set a set |
| KtViews.EasyAdapter.UnselectAll | library/src/main/java/cn/forward/androids/kt/views/EasyAdapter.kt:184-188 | in every mode the set is emptied, reported as UNSELECT_ALL with an empty set, and rendered |
| KtViews.EasyAdapter.ReverseSelected | library/src/main/java/cn/forward/androids/kt/views/EasyAdapter.kt:193-201 | with a positive cap nothing happens; otherwise the selection becomes the reverse of the old one, which is reported as REVERSE_SELECTED and rendered |
| KtViews.EasyAdapter.ReverseRows | library/src/main/java/cn/forward/androids/kt/views/EasyAdapter.kt:196-198 | the three statements of the reverse yield the reverse selection |
| KtViews.EasyAdapter.Select | library/src/main/java/cn/forward/androids/kt/views/EasyAdapter.kt:206-223 | single-select: throws (no change) without arguments, otherwise sets the single position to the first argument and reports it once more, with no extra render; other modes: each filtered candidate in turn is added or reported out of max as the cap allows, then one render |
| KtViews.EasyAdapter.SelectEach | library/src/main/java/cn/forward/androids/kt/views/EasyAdapter.kt:211-220 | the loop over the candidates ends with the selection and the reports of the reference definition, keeping the cap |
| KtViews.EasyAdapter.SelectOne | library/src/main/java/cn/forward/androids/kt/views/EasyAdapter.kt:214-219 | one pass of that loop: the set becomes the reference step and the matching out-of-max or selected report is made |
| KtViews.EasyAdapter.Unselect | library/src/main/java/cn/forward/androids/kt/views/EasyAdapter.kt:225-232 | in every mode the given rows that are selected and below itemCount are removed, each reported as deselected; every other row keeps its state; then one render |
| KtViews.EasyAdapter.UnselectEach | library/src/main/java/cn/forward/androids/kt/views/EasyAdapter.kt:226-230 | the loop over the candidates removes exactly them and reports each, in order |
| KtViews.EasyAdapter.UnselectOne | library/src/main/java/cn/forward/androids/kt/views/EasyAdapter.kt:228-229 | one pass of that loop: exactly the candidate leaves the set and is reported as deselected |
| KtViews.EasyAdapter.IsSelected | library/src/main/java/cn/forward/androids/kt/views/EasyAdapter.kt:235-237 | true iff the row is in the set |
| KtViews.EasyAdapter.SelectedSet | library/src/main/java/cn/forward/androids/kt/views/EasyAdapter.kt:239 | the copy has no repetitions and respects a positive cap |
| Views.Fire | library/src/main/java/cn/forward/androids/views/EasyAdapter.kt:77-106 | `listener?.call(...)`: no call is recorded unless a listener is registered, and a registered one receives exactly the calls, in order |
| Views.RowsThrough | library/src/main/java/cn/forward/androids/views/EasyAdapter.kt:131 | `0..itemCount` has itemCount + 1 entries, the i-th being i, ascending |
| Views.SelectAllOvershoots | library/src/main/java/cn/forward/androids/views/EasyAdapter.kt:127-134 | after `selectAll` the row numbered itemCount is selected, and from an empty set itemCount + 1 rows are |
| Views.ReverseOf | library/src/main/java/cn/forward/androids/views/EasyAdapter.kt:145-154 | a reverse selects exactly the rows 0 through itemCount that were not selected, ascending and without repetitions |
| Views.ReverseTwice | library/src/main/java/cn/forward/androids/views/EasyAdapter.kt:145-154 | reversing twice keeps exactly the old rows 0 through itemCount, ascending: the old selection itself when it was ascending and in range |
| Views.SelectAllComputes | library/src/main/java/cn/forward/androids/views/EasyAdapter.kt:131 | `+= 0..itemCount` keeps the old entries and appends the missing rows ascending; afterwards rows 0 through itemCount are selected |
| Views.ReverseComputes | library/src/main/java/cn/forward/androids/views/EasyAdapter.kt:149-151 | the copy, `+=` and `removeAll` sequence computes the reverse selection |
| Views.SelectAllThenReverse | library/src/main/java/cn/forward/androids/views/EasyAdapter.kt:127-154 | `selectAll` followed by `reverseSelected` leaves nothing selected |
| Views.EasyAdapter.constructor | library/src/main/java/cn/forward/androids/views/EasyAdapter.kt:13-66 | the adapter starts in the given mode and cap with an empty set, no listeners and no render; the setters do not run |
| Views.EasyAdapter.SetMaxSelection | library/src/main/java/cn/forward/androids/views/EasyAdapter.kt:18-27 | a positive cap below the size truncates the set to its oldest `value` entries; otherwise the set is kept; the cap then holds; one render in every case |
| Views.EasyAdapter.SetMode | library/src/main/java/cn/forward/androids/views/EasyAdapter.kt:32-39 | entering single-select from another mode empties the set, any other assignment keeps it; the mode is stored and one render follows even when it is unchanged |
| Views.EasyAdapter.BlocksClick | library/src/main/java/cn/forward/androids/views/EasyAdapter.kt:88-90 | a multi-select click is refused only for a row not yet selected, so a selected row can always be released; never without a positive cap; only when something is selected |
| Views.EasyAdapter.OnClick | library/src/main/java/cn/forward/androids/views/EasyAdapter.kt:77-106 | click mode only reports; single-select makes the row the only selected one, reports it and renders; multi-select at a reached cap for a new row reports out of max only; otherwise a registered listener is asked about the toggle, which happens, with one render, iff it accepts; with no listener nothing changes |
| Views.EasyAdapter.Bind | library/src/main/java/cn/forward/androids/views/EasyAdapter.kt:111-122 | binding in single-select seeds an empty set with row 0, so exactly one row is selected; the row shows as selected iff the mode is not click and the row is in the set |
| Views.EasyAdapter.SelectAll | library/src/main/java/cn/forward/androids/views/EasyAdapter.kt:127-134 | in single-select or with a positive cap nothing happens; otherwise the missing rows 0 through itemCount are appended ascending and one render follows; no listener is called |
| Views.EasyAdapter.AddRows | library/src/main/java/cn/forward/androids/views/EasyAdapter.kt:131 | `selectedSet += 0..itemCount` appends the missing rows ascending and keeps a set a set |
| Views.EasyAdapter.UnselectAll | library/src/main/java/cn/forward/androids/views/EasyAdapter.kt:136-140 | in single-select nothing happens; otherwise the set is emptied and rendered |
| Views.EasyAdapter.ReverseSelected | library/src/main/java/cn/forward/androids/views/EasyAdapter.kt:145-154 | in single-select or with a positive cap nothing happens; otherwise the selection becomes the reverse of the old one and one render follows |
| Views.EasyAdapter.ReverseRows | library/src/main/java/cn/forward/androids/views/EasyAdapter.kt:149-151 | the three statements of the reverse yield the reverse selection |
| Views.EasyAdapter.Select | library/src/main/java/cn/forward/androids/views/EasyAdapter.kt:156-165 | refused only when the cap exceeds 1 and is reached; otherwise single-select makes the row the only one and other modes add it; no bounds check, report or render; the cap is kept unless it is 1 |
| Views.EasyAdapter.Unselect | library/src/main/java/cn/forward/androids/views/EasyAdapter.kt:167-171 | in single-select nothing happens; otherwise exactly the given row leaves the set and every other row keeps its state |
| Views.EasyAdapter.IsSelected | library/src/main/java/cn/forward/androids/views/EasyAdapter.kt:173-175 | true iff the row is in the set |
| Views.EasyAdapter.SelectedSet | library/src/main/java/cn/forward/androids/views/EasyAdapter.kt:177 | the copy has no repetitions and holds at most one row in single-select |
| Views.EasyAdapter.GetSingleSelectedPosition | library/src/main/java/cn/forward/androids/views/EasyAdapter.kt:179-182 | -1 outside single-select; in single-select an exception iff the set is empty, and otherwise the one selected row |
| Scenarios.KtTwoTaken | library/src/main/java/cn/forward/androids/kt/views/EasyAdapter.kt:131-146 | with cap 3, clicks on rows 0 and 1 select both and report each |
| Scenarios.KtFilledToCap | library/src/main/java/cn/forward/androids/kt/views/EasyAdapter.kt:131-146 | a third click, on row 2, fills the cap |
| Scenarios.KtCappedClicks | library/src/main/java/cn/forward/androids/kt/views/EasyAdapter.kt:131-146 | at the cap row 3 is refused with exactly one out-of-max report and the set kept; releasing row 1 lets row 3 in: the set ends as 0, 2, 3 |
| Scenarios.ViewsTwoTaken | library/src/main/java/cn/forward/androids/views/EasyAdapter.kt:86-102 | with cap 3 and an accepting listener, clicks on rows 0 and 1 select both and report each |
| Scenarios.ViewsFilledToCap | library/src/main/java/cn/forward/androids/views/EasyAdapter.kt:86-102 | a third click, on row 2, fills the cap |
| Scenarios.ViewsCappedClicks | library/src/main/java/cn/forward/androids/views/EasyAdapter.kt:86-102 | the same session as in `kt.views` ends with the same set and the same reports |
| Scenarios.ViewsToggleNeedsConsent | library/src/main/java/cn/forward/androids/views/EasyAdapter.kt:94-102 | a refused toggle and a click with no listener change nothing; an accepted one happens |
| Scenarios.KtSelectAllFive | library/src/main/java/cn/forward/androids/kt/views/EasyAdapter.kt:176-182 | `selectAll` over five rows selects rows 0 to 4 |
| Scenarios.ViewsSelectAllFive | library/src/main/java/cn/forward/androids/views/EasyAdapter.kt:127-134 | `selectAll` over five rows selects rows 0 to 5, one of which does not exist |
| Scenarios.KtModeRoundTrip | library/src/main/java/cn/forward/androids/kt/views/EasyAdapter.kt:42-51 | click, single-select, multi-select, click: the selection survives every change |
| Scenarios.ViewsModeRoundTrip | library/src/main/java/cn/forward/androids/views/EasyAdapter.kt:32-39 | the same changes clear the selection on entering single-select |
| Scenarios.KtSelectCapOfOne | library/src/main/java/cn/forward/androids/kt/views/EasyAdapter.kt:206-223 | with cap 1, `select(0, 1)` selects row 0 only |
| Scenarios.ViewsSelectPastCapOfOne | library/src/main/java/cn/forward/androids/views/EasyAdapter.kt:156-165 | with cap 1, `select(0)` then `select(1)` selects both rows |

## Left out

- View holders: `whenCreateViewHolder`, `whenBindViewHolder`, `SelectionViewHolder` and `SelectionItemView` create and wrap Android views. Only the selection logic of `onCreateViewHolder` (its click listener) and of `onBindViewHolder` is modelled.
- `itemView.isSelected`: the display flag set during binding is the result of `KtViews.EasyAdapter.ShowsSelected` and `Views.EasyAdapter.Bind`, not a stored field.
- Row positions: `adapterPosition` (`kt.views`) and the view tag (`views`) come from the RecyclerView. They are the `pos` parameter of `OnClick`.
- Row count: `itemCount` is the abstract `getItemCount()` of the host adapter. It is a parameter of the operations that read it.
- Listeners: each listener slot is a boolean field saying whether one is registered. The lambda-wrapping setters (`setOnItemClickedListener`, `setSingleSelectListener`, `setMultiSelectListener`, `setOnItemSelectedListener`) only build listener objects, so they are not modelled separately.
- Listener call-backs: what a listener does when called is outside the model, including calling back into the adapter. The `views` listener's answer is the `accept` parameter.
- Long clicks in `kt.views`: `onItemLongClickedListener` and its setter return the listener's answer and never touch the selection.
- Rendering: `notifyDataSetChanged()` is counted, not performed.
- Threading: the adapter runs on the Android main thread, and concurrency is not modelled.
- Integer width: Kotlin `Int` is 32-bit, while the model's positions and caps are unbounded integers. No operation does arithmetic on them, so nothing can wrap.
- Bulk notifications in `kt.views`: these pass a `LinkedHashSet` copy of the selection. They are modelled as the sequence value at the time of the call.
