# Fruit jar: a Dafny model

This project models the core of the fruit-jar application:

- **The jar state machine of the application component.** The jar is a sequence of at most `MAX_FRUITS = 15` fruits. It has a pending `selectedFruit` and the `isLimitReached` flag that opens the replace dialog. The model covers:
  - `addFruitToJar`: FIFO displacement once the jar is full.
  - `handleAddFruit`: append, or prompt when full.
  - the dialog's confirm and open-change callbacks.
  - the group-wide "Add All" button, which calls `handleAddFruit` once per fruit of a group.
- **The grouping memo `groupedFruits`.** It is written identically in the table view and the list view. Ungrouped, it gives the single group `"All"`. Grouped by family, order or genus, it is a `reduce` into an object keyed by label, so groups follow first-appearance order. The model also covers group collapsing (`toggleGroup`), the rows left on screen, and which groups carry an "Add All" button.
- **The jar statistics panel.** An empty jar shows an alert. Otherwise the panel shows `totalCalories`, a sum in which a missing value counts as 0. It also shows `pieData`: the fruits with positive calories, mapped to `{name, calories}` and stably sorted by calories, largest first. The percentage of a slice is modelled as the exact rational `calories * 100 / total`.

Every React state update is a total function from the state before to the state after. Files and modules:

- `fruits.dfy` (`Fruits`): the fruit record, the grouping option and the label accessor.
- `jar_machine.dfy` (`JarMachine`): the jar, its commands, and the invariant every reachable state keeps.
- `grouping.dfy` (`Grouping`): the `reduce` grouping, an independent reference definition of "the grouping of a fruit list by an axis" (`IsGroupingOf`), and the proof that the two agree.
- `group_view.dfy` (`GroupView`): toggling, shown rows and Add All.
- `jar_stats.dfy` (`JarStats`): the panel, the total, the pie data and its percentages.

How the code behaves, which the model follows:

- **Cancel.** Cancel, or dismissing the dialog, only calls `onOpenChange(false)`. The pending `selectedFruit` is kept and only the flag is cleared (`OverflowThenCancel`). Cancel does not clear `selectedFruit`.
- **Add All below capacity.** Every `handleAddFruit` of one "Add All" click closes over the same rendered `jar`. When that jar is below capacity, every call takes the append branch. The batch is therefore a left fold of the displacing updater: the jar ends as the last 15 fruits of `jar ++ group`, the oldest are evicted silently, and no dialog opens (`HandleAddAllOutcome`).
- **Add All at capacity.** When the rendered jar is full, every call re-selects. The jar is unchanged and the group's last fruit is the one pending.

## Model

| member | source | states |
|---|---|---|
| JarMachine.Displace | src/App.tsx:31-36 | A full jar keeps its length, drops its oldest fruit and keeps the others in order. A jar below capacity keeps its fruits as a prefix and grows by one. Either way the new fruit is last. |
| JarMachine.AddToJar | src/App.tsx:30-39 | Adding clears the pending fruit and the dialog flag, applies the displacing update, and never takes a jar within capacity beyond 15. |
| JarMachine.HandleAddWith | src/App.tsx:41-48 | The branch is chosen on the rendered jar's length. Below 15 it is `addFruitToJar`. At 15 or more the jar is untouched, the fruit becomes pending and the dialog opens. |
| JarMachine.HandleAdd | src/App.tsx:41-48 | A single click on a jar below capacity appends the fruit with no prompt. On a full jar it changes nothing in the jar, selects the fruit and opens the dialog. |
| JarMachine.Confirm | src/App.tsx:58 | With nothing pending, confirm changes nothing. Otherwise the pending fruit is displaced into the jar and the selection and flag are cleared. |
| JarMachine.OpenChange | src/App.tsx:54-55 | Opening or closing the dialog sets only the flag. The jar and the pending fruit stay as they were. |
| JarMachine.DisplaceWindow | src/App.tsx:31-36 | Displacing into the last 15 of a history gives the last 15 of the history extended by the new fruit. |
| JarMachine.AddAllBelowCapacityFolds | src/App.tsx:30-48 | A batch whose calls all saw a jar below capacity ends with the last 15 of everything added. It leaves nothing pending and the dialog closed. |
| JarMachine.AddAllAtCapacityPrompts | src/App.tsx:41-48 | A batch whose calls all saw a full jar leaves the jar unchanged and the batch's last fruit pending, with the dialog open. |
| JarMachine.HandleAddAllOutcome | src/components/FruitTable.tsx:91-97 | Below capacity, the jar ends as the last 15 of `jar ++ group`, holding `min(15, |jar| + |group|)` fruits, with no prompt. At capacity, the jar is unchanged and the last fruit of the group is pending. An empty group changes nothing. |
| JarMachine.StepKeepsValid | src/App.tsx:30-59 | Every command keeps the capacity bound. It also keeps "a fruit is pending only while the jar is full" and "the dialog is open only while a fruit is pending". |
| JarMachine.RunKeepsValid | src/App.tsx:30-59 | Any sequence of commands keeps those three facts. |
| JarMachine.ReachableWithinCapacity | src/App.tsx:9 | From the empty jar, no sequence of adds, batches, confirms and cancels puts more than 15 fruits in the jar or leaves a fruit pending on a jar that is not full. |
| JarMachine.AddsThatFitAppend | src/App.tsx:41-43 | Single adds that fit in the free room append exactly those fruits, in order, and never prompt. |
| JarMachine.OverflowThenCancel | src/App.tsx:44-47 | Overflowing a full jar and then cancelling leaves the jar exactly as it was. The fruit stays selected and the dialog is closed. |
| JarMachine.OverflowThenConfirm | src/App.tsx:58 | Overflowing a full jar and then confirming evicts index 0, keeps the other 14 in order and puts the new fruit last. |
| Grouping.GroupedFruits | src/components/FruitTable.tsx:44-54 | Ungrouped, the result is the single group "All" holding the whole list. Grouped, it is a grouping of the list by the axis: distinct labels, each group exactly the fruits with its label in list order, every label present, groups in order of first appearance. Either way every fruit appears exactly once. |
| Grouping.PushFiles | src/components/FruitTable.tsx:49-51 | Pushing a fruit under a new key appends the group `[fruit]`. Under an existing key it appends the fruit to that group only and leaves the other groups and the group order alone. |
| Grouping.PushAddsOne | src/components/FruitTable.tsx:50-51 | A push adds exactly the pushed fruit to the fruits held by the groups. |
| Grouping.ReduceKeepsEveryFruit | src/components/FruitTable.tsx:48-53 | The reduce holds exactly the fruits of the list, counted with multiplicity. |
| Grouping.PushExistingKeepsGrouping | src/components/FruitTable.tsx:50-51 | Filing a fruit whose label already has a group turns a grouping of the prefix into a grouping of the extended list. |
| Grouping.PushNewKeepsGrouping | src/components/FruitTable.tsx:50-51 | Filing a fruit with a new label turns a grouping of the prefix into a grouping of the extended list. |
| Grouping.ReduceIsGrouping | src/components/FruitTable.tsx:48-53 | The reduce meets the reference definition of a grouping by the axis. |
| Grouping.GroupingKeepsEveryFruit | src/components/FruitTable.tsx:48-53 | A grouping of a list holds exactly the list's fruits, counted with multiplicity. |
| Grouping.GroupingIsUnique | src/components/FruitTable.tsx:48-53 | Two sequences of groups that both meet the reference definition for the same list and axis are equal. |
| Grouping.GroupedFruitsIsTheGrouping | src/components/FruitList.tsx:34-45 | A sequence of groups is a grouping of the list by an axis if and only if it is what the memo computes. So the table and list views show the same groups. |
| GroupView.Toggle | src/components/FruitTable.tsx:57-68 | After a toggle, the clicked group is collapsed exactly when it was expanded before. Every other group's state is unchanged. |
| GroupView.ToggleTwiceRestores | src/components/FruitTable.tsx:57-68 | Clicking the same group header twice restores the collapsed set. |
| GroupView.ShownRows | src/components/FruitTable.tsx:156-157 | The rows on screen are drawn from the groups' fruits. Every group that is not collapsed has all its fruits shown. |
| GroupView.ShownRowsHidesCollapsed | src/components/FruitTable.tsx:156-157 | When every group holds only fruits with its own label, a fruit is on screen if and only if some group holds it and its label is not collapsed. |
| GroupView.ShownRowsOfGrouping | src/components/FruitList.tsx:140-145 | For the grouping of the catalogue, a fruit is on screen if and only if it is in the catalogue and its group is not collapsed. |
| GroupView.NothingCollapsedShowsEveryFruit | src/components/FruitTable.tsx:113-157 | With no group collapsed, the rows are the groups' fruits, group after group. |
| GroupView.AddAllGroups | src/components/FruitList.tsx:128-137 | A group has an "Add All" button exactly when its label is not "All". |
| GroupView.UngroupedOffersNoAddAll | src/components/FruitTable.tsx:115-152 | Ungrouped, no "Add All" button is offered. |
| GroupView.AddAllThatFitsAppendsTheGroup | src/components/FruitList.tsx:79-87 | When a non-empty group fits in the free room, "Add All" appends its fruits once each, in group order, with no dialog. |
| JarStats.JarPanel | src/components/Jar.tsx:22-30 | The alert is shown if and only if the jar is empty. |
| JarStats.ChartedFruits | src/components/Jar.tsx:38 | The filter keeps exactly the fruits with positive calories, each occurrence of them, and no more fruits than the jar. |
| JarStats.ChartedFruitsSplits | src/components/Jar.tsx:38 | Filtering a concatenation gives the filtered parts, concatenated, so the filter keeps jar order. |
| JarStats.ChartedRunsAreJarRuns | src/components/Jar.tsx:38 | For a positive calorie value, the filtered fruits with that value are exactly the jar's fruits with that value, in jar order. |
| JarStats.ToSlices | src/components/Jar.tsx:39-41 | The map gives one slice per fruit, in order, carrying its name and calories. |
| JarStats.SortDescending | src/components/Jar.tsx:46 | The sort result is in descending calorie order and is a permutation of its input. |
| JarStats.PieData | src/components/Jar.tsx:37-46 | The pie slices are a descending permutation of the charted fruits' slices, each with positive calories. There are at most as many slices as fruits. |
| JarStats.SortIsStable | src/components/Jar.tsx:46 | Slices with equal calories keep their relative order through the sort. |
| JarStats.StableDescendingIsUnique | src/components/Jar.tsx:46 | Two descending orders with the same runs of equal calories are equal. |
| JarStats.SortDescendingIsTheStableSort | src/components/Jar.tsx:46 | A sequence is the sort's result if and only if it is descending and keeps every run of equal calories of the input. |
| JarStats.PieDataKeepsJarOrderOnTies | src/components/Jar.tsx:37-46 | The chart's slices of any positive calorie value are exactly the jar's fruits with that value, in jar order. |
| JarStats.ChartedCarryTotal | src/components/Jar.tsx:32-38 | With no negative calories, the filtered fruits carry all of `totalCalories`. |
| JarStats.PieSumIsTotal | src/components/Jar.tsx:32-46 | With no negative calories, the slices' calories add up to `totalCalories`. |
| JarStats.PieTotalPositive | src/components/Jar.tsx:32-42 | With no negative calories and at least one slice, the divisor `totalCalories` is positive. |
| JarStats.PercentagesAddUpTo100 | src/components/Jar.tsx:42 | With no negative calories and at least one slice, the unrounded percentages add up to exactly 100. |

## Left out

- Catalogue fetching (`getFruits` in `src/services/fruitService.ts`) and its error logging. The model takes the catalogue as a parameter.
- Rendering not covered above: the explorer, the group selector, the mobile view toggle, the recharts pie, colours, the `recentlyAdded` highlight and its 500 ms timer, and the dialog's text.
- The dialog library's own behaviour: closing itself through `onOpenChange(false)` after the Replace action is not modelled. `Confirm` already clears the flag, so a later close changes nothing.
- Number formatting: `toFixed(1)` rounding of percentages and the label-visibility threshold are left out. Percentages are exact rationals.
- `Percentage` requires a non-zero total. JavaScript would give `Infinity` or `NaN` for a zero total, which needs negative calories on a charted jar. The sum-to-100 lemmas assume no negative calories.
- Non-numeric calories and `NaN`: calories are an optional integer.
- Labels that are not strings: `String(undefined)` and similar coercions are not modelled. Labels are the fields' string values.
- JavaScript object key order puts integer-like keys (such as `"12"`) first, in ascending order. The model assumes labels are not integer-like and keeps insertion order.
- Labels that name members of `Object.prototype`, such as `constructor`, make the source's `groups[key].push` misbehave. The model treats every label as an ordinary key.
- React batching beyond one click: each click's updates run to completion before the next click.
