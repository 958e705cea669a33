# Dice roller core, in Dafny

A model of the rules at the heart of the TypeScript tabletop dice roller.
The roller runs in a shared virtual space. The model covers:

- **Dice groups** (`src/diceGroup.ts`): dice of one type that can be
  edited until they are rolled. Rolling keeps the rolls between the dropped
  lowest and dropped highest, and totals them.
- **Composing a roll**: one group per die type, in the map form
  (`src/roll.ts`), the array form (`src/rollManager.ts`) and the session
  form with its 15-dice cap (`src/rollController.ts`).
- **The roll view** (`src/rollView.ts`): the groups sorted by type, one
  displayed die per die (one `+n` die for a d1 group), label texts and
  colours, and the results text.
- **The session controller** (`src/rollController.ts`): adding dice,
  the roll/reset button, clicking a die, and one drop controller per type.
- **Drop controllers** (`src/dropController.ts`): the dice handed to
  each, and which die each of the two handles sits on.
- **The roll history** (`src/rollHistory.ts`): an append-only log that
  shows its last ten entries, and one highlight per user.
- **Die types** (`src/die.ts`): their order, which ranks groups, and the
  model each type loads.

Every object is an immutable value, and each operation is a function from
the state before to the state after. A `throw` becomes `Err(failure)` of
`Outcomes.Result`, and reading a property through `undefined` becomes
`Err(Undefined)`. `Math.random`, the clock and the random highlight colour
are parameters: a die of type dN is given a draw in `[0, N)` and shows
`draw + 1`.

Modules, one per file (`index_orders.dfy` holds two):

| file | module | models |
|---|---|---|
| outcomes.dfy | `Outcomes` | optional values and the thrown errors |
| numerals.dfy | `Numerals` | decimal printing of naturals (`toString`) and reading it back |
| die_types.dfy | `DieTypes` | the `DieType` enum, its ranking, faces, and model selection |
| index_orders.dfy | `IndexOrders`, `RollCuts` | the stable index sort by value, JavaScript `slice`, and the three cuts of a roll |
| dice_group.dfy | `DiceGroups` | `DiceGroup`: setters, constructor, clone, `roll()` |
| dice_notation.dfy | `DiceNotation` | `DiceGroup.toString()` and a reader for it |
| dice_sets.dfy | `DiceSets` | the `Dice` aggregate as its callers use it |
| group_orders.dfy | `GroupOrders` | both `sortDiceGroups` comparators and a stable sort by them |
| roll_maps.dfy | `RollMaps` | `Roll.addDie` over a map keyed by type |
| roll_views.dfy | `RollViews` | what `RollView.refresh()` computes |
| drop_controllers.dfy | `DropControllers` | `DropController.addDice` and `update` |
| roll_histories.dfy | `RollHistories` | `HistoryEntry` and `RollHistory.addRollToHistory` |
| roll_managers.dfy | `RollManagers` | `RollManager.addDie`, `roll` |
| roll_controllers.dfy | `RollControllers` | `RollController`: `refresh`, `addDie`, `rollButtonPressed`, the `diePressed` listener |

The session invariant `RollControllers.Valid` is kept by every handler. It
says:

- there is one group per type, sorted ascending;
- the groups are all rolled or none are;
- the roll holds at most 15 dice, and no group drops any die;
- every controller is stored under its own type;
- only types that have dice are displayed, with at most one d1 die.

Under that invariant a refresh never reads through `undefined`. Each
controller then holds at least as many dice as its group, so both of its
handles land on dice.

## Model

| member | source | states |
|---|---|---|
| DieTypes.Rank | src/rollView.ts:211-214 | a type's position in `Object.values(DieType)` is in range and holds that type's name |
| DieTypes.RankIsDeclarationOrder | src/die.ts:5-14 | the ranking is the declaration order d1, d4, d6, d8, d10, d12, d20, d100 |
| DieTypes.RankInjective | src/die.ts:5-14 | two types share a rank only if they are the same type |
| DieTypes.Face | src/diceGroup.ts:115-127 | a face lies in `[1, N]` for a dN; a d1 always shows 1; otherwise the face is the draw plus one |
| DieTypes.ModelType | src/die.ts:57-63 | a d100 loads the d10 model, a d1 loads none, and every other type loads its own |
| DieTypes.ModelTypeHasAsset | src/die.ts:57-63 | every model a die loads is a key of the asset map (src/assets.ts lines 8-13) |
| Numerals.FromNat | src/diceGroup.ts:130-136 | the decimal text of a number is nonempty, all digits, and has no leading zero unless the number is 0 |
| Numerals.ToNatFromNat | src/diceGroup.ts:130-136 | reading the decimal text back gives the number |
| Numerals.FromNatInjective | src/diceGroup.ts:130-136 | different numbers print differently |
| Numerals.FromNatToNat | src/diceGroup.ts:130-136 | digits without a leading zero are exactly the printed text of their value |
| IndexOrders.StableOrder | src/diceGroup.ts:100-108 | the indices sorted by value, ties in index order: a permutation of the indices, ordered, whose values sum to the sum of all rolls |
| IndexOrders.StableOrderUnique | src/diceGroup.ts:100-108 | there is exactly one such order, so the comparator's result is determined |
| IndexOrders.JsSlice | src/diceGroup.ts:109 | `slice` with an end in range is the subsequence; a negative end counts from the back |
| RollCuts.KeptPartition | src/diceGroup.ts:100-109 | dropped-low, kept and dropped-high indices together are the stable order, each low roll ≤ each kept roll ≤ each high roll |
| RollCuts.KeptSum | src/diceGroup.ts:109-112 | the kept, low and high rolls sum to all the rolls |
| DiceGroups.SetType | src/diceGroup.ts:8-13 | succeeds exactly when unrolled, then changes only the type; otherwise fails Locked |
| DiceGroups.SetCount | src/diceGroup.ts:18-23 | succeeds exactly when unrolled, then changes only the count, without re-checking the drops |
| DiceGroups.SetDropHighest | src/diceGroup.ts:28-35 | succeeds exactly when unrolled and `v + dropLowest < count`; the failure is Locked when rolled and DropAll otherwise |
| DiceGroups.SetDropLowest | src/diceGroup.ts:40-47 | succeeds exactly when unrolled and `dropHighest + v < count`, with the same failures |
| DiceGroups.New | src/diceGroup.ts:67-82 | construction succeeds exactly when `dropHighest + dropLowest < count` and gives an unrolled group with total 0 |
| DiceGroups.Clone | src/diceGroup.ts:69-75 | a copy is unrolled, with equal type, count and drops and total 0, and exists exactly when the drops fit |
| DiceGroups.Single | src/roll.ts:10 | the group `addDie` creates is what the constructor gives for `(t, 1, 0, 0)` |
| DiceGroups.Roll | src/diceGroup.ts:88-113 | fails RolledTwice on a rolled group; otherwise gives one face per die, in range, with type, count and drops unchanged |
| DiceGroups.RollPartition | src/diceGroup.ts:100-112 | with drops that fit, `count - dropHighest - dropLowest` dice are kept, cut from the stable order between the low and high cuts, and the total is all rolls less the dropped ones |
| DiceGroups.RollNoDrops | src/diceGroup.ts:109-112 | with no drops the total is the sum of all rolls |
| DiceGroups.RolledGroupIsLocked | src/diceGroup.ts:8-47 | a rolled group refuses every setter and a second roll |
| DiceGroups.ExampleDropHighest | src/diceGroup.ts:88-113 | 4d6 dropping the highest, rolling 2, 6, 4, 1, keeps indices 3, 0, 2 for a total of 7 |
| DiceGroups.ShrunkGroupKeepsWrappedSlice | src/diceGroup.ts:18-23 | shrinking a group below its drops is accepted, and the negative slice end then keeps dice from the back |
| DiceNotation.ToString | src/diceGroup.ts:129-138 | the notation starts with a digit; with `NotationExact` it is the one text that reads back as the group's settings |
| DiceNotation.ParseToString | src/diceGroup.ts:129-138 | reading the notation back recovers type, count and both drops |
| DiceNotation.ExampleNotation | src/diceGroup.ts:129-138 | 4d6 dropping one low and one high prints `4d6dl1dh1` |
| DiceNotation.ExampleBareNotation | src/diceGroup.ts:129-138 | three d1 print as the bare count `3`, and two d20 dropping one high as `2d20dh1`: zero drops are left out |
| DiceNotation.PrintParsed | src/diceGroup.ts:129-138 | every text the reader accepts is the printed notation of the settings it reads |
| DiceNotation.NotationExact | src/diceGroup.ts:129-138 | a text reads as a group's settings if and only if it is that group's notation: a bare count for a d1, no zero drop, no leading zero |
| DiceNotation.LenientSpellingRefused | src/diceGroup.ts:129-138 | `3d1dl0dh0`, which the printer never writes, is not notation |
| DiceSets.Find | src/rollController.ts:102 | the position of the first group of a type, or none exactly when no group has it |
| DiceSets.Get | src/rollController.ts:54 | `get(t)` is a group of the aggregate with type `t`, or none exactly when there is none |
| DiceSets.AddTo | src/rollController.ts:102-107 | appends `(t, 1, 0, 0)` when absent, else increments that group by one and leaves the others; one more die; fails Locked on a rolled group; keeps one group per type |
| DiceSets.RollAll | src/rollController.ts:135-137 | every group rolled once with its own draws, in order; fails RolledTwice if any was rolled |
| DiceSets.RollAllKeepsDice | src/rollController.ts:135-137 | afterwards all groups are rolled, with the same types and counts |
| DiceSets.ExampleFlatBonus | src/diceGroup.ts:117 | a d20 plus three d1 totals the d20's face plus 3 |
| GroupOrders.ViewCompare | src/rollView.ts:211-221 | negative iff the first type ranks lower, positive iff higher, zero iff the same type |
| GroupOrders.ManagerCompare | src/rollManager.ts:158-168 | the reverse: negative iff the first type ranks higher |
| GroupOrders.CompareDuality | src/rollManager.ts:158-168 | the manager's comparator is the view's with its arguments swapped |
| GroupOrders.Sort | src/rollView.ts:115 | a sorted permutation of the groups, with the same dice and total, keeping one group per type |
| GroupOrders.SortSorted | src/rollView.ts:115 | sorting sorted groups changes nothing |
| GroupOrders.SortIdempotent | src/rollView.ts:115 | sorting twice is sorting once |
| GroupOrders.SortedStrictly | src/rollView.ts:115 | with one group per type, the sorted types strictly increase in rank |
| RollMaps.AddDie | src/roll.ts:8-14 | the keys gain `t`; a new `t` gets `(t, 1, 0, 0)`, an existing one one more die; other groups are unchanged; groups stay under their own type |
| RollMaps.AddManyFromEmpty | src/roll.ts:9-12 | from empty, `k` additions of `t` leave exactly one group, `t` with count `k` |
| RollViews.Take | src/rollView.ts:118-123 | the first old die of the type and the others, or none exactly when there is none |
| RollViews.GroupDice | src/rollView.ts:117-152 | each die is labelled as the group promises; a group other than d1 shows one die per die; a d1 group with dice shows at least one die, and at most one new die |
| RollViews.DisplayTypes | src/rollView.ts:116-153 | only types with dice in some group are displayed |
| RollViews.DisplayCounts | src/rollView.ts:116-153 | with one group per type, a group other than d1 shows exactly its count of dice |
| RollViews.DisplayOneD1 | src/rollView.ts:117-131 | at most one d1 die is displayed, however many d1 the group holds, and exactly one when a d1 group has dice |
| RollViews.ResultsText | src/rollView.ts:94-103 | `= ` and the total when the total is positive, `= ??` exactly when it is 0 |
| RollViews.Refresh | src/rollView.ts:53-165 | the groups are sorted, the texts are enabled iff there are dice, the results text follows the total, and the label is left alone |
| DropControllers.AddDice | src/dropController.ts:38-44 | all dice appended in order when all are of the group's type, nothing and OddDice otherwise |
| DropControllers.AddDiceTwice | src/dropController.ts:38-44 | handing dice over in two calls equals handing them over in one |
| DropControllers.Update | src/dropController.ts:46-61 | pending before the handles exist, hidden with no dice, else the left handle on die `dropHighest` and the right on die `length - dropLowest - 1`, failing exactly when one is off the list |
| DropControllers.HandlesInRange | src/dropController.ts:49-56 | with drops that fit and at least `count` dice, both handles land on dice, left not after right |
| RollHistories.NewEntry | src/rollHistory.ts:13-22 | the entry holds the user and the roll; the user gets a highlight only if they had none, and the others are kept |
| RollHistories.AddRollToHistory | src/rollHistory.ts:69-74 | fails Unrolled exactly when the roll has no results; otherwise the log gains exactly one last entry and keeps the earlier ones |
| RollHistories.DisplayLines | src/rollHistory.ts:76 | the last `min(10, length)` entries of the log, in order |
| RollHistories.DisplaySlides | src/rollHistory.ts:74-76 | one more entry shows last, pushing out the oldest once ten are shown |
| RollHistories.DisplayAfterTwelve | src/rollHistory.ts:76 | with twelve entries the window shows the third to the twelfth |
| RollHistories.HighlightKept | src/rollHistory.ts:15-21 | a user's first highlight is kept by later entries |
| RollManagers.AddDie | src/rollManager.ts:53-62 | fails exactly when the group is rolled; otherwise the groups are those after adding the die, put in descending type order, so one more die |
| RollManagers.AddDieValid | src/rollManager.ts:53-62 | adding to a valid manager succeeds and keeps it valid |
| RollManagers.CloneAll | src/rollManager.ts:154 | an unrolled copy of every group, existing exactly when every group's drops fit |
| RollManagers.RollActive | src/rollManager.ts:139-156 | succeeds exactly when no group is rolled and all drops fit; the rolled groups are appended to the history as one entry, and the text is `= ` and the total of the group totals |
| RollManagers.TotalText | src/rollManager.ts:151 | the text is `= ` followed by digits that read back as the total |
| RollManagers.RollActiveValid | src/rollManager.ts:139-156 | rolling a valid manager succeeds, and it continues with unrolled groups of the same settings in the same order |
| RollControllers.Start | src/rollController.ts:17-19 | a new session is valid, with no dice, no controllers, label `ROLL`, hidden texts and `= ??` |
| RollControllers.Bookkeep | src/rollController.ts:113-120 | each group other than d1 with dice ends with a controller; types without groups keep theirs; d1 never gains one |
| RollControllers.BookkeepFlips | src/rollController.ts:113-120 | among groups of distinct types, a group other than d1 with no dice comes out of the loop with a controller exactly when it went in without one |
| RollControllers.Feed | src/rollController.ts:125-129 | succeeds exactly when every displayed die other than d1 has a controller; each controller ends with its old dice followed by the displayed dice of its type, in display order |
| RollControllers.Refresh | src/rollController.ts:112-130 | the groups end sorted; the label is `RESET` exactly when the roll has results, else `ROLL`; the history is untouched; the controllers are those the bookkeeping loop keeps, each holding its old dice followed by the displayed dice of its type |
| RollControllers.RefreshReady | src/rollController.ts:112-130 | on a ready session it never fails, and each group with dice has a controller holding at least its count of dice |
| RollControllers.RefreshValid | src/rollController.ts:112-130 | a valid session refreshes into a valid one with the same roll |
| RollControllers.HandlesAfterRefresh | src/rollController.ts:45-49 | after a refresh, each controller's handles land on its first and last die |
| RollControllers.AddDie | src/rollController.ts:97-110 | nothing happens once rolled or at 15 dice; otherwise the groups are those after adding a die of type `t`, in display order, so one more die and a group of type `t` with dice |
| RollControllers.AddDieValid | src/rollController.ts:97-110 | adding keeps a session valid, so never past 15 dice, and adds a die exactly when unrolled and below 15 |
| RollControllers.AddRepeatedly | src/rollController.ts:98-100 | repeated additions add one die each until 15, and none after |
| RollControllers.SixteenPresses | src/rollController.ts:98-100 | sixteen additions to a new session leave 15 dice |
| RollControllers.RollButtonPressed | src/rollController.ts:132-148 | a roll appends exactly one history entry; the other two cases leave the history alone |
| RollControllers.RollPressRecords | src/rollController.ts:133-138 | a roll succeeds on the given draws; the new entry, by the user at that time, holds exactly the groups rolled with those draws; the session shows the same groups in display order, label `RESET`, and the entry's total as results text |
| RollControllers.ResetPressClears | src/rollController.ts:139-145 | pressing on rolled dice empties the roll and the controllers, shows `ROLL` and `= ??`, and keeps the history |
| RollControllers.IdlePressChangesNothing | src/rollController.ts:133-147 | with no dice, the press leaves the roll and the history as they were |
| RollControllers.RollButtonPressedValid | src/rollController.ts:132-148 | every press keeps a valid session valid |
| RollControllers.DiePressed | src/rollController.ts:53-61 | an index past the display, or a type with no group, reads through `undefined`; a rolled group presses the button |
| RollControllers.PressRolledDie | src/rollController.ts:55-56 | clicking a die of a rolled valid session resets it |
| RollControllers.PressUnrolledDie | src/rollController.ts:57-59 | clicking a die of an unrolled valid session takes exactly one die from the group of that type, changes nothing else, and keeps it valid |
| RollControllers.ClickDie | src/rollController.ts:53-54 | the listener indexes the whole display with the die's index within its group |
| RollControllers.ClickDieMisroutes | src/rollController.ts:54 | with one d4 and two d6, clicking the first d6 takes the d4 away |
| RollControllers.ClickIntendedTakesClickedDie | src/rollController.ts:53-61 | indexed by display position, a click takes one die from exactly the clicked die's type |
| RollControllers.ExampleDisplay | src/rollView.ts:116-153 | one d4 and two d6 display as the d4 then the two d6, reporting indices 0, 0, 1 |

## Left out

- `src/assets.ts`: asset loading, with its per-session cache, is I/O. Only its key set is used, by `DieTypes.ModelTypeHasAsset`.
- `src/index.ts` and `src/app.ts`: server and session plumbing.
- `src/utils.ts` `textHeightForWidth`: floating-point text sizing.
- Actors, layouts, positions, hover scaling and prefabs. Handle positions are reduced to the indices of the dice they sit on.
- `HistoryEntry.toString` and `toRollView`: presentation, and caching of views.
- Random values. Die draws, entry timestamps and highlight colours are parameters. `RollHistories.Colour` carries the three channels but not their range.
- The `Dice` class is not part of `src/diceGroup.ts`. `DiceSets` gives it only what `src/rollController.ts` and `src/rollView.ts` use. `hasRollResults` is read as "has groups and all are rolled". `clone()` is read as a copy of the rolled groups, since `addRollToHistory` refuses a roll without results.
- `src/die.ts` defines no `text`, `textColor`, click events or `destroy()` on `Die`. `src/rollView.ts` and `src/rollController.ts` use the first three, and `src/rollView.ts` calls `destroy()` at lines 163 and 169. A displayed die is modelled by what those callers set, and a destroyed die simply leaves the display.
- The click-handler cache (`src/rollView.ts` lines 134-139, 174-182). A reused die has the handler for its new index removed before the new one is added, so the handler for its old index stays on. `RollControllers.ClickDie` models only the handler for the current index.
- The `refreshed` event runs `update()` on every controller once the dice exist. The model states it for a controller after the refresh, in `RollControllers.HandlesAfterRefresh`, rather than as a step.
- Old dice that are not reused are destroyed. A destroyed controller keeps no state here, so destruction is simply removal from the map.
- `src/dropController.ts` defines no `destroy()` on `DropController`, yet `src/rollController.ts` calls it at line 117 (a group left with no dice) and line 141 (reset). Read literally, those calls throw a `TypeError`. The model assumes the method exists and only removes the controller, so `RollControllers.Refresh` and the reset branch of `RollControllers.RollButtonPressed` return `Ok` where `src/rollController.ts` would throw.
- `src/app.ts` defines no `history` field on `App`, yet `src/rollController.ts` line 138 writes to `this.app.history`. The model treats the history as shared state of the session, passed in and returned.
- `RollManager`'s displayed dice and its relabelling of them on a roll (`src/rollManager.ts` lines 103-136 and 144-148). Only its groups, history and results text are modelled.
- When a handler throws part-way, the objects it already mutated stay changed. Here an `Err` returns no state at all.
- Dragging the handles to change drops does not appear in the code, so no group ever gets a drop in a session.
- RollHistories.AddRollToHistory: does not model the rebuilt display rows. `DisplayLines` gives which entries they show.
- DiceSets.RollAll: takes one list of draws per group, one draw per die, for every group whether rolled or not. A roll that throws on an already rolled group is an `Err`, whatever was drawn before.

## Findings

| source | as written | input that shows it | evidently intended | confidence | as-written member | corrected member |
|---|---|---|---|---|---|---|
| src/rollController.ts:54 with src/rollView.ts:134-139 | a die's click handler reports its index within its own group; the listener reads that number as a position in the whole display | one d4 and two d6 show as d4, d6, d6 with reported indices 0, 0, 1; clicking the first d6 reports 0, and position 0 is the d4, so a d4 is removed | the clicked die's own type loses a die | high (not executed) | RollControllers.ClickDie (shown by RollControllers.ClickDieMisroutes) | RollControllers.ClickDieIntended (proved by RollControllers.ClickIntendedTakesClickedDie) |
