# Kanban board state engine

A model of the board state engine of the kanban-board web application. The
state is an ordered tree of records:

- columns hold cards;
- in the content planner, stages hold columns, which hold cards.

The engine has two parts:

- drag handlers (`onDragEnd`). Each copies the sibling list (`Array.from`),
  takes the dragged element out with `splice(i, 1)` and puts it back with
  `splice(j, 0, x)`;
- create, rename and delete callbacks. These are `map`/`filter` rewrites
  whose result replaces the component's state.

Each React component is modelled as pure functions from the old state to the
new one. The in-place array work of the handlers is also modelled as methods
over Dafny arrays, proved equal to those functions. The modules are:

- `Wrappers`: an optional value.
- `Text`: JavaScript's `trim` (the blank-input guard `!s.trim()`) and
  `split(":")`.
- `Splice`: `RemoveAt`, `InsertAt` and `Move` as functions, and
  `SpliceOut`, `SpliceIn` and `SpliceMove` as array methods.
- `Entities`: the card, column and stage records, the drop record, and
  `findIndex`.
- `ColumnBoard`: the two-level engine. `components/kanban-board.tsx` and
  `components/kanban/task-board.tsx` carry it twice, identical except for
  the prefixes of fresh ids.
- `KanbanBoard` and `KanbanTaskBoard`: what those two files add, namely the
  id prefixes and the `TaskColumn` guards.
- `NestedTaskBoard`: `components/task-board.tsx`.
- `ContentPlanner`: `components/content/ContentPlanner.tsx`.
- `StatusTaskBoard`: `components/TaskBoard.tsx`.

Fresh ids come from `uuidv4()`. Each one is a parameter, with a precondition
that the id it produces is not yet on the board. A drop record comes from the
drag library; its `source.index` points at an element of the source list.
`splice` is modelled exactly:

- a destination index past the end appends;
- nothing is clamped.

What the model does and does not guard follows the state owners' code:

- The `updateColumnTitle` and `updateCard` callbacks accept any title or
  content, blank ones included. The `Column` component that
  `components/kanban-board.tsx` renders refuses a blank column title before
  calling back (`components/column.tsx:62-79`); that component is left out.
  Where the card editors of `components/kanban-board.tsx` and
  `components/kanban/task-board.tsx` refuse blank content, if they do, is not
  part of this model. The one guard that is modelled is `TaskColumn`'s
  `handleUpdateColumnTitle`, which lives in `components/kanban/task-board.tsx`.
- An unknown id leaves the state unchanged. No error is reported.
- Drop indices are never negative, so no clamping to 0 is modelled.
- The content planner has no shortcut for a drop at its own position. Its
  card branch loses the card on any move inside one stage (see Findings), so
  a drop onto its own position is not the identity there as written.

## Model

| member | source | states |
|---|---|---|
| Text.TrimStart | components/kanban-board.tsx:201 | the result is a suffix of the input, what was dropped is all ECMAScript whitespace, and the result does not start with whitespace |
| Text.TrimEnd | components/kanban-board.tsx:201 | the result is a prefix, what was dropped is all whitespace, and the result does not end with whitespace |
| Text.Trim | components/kanban-board.tsx:201 | `trim` is no longer than its input, neither starts nor ends with whitespace, and is empty exactly when the input is all whitespace |
| Text.TrimSlice | components/kanban-board.tsx:201 | `trim`'s result is exactly the slice of the input that starts where the leading whitespace ends, with only whitespace before and after it |
| Text.TrimmedSlice | components/kanban-board.tsx:201 | dropping a whitespace prefix and then a whitespace suffix leaves a slice of the input with only whitespace on either side; it is empty exactly when the input is all whitespace |
| Text.IsBlank | components/kanban/task-board.tsx:181 | the guard `!s.trim()` fires exactly when every character of `s` is whitespace (both directions) |
| Text.Split | components/content/ContentPlanner.tsx:49 | `split` on one character gives at least one part; no part contains the separator; joining the parts with it gives the input back |
| Text.SplitJoin | components/content/ContentPlanner.tsx:68-69 | splitting undoes joining for parts free of the separator |
| Text.SplitFirstPart | components/content/ContentPlanner.tsx:49 | the first part is the text before the first separator, or the whole text when there is none |
| Text.SplitNoSeparator | components/content/ContentPlanner.tsx:68 | text without the separator splits into itself alone |
| Text.SplitRest | components/content/ContentPlanner.tsx:68-69 | after the first separator, the remaining parts are the split of the text that follows it |
| Splice.InsertIndex | components/kanban-board.tsx:137 | `splice(i, 0, x)` inserts at `i`, or at the end (index `n`) when `i` is past the end of a list of length `n` |
| Splice.RemoveAt | components/kanban-board.tsx:136 | `splice(i, 1)` shortens the list by one, shifts the tail left, and takes exactly `s[i]` out of the multiset |
| Splice.InsertAt | components/kanban-board.tsx:137 | `splice(j, 0, x)` puts `x` at `InsertIndex(j, \|s\|)`, keeps the elements before it, shifts the rest right, and adds exactly `x` |
| Splice.Move | components/kanban-board.tsx:135-137 | remove-then-insert keeps the length and the multiset, and the element lands at the drop index (last when past the end) |
| Splice.RemoveInsert | components/kanban-board.tsx:136-137 | removing at the place of an insertion gives the list back |
| Splice.InsertRemove | components/kanban-board.tsx:136-137 | re-inserting a removed element where it was gives the list back |
| Splice.MoveBack | components/kanban/task-board.tsx:131-133 | a move is undone by the move back from where the element landed |
| Splice.MoveAt | components/kanban/task-board.tsx:131-133 | where each element of a moved list comes from: the elements between the two positions shift by one |
| Splice.SpliceOut | components/kanban-board.tsx:171-173 | the array copy with the shift-left loop yields `RemoveAt` and the removed element |
| Splice.SpliceIn | components/kanban-board.tsx:172-174 | the array copy with the shift-right loop yields `InsertAt` |
| Splice.SpliceMove | components/kanban-board.tsx:154-156 | splice out then splice in at the drop index is `Move` |
| Entities.FindIndex | components/kanban-board.tsx:147-148 | `find`/`findIndex` by id: -1 exactly when the id is absent; otherwise the first position holding it |
| Entities.FindIndexDistinct | components/content/ContentPlanner.tsx:73-74 | with distinct ids, the lookup of an element's id finds that element |
| ColumnBoard.ReplaceById | components/kanban-board.tsx:163 | the `map` replacing by id keeps the column ids and order |
| ColumnBoard.ReplacePair | components/kanban-board.tsx:186-190 | the two-way `map` keeps the column ids and order |
| ColumnBoard.ReplaceByIdAt | components/kanban/task-board.tsx:155-157 | with distinct ids, replacing by id replaces one position |
| ColumnBoard.ReplacePairAt | components/kanban/task-board.tsx:169-173 | with distinct ids, the two-way `map` replaces exactly two positions |
| ColumnBoard.CardsMove | components/kanban-board.tsx:134-143 | reordering the columns keeps every card |
| ColumnBoard.DragEnd | components/kanban-board.tsx:122-197 | no destination or the same position: unchanged; column drag: a permutation with the dragged column at the drop index; card drag: column ids and order kept; unknown source or destination column: unchanged; distinct column ids stay distinct |
| ColumnBoard.MoveDistinctIds | components/kanban-board.tsx:133-144 | reordering the columns keeps their ids distinct |
| ColumnBoard.OnDragEnd | components/kanban/task-board.tsx:120-176 | the handler's array splices and rebuilt column list equal `DragEnd` |
| ColumnBoard.SameColumnDrag | components/kanban-board.tsx:153-168 | a drag inside one column turns that column into itself with its cards moved (same id and title, same length and multiset of cards, the card at the drop index), and leaves other columns untouched |
| ColumnBoard.CrossColumnDrag | components/kanban-board.tsx:169-196 | a drag to another column: the source becomes itself (same id and title) with the card at the source index removed, the destination itself with the moved card inserted at the drop index (last when past the end), other columns untouched |
| ColumnBoard.SameColumnConserves | components/kanban-board.tsx:153-168 | with distinct column ids, reordering the cards of one column keeps the board's multiset of cards |
| ColumnBoard.CrossColumnConserves | components/kanban/task-board.tsx:158-175 | with distinct column ids, removing a card from one column and inserting it into another keeps the board's multiset of cards |
| ColumnBoard.DragEndConservesCards | components/kanban/task-board.tsx:148-175 | with distinct column ids, every drag keeps the board's multiset of cards |
| ColumnBoard.AddColumn | components/kanban-board.tsx:200-216 | blank title: unchanged; otherwise exactly one empty column with the fresh id is appended, the dialog is cleared and closed, unique ids stay unique and distinct column ids stay distinct |
| ColumnBoard.UpdateColumnTitle | components/kanban-board.tsx:219-231 | only the titles of columns with the id change; ids, order and cards stay |
| ColumnBoard.UpdateColumnTitleLastWins | components/kanban/task-board.tsx:192-197 | two renames equal one rename to the last title |
| ColumnBoard.DeleteColumn | components/kanban-board.tsx:234-240 | what remains is every column with another id; an absent id changes nothing |
| ColumnBoard.DeleteColumnDistinct | components/kanban-board.tsx:234-240 | deleting a column keeps the remaining column ids distinct |
| ColumnBoard.DeleteColumnAppend | components/kanban/task-board.tsx:199-202 | the filter keeps the order of the remaining columns |
| ColumnBoard.DeleteColumnCascade | components/kanban-board.tsx:234-240 | with distinct ids, exactly one column goes, and its cards go with it |
| ColumnBoard.AddCard | components/kanban-board.tsx:243-263 | each column with the id becomes itself (same id and title) with the card appended; other columns are unchanged; an absent id changes nothing |
| ColumnBoard.AddCardAt | components/kanban/task-board.tsx:211-221 | with distinct ids, adding a card rewrites one position |
| ColumnBoard.AddCardCards | components/kanban-board.tsx:243-263 | with distinct ids, the board gains exactly the new card, or nothing for an unknown column |
| ColumnBoard.AddNewCard | components/kanban-board.tsx:243-263 | with a fresh card id, every column with the id becomes itself (same id and title) with the card built from the arguments (description "" by default) appended; other columns are unchanged, and unique ids stay unique |
| ColumnBoard.UpdateCard | components/kanban-board.tsx:266-284 | only the content and description of matching cards in matching columns change (description "" when none is passed); ids, titles and positions stay |
| ColumnBoard.RemoveCards | components/kanban-board.tsx:292 | the card filter keeps exactly the cards with another id; an absent id changes nothing |
| ColumnBoard.RemoveCardsAppend | components/kanban/task-board.tsx:248 | the card filter keeps the order |
| ColumnBoard.DeleteCard | components/kanban-board.tsx:287-302 | each column with the id becomes itself (same id and title) without its cards with the card id; other columns are unchanged |
| ColumnBoard.UniqueColumnIds | components/kanban-board.tsx:204 | when no id is used twice on the board, the column ids are distinct |
| ColumnBoard.AppendColumnUnique | components/kanban-board.tsx:203-211 | appending an empty column with a fresh id keeps ids unique |
| ColumnBoard.AddCardUnique | components/kanban-board.tsx:246-250 | adding a card with a fresh id keeps ids unique |
| ColumnBoard.UpdateCardKeepsIds | components/kanban/task-board.tsx:225-240 | editing a card leaves every id on the board in place, so unique ids stay unique |
| KanbanBoard.HandleAddColumn | components/kanban-board.tsx:200-216 | blank title: unchanged; otherwise the column `column-<uuid>` with the title is appended, the dialog is reset, and unique ids stay unique |
| KanbanBoard.AddCard | components/kanban-board.tsx:243-263 | each matching column becomes itself (same id and title) with the card `card-<uuid>` appended, built from the given content and the description ("" when none is passed); other columns are unchanged, and unique ids stay unique |
| KanbanTaskBoard.AddColumn | components/kanban/task-board.tsx:180-190 | blank title: unchanged; otherwise the column `task-column-<uuid>` is appended, and unique ids stay unique |
| KanbanTaskBoard.AddCard | components/kanban/task-board.tsx:206-222 | each matching column becomes itself (same id and title) with the card `task-card-<uuid>` appended, built from the given content and the description ("" when none is passed); other columns are unchanged, and unique ids stay unique |
| KanbanTaskBoard.HandleAddCard | components/kanban/task-board.tsx:352-357 | blank content: nothing changes; otherwise the card is added, the board gains exactly that card, and the fields are cleared |
| KanbanTaskBoard.HandleUpdateColumnTitle | components/kanban/task-board.tsx:359-363 | blank title: nothing changes and the editor stays as it was; otherwise the columns with the id take the title, every card and every other column stay as they were, the result is the board's `updateColumnTitle`, and the editor closes |
| NestedTaskBoard.Initial | components/task-board.tsx:24-26 | the board starts with no columns and no cards |
| NestedTaskBoard.AddTaskColumn | components/task-board.tsx:28-38 | blank title: unchanged; otherwise one empty column `task-column-<uuid>` is appended at the end, the cards are unchanged, and unique ids stay unique |
| NestedTaskBoard.AddTaskCard | components/task-board.tsx:40-55 | blank content or an unknown column: unchanged; otherwise the matching column becomes itself (same id and title) with the card `task-card-<uuid>` (description "" by default) appended, and no other column changes |
| ContentPlanner.ColumnListStage | components/content/ContentPlanner.tsx:49 | the stage id of a column list is the text of its droppable id before the first ':' (all of it when there is none) |
| ContentPlanner.CardTarget | components/content/ContentPlanner.tsx:68-69 | the stage id of a card list is the text before the first ':'; the column id is the text after it up to the next ':' or the end, and "" when there is no ':' |
| ContentPlanner.ColumnListStageOf | components/content/ContentPlanner.tsx:48-49 | the stage is read back from a column list id `<stageId>:columns` |
| ContentPlanner.CardTargetOf | components/content/ContentPlanner.tsx:67-69 | stage and column ids are read back from a card list id `<stageId>:<columnId>` |
| ContentPlanner.ReplaceStageById | components/content/ContentPlanner.tsx:59-61 | the stage `map` keeps the stage ids and their order |
| ContentPlanner.ReplaceStageByIdAt | components/content/ContentPlanner.tsx:59-61 | with distinct stage ids, replacing by id replaces one position |
| ContentPlanner.StageCardsMove | components/content/ContentPlanner.tsx:38-44 | reordering the stages keeps every card |
| ContentPlanner.CardRoute | components/content/ContentPlanner.tsx:68-86 | a card drop resolves exactly when all four id parts are non-empty, both stages exist and each column is in the stage `findIndex` finds (both directions); the positions are those of `findIndex` |
| ContentPlanner.SourceAfter | components/content/ContentPlanner.tsx:91-100 | the source column keeps its id and title, and its cards become the old cards with the one at the source index removed |
| ContentPlanner.DestAfter | components/content/ContentPlanner.tsx:94-104 | the copied destination column keeps its id and title, and its cards become the old cards with the moved card inserted at the drop index (last when past the end) |
| ContentPlanner.MoveCardAsWritten | components/content/ContentPlanner.tsx:106-124 | the card branch as written keeps the stage ids and order, and every stage's column ids |
| ContentPlanner.AsWrittenShape | components/content/ContentPlanner.tsx:106-124 | as written, with distinct ids, only the source column in its stage changes, plus the destination column when it is in another stage |
| ContentPlanner.CrossStageDrag | components/content/ContentPlanner.tsx:91-126 | across stages, as written, the source column becomes its cards with the one at the source index removed and the destination column its cards with the moved card inserted at the drop index; both stages keep their ids and column counts, and every other column and stage is untouched |
| ContentPlanner.CrossStageConserves | components/content/ContentPlanner.tsx:91-126 | across stages the card branch keeps the multiset of cards |
| ContentPlanner.SameStageLosesCard | components/content/ContentPlanner.tsx:106-124 | within one stage the card branch as written loses exactly the dragged card |
| ContentPlanner.WithinStageConserves | components/content/ContentPlanner.tsx:91-126 | with well-keyed ids, the intended rewrite of one stage's columns keeps that stage's cards |
| ContentPlanner.MoveCard | components/content/ContentPlanner.tsx:91-126 | the intended card branch keeps the stage ids and order |
| ContentPlanner.MoveCardConserves | components/content/ContentPlanner.tsx:91-126 | the intended card branch keeps every card, within a stage and across stages |
| ContentPlanner.DragEnd | components/content/ContentPlanner.tsx:33-127 | no destination: unchanged (there is no same-position shortcut); stage drag: a permutation with the stage at the drop index; column drag: the named stage becomes itself (same id and title) with its columns reordered, other stages untouched; unresolved drops: unchanged |
| ContentPlanner.DragEndAsWritten | components/content/ContentPlanner.tsx:33-127 | the handler as written agrees with `DragEnd` on stage drags, column drags, drops outside every list and card moves across stages; an unresolved card drop leaves the stages unchanged; a resolved one is `MoveCardAsWritten` of its route |
| ContentPlanner.DragEndAsWrittenLosesCard | components/content/ContentPlanner.tsx:66-124 | as written, a resolved card drop between two columns of one stage loses exactly the dragged card |
| ContentPlanner.DragEndConservesCards | components/content/ContentPlanner.tsx:33-127 | with well-keyed ids, every drop under the intended handler keeps every card |
| ContentPlanner.ReplaceStageKeepsKeys | components/content/ContentPlanner.tsx:59-61 | replacing a stage by one with the same id and distinct column ids keeps the planner well keyed |
| ContentPlanner.MoveKeepsKeys | components/content/ContentPlanner.tsx:38-46 | reordering the stages keeps stage ids distinct and each stage's column ids distinct |
| ContentPlanner.MoveCardKeepsKeys | components/content/ContentPlanner.tsx:91-126 | the intended card move keeps the planner well keyed |
| ContentPlanner.DragEndKeepsKeys | components/content/ContentPlanner.tsx:33-127 | every drop, as intended and as written, keeps the planner well keyed, so the conservation lemmas apply along any run of drops |
| ContentPlanner.OnDragEnd | components/content/ContentPlanner.tsx:33-127 | the handler's splices on copied arrays and its stage `map` equal `DragEndAsWritten` |
| ContentPlanner.ExampleDropResolves | components/content/ContentPlanner.tsx:68-86 | the drop `s:c` to `s:c` resolves to the single stage and column |
| ContentPlanner.ExampleMoveAsWritten | components/content/ContentPlanner.tsx:106-124 | on the one-card example, the card branch as written leaves the column without its card |
| ContentPlanner.DropInPlaceEmptiesColumn | components/content/ContentPlanner.tsx:106-124 | as written, dropping a one-card column's card back in place leaves that column empty |
| ContentPlanner.DropInPlaceIntended | components/content/ContentPlanner.tsx:33-127 | under the intended handler, the same drop leaves the planner unchanged |
| ContentPlanner.AppendStage | components/content/ContentPlanner.tsx:140 | appending a stage adds its cards; a fresh stage id with distinct column ids keeps the ids well keyed |
| ContentPlanner.AddStage | components/content/ContentPlanner.tsx:129-143 | blank title: unchanged; otherwise one stage `stage-<uuid>` with two empty columns "New Column 1" and "New Column 2" is appended, the dialog is reset, cards are unchanged, and ids stay well keyed |
| StatusTaskBoard.TasksIn | components/TaskBoard.tsx:61 | a group holds exactly the tasks whose status is that column, so groups are pairwise disjoint |
| StatusTaskBoard.TasksInAppend | components/TaskBoard.tsx:61 | the filter keeps list order |
| StatusTaskBoard.GroupTasks | components/TaskBoard.tsx:27-31 | the reduce builds exactly the keys `todo`, `in-progress` and `done`, each holding that column's tasks |
| StatusTaskBoard.UnshownTasks | components/TaskBoard.tsx:60-63 | the tasks whose status is none of the three columns, which no group shows |
| StatusTaskBoard.GroupsPartition | components/TaskBoard.tsx:60-63 | the sizes of the three groups plus the unshown tasks add up to the whole list |
| StatusTaskBoard.AddTask | components/TaskBoard.tsx:40-57 | blank content: unchanged; otherwise the created task is appended at the end and both fields are cleared |
| StatusTaskBoard.AddTaskGroups | components/TaskBoard.tsx:40-63 | after `addTask` only the `todo` group changes, gaining the new task at its end |

## Left out

- Browser persistence is I/O and is not modelled. This covers `loadBoardData` and the `localStorage` effects in both kanban files, including the `JSON.parse` fallback.
- The network and the database are not modelled. This covers the `fetch` that loads a project's tasks, the POST route and the mongoose models. The server's reply to `addTask` is taken to be the posted fields under a server-chosen id, which is a parameter.
- `uuidv4()` is not modelled; each value it returns is a parameter assumed fresh.
- Rendering, dialogs and the drag gesture are not modelled. The model starts from the finished drop record.
- The React context provider of the content planner and its seed data are not modelled.
- The stub handlers in `components/content/StageBoard.tsx` and `components/content/TaskBoard.tsx` are not modelled.
- A drop whose source index is out of range is not modelled. In the code `splice` would remove nothing and `undefined` would be inserted; here a precondition excludes it.
- Negative drop indices are not modelled, because the drag library never produces them.
- In `addTask`, the list appended to is the one captured before the `await`, so a concurrent update would be overwritten. The model applies `addTask` atomically.
- ColumnBoard.AddNewCard, KanbanBoard.AddCard, KanbanTaskBoard.AddCard, NestedTaskBoard.AddTaskCard: with two columns under the same id, the code draws a separate `uuidv4()` for each (`components/kanban-board.tsx:246-247`, `components/kanban/task-board.tsx:213-214`, `components/task-board.tsx:46-47`). The model gives both the same card. With distinct column ids, which every operation keeps (`ColumnBoard.DragEnd`, `ColumnBoard.AddColumn`, `ColumnBoard.DeleteColumnDistinct`; the other operations keep the column ids as they were), the two agree.

## Findings

| source | as written | input that shows it | evidently intended | confidence | as-written member | corrected member |
|---|---|---|---|---|---|---|
| components/content/ContentPlanner.tsx:106-124 | the stage `map` tests the source stage first and returns, so when source and destination are in the same stage the destination column is never rewritten and the dragged card is removed without being reinserted | stage `s` with column `c` holding one card; drag type `project` from `s:c` index 0 to `s:c` index 0; as written the column ends empty | both columns are rewritten in the shared stage (within one column the card is moved), as the two-level handlers do, so no card is lost | high, not executed | ContentPlanner.SameStageLosesCard | ContentPlanner.MoveCardConserves |
