/** What `components/kanban/task-board.tsx` adds to the shared column-board
    engine: fresh ids `task-column-<uuid>` and `task-card-<uuid>`, and the
    blank-input guards of its `TaskColumn` form. Its `onDragEnd`,
    `updateColumnTitle`, `deleteColumn`, `updateCard` and `deleteCard` are
    ColumnBoard's, line for line. */
module KanbanTaskBoard {
  import opened Wrappers
  import opened Entities
  import opened Text
  import ColumnBoard

  /** `addColumn`: the dialog's title, when not blank, becomes one new empty
      column `task-column-<uuid>` at the end; a blank title changes nothing. */
  function AddColumn(st: ColumnBoard.BoardState, uuid: string): (r: ColumnBoard.BoardState)
    requires "task-column-" + uuid !in ColumnBoard.AllIds(st.columns)
    ensures IsBlank(st.newColumnTitle) ==> r == st
    ensures !IsBlank(st.newColumnTitle) ==>
      && r.columns == st.columns + [Column("task-column-" + uuid, st.newColumnTitle, [])]
      && r.newColumnTitle == "" && !r.isAddColumnOpen
    ensures ColumnBoard.UniqueIds(st.columns) ==> ColumnBoard.UniqueIds(r.columns)
  {
    ColumnBoard.AddColumn(st, st.newColumnTitle, "task-column-" + uuid)
  }

  /** `addCard`: the new card's id is `task-card-<uuid>`; the rest is
      ColumnBoard's `AddNewCard`. */
  function AddCard(cols: seq<Column>, columnId: string, content: string,
                   description: Option<string>, uuid: string): (r: seq<Column>)
    requires "task-card-" + uuid !in ColumnBoard.AllIds(cols)
    ensures ColumnIds(r) == ColumnIds(cols)
    ensures forall k :: 0 <= k < |cols| && cols[k].id == columnId ==>
      r[k] == cols[k].(cards := cols[k].cards + [Card("task-card-" + uuid, content, Some(description.GetOr("")))])
    ensures forall k :: 0 <= k < |cols| && cols[k].id != columnId ==> r[k] == cols[k]
    ensures ColumnBoard.UniqueIds(cols) ==> ColumnBoard.UniqueIds(r)
  {
    ColumnBoard.AddNewCard(cols, columnId, "task-card-" + uuid, content, description)
  }

  /** The `TaskColumn` form's card fields. */
  datatype CardDraft = CardDraft(content: string, description: string)

  /** `handleAddCard`: blank content calls nothing and keeps the fields;
      otherwise the card is added to this column and the fields are
      cleared. */
  function HandleAddCard(cols: seq<Column>, columnId: string, draft: CardDraft, uuid: string)
    : (r: (seq<Column>, CardDraft))
    requires "task-card-" + uuid !in ColumnBoard.AllIds(cols)
    ensures IsBlank(draft.content) ==> r == (cols, draft)
    ensures !IsBlank(draft.content) ==>
      && r.1 == CardDraft("", "")
      && r.0 == AddCard(cols, columnId, draft.content, Some(draft.description), uuid)
    ensures !IsBlank(draft.content) && Distinct(ColumnIds(cols)) && columnId in ColumnIds(cols) ==>
      Cards(r.0) == Cards(cols) + multiset{Card("task-card-" + uuid, draft.content, Some(draft.description))}
  {
    if IsBlank(draft.content) then (cols, draft)
    else
      var card := Card("task-card-" + uuid, draft.content, Some(draft.description));
      assert Distinct(ColumnIds(cols)) && columnId in ColumnIds(cols) ==>
        Cards(ColumnBoard.AddCard(cols, columnId, card)) == Cards(cols) + multiset{card} by {
        if Distinct(ColumnIds(cols)) { ColumnBoard.AddCardCards(cols, columnId, card); }
      }
      (AddCard(cols, columnId, draft.content, Some(draft.description), uuid), CardDraft("", ""))
  }

  /** `handleUpdateColumnTitle`: a blank edited title calls nothing and
      leaves the editor open; otherwise the column is renamed, its cards and
      every other column stay as they were, and the editor closes. */
  function HandleUpdateColumnTitle(cols: seq<Column>, columnId: string, editedTitle: string,
                                   isEditColumnOpen: bool): (r: (seq<Column>, bool))
    ensures IsBlank(editedTitle) ==> r == (cols, isEditColumnOpen)
    ensures !IsBlank(editedTitle) ==>
      && !r.1
      && ColumnIds(r.0) == ColumnIds(cols)
      && (forall k :: 0 <= k < |cols| && cols[k].id == columnId ==> r.0[k].title == editedTitle)
      && (forall k :: 0 <= k < |cols| ==> r.0[k].cards == cols[k].cards)
      && (forall k :: 0 <= k < |cols| && cols[k].id != columnId ==> r.0[k] == cols[k])
      && r.0 == ColumnBoard.UpdateColumnTitle(cols, columnId, editedTitle)
  {
    if IsBlank(editedTitle) then (cols, isEditColumnOpen)
    else (ColumnBoard.UpdateColumnTitle(cols, columnId, editedTitle), false)
  }
}
