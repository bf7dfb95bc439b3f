/** What `components/kanban-board.tsx` adds to the shared column-board
    engine: its fresh ids are `column-<uuid>` and `card-<uuid>`, and a new
    card's description defaults to "". Its `onDragEnd`, `updateColumnTitle`,
    `deleteColumn`, `updateCard` and `deleteCard` are ColumnBoard's. The
    `uuidv4()` value is a parameter, assumed (as the library promises) to give
    an id not yet on the board. */
module KanbanBoard {
  import opened Wrappers
  import opened Entities
  import opened Text
  import ColumnBoard

  /** `handleAddColumn`: the dialog's title, when not blank, becomes one new
      empty column `column-<uuid>` at the end; a blank title changes nothing. */
  function HandleAddColumn(st: ColumnBoard.BoardState, uuid: string): (r: ColumnBoard.BoardState)
    requires "column-" + uuid !in ColumnBoard.AllIds(st.columns)
    ensures IsBlank(st.newColumnTitle) ==> r == st
    ensures !IsBlank(st.newColumnTitle) ==>
      && r.columns == st.columns + [Column("column-" + uuid, st.newColumnTitle, [])]
      && r.newColumnTitle == "" && !r.isAddColumnOpen
    ensures ColumnBoard.UniqueIds(st.columns) ==> ColumnBoard.UniqueIds(r.columns)
  {
    ColumnBoard.AddColumn(st, st.newColumnTitle, "column-" + uuid)
  }

  /** `addCard`: the new card's id is `card-<uuid>`; the rest is
      ColumnBoard's `AddNewCard`. */
  function AddCard(cols: seq<Column>, columnId: string, content: string,
                   description: Option<string>, uuid: string): (r: seq<Column>)
    requires "card-" + uuid !in ColumnBoard.AllIds(cols)
    ensures ColumnIds(r) == ColumnIds(cols)
    ensures forall k :: 0 <= k < |cols| && cols[k].id == columnId ==>
      r[k] == cols[k].(cards := cols[k].cards + [Card("card-" + uuid, content, Some(description.GetOr("")))])
    ensures forall k :: 0 <= k < |cols| && cols[k].id != columnId ==> r[k] == cols[k]
    ensures ColumnBoard.UniqueIds(cols) ==> ColumnBoard.UniqueIds(r)
  {
    ColumnBoard.AddNewCard(cols, columnId, "card-" + uuid, content, description)
  }
}
