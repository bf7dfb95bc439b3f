/** `components/task-board.tsx`: a small board that starts empty and only
    grows. Columns are `task-column-<uuid>`, cards `task-card-<uuid>`; both
    additions ignore blank input. */
module NestedTaskBoard {
  import opened Wrappers
  import opened Entities
  import opened Text
  import ColumnBoard

  /** The component's first state: no columns, an empty closed dialog. */
  function Initial(): (st: ColumnBoard.BoardState)
    ensures st.columns == [] && ColumnBoard.UniqueIds(st.columns)
    ensures Cards(st.columns) == multiset{}
  {
    ColumnBoard.BoardState([], "", false)
  }

  /** `addTaskColumn(title)`: a blank title changes nothing; otherwise one
      empty column `task-column-<uuid>` with the title goes at the end and
      the dialog is cleared and closed. */
  function AddTaskColumn(st: ColumnBoard.BoardState, title: string, uuid: string): (r: ColumnBoard.BoardState)
    requires "task-column-" + uuid !in ColumnBoard.AllIds(st.columns)
    ensures IsBlank(title) ==> r == st
    ensures !IsBlank(title) ==>
      && r.columns == st.columns + [Column("task-column-" + uuid, title, [])]
      && r.newColumnTitle == "" && !r.isAddColumnOpen
    ensures Cards(r.columns) == Cards(st.columns)
    ensures ColumnBoard.UniqueIds(st.columns) ==> ColumnBoard.UniqueIds(r.columns)
  {
    var r := ColumnBoard.AddColumn(st, title, "task-column-" + uuid);
    assert Cards(r.columns) == Cards(st.columns) by {
      if !IsBlank(title) {
        CardsAppend(st.columns, [Column("task-column-" + uuid, title, [])]);
        assert [Column("task-column-" + uuid, title, [])][1..] == [];
      }
    }
    r
  }

  /** `addTaskCard(columnId, content, description = "")`: blank content
      changes nothing; otherwise the card `task-card-<uuid>` goes at the end
      of the column with the id (none, when no column has it). */
  function AddTaskCard(cols: seq<Column>, columnId: string, content: string,
                       description: Option<string>, uuid: string): (r: seq<Column>)
    requires "task-card-" + uuid !in ColumnBoard.AllIds(cols)
    ensures IsBlank(content) || columnId !in ColumnIds(cols) ==> r == cols
    ensures ColumnIds(r) == ColumnIds(cols)
    ensures !IsBlank(content) ==>
      forall k :: 0 <= k < |cols| && cols[k].id == columnId ==>
        r[k] == cols[k].(cards := cols[k].cards + [Card("task-card-" + uuid, content, Some(description.GetOr("")))])
    ensures forall k :: 0 <= k < |cols| && cols[k].id != columnId ==> r[k] == cols[k]
    ensures ColumnBoard.UniqueIds(cols) ==> ColumnBoard.UniqueIds(r)
  {
    if IsBlank(content) then cols
    else ColumnBoard.AddNewCard(cols, columnId, "task-card-" + uuid, content, description)
  }
}
