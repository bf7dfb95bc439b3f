/** The two-level board engine: an ordered list of columns, each an ordered
    list of cards. `components/kanban-board.tsx` and
    `components/kanban/task-board.tsx` carry this engine twice, line for line
    (only the prefixes of fresh ids differ, see modules KanbanBoard and
    KanbanTaskBoard). Their board record has the one field `columns`, so a
    board is its column list here, and `setBoard({...board, columns: c})`
    is the function result `c`. */
module ColumnBoard {
  import opened Wrappers
  import opened Entities
  import opened Splice
  import opened Text

  /** A column board component's state: the columns, and the "add column"
      dialog's text field and open flag. */
  datatype BoardState = BoardState(columns: seq<Column>, newColumnTitle: string, isAddColumnOpen: bool)

  // ---------------------------------------------------------------------
  // Rewrites of the column list used by several handlers
  // ---------------------------------------------------------------------

  /** `cols.map(col => col.id === c.id ? c : col)`. */
  function ReplaceById(cols: seq<Column>, c: Column): (r: seq<Column>)
    ensures ColumnIds(r) == ColumnIds(cols)
  {
    seq(|cols|, k requires 0 <= k < |cols| => if cols[k].id == c.id then c else cols[k])
  }

  /** The two-way `map` of a move between columns: a column with the source's
      id becomes `s`, else one with the destination's id becomes `d`. */
  function ReplacePair(cols: seq<Column>, s: Column, d: Column): (r: seq<Column>)
    ensures ColumnIds(r) == ColumnIds(cols)
  {
    seq(|cols|, k requires 0 <= k < |cols| =>
      if cols[k].id == s.id then s else if cols[k].id == d.id then d else cols[k])
  }

  /** With distinct column ids, replacing by id is replacing one position. */
  lemma ReplaceByIdAt(cols: seq<Column>, i: nat, c: Column)
    requires Distinct(ColumnIds(cols)) && i < |cols| && c.id == cols[i].id
    ensures ReplaceById(cols, c) == cols[i := c]
  {
    assert forall k :: 0 <= k < |cols| && k != i ==> ColumnIds(cols)[k] != ColumnIds(cols)[i];
  }

  /** With distinct column ids, the two-way replacement touches two positions. */
  lemma ReplacePairAt(cols: seq<Column>, i: nat, j: nat, s: Column, d: Column)
    requires Distinct(ColumnIds(cols)) && i < |cols| && j < |cols| && i != j
    requires s.id == cols[i].id && d.id == cols[j].id
    ensures ReplacePair(cols, s, d) == cols[i := s][j := d]
  {
    assert forall k :: 0 <= k < |cols| && k != i ==> ColumnIds(cols)[k] != ColumnIds(cols)[i];
    assert forall k :: 0 <= k < |cols| && k != j ==> ColumnIds(cols)[k] != ColumnIds(cols)[j];
  }

  lemma {:induction false} CardsRemoveAt(cols: seq<Column>, i: nat)
    requires i < |cols|
    ensures Cards(RemoveAt(cols, i)) + multiset(cols[i].cards) == Cards(cols)
  {
    assert cols == cols[..i] + [cols[i]] + cols[i + 1..];
    CardsAppend(cols[..i], cols[i + 1..]);
    CardsAppend(cols[..i] + [cols[i]], cols[i + 1..]);
    CardsAppend(cols[..i], [cols[i]]);
    assert Cards([cols[i]]) == multiset(cols[i].cards) by { assert [cols[i]][1..] == []; }
  }

  lemma {:induction false} CardsInsertAt(cols: seq<Column>, i: nat, c: Column)
    ensures Cards(InsertAt(cols, i, c)) == Cards(cols) + multiset(c.cards)
  {
    var j := InsertIndex(i, |cols|);
    assert cols == cols[..j] + cols[j..];
    CardsAppend(cols[..j], cols[j..]);
    CardsAppend(cols[..j] + [c], cols[j..]);
    CardsAppend(cols[..j], [c]);
    assert Cards([c]) == multiset(c.cards) by { assert [c][1..] == []; }
  }

  /** Reordering the columns keeps their ids distinct. */
  lemma MoveDistinctIds(cols: seq<Column>, from: nat, to: nat)
    requires from < |cols| && Distinct(ColumnIds(cols))
    ensures Distinct(ColumnIds(Move(cols, from, to)))
  {
    var m := Move(cols, from, to);
    forall a, b | 0 <= a < b < |m| ensures ColumnIds(m)[a] != ColumnIds(m)[b] {
      MoveAt(cols, from, to, a);
      MoveAt(cols, from, to, b);
    }
  }

  /** Reordering the columns keeps every card of the board. */
  lemma CardsMove(cols: seq<Column>, from: nat, to: nat)
    requires from < |cols|
    ensures Cards(Move(cols, from, to)) == Cards(cols)
  {
    CardsRemoveAt(cols, from);
    CardsInsertAt(RemoveAt(cols, from), to, cols[from]);
  }

  // ---------------------------------------------------------------------
  // onDragEnd
  // ---------------------------------------------------------------------

  /** Dropped onto the list and the position it was picked up from. */
  predicate SamePosition(r: DropResult) {
    && r.destination.Some?
    && r.destination.value.droppableId == r.source.droppableId
    && r.destination.value.index == r.source.index
  }

  /** What the drag library guarantees about a drop that reaches a `splice`:
      the source index points at an element of the list it was picked up
      from. (Past the end, `splice` would remove nothing and the handler
      would insert `undefined`.) */
  predicate DropWellFormed(cols: seq<Column>, r: DropResult) {
    r.destination.Some? && !SamePosition(r) ==>
      if r.kind == "column" then r.source.index < |cols|
      else
        var si := FindIndex(ColumnIds(cols), r.source.droppableId);
        var di := FindIndex(ColumnIds(cols), r.destination.value.droppableId);
        si >= 0 && di >= 0 ==> r.source.index < |cols[si].cards|
  }

  /** The board `onDragEnd` leaves behind. */
  function DragEnd(cols: seq<Column>, r: DropResult): (next: seq<Column>)
    requires DropWellFormed(cols, r)
    // no destination, or the same droppable and index: nothing changes
    ensures r.destination.None? || SamePosition(r) ==> next == cols
    // a column drag permutes the columns, each travelling with its cards,
    // and the dragged one lands at the drop index (last when past the end)
    ensures r.kind == "column" ==> |next| == |cols| && multiset(next) == multiset(cols)
    ensures r.kind == "column" && r.destination.Some? && !SamePosition(r) ==>
      next[InsertIndex(r.destination.value.index, |cols| - 1)] == cols[r.source.index]
    // a card drag keeps the columns and their order
    ensures r.kind != "column" ==> ColumnIds(next) == ColumnIds(cols)
    // a card drag naming an unknown column changes nothing
    ensures r.kind != "column" && r.destination.Some? &&
      (r.source.droppableId !in ColumnIds(cols) || r.destination.value.droppableId !in ColumnIds(cols))
      ==> next == cols
    // distinct column ids stay distinct
    ensures Distinct(ColumnIds(cols)) ==> Distinct(ColumnIds(next))
  {
    if r.destination.None? || SamePosition(r) then cols
    else
      var destination := r.destination.value;
      if r.kind == "column" then
        assert Distinct(ColumnIds(cols)) ==> Distinct(ColumnIds(Move(cols, r.source.index, destination.index))) by {
          if Distinct(ColumnIds(cols)) { MoveDistinctIds(cols, r.source.index, destination.index); }
        }
        Move(cols, r.source.index, destination.index)
      else
        var si := FindIndex(ColumnIds(cols), r.source.droppableId);
        var di := FindIndex(ColumnIds(cols), destination.droppableId);
        if si == -1 || di == -1 then cols
        else
          var source := cols[si];
          var dest := cols[di];
          if source.id == dest.id then
            ReplaceById(cols, source.(cards := Move(source.cards, r.source.index, destination.index)))
          else
            var moved := source.cards[r.source.index];
            ReplacePair(cols,
              source.(cards := RemoveAt(source.cards, r.source.index)),
              dest.(cards := InsertAt(dest.cards, destination.index, moved)))
  }

  /** `onDragEnd` as the handler runs it: copy the list that changes, splice
      the element out, splice it back in, then rebuild the column list. */
  method OnDragEnd(cols: seq<Column>, r: DropResult) returns (next: seq<Column>)
    requires DropWellFormed(cols, r)
    ensures next == DragEnd(cols, r)
  {
    next := cols;
    if r.destination.None? { return; }
    var destination := r.destination.value;
    if destination.droppableId == r.source.droppableId && destination.index == r.source.index {
      return;
    }
    if r.kind == "column" {
      next := SpliceMove(cols, r.source.index, destination.index);
      return;
    }
    var si := FindIndex(ColumnIds(cols), r.source.droppableId);
    var di := FindIndex(ColumnIds(cols), destination.droppableId);
    if si == -1 || di == -1 { return; }
    var source, dest := cols[si], cols[di];
    if source.id == dest.id {
      var newCards := SpliceMove(source.cards, r.source.index, destination.index);
      next := ReplaceById(cols, source.(cards := newCards));
    } else {
      var sourceCards, moved := SpliceOut(source.cards, r.source.index);
      var destCards := SpliceIn(dest.cards, destination.index, moved);
      next := ReplacePair(cols, source.(cards := sourceCards), dest.(cards := destCards));
    }
  }

  /** A card dragged inside one column: that column keeps its id, its title
      and the same cards in a new order, the dragged card at the drop index
      (last when past the end), and every column with another id is
      untouched. */
  lemma SameColumnDrag(cols: seq<Column>, r: DropResult)
    requires DropWellFormed(cols, r)
    requires r.kind != "column" && r.destination.Some? && !SamePosition(r)
    requires r.destination.value.droppableId == r.source.droppableId
    requires r.source.droppableId in ColumnIds(cols)
    ensures var next := DragEnd(cols, r);
      var i := FindIndex(ColumnIds(cols), r.source.droppableId);
      var before, after := cols[i].cards, next[i].cards;
      && |after| == |before|
      && multiset(after) == multiset(before)
      && after[InsertIndex(r.destination.value.index, |before| - 1)] == before[r.source.index]
      && next[i] == cols[i].(cards := Move(before, r.source.index, r.destination.value.index))
      && forall k :: 0 <= k < |cols| && cols[k].id != r.source.droppableId ==> next[k] == cols[k]
  {
  }

  /** A card dragged to another column: the source column loses the card at
      the source index, the destination column gains it at the drop index
      (last when past the end), both keep their id and title, and every
      other column is untouched. */
  lemma CrossColumnDrag(cols: seq<Column>, r: DropResult)
    requires DropWellFormed(cols, r)
    requires r.kind != "column" && r.destination.Some?
    requires r.destination.value.droppableId != r.source.droppableId
    requires r.source.droppableId in ColumnIds(cols)
    requires r.destination.value.droppableId in ColumnIds(cols)
    ensures var next := DragEnd(cols, r);
      var i := FindIndex(ColumnIds(cols), r.source.droppableId);
      var j := FindIndex(ColumnIds(cols), r.destination.value.droppableId);
      && next[i] == cols[i].(cards := RemoveAt(cols[i].cards, r.source.index))
      && next[j] == cols[j].(cards := InsertAt(cols[j].cards, r.destination.value.index, cols[i].cards[r.source.index]))
      && next[j].cards[InsertIndex(r.destination.value.index, |cols[j].cards|)] == cols[i].cards[r.source.index]
      && (forall k ::
            (0 <= k < |cols| && cols[k].id != r.source.droppableId && cols[k].id != r.destination.value.droppableId)
            ==> next[k] == cols[k])
  {
  }

  lemma SameColumnConserves(cols: seq<Column>, i: nat, from: nat, to: nat)
    requires Distinct(ColumnIds(cols)) && i < |cols| && from < |cols[i].cards|
    ensures Cards(ReplaceById(cols, cols[i].(cards := Move(cols[i].cards, from, to)))) == Cards(cols)
  {
    var c := cols[i].(cards := Move(cols[i].cards, from, to));
    ReplaceByIdAt(cols, i, c);
    CardsUpdate(cols, i, c);
    forall x ensures Cards(cols[i := c])[x] == Cards(cols)[x] {
      assert (Cards(cols[i := c]) + multiset(c.cards))[x] == (Cards(cols) + multiset(cols[i].cards))[x];
    }
  }

  lemma CrossColumnConserves(cols: seq<Column>, i: nat, j: nat, from: nat, to: nat)
    requires Distinct(ColumnIds(cols)) && i < |cols| && j < |cols| && i != j && from < |cols[i].cards|
    ensures Cards(ReplacePair(cols, cols[i].(cards := RemoveAt(cols[i].cards, from)),
                  cols[j].(cards := InsertAt(cols[j].cards, to, cols[i].cards[from])))) == Cards(cols)
  {
    var s := cols[i].(cards := RemoveAt(cols[i].cards, from));
    var d := cols[j].(cards := InsertAt(cols[j].cards, to, cols[i].cards[from]));
    var moved := cols[i].cards[from];
    ReplacePairAt(cols, i, j, s, d);
    CardsUpdate(cols, i, s);
    CardsUpdate(cols[i := s], j, d);
    assert cols[i := s][j] == cols[j];
    forall x ensures Cards(cols[i := s][j := d])[x] == Cards(cols)[x] {
      assert (Cards(cols[i := s]) + multiset(cols[i].cards))[x] == (Cards(cols) + multiset(s.cards))[x];
      assert (Cards(cols[i := s][j := d]) + multiset(cols[j].cards))[x] == (Cards(cols[i := s]) + multiset(d.cards))[x];
      assert (multiset(s.cards) + multiset{moved})[x] == multiset(cols[i].cards)[x];
      assert multiset(d.cards)[x] == (multiset(cols[j].cards) + multiset{moved})[x];
    }
  }

  /** Every drag keeps the board's cards: none is lost and none duplicated
      (given distinct column ids, which every operation keeps: see `DragEnd`,
      `AddColumn` and `DeleteColumnDistinct`; the others keep the list of
      column ids as it was). */
  lemma {:induction false} DragEndConservesCards(cols: seq<Column>, r: DropResult)
    requires DropWellFormed(cols, r) && Distinct(ColumnIds(cols))
    ensures Cards(DragEnd(cols, r)) == Cards(cols)
  {
    if r.destination.None? || SamePosition(r) {
    } else if r.kind == "column" {
      CardsMove(cols, r.source.index, r.destination.value.index);
    } else {
      var si := FindIndex(ColumnIds(cols), r.source.droppableId);
      var di := FindIndex(ColumnIds(cols), r.destination.value.droppableId);
      if si != -1 && di != -1 {
        if cols[si].id == cols[di].id {
          SameColumnConserves(cols, si, r.source.index, r.destination.value.index);
        } else {
          CrossColumnConserves(cols, si, di, r.source.index, r.destination.value.index);
        }
      }
    }
  }

  // ---------------------------------------------------------------------
  // Column and card callbacks
  // ---------------------------------------------------------------------

  /** Adding a column from the dialog: a title that is blank after trimming
      changes nothing at all; otherwise exactly one empty column with the
      fresh id and the title as typed goes at the end, the existing columns
      stay as they were, the dialog closes and its field is cleared. */
  function AddColumn(st: BoardState, title: string, columnId: string): (r: BoardState)
    requires columnId !in AllIds(st.columns)
    ensures IsBlank(title) ==> r == st
    ensures !IsBlank(title) ==>
      && |r.columns| == |st.columns| + 1
      && r.columns[..|st.columns|] == st.columns
      && r.columns[|st.columns|] == Column(columnId, title, [])
      && r.newColumnTitle == "" && !r.isAddColumnOpen
    ensures UniqueIds(st.columns) ==> UniqueIds(r.columns)
    ensures Distinct(ColumnIds(st.columns)) ==> Distinct(ColumnIds(r.columns))
  {
    if IsBlank(title) then st
    else
      var c := Column(columnId, title, []);
      assert UniqueIds(st.columns) ==> UniqueIds(st.columns + [c]) by {
        if UniqueIds(st.columns) { AppendColumnUnique(st.columns, c); }
      }
      BoardState(st.columns + [c], "", false)
  }

  /** `updateColumnTitle`: every column with the id gets the new title; ids,
      order and cards stay, and no other column changes. */
  function UpdateColumnTitle(cols: seq<Column>, columnId: string, title: string): (r: seq<Column>)
    ensures ColumnIds(r) == ColumnIds(cols)
    ensures forall k :: 0 <= k < |cols| ==> r[k].cards == cols[k].cards
    ensures forall k :: 0 <= k < |cols| && cols[k].id == columnId ==> r[k].title == title
    ensures forall k :: 0 <= k < |cols| && cols[k].id != columnId ==> r[k] == cols[k]
  {
    seq(|cols|, k requires 0 <= k < |cols| =>
      if cols[k].id == columnId then cols[k].(title := title) else cols[k])
  }

  /** Renaming twice is renaming once to the last title. */
  lemma UpdateColumnTitleLastWins(cols: seq<Column>, columnId: string, t1: string, t2: string)
    ensures UpdateColumnTitle(UpdateColumnTitle(cols, columnId, t1), columnId, t2)
         == UpdateColumnTitle(cols, columnId, t2)
  {
  }

  /** `deleteColumn`, a `filter`: what is left is every column whose id
      differs, and an id no column has changes nothing. */
  function DeleteColumn(cols: seq<Column>, columnId: string): (r: seq<Column>)
    ensures forall c :: c in r <==> c in cols && c.id != columnId
    ensures columnId !in ColumnIds(cols) ==> r == cols
    ensures |r| <= |cols|
  {
    if cols == [] then []
    else (if cols[0].id == columnId then [] else [cols[0]]) + DeleteColumn(cols[1..], columnId)
  }

  /** Deleting a column keeps the remaining column ids distinct. */
  lemma {:induction false} DeleteColumnDistinct(cols: seq<Column>, columnId: string)
    requires Distinct(ColumnIds(cols))
    ensures Distinct(ColumnIds(DeleteColumn(cols, columnId)))
    decreases |cols|
  {
    if cols != [] {
      var rest := DeleteColumn(cols[1..], columnId);
      forall a, b | 0 <= a < b < |cols| - 1 ensures ColumnIds(cols[1..])[a] != ColumnIds(cols[1..])[b] {
        assert ColumnIds(cols)[a + 1] != ColumnIds(cols)[b + 1];
      }
      DeleteColumnDistinct(cols[1..], columnId);
      if cols[0].id == columnId {
        assert DeleteColumn(cols, columnId) == rest;
      } else {
        forall k | 0 <= k < |rest| ensures rest[k].id != cols[0].id {
          assert rest[k] in cols[1..];
          var m :| 0 <= m < |cols| - 1 && cols[1..][m] == rest[k];
          assert ColumnIds(cols)[m + 1] != ColumnIds(cols)[0];
        }
        PrependDistinct(cols[0], rest);
      }
    }
  }

  /** A column whose id no column of `cols` has keeps the ids distinct when
      put in front. */
  lemma PrependDistinct(c: Column, cols: seq<Column>)
    requires Distinct(ColumnIds(cols)) && forall k :: 0 <= k < |cols| ==> cols[k].id != c.id
    ensures Distinct(ColumnIds([c] + cols))
  {
    forall a, b | 0 <= a < b < |cols| + 1 ensures ColumnIds([c] + cols)[a] != ColumnIds([c] + cols)[b] {
      if a > 0 {
        assert ColumnIds(cols)[a - 1] != ColumnIds(cols)[b - 1];
      }
    }
  }

  /** The filter keeps the order: deleting from a concatenation deletes from
      each part. */
  lemma {:induction false} DeleteColumnAppend(a: seq<Column>, b: seq<Column>, columnId: string)
    ensures DeleteColumn(a + b, columnId) == DeleteColumn(a, columnId) + DeleteColumn(b, columnId)
    decreases |a|
  {
    if a == [] {
      assert a + b == b;
    } else {
      assert (a + b)[1..] == a[1..] + b;
      DeleteColumnAppend(a[1..], b, columnId);
    }
  }

  /** Deleting a column deletes exactly that column and the cards it holds
      (the cascade of a delete), given distinct column ids. */
  lemma {:induction false} DeleteColumnCascade(cols: seq<Column>, i: nat)
    requires Distinct(ColumnIds(cols)) && i < |cols|
    ensures var r := DeleteColumn(cols, cols[i].id);
      |r| == |cols| - 1 && Cards(r) + multiset(cols[i].cards) == Cards(cols)
    decreases |cols|
  {
    var id := cols[i].id;
    if i == 0 {
      assert id !in ColumnIds(cols[1..]) by {
        forall k | 0 <= k < |cols| - 1 ensures ColumnIds(cols[1..])[k] != id {
          assert ColumnIds(cols)[k + 1] != ColumnIds(cols)[0];
        }
      }
      assert DeleteColumn(cols, id) == cols[1..];
    } else {
      assert ColumnIds(cols[1..]) == ColumnIds(cols)[1..];
      assert cols[0].id != id by { assert ColumnIds(cols)[0] != ColumnIds(cols)[i]; }
      DeleteColumnCascade(cols[1..], i - 1);
      assert cols[1..][i - 1] == cols[i];
      assert DeleteColumn(cols, id) == [cols[0]] + DeleteColumn(cols[1..], id);
      assert ([cols[0]] + DeleteColumn(cols[1..], id))[1..] == DeleteColumn(cols[1..], id);
    }
  }

  /** `addCard` after the fresh card is built: every column with the id
      gets the card at the end of its cards; no other column changes. */
  function AddCard(cols: seq<Column>, columnId: string, card: Card): (r: seq<Column>)
    ensures ColumnIds(r) == ColumnIds(cols)
    ensures forall k :: 0 <= k < |cols| && cols[k].id == columnId ==>
      r[k] == cols[k].(cards := cols[k].cards + [card])
    ensures forall k :: 0 <= k < |cols| && cols[k].id != columnId ==> r[k] == cols[k]
    ensures columnId !in ColumnIds(cols) ==> r == cols
  {
    seq(|cols|, k requires 0 <= k < |cols| =>
      if cols[k].id == columnId then cols[k].(cards := cols[k].cards + [card]) else cols[k])
  }

  /** With distinct column ids, adding a card rewrites one position. */
  lemma AddCardAt(cols: seq<Column>, i: nat, card: Card)
    requires Distinct(ColumnIds(cols)) && i < |cols|
    ensures AddCard(cols, cols[i].id, card) == cols[i := cols[i].(cards := cols[i].cards + [card])]
  {
    assert forall k :: 0 <= k < |cols| && k != i ==> ColumnIds(cols)[k] != ColumnIds(cols)[i];
  }

  /** Adding a card to an existing column adds exactly that card to the
      board; adding to an unknown column adds nothing. */
  lemma {:induction false} AddCardCards(cols: seq<Column>, columnId: string, card: Card)
    requires Distinct(ColumnIds(cols))
    ensures Cards(AddCard(cols, columnId, card)) ==
      Cards(cols) + if columnId in ColumnIds(cols) then multiset{card} else multiset{}
  {
    var i := FindIndex(ColumnIds(cols), columnId);
    if i != -1 {
      var c := cols[i].(cards := cols[i].cards + [card]);
      AddCardAt(cols, i, card);
      CardsUpdate(cols, i, c);
      assert multiset(c.cards) == multiset(cols[i].cards) + multiset{card};
      forall x ensures Cards(cols[i := c])[x] == (Cards(cols) + multiset{card})[x] {
        assert (Cards(cols[i := c]) + multiset(cols[i].cards))[x] == (Cards(cols) + multiset(c.cards))[x];
      }
    }
  }

  /** `addCard` with a fresh card id: the card built from the arguments
      (description "" when none is passed) goes at the end of every column
      with the id, no other column changes, and unique ids stay unique. */
  function AddNewCard(cols: seq<Column>, columnId: string, cardId: string, content: string,
                      description: Option<string>): (r: seq<Column>)
    requires cardId !in AllIds(cols)
    ensures ColumnIds(r) == ColumnIds(cols)
    ensures forall k :: 0 <= k < |cols| && cols[k].id == columnId ==>
      r[k] == cols[k].(cards := cols[k].cards + [Card(cardId, content, Some(description.GetOr("")))])
    ensures forall k :: 0 <= k < |cols| && cols[k].id != columnId ==> r[k] == cols[k]
    ensures UniqueIds(cols) ==> UniqueIds(r)
  {
    var card := Card(cardId, content, Some(description.GetOr("")));
    assert UniqueIds(cols) ==> UniqueIds(AddCard(cols, columnId, card)) by {
      if UniqueIds(cols) { AddCardUnique(cols, columnId, card); }
    }
    AddCard(cols, columnId, card)
  }

  /** `updateCard`: inside every column with the column id, every card with
      the card id gets the new content and description (or "" when none is
      passed); ids, positions and all other cards and columns stay. */
  function UpdateCard(cols: seq<Column>, columnId: string, cardId: string,
                      content: string, description: Option<string>): (r: seq<Column>)
    ensures ColumnIds(r) == ColumnIds(cols)
    ensures forall k :: 0 <= k < |cols| ==>
      r[k].title == cols[k].title && |r[k].cards| == |cols[k].cards| && CardIds(r[k].cards) == CardIds(cols[k].cards)
    ensures forall k, j ::
      (0 <= k < |cols| && cols[k].id == columnId && 0 <= j < |cols[k].cards| && cols[k].cards[j].id == cardId)
      ==> r[k].cards[j] == Card(cardId, content, Some(description.GetOr("")))
    ensures forall k, j ::
      (0 <= k < |cols| && 0 <= j < |cols[k].cards| && (cols[k].id != columnId || cols[k].cards[j].id != cardId))
      ==> r[k].cards[j] == cols[k].cards[j]
  {
    seq(|cols|, k requires 0 <= k < |cols| =>
      if cols[k].id == columnId then
        cols[k].(cards := seq(|cols[k].cards|, j requires 0 <= j < |cols[k].cards| =>
          if cols[k].cards[j].id == cardId
          then cols[k].cards[j].(content := content, description := Some(description.GetOr("")))
          else cols[k].cards[j]))
      else cols[k])
  }

  /** `col.cards.filter(card => card.id !== cardId)`. */
  function RemoveCards(cards: seq<Card>, cardId: string): (r: seq<Card>)
    ensures forall c :: c in r <==> c in cards && c.id != cardId
    ensures (forall c :: c in cards ==> c.id != cardId) ==> r == cards
  {
    if cards == [] then []
    else (if cards[0].id == cardId then [] else [cards[0]]) + RemoveCards(cards[1..], cardId)
  }

  /** The card filter keeps the order. */
  lemma {:induction false} RemoveCardsAppend(a: seq<Card>, b: seq<Card>, cardId: string)
    ensures RemoveCards(a + b, cardId) == RemoveCards(a, cardId) + RemoveCards(b, cardId)
    decreases |a|
  {
    if a == [] {
      assert a + b == b;
    } else {
      assert (a + b)[1..] == a[1..] + b;
      RemoveCardsAppend(a[1..], b, cardId);
    }
  }

  /** `deleteCard`: every column with the column id loses exactly its cards
      with the card id, keeping the others in order; no other column
      changes. */
  function DeleteCard(cols: seq<Column>, columnId: string, cardId: string): (r: seq<Column>)
    ensures ColumnIds(r) == ColumnIds(cols)
    ensures forall k :: 0 <= k < |cols| && cols[k].id == columnId ==>
      r[k] == cols[k].(cards := RemoveCards(cols[k].cards, cardId))
    ensures forall k :: 0 <= k < |cols| && cols[k].id != columnId ==> r[k] == cols[k]
  {
    seq(|cols|, k requires 0 <= k < |cols| =>
      if cols[k].id == columnId then cols[k].(cards := RemoveCards(cols[k].cards, cardId)) else cols[k])
  }

  // ---------------------------------------------------------------------
  // Fresh ids
  // ---------------------------------------------------------------------

  /** Every card id on the board, with multiplicity. */
  function CardIdBag(cols: seq<Column>): multiset<string> {
    if cols == [] then multiset{} else multiset(CardIds(cols[0].cards)) + CardIdBag(cols[1..])
  }

  /** Every column id and card id on the board, with multiplicity. */
  function AllIds(cols: seq<Column>): multiset<string> {
    multiset(ColumnIds(cols)) + CardIdBag(cols)
  }

  /** No id is used twice on the board. */
  ghost predicate UniqueIds(cols: seq<Column>) {
    forall x :: AllIds(cols)[x] <= 1
  }

  /** A value counted at most once in a sequence's multiset occurs once. */
  lemma {:induction false} DistinctFromCounts<T>(s: seq<T>)
    requires forall x :: multiset(s)[x] <= 1
    ensures Distinct(s)
  {
    forall i, j | 0 <= i < j < |s| ensures s[i] != s[j] {
      assert s == s[..j] + s[j..];
      assert multiset(s) == multiset(s[..j]) + multiset(s[j..]);
      assert s[i] in multiset(s[..j]) by { assert s[..j][i] == s[i]; }
      assert s[j] in multiset(s[j..]) by { assert s[j..][0] == s[j]; }
      assert multiset(s)[s[i]] <= 1;
    }
  }

  /** Unique ids make the column ids distinct. */
  lemma UniqueColumnIds(cols: seq<Column>)
    requires UniqueIds(cols)
    ensures Distinct(ColumnIds(cols))
  {
    forall x ensures multiset(ColumnIds(cols))[x] <= 1 {
      assert multiset(ColumnIds(cols))[x] <= AllIds(cols)[x];
    }
    DistinctFromCounts(ColumnIds(cols));
  }

  lemma {:induction false} CardIdBagAppend(a: seq<Column>, b: seq<Column>)
    ensures CardIdBag(a + b) == CardIdBag(a) + CardIdBag(b)
    decreases |a|
  {
    if a == [] {
      assert a + b == b;
    } else {
      assert (a + b)[1..] == a[1..] + b;
      CardIdBagAppend(a[1..], b);
    }
  }

  /** Appending an empty column with a fresh id keeps the ids unique. */
  lemma AppendColumnUnique(cols: seq<Column>, c: Column)
    requires UniqueIds(cols) && c.cards == [] && c.id !in AllIds(cols)
    ensures UniqueIds(cols + [c])
  {
    CardIdBagAppend(cols, [c]);
    assert CardIdBag([c]) == multiset{} by { assert [c][1..] == []; }
    assert ColumnIds(cols + [c]) == ColumnIds(cols) + [c.id];
    assert AllIds(cols + [c]) == AllIds(cols) + multiset{c.id};
  }

  lemma {:induction false} CardIdBagUpdate(cols: seq<Column>, i: nat, c: Column)
    requires i < |cols|
    ensures CardIdBag(cols[i := c]) + multiset(CardIds(cols[i].cards))
         == CardIdBag(cols) + multiset(CardIds(c.cards))
  {
    assert cols == cols[..i] + [cols[i]] + cols[i + 1..];
    assert cols[i := c] == cols[..i] + [c] + cols[i + 1..];
    CardIdBagAppend(cols[..i] + [cols[i]], cols[i + 1..]);
    CardIdBagAppend(cols[..i], [cols[i]]);
    CardIdBagAppend(cols[..i] + [c], cols[i + 1..]);
    CardIdBagAppend(cols[..i], [c]);
    assert CardIdBag([c]) == multiset(CardIds(c.cards)) by { assert [c][1..] == []; }
    assert CardIdBag([cols[i]]) == multiset(CardIds(cols[i].cards)) by { assert [cols[i]][1..] == []; }
  }

  /** Adding a card with a fresh id keeps the ids unique. */
  lemma AddCardUnique(cols: seq<Column>, columnId: string, card: Card)
    requires UniqueIds(cols) && card.id !in AllIds(cols)
    ensures UniqueIds(AddCard(cols, columnId, card))
  {
    UniqueColumnIds(cols);
    var r := AddCard(cols, columnId, card);
    var i := FindIndex(ColumnIds(cols), columnId);
    if i != -1 {
      var c := cols[i].(cards := cols[i].cards + [card]);
      AddCardAt(cols, i, card);
      CardIdBagUpdate(cols, i, c);
      assert CardIds(c.cards) == CardIds(cols[i].cards) + [card.id];
      assert multiset(CardIds(c.cards)) == multiset(CardIds(cols[i].cards)) + multiset{card.id};
      forall x ensures CardIdBag(r)[x] == (CardIdBag(cols) + multiset{card.id})[x] {
        assert (CardIdBag(cols[i := c]) + multiset(CardIds(cols[i].cards)))[x]
            == (CardIdBag(cols) + multiset(CardIds(c.cards)))[x];
      }
      assert AllIds(r) == AllIds(cols) + multiset{card.id};
    }
  }

  /** Boards whose columns carry the same card ids, column by column, have
      the same card id bag. */
  lemma {:induction false} CardIdBagSameIds(a: seq<Column>, b: seq<Column>)
    requires |a| == |b|
    requires forall k :: 0 <= k < |a| ==> CardIds(a[k].cards) == CardIds(b[k].cards)
    ensures CardIdBag(a) == CardIdBag(b)
    decreases |a|
  {
    if a != [] {
      CardIdBagSameIds(a[1..], b[1..]);
    }
  }

  /** Editing a card leaves every id where it was, so unique ids stay
      unique. */
  lemma UpdateCardKeepsIds(cols: seq<Column>, columnId: string, cardId: string,
                           content: string, description: Option<string>)
    ensures AllIds(UpdateCard(cols, columnId, cardId, content, description)) == AllIds(cols)
    ensures UniqueIds(cols) ==> UniqueIds(UpdateCard(cols, columnId, cardId, content, description))
  {
    CardIdBagSameIds(UpdateCard(cols, columnId, cardId, content, description), cols);
  }
}
