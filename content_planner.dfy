/** `components/content/ContentPlanner.tsx`: stages, each holding columns of
    cards, rearranged by one drag handler with three kinds of drag (a stage,
    a column inside its stage, a card between any two columns), plus the
    "add stage" dialog. Droppable ids carry the stage:
    `<stageId>:columns` for a stage's column list and `<stageId>:<columnId>`
    for a column's card list. */
module ContentPlanner {
  import opened Wrappers
  import opened Entities
  import opened Splice
  import opened Text
  import ColumnBoard

  /** The planner's state: the stages (shared through the planner's context)
      and the "add stage" dialog's field and open flag. */
  datatype PlannerState = PlannerState(stages: seq<Stage>, newStageTitle: string, isAddStageOpen: bool)

  /** Stage ids are distinct, and so are the column ids inside each stage:
      what the fresh ids of `addStage` keep. */
  predicate WellKeyed(stages: seq<Stage>) {
    && Distinct(StageIds(stages))
    && forall k :: 0 <= k < |stages| ==> Distinct(ColumnIds(stages[k].columns))
  }

  // ---------------------------------------------------------------------
  // Droppable ids
  // ---------------------------------------------------------------------

  /** The stage a column list's droppable id names: `split(":")[0]`, the
      text before the first ':' (all of it when there is none). */
  function ColumnListStage(droppableId: string): (stageId: string)
    ensures ':' !in stageId
    ensures |stageId| <= |droppableId| && droppableId[..|stageId|] == stageId
    ensures |stageId| < |droppableId| ==> droppableId[|stageId|] == ':'
  {
    SplitFirstPart(droppableId, ':');
    Split(droppableId, ':')[0]
  }

  /** The stage id and column id a card list's droppable id names: the first
      two parts of `split(":")`, a missing part reading as "". The stage id
      is the text before the first ':', the column id the text between it
      and the next ':' or the end. */
  function CardTarget(droppableId: string): (ids: (string, string))
    ensures ids.0 == ColumnListStage(droppableId)
    ensures ':' !in ids.0 && ':' !in ids.1
    ensures ':' !in droppableId ==> ids.1 == ""
    ensures ':' in droppableId ==>
      |ids.0| < |droppableId| && ids.1 == ColumnListStage(droppableId[|ids.0| + 1..])
  {
    var parts := Split(droppableId, ':');
    var ids := (Part(parts, 0), Part(parts, 1));
    if ':' in droppableId then SplitRest(droppableId, ':'); ids
    else SplitNoSeparator(droppableId, ':'); ids
  }

  lemma JoinPair(a: string, b: string, sep: char)
    ensures Join([a, b], sep) == a + [sep] + b
  {
    assert [a, b][1..] == [b];
  }

  /** The stage is read back from the id `<stageId>:columns` the stage's
      column list carries. */
  lemma ColumnListStageOf(stageId: string)
    requires ':' !in stageId
    ensures ColumnListStage(stageId + ":columns") == stageId
  {
    JoinPair(stageId, "columns", ':');
    assert ':' !in "columns";
    assert stageId + ":columns" == stageId + [':'] + "columns";
    SplitJoin([stageId, "columns"], ':');
  }

  /** Both ids are read back from the id `<stageId>:<columnId>` a card list
      carries. */
  lemma CardTargetOf(stageId: string, columnId: string)
    requires ':' !in stageId && ':' !in columnId
    ensures CardTarget(stageId + ":" + columnId) == (stageId, columnId)
  {
    JoinPair(stageId, columnId, ':');
    SplitJoin([stageId, columnId], ':');
  }

  // ---------------------------------------------------------------------
  // Stage list rewrites
  // ---------------------------------------------------------------------

  /** `stages.map(s => s.id === t.id ? t : s)`. */
  function ReplaceStageById(stages: seq<Stage>, t: Stage): (r: seq<Stage>)
    ensures StageIds(r) == StageIds(stages)
  {
    seq(|stages|, k requires 0 <= k < |stages| => if stages[k].id == t.id then t else stages[k])
  }

  lemma ReplaceStageByIdAt(stages: seq<Stage>, i: nat, t: Stage)
    requires Distinct(StageIds(stages)) && i < |stages| && t.id == stages[i].id
    ensures ReplaceStageById(stages, t) == stages[i := t]
  {
    assert forall k :: 0 <= k < |stages| && k != i ==> StageIds(stages)[k] != StageIds(stages)[i];
  }

  lemma {:induction false} StageCardsRemoveAt(stages: seq<Stage>, i: nat)
    requires i < |stages|
    ensures StageCards(RemoveAt(stages, i)) + Cards(stages[i].columns) == StageCards(stages)
  {
    assert stages == stages[..i] + [stages[i]] + stages[i + 1..];
    StageCardsAppend(stages[..i], stages[i + 1..]);
    StageCardsAppend(stages[..i] + [stages[i]], stages[i + 1..]);
    StageCardsAppend(stages[..i], [stages[i]]);
    assert StageCards([stages[i]]) == Cards(stages[i].columns) by { assert [stages[i]][1..] == []; }
  }

  lemma {:induction false} StageCardsInsertAt(stages: seq<Stage>, i: nat, s: Stage)
    ensures StageCards(InsertAt(stages, i, s)) == StageCards(stages) + Cards(s.columns)
  {
    var j := InsertIndex(i, |stages|);
    assert stages == stages[..j] + stages[j..];
    StageCardsAppend(stages[..j], stages[j..]);
    StageCardsAppend(stages[..j] + [s], stages[j..]);
    StageCardsAppend(stages[..j], [s]);
    assert StageCards([s]) == Cards(s.columns) by { assert [s][1..] == []; }
  }

  /** Reordering the stages keeps every card of the planner. */
  lemma StageCardsMove(stages: seq<Stage>, from: nat, to: nat)
    requires from < |stages|
    ensures StageCards(Move(stages, from, to)) == StageCards(stages)
  {
    StageCardsRemoveAt(stages, from);
    StageCardsInsertAt(RemoveAt(stages, from), to, stages[from]);
  }

  // ---------------------------------------------------------------------
  // Resolving a card drag
  // ---------------------------------------------------------------------

  /** Positions of the source and destination stages and columns. */
  datatype Route = Route(ss: nat, sc: nat, ds: nat, dc: nat)

  predicate RouteValid(stages: seq<Stage>, rt: Route) {
    && rt.ss < |stages| && rt.sc < |stages[rt.ss].columns|
    && rt.ds < |stages| && rt.dc < |stages[rt.ds].columns|
  }

  /** When a card drop can be resolved: both droppable ids name a non-empty
      stage id and column id, both stages are on the planner, and each
      column is in the stage `findIndex` finds for its stage id. */
  predicate Resolves(stages: seq<Stage>, source: string, dest: string) {
    var (sStageId, sColumnId) := CardTarget(source);
    var (dStageId, dColumnId) := CardTarget(dest);
    && sStageId != "" && sColumnId != "" && dStageId != "" && dColumnId != ""
    && sStageId in StageIds(stages) && dStageId in StageIds(stages)
    && sColumnId in ColumnIds(stages[FindIndex(StageIds(stages), sStageId)].columns)
    && dColumnId in ColumnIds(stages[FindIndex(StageIds(stages), dStageId)].columns)
  }

  /** The card branch's lookups: both droppable ids must name a non-empty
      stage id and column id, each stage must be found by `findIndex`, and
      each column inside its stage; otherwise the drop is ignored (None). */
  function CardRoute(stages: seq<Stage>, source: string, dest: string): (rt: Option<Route>)
    ensures rt.Some? ==> RouteValid(stages, rt.value)
    ensures rt.Some? ==>
      && stages[rt.value.ss].id == CardTarget(source).0
      && stages[rt.value.ss].columns[rt.value.sc].id == CardTarget(source).1
      && stages[rt.value.ds].id == CardTarget(dest).0
      && stages[rt.value.ds].columns[rt.value.dc].id == CardTarget(dest).1
    ensures rt.Some? <==> Resolves(stages, source, dest)
    ensures rt.Some? ==>
      && rt.value.ss == FindIndex(StageIds(stages), CardTarget(source).0)
      && rt.value.ds == FindIndex(StageIds(stages), CardTarget(dest).0)
      && rt.value.sc == FindIndex(ColumnIds(stages[rt.value.ss].columns), CardTarget(source).1)
      && rt.value.dc == FindIndex(ColumnIds(stages[rt.value.ds].columns), CardTarget(dest).1)
  {
    var (sStageId, sColumnId) := CardTarget(source);
    var (dStageId, dColumnId) := CardTarget(dest);
    if sStageId == "" || sColumnId == "" || dStageId == "" || dColumnId == "" then None
    else
      var ss := FindIndex(StageIds(stages), sStageId);
      var ds := FindIndex(StageIds(stages), dStageId);
      if ss == -1 || ds == -1 then None
      else
        var sc := FindIndex(ColumnIds(stages[ss].columns), sColumnId);
        var dc := FindIndex(ColumnIds(stages[ds].columns), dColumnId);
        if sc == -1 || dc == -1 then None
        else Some(Route(ss, sc, ds, dc))
  }

  /** What the drag library guarantees about a drop that reaches a `splice`:
      the source index points at an element of the list it was picked up
      from. */
  predicate DropWellFormed(stages: seq<Stage>, r: DropResult) {
    r.destination.Some? ==>
      if r.kind == "stage" then r.source.index < |stages|
      else if r.kind == "column" then
        var si := FindIndex(StageIds(stages), ColumnListStage(r.source.droppableId));
        si >= 0 ==> r.source.index < |stages[si].columns|
      else
        var rt := CardRoute(stages, r.source.droppableId, r.destination.value.droppableId);
        rt.Some? ==> r.source.index < |stages[rt.value.ss].columns[rt.value.sc].cards|
  }

  // ---------------------------------------------------------------------
  // Moving a card
  // ---------------------------------------------------------------------

  /** The source column once the card is cut out of it. */
  function SourceAfter(stages: seq<Stage>, rt: Route, from: nat): (c: Column)
    requires RouteValid(stages, rt) && from < |stages[rt.ss].columns[rt.sc].cards|
    ensures var old_ := stages[rt.ss].columns[rt.sc];
      && c.id == old_.id && c.title == old_.title
      && c.cards == RemoveAt(old_.cards, from)
      && multiset(c.cards) + multiset{old_.cards[from]} == multiset(old_.cards)
  {
    var sCol := stages[rt.ss].columns[rt.sc];
    sCol.(cards := RemoveAt(sCol.cards, from))
  }

  /** The destination column as copied from the original stages, with the
      card spliced in. */
  function DestAfter(stages: seq<Stage>, rt: Route, from: nat, to: nat): (c: Column)
    requires RouteValid(stages, rt) && from < |stages[rt.ss].columns[rt.sc].cards|
    ensures var old_ := stages[rt.ds].columns[rt.dc];
      var moved := stages[rt.ss].columns[rt.sc].cards[from];
      && c.id == old_.id && c.title == old_.title
      && c.cards == InsertAt(old_.cards, to, moved)
      && c.cards[InsertIndex(to, |old_.cards|)] == moved
      && multiset(c.cards) == multiset(old_.cards) + multiset{moved}
  {
    var dCol := stages[rt.ds].columns[rt.dc];
    dCol.(cards := InsertAt(dCol.cards, to, stages[rt.ss].columns[rt.sc].cards[from]))
  }

  /** The card branch as the handler is written: the card is cut from the
      source column and spliced into a copy of the destination column taken
      from the original stages; then each stage with the source stage's id
      gets the new source column, and only a stage with another id that
      matches the destination stage gets the new destination column. */
  function MoveCardAsWritten(stages: seq<Stage>, rt: Route, from: nat, to: nat): (next: seq<Stage>)
    requires RouteValid(stages, rt) && from < |stages[rt.ss].columns[rt.sc].cards|
    ensures StageIds(next) == StageIds(stages)
    ensures forall k :: 0 <= k < |stages| ==> ColumnIds(next[k].columns) == ColumnIds(stages[k].columns)
  {
    var newS := SourceAfter(stages, rt, from);
    var newD := DestAfter(stages, rt, from, to);
    seq(|stages|, k requires 0 <= k < |stages| =>
      if stages[k].id == stages[rt.ss].id then stages[k].(columns := ColumnBoard.ReplaceById(stages[k].columns, newS))
      else if stages[k].id == stages[rt.ds].id then stages[k].(columns := ColumnBoard.ReplaceById(stages[k].columns, newD))
      else stages[k])
  }

  /** The card branch as evidently intended, the way the column-board engine
      does it: inside one stage both columns are rewritten in that stage (and
      inside one column the card is moved within it); across stages as
      written. */
  function MoveCard(stages: seq<Stage>, rt: Route, from: nat, to: nat): (next: seq<Stage>)
    requires RouteValid(stages, rt) && from < |stages[rt.ss].columns[rt.sc].cards|
    ensures StageIds(next) == StageIds(stages)
  {
    var sStage := stages[rt.ss];
    if sStage.id == stages[rt.ds].id then
      ReplaceStageById(stages, sStage.(columns := WithinStage(stages, rt, from, to)))
    else MoveCardAsWritten(stages, rt, from, to)
  }

  /** The source stage's columns after a move inside it: one column is
      reordered, or two columns are rewritten. */
  function WithinStage(stages: seq<Stage>, rt: Route, from: nat, to: nat): (r: seq<Column>)
    requires RouteValid(stages, rt) && from < |stages[rt.ss].columns[rt.sc].cards|
    ensures ColumnIds(r) == ColumnIds(stages[rt.ss].columns)
  {
    var sStage := stages[rt.ss];
    var sCol := sStage.columns[rt.sc];
    var dCol := stages[rt.ds].columns[rt.dc];
    if sCol.id == dCol.id then ColumnBoard.ReplaceById(sStage.columns, sCol.(cards := Move(sCol.cards, from, to)))
    else ColumnBoard.ReplacePair(sStage.columns, SourceAfter(stages, rt, from), DestAfter(stages, rt, from, to))
  }

  /** Replacing one column of one stage changes the planner's cards by
      exactly that column's cards. */
  lemma StageCardsColumnUpdate(stages: seq<Stage>, i: nat, j: nat, c: Column)
    requires i < |stages| && j < |stages[i].columns|
    ensures var t := stages[i].(columns := stages[i].columns[j := c]);
      StageCards(stages[i := t]) + multiset(stages[i].columns[j].cards) == StageCards(stages) + multiset(c.cards)
  {
    var t := stages[i].(columns := stages[i].columns[j := c]);
    CardsUpdate(stages[i].columns, j, c);
    StageCardsUpdate(stages, i, t);
    forall x ensures (StageCards(stages[i := t]) + multiset(stages[i].columns[j].cards))[x]
                  == (StageCards(stages) + multiset(c.cards))[x] {
      assert (Cards(t.columns) + multiset(stages[i].columns[j].cards))[x] == (Cards(stages[i].columns) + multiset(c.cards))[x];
      assert (StageCards(stages[i := t]) + Cards(stages[i].columns))[x] == (StageCards(stages) + Cards(t.columns))[x];
    }
  }

  /** With distinct ids, the handler as written rewrites the source column
      in the source stage and, for another stage, the destination column in
      the destination stage; nothing else. */
  lemma AsWrittenShape(stages: seq<Stage>, rt: Route, from: nat, to: nat)
    requires WellKeyed(stages) && RouteValid(stages, rt) && from < |stages[rt.ss].columns[rt.sc].cards|
    ensures var S := stages[rt.ss].(columns := stages[rt.ss].columns[rt.sc := SourceAfter(stages, rt, from)]);
      var D := stages[rt.ds].(columns := stages[rt.ds].columns[rt.dc := DestAfter(stages, rt, from, to)]);
      MoveCardAsWritten(stages, rt, from, to) == if rt.ss == rt.ds then stages[rt.ss := S] else stages[rt.ss := S][rt.ds := D]
  {
    ColumnBoard.ReplaceByIdAt(stages[rt.ss].columns, rt.sc, SourceAfter(stages, rt, from));
    ColumnBoard.ReplaceByIdAt(stages[rt.ds].columns, rt.dc, DestAfter(stages, rt, from, to));
    assert forall k :: 0 <= k < |stages| && k != rt.ss ==> StageIds(stages)[k] != StageIds(stages)[rt.ss];
    assert forall k :: 0 <= k < |stages| && k != rt.ds ==> StageIds(stages)[k] != StageIds(stages)[rt.ds];
  }

  /** A card dragged to a column of another stage: the source column
      becomes its cards with the one at `from` removed, the destination
      column its cards with the moved card inserted at `to` (last when past
      the end), and every other column and every other stage is untouched. */
  lemma CrossStageDrag(stages: seq<Stage>, rt: Route, from: nat, to: nat)
    requires WellKeyed(stages) && RouteValid(stages, rt) && from < |stages[rt.ss].columns[rt.sc].cards|
    requires rt.ss != rt.ds
    ensures var next := MoveCardAsWritten(stages, rt, from, to);
      var sCol, dCol := stages[rt.ss].columns[rt.sc], stages[rt.ds].columns[rt.dc];
      && |next| == |stages|
      && next[rt.ss].id == stages[rt.ss].id && next[rt.ds].id == stages[rt.ds].id
      && |next[rt.ss].columns| == |stages[rt.ss].columns| && |next[rt.ds].columns| == |stages[rt.ds].columns|
      && next[rt.ss].columns[rt.sc].cards == RemoveAt(sCol.cards, from)
      && next[rt.ds].columns[rt.dc].cards == InsertAt(dCol.cards, to, sCol.cards[from])
      && (forall k :: 0 <= k < |stages| && k != rt.ss && k != rt.ds ==> next[k] == stages[k])
      && (forall j :: 0 <= j < |stages[rt.ss].columns| && j != rt.sc ==>
            next[rt.ss].columns[j] == stages[rt.ss].columns[j])
      && (forall j :: 0 <= j < |stages[rt.ds].columns| && j != rt.dc ==>
            next[rt.ds].columns[j] == stages[rt.ds].columns[j])
  {
    AsWrittenShape(stages, rt, from, to);
  }

  /** Across stages the handler as written conserves the cards: the card
      leaves its column and arrives in the other stage's column. */
  lemma CrossStageConserves(stages: seq<Stage>, rt: Route, from: nat, to: nat)
    requires WellKeyed(stages) && RouteValid(stages, rt) && from < |stages[rt.ss].columns[rt.sc].cards|
    requires rt.ss != rt.ds
    ensures StageCards(MoveCardAsWritten(stages, rt, from, to)) == StageCards(stages)
  {
    var newS, newD := SourceAfter(stages, rt, from), DestAfter(stages, rt, from, to);
    var sCol, dCol := stages[rt.ss].columns[rt.sc], stages[rt.ds].columns[rt.dc];
    var moved := sCol.cards[from];
    var S := stages[rt.ss].(columns := stages[rt.ss].columns[rt.sc := newS]);
    var mid := stages[rt.ss := S];
    var D := mid[rt.ds].(columns := mid[rt.ds].columns[rt.dc := newD]);
    var next := MoveCardAsWritten(stages, rt, from, to);
    AsWrittenShape(stages, rt, from, to);
    assert mid[rt.ds] == stages[rt.ds];
    assert next == mid[rt.ds := D];
    StageCardsColumnUpdate(stages, rt.ss, rt.sc, newS);
    StageCardsColumnUpdate(mid, rt.ds, rt.dc, newD);
    forall x ensures StageCards(next)[x] == StageCards(stages)[x] {
      assert (StageCards(mid) + multiset(sCol.cards))[x] == (StageCards(stages) + multiset(newS.cards))[x];
      assert (StageCards(next) + multiset(dCol.cards))[x] == (StageCards(mid) + multiset(newD.cards))[x];
      assert (multiset(newS.cards) + multiset{moved})[x] == multiset(sCol.cards)[x];
      assert multiset(newD.cards)[x] == (multiset(dCol.cards) + multiset{moved})[x];
    }
  }

  /** Inside one stage the handler as written loses the dragged card: only
      the source branch of the stage `map` runs, so the card is cut from its
      column and never inserted anywhere, whichever column (even its own) it
      is dropped on. */
  lemma SameStageLosesCard(stages: seq<Stage>, rt: Route, from: nat, to: nat)
    requires WellKeyed(stages) && RouteValid(stages, rt) && from < |stages[rt.ss].columns[rt.sc].cards|
    requires rt.ss == rt.ds
    ensures var moved := stages[rt.ss].columns[rt.sc].cards[from];
      StageCards(MoveCardAsWritten(stages, rt, from, to)) + multiset{moved} == StageCards(stages)
  {
    var newS := SourceAfter(stages, rt, from);
    var moved := stages[rt.ss].columns[rt.sc].cards[from];
    AsWrittenShape(stages, rt, from, to);
    StageCardsColumnUpdate(stages, rt.ss, rt.sc, newS);
    var next := MoveCardAsWritten(stages, rt, from, to);
    forall x ensures (StageCards(next) + multiset{moved})[x] == StageCards(stages)[x] {
      assert (StageCards(next) + multiset(stages[rt.ss].columns[rt.sc].cards))[x] == (StageCards(stages) + multiset(newS.cards))[x];
      assert (multiset(newS.cards) + multiset{moved})[x] == multiset(stages[rt.ss].columns[rt.sc].cards)[x];
    }
  }

  /** The intended card move keeps every card, inside one stage as well as
      across stages. */
  lemma MoveCardConserves(stages: seq<Stage>, rt: Route, from: nat, to: nat)
    requires WellKeyed(stages) && RouteValid(stages, rt) && from < |stages[rt.ss].columns[rt.sc].cards|
    ensures StageCards(MoveCard(stages, rt, from, to)) == StageCards(stages)
  {
    var sStage := stages[rt.ss];
    if sStage.id != stages[rt.ds].id {
      CrossStageConserves(stages, rt, from, to);
    } else {
      assert rt.ss == rt.ds by {
        assert StageIds(stages)[rt.ss] == StageIds(stages)[rt.ds];
      }
      WithinStageConserves(stages, rt, from, to);
      var S := sStage.(columns := WithinStage(stages, rt, from, to));
      ReplaceStageByIdAt(stages, rt.ss, S);
      StageCardsUpdate(stages, rt.ss, S);
      forall x ensures StageCards(stages[rt.ss := S])[x] == StageCards(stages)[x] {
        assert (StageCards(stages[rt.ss := S]) + Cards(sStage.columns))[x] == (StageCards(stages) + Cards(S.columns))[x];
      }
    }
  }

  lemma WithinStageConserves(stages: seq<Stage>, rt: Route, from: nat, to: nat)
    requires WellKeyed(stages) && RouteValid(stages, rt) && from < |stages[rt.ss].columns[rt.sc].cards|
    requires rt.ss == rt.ds
    ensures Cards(WithinStage(stages, rt, from, to)) == Cards(stages[rt.ss].columns)
  {
    var cols := stages[rt.ss].columns;
    if cols[rt.sc].id == cols[rt.dc].id {
      ColumnBoard.SameColumnConserves(cols, rt.sc, from, to);
    } else {
      ColumnBoard.CrossColumnConserves(cols, rt.sc, rt.dc, from, to);
    }
  }

  // ---------------------------------------------------------------------
  // onDragEnd
  // ---------------------------------------------------------------------

  /** The stages after a drop, with the card branch as intended. There is no
      same-position shortcut: every drop with a destination runs its branch. */
  function DragEnd(stages: seq<Stage>, r: DropResult): (next: seq<Stage>)
    requires DropWellFormed(stages, r)
    // dropped outside every list: nothing changes
    ensures r.destination.None? ==> next == stages
    // a stage drag permutes the stages; the dragged one lands at the drop index
    ensures r.kind == "stage" ==> |next| == |stages| && multiset(next) == multiset(stages)
    ensures r.kind == "stage" && r.destination.Some? ==>
      next[InsertIndex(r.destination.value.index, |stages| - 1)] == stages[r.source.index]
    // column and card drags keep the stages and their order
    ensures r.kind != "stage" ==> StageIds(next) == StageIds(stages)
    // a column drag reorders the columns of the stage its list belongs to
    // and leaves every stage with another id as it was
    ensures
      (&& r.kind == "column" && r.destination.Some?
       && ColumnListStage(r.source.droppableId) in StageIds(stages))
      ==>
      var si := FindIndex(StageIds(stages), ColumnListStage(r.source.droppableId));
      && next[si] == stages[si].(columns := Move(stages[si].columns, r.source.index, r.destination.value.index))
      && forall k :: 0 <= k < |stages| && stages[k].id != stages[si].id ==> next[k] == stages[k]
    // a column drag for an unknown stage, or a card drag that does not
    // resolve, changes nothing
    ensures r.kind == "column" && ColumnListStage(r.source.droppableId) !in StageIds(stages) ==> next == stages
    ensures
      (&& r.kind != "stage" && r.kind != "column" && r.destination.Some?
       && CardRoute(stages, r.source.droppableId, r.destination.value.droppableId).None?)
      ==> next == stages
  {
    if r.destination.None? then stages
    else
      var destination := r.destination.value;
      if r.kind == "stage" then Move(stages, r.source.index, destination.index)
      else if r.kind == "column" then
        var si := FindIndex(StageIds(stages), ColumnListStage(r.source.droppableId));
        if si == -1 then stages
        else
          var stage := stages[si];
          ReplaceStageById(stages, stage.(columns := Move(stage.columns, r.source.index, destination.index)))
      else
        var rt := CardRoute(stages, r.source.droppableId, destination.droppableId);
        if rt.None? then stages
        else MoveCard(stages, rt.value, r.source.index, destination.index)
  }

  /** The stages after a drop as the handler is written: like `DragEnd`
      except that a card drag runs the card branch as written. */
  function DragEndAsWritten(stages: seq<Stage>, r: DropResult): (next: seq<Stage>)
    requires DropWellFormed(stages, r)
    ensures r.kind == "stage" || r.kind == "column" || r.destination.None? ==> next == DragEnd(stages, r)
    ensures r.kind != "stage" && r.kind != "column" && r.destination.Some? ==>
      var rt := CardRoute(stages, r.source.droppableId, r.destination.value.droppableId);
      && (rt.None? ==> next == stages)
      && (rt.Some? && rt.value.ss != rt.value.ds ==> next == DragEnd(stages, r))
      && (rt.Some? ==> next == MoveCardAsWritten(stages, rt.value, r.source.index, r.destination.value.index))
  {
    if r.destination.None? || r.kind == "stage" || r.kind == "column" then DragEnd(stages, r)
    else
      var rt := CardRoute(stages, r.source.droppableId, r.destination.value.droppableId);
      if rt.None? then stages
      else MoveCardAsWritten(stages, rt.value, r.source.index, r.destination.value.index)
  }

  /** As written, a card drop that resolves to two columns of one stage
      loses exactly the dragged card. */
  lemma DragEndAsWrittenLosesCard(stages: seq<Stage>, r: DropResult)
    requires DropWellFormed(stages, r) && WellKeyed(stages)
    requires r.kind != "stage" && r.kind != "column" && r.destination.Some?
    requires Resolves(stages, r.source.droppableId, r.destination.value.droppableId)
    requires CardTarget(r.source.droppableId).0 == CardTarget(r.destination.value.droppableId).0
    ensures var rt := CardRoute(stages, r.source.droppableId, r.destination.value.droppableId).value;
      var moved := stages[rt.ss].columns[rt.sc].cards[r.source.index];
      StageCards(DragEndAsWritten(stages, r)) + multiset{moved} == StageCards(stages)
  {
    var rt := CardRoute(stages, r.source.droppableId, r.destination.value.droppableId).value;
    SameStageLosesCard(stages, rt, r.source.index, r.destination.value.index);
  }

  /** Every drop keeps every card of the planner, given distinct ids. */
  lemma {:induction false} DragEndConservesCards(stages: seq<Stage>, r: DropResult)
    requires DropWellFormed(stages, r) && WellKeyed(stages)
    ensures StageCards(DragEnd(stages, r)) == StageCards(stages)
  {
    if r.destination.None? {
    } else if r.kind == "stage" {
      StageCardsMove(stages, r.source.index, r.destination.value.index);
    } else if r.kind == "column" {
      var si := FindIndex(StageIds(stages), ColumnListStage(r.source.droppableId));
      if si != -1 {
        var stage := stages[si];
        var t := stage.(columns := Move(stage.columns, r.source.index, r.destination.value.index));
        ReplaceStageByIdAt(stages, si, t);
        ColumnBoard.CardsMove(stage.columns, r.source.index, r.destination.value.index);
        StageCardsUpdate(stages, si, t);
        forall x ensures StageCards(stages[si := t])[x] == StageCards(stages)[x] {
          assert (StageCards(stages[si := t]) + Cards(stage.columns))[x] == (StageCards(stages) + Cards(t.columns))[x];
        }
      }
    } else {
      var rt := CardRoute(stages, r.source.droppableId, r.destination.value.droppableId);
      if rt.Some? {
        MoveCardConserves(stages, rt.value, r.source.index, r.destination.value.index);
      }
    }
  }

  /** Putting a stage with distinct column ids in place of the stage with
      its id keeps the planner well keyed. */
  lemma ReplaceStageKeepsKeys(stages: seq<Stage>, i: nat, t: Stage)
    requires WellKeyed(stages) && i < |stages| && t.id == stages[i].id && Distinct(ColumnIds(t.columns))
    ensures WellKeyed(ReplaceStageById(stages, t))
  {
    ReplaceStageByIdAt(stages, i, t);
  }

  /** Reordering the stages keeps the planner well keyed. */
  lemma MoveKeepsKeys(stages: seq<Stage>, from: nat, to: nat)
    requires WellKeyed(stages) && from < |stages|
    ensures WellKeyed(Move(stages, from, to))
  {
    var m := Move(stages, from, to);
    forall a, b | 0 <= a < b < |m| ensures StageIds(m)[a] != StageIds(m)[b] {
      MoveAt(stages, from, to, a);
      MoveAt(stages, from, to, b);
    }
    forall a | 0 <= a < |m| ensures Distinct(ColumnIds(m[a].columns)) {
      MoveAt(stages, from, to, a);
    }
  }

  /** The intended card move keeps the planner well keyed. */
  lemma MoveCardKeepsKeys(stages: seq<Stage>, rt: Route, from: nat, to: nat)
    requires WellKeyed(stages) && RouteValid(stages, rt) && from < |stages[rt.ss].columns[rt.sc].cards|
    ensures WellKeyed(MoveCard(stages, rt, from, to))
  {
    var sStage := stages[rt.ss];
    if sStage.id == stages[rt.ds].id {
      ReplaceStageKeepsKeys(stages, rt.ss, sStage.(columns := WithinStage(stages, rt, from, to)));
    }
  }

  /** Every drop keeps the planner well keyed, both as intended and as
      written, so the conservation lemmas apply to every later drop too. */
  lemma DragEndKeepsKeys(stages: seq<Stage>, r: DropResult)
    requires DropWellFormed(stages, r) && WellKeyed(stages)
    ensures WellKeyed(DragEnd(stages, r))
    ensures WellKeyed(DragEndAsWritten(stages, r))
  {
    if r.destination.None? {
    } else if r.kind == "stage" {
      MoveKeepsKeys(stages, r.source.index, r.destination.value.index);
    } else if r.kind == "column" {
      var si := FindIndex(StageIds(stages), ColumnListStage(r.source.droppableId));
      if si != -1 {
        var stage := stages[si];
        ColumnBoard.MoveDistinctIds(stage.columns, r.source.index, r.destination.value.index);
        ReplaceStageKeepsKeys(stages, si, stage.(columns := Move(stage.columns, r.source.index, r.destination.value.index)));
      }
    } else {
      var rt := CardRoute(stages, r.source.droppableId, r.destination.value.droppableId);
      if rt.Some? {
        MoveCardKeepsKeys(stages, rt.value, r.source.index, r.destination.value.index);
      }
    }
  }

  /** A one-card planner: stage `s` holding column `c` holding card `k`. */
  function ExampleStages(): seq<Stage> {
    [Stage("s", "Production", [Column("c", "Idea", [Card("k", "write", None)])])]
  }

  /** Card `k` picked up and dropped back where it was. */
  function ExampleDrop(): DropResult {
    DropResult("project", Location("s:c", 0), Some(Location("s:c", 0)))
  }

  /** The example drop resolves to the one column, as source and as
      destination. */
  lemma ExampleDropResolves()
    ensures CardRoute(ExampleStages(), "s:c", "s:c") == Some(Route(0, 0, 0, 0))
    ensures DropWellFormed(ExampleStages(), ExampleDrop())
  {
    CardTargetOf("s", "c");
    assert "s:c" == "s" + ":" + "c";
    assert StageIds(ExampleStages()) == ["s"];
    assert ColumnIds(ExampleStages()[0].columns) == ["c"];
  }

  /** The card branch as written on the example: the column is left
      without its card. */
  lemma ExampleMoveAsWritten()
    ensures RouteValid(ExampleStages(), Route(0, 0, 0, 0))
    ensures MoveCardAsWritten(ExampleStages(), Route(0, 0, 0, 0), 0, 0)
         == [Stage("s", "Production", [Column("c", "Idea", [])])]
  {
    var rt := Route(0, 0, 0, 0);
    assert SourceAfter(ExampleStages(), rt, 0) == Column("c", "Idea", []) by {
      assert RemoveAt([Card("k", "write", None)], 0) == [];
    }
    assert WellKeyed(ExampleStages());
    AsWrittenShape(ExampleStages(), rt, 0, 0);
    var S := ExampleStages()[0].(columns := ExampleStages()[0].columns[0 := SourceAfter(ExampleStages(), rt, 0)]);
    assert MoveCardAsWritten(ExampleStages(), rt, 0, 0) == ExampleStages()[0 := S];
    assert S == Stage("s", "Production", [Column("c", "Idea", [])]);
  }

  /** The loss on a concrete drop: dropping the planner's one card back
      where it was leaves its column empty under the handler as written. */
  lemma DropInPlaceEmptiesColumn()
    ensures DropWellFormed(ExampleStages(), ExampleDrop())
    ensures DragEndAsWritten(ExampleStages(), ExampleDrop()) == [Stage("s", "Production", [Column("c", "Idea", [])])]
  {
    ExampleDropResolves();
    ExampleMoveAsWritten();
    assert DragEndAsWritten(ExampleStages(), ExampleDrop()) == MoveCardAsWritten(ExampleStages(), Route(0, 0, 0, 0), 0, 0);
  }

  /** The same drop under the intended handler leaves the planner as it
      was. */
  lemma DropInPlaceIntended()
    ensures DropWellFormed(ExampleStages(), ExampleDrop())
    ensures DragEnd(ExampleStages(), ExampleDrop()) == ExampleStages()
  {
    ExampleDropResolves();
    var rt := Route(0, 0, 0, 0);
    var card := Card("k", "write", None);
    var col := Column("c", "Idea", [card]);
    assert DragEnd(ExampleStages(), ExampleDrop()) == MoveCard(ExampleStages(), rt, 0, 0);
    assert Move([card], 0, 0) == [card];
    ColumnBoard.ReplaceByIdAt([col], 0, col);
    assert WithinStage(ExampleStages(), rt, 0, 0) == [col];
    ReplaceStageByIdAt(ExampleStages(), 0, ExampleStages()[0]);
  }

  /** `onDragEnd` as the handler is written: copy the list that changes,
      splice the element out, splice it back in, rebuild the stages. */
  method OnDragEnd(stages: seq<Stage>, r: DropResult) returns (next: seq<Stage>)
    requires DropWellFormed(stages, r)
    ensures next == DragEndAsWritten(stages, r)
  {
    next := stages;
    if r.destination.None? { return; }
    var destination := r.destination.value;
    if r.kind == "stage" {
      next := SpliceMove(stages, r.source.index, destination.index);
      return;
    }
    if r.kind == "column" {
      var stageIndex := FindIndex(StageIds(stages), Split(r.source.droppableId, ':')[0]);
      if stageIndex == -1 { return; }
      var stage := stages[stageIndex];
      var newColumns := SpliceMove(stage.columns, r.source.index, destination.index);
      next := ReplaceStageById(stages, stage.(columns := newColumns));
      return;
    }
    var (sourceStageId, sourceColumnId) := CardTarget(r.source.droppableId);
    var (destStageId, destColumnId) := CardTarget(destination.droppableId);
    if sourceStageId == "" || sourceColumnId == "" || destStageId == "" || destColumnId == "" { return; }
    var ss := FindIndex(StageIds(stages), sourceStageId);
    var ds := FindIndex(StageIds(stages), destStageId);
    if ss == -1 || ds == -1 { return; }
    var sourceStage, destStage := stages[ss], stages[ds];
    var sc := FindIndex(ColumnIds(sourceStage.columns), sourceColumnId);
    var dc := FindIndex(ColumnIds(destStage.columns), destColumnId);
    if sc == -1 || dc == -1 { return; }
    var sourceColumn, destColumn := sourceStage.columns[sc], destStage.columns[dc];
    var newSourceCards, movedCard := SpliceOut(sourceColumn.cards, r.source.index);
    var newDestCards := SpliceIn(destColumn.cards, destination.index, movedCard);
    var updatedSource := sourceColumn.(cards := newSourceCards);
    var updatedDest := destColumn.(cards := newDestCards);
    next := seq(|stages|, k requires 0 <= k < |stages| =>
      if stages[k].id == sourceStage.id then stages[k].(columns := ColumnBoard.ReplaceById(stages[k].columns, updatedSource))
      else if stages[k].id == destStage.id then stages[k].(columns := ColumnBoard.ReplaceById(stages[k].columns, updatedDest))
      else stages[k]);
    assert CardRoute(stages, r.source.droppableId, destination.droppableId) == Some(Route(ss, sc, ds, dc));
  }

  // ---------------------------------------------------------------------
  // addStage
  // ---------------------------------------------------------------------

  /** Appending a stage adds its cards; with a fresh stage id and distinct
      column ids inside it, ids stay well keyed. */
  lemma AppendStage(stages: seq<Stage>, stage: Stage)
    requires stage.id !in StageIds(stages) && Distinct(ColumnIds(stage.columns))
    ensures StageCards(stages + [stage]) == StageCards(stages) + Cards(stage.columns)
    ensures WellKeyed(stages) ==> WellKeyed(stages + [stage])
  {
    StageCardsAppend(stages, [stage]);
    assert [stage][1..] == [];
    assert StageIds(stages + [stage]) == StageIds(stages) + [stage.id];
  }

  /** `addStage`: a blank title changes nothing; otherwise one stage
      `stage-<uuid>` with the title as typed and two empty columns
      `col-<uuid>` titled "New Column 1" and "New Column 2" goes at the end,
      and the dialog is cleared and closed. Three `uuidv4()` values are
      parameters, each assumed fresh. */
  function AddStage(st: PlannerState, stageUuid: string, firstColumnUuid: string, secondColumnUuid: string)
    : (r: PlannerState)
    requires "stage-" + stageUuid !in StageIds(st.stages)
    requires firstColumnUuid != secondColumnUuid
    ensures IsBlank(st.newStageTitle) ==> r == st
    ensures !IsBlank(st.newStageTitle) ==>
      && |r.stages| == |st.stages| + 1
      && r.stages[..|st.stages|] == st.stages
      && r.stages[|st.stages|] == Stage("stage-" + stageUuid, st.newStageTitle,
           [Column("col-" + firstColumnUuid, "New Column 1", []), Column("col-" + secondColumnUuid, "New Column 2", [])])
      && r.newStageTitle == "" && !r.isAddStageOpen
    ensures StageCards(r.stages) == StageCards(st.stages)
    ensures WellKeyed(st.stages) ==> WellKeyed(r.stages)
  {
    if IsBlank(st.newStageTitle) then st
    else
      var columns := [Column("col-" + firstColumnUuid, "New Column 1", []), Column("col-" + secondColumnUuid, "New Column 2", [])];
      var stage := Stage("stage-" + stageUuid, st.newStageTitle, columns);
      assert ColumnIds(columns)[0] != ColumnIds(columns)[1] by {
        assert ("col-" + firstColumnUuid)[4..] == firstColumnUuid;
        assert ("col-" + secondColumnUuid)[4..] == secondColumnUuid;
      }
      assert Cards(columns) == multiset{} by {
        assert Cards(columns[1..][1..]) == multiset{} by { assert columns[1..][1..] == []; }
        assert multiset(columns[0].cards) == multiset{} && multiset(columns[1].cards) == multiset{};
      }
      AppendStage(st.stages, stage);
      PlannerState(st.stages + [stage], "", false)
  }
}
