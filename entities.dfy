/** The records every board shares: a card, a column of cards, a stage of
    columns (content planner only), and the record a drag-and-drop library
    hands to `onDragEnd`. */
module Entities {
  import opened Wrappers

  /** `CardType`/`TaskCardType`: the description is optional. */
  datatype Card = Card(id: string, content: string, description: Option<string>)

  /** `ColumnType`/`TaskColumnType`: the cards in display order. */
  datatype Column = Column(id: string, title: string, cards: seq<Card>)

  /** `StageType`: the columns of a stage in display order. */
  datatype Stage = Stage(id: string, title: string, columns: seq<Column>)

  /** One end of a drag: which list (`droppableId`) and the position in it. */
  datatype Location = Location(droppableId: string, index: nat)

  /** The drop result: the drag `type` (`kind` here), where the element was
      picked up, and where it was dropped (absent when dropped outside every
      list). */
  datatype DropResult = DropResult(kind: string, source: Location, destination: Option<Location>)

  /** No value occurs twice. */
  predicate Distinct<T(==)>(s: seq<T>) {
    forall i, j :: 0 <= i < j < |s| ==> s[i] != s[j]
  }

  /** `findIndex` on a list of ids: the first position holding `id`, or -1
      when there is none. */
  function FindIndex(ids: seq<string>, id: string): (r: int)
    ensures -1 <= r < |ids|
    ensures r == -1 <==> id !in ids
    ensures r >= 0 ==> ids[r] == id && id !in ids[..r]
  {
    if ids == [] then -1
    else if ids[0] == id then 0
    else
      var r := FindIndex(ids[1..], id);
      assert ids[1..][..if r < 0 then 0 else r] == ids[1..if r < 0 then 1 else r + 1];
      if r == -1 then -1 else r + 1
  }

  /** With distinct ids, the position of an id is the only one holding it. */
  lemma FindIndexDistinct(ids: seq<string>, k: nat)
    requires Distinct(ids) && k < |ids|
    ensures FindIndex(ids, ids[k]) == k
  {
  }

  function ColumnIds(cols: seq<Column>): (ids: seq<string>)
    ensures |ids| == |cols|
    ensures forall k :: 0 <= k < |cols| ==> ids[k] == cols[k].id
  {
    seq(|cols|, k requires 0 <= k < |cols| => cols[k].id)
  }

  function StageIds(stages: seq<Stage>): (ids: seq<string>)
    ensures |ids| == |stages|
    ensures forall k :: 0 <= k < |stages| ==> ids[k] == stages[k].id
  {
    seq(|stages|, k requires 0 <= k < |stages| => stages[k].id)
  }

  function CardIds(cards: seq<Card>): (ids: seq<string>)
    ensures |ids| == |cards|
    ensures forall k :: 0 <= k < |cards| ==> ids[k] == cards[k].id
  {
    seq(|cards|, k requires 0 <= k < |cards| => cards[k].id)
  }

  /** Every card of a list of columns, with multiplicity. */
  function Cards(cols: seq<Column>): multiset<Card>
  {
    if cols == [] then multiset{} else multiset(cols[0].cards) + Cards(cols[1..])
  }

  /** The cards of a concatenation are those of both halves. */
  lemma {:induction false} CardsAppend(a: seq<Column>, b: seq<Column>)
    ensures Cards(a + b) == Cards(a) + Cards(b)
    decreases |a|
  {
    if a != [] {
      assert (a + b)[1..] == a[1..] + b;
      CardsAppend(a[1..], b);
    } else {
      assert a + b == b;
    }
  }

  /** Replacing one column changes the cards by exactly that column's cards. */
  lemma {:induction false} CardsUpdate(cols: seq<Column>, i: nat, c: Column)
    requires i < |cols|
    ensures Cards(cols[i := c]) + multiset(cols[i].cards) == Cards(cols) + multiset(c.cards)
  {
    assert cols == cols[..i] + [cols[i]] + cols[i + 1..];
    assert cols[i := c] == cols[..i] + [c] + cols[i + 1..];
    CardsAppend(cols[..i] + [cols[i]], cols[i + 1..]);
    CardsAppend(cols[..i], [cols[i]]);
    CardsAppend(cols[..i] + [c], cols[i + 1..]);
    CardsAppend(cols[..i], [c]);
    assert Cards([c]) == multiset(c.cards) by { assert [c][1..] == []; }
    assert Cards([cols[i]]) == multiset(cols[i].cards) by { assert [cols[i]][1..] == []; }
  }

  /** Every card of every stage, with multiplicity. */
  function StageCards(stages: seq<Stage>): multiset<Card>
  {
    if stages == [] then multiset{} else Cards(stages[0].columns) + StageCards(stages[1..])
  }

  lemma {:induction false} StageCardsAppend(a: seq<Stage>, b: seq<Stage>)
    ensures StageCards(a + b) == StageCards(a) + StageCards(b)
    decreases |a|
  {
    if a != [] {
      assert (a + b)[1..] == a[1..] + b;
      StageCardsAppend(a[1..], b);
    } else {
      assert a + b == b;
    }
  }

  /** Replacing one stage changes the cards by exactly that stage's cards. */
  lemma {:induction false} StageCardsUpdate(stages: seq<Stage>, i: nat, s: Stage)
    requires i < |stages|
    ensures StageCards(stages[i := s]) + Cards(stages[i].columns) == StageCards(stages) + Cards(s.columns)
  {
    assert stages == stages[..i] + [stages[i]] + stages[i + 1..];
    assert stages[i := s] == stages[..i] + [s] + stages[i + 1..];
    StageCardsAppend(stages[..i] + [stages[i]], stages[i + 1..]);
    StageCardsAppend(stages[..i], [stages[i]]);
    StageCardsAppend(stages[..i] + [s], stages[i + 1..]);
    StageCardsAppend(stages[..i], [s]);
    assert StageCards([s]) == Cards(s.columns) by { assert [s][1..] == []; }
    assert StageCards([stages[i]]) == Cards(stages[i].columns) by { assert [stages[i]][1..] == []; }
  }
}
