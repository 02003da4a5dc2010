/** The answer dialog: the answers received, newest first, and a list control that displays them. */
module Answers {
  import opened Wire
  import opened Packets

  datatype AnswerItem = AnswerItem(id: string, answer: string, time: nat, electricity: int, nindex: nat)

  /** The columns of a displayed row, left to right. */
  datatype AnswerRow = AnswerRow(index: nat, id: string, answer: string, time: nat, electricity: int)

  datatype Board = Board(items: seq<AnswerItem>, rows: seq<AnswerRow>)

  /** An answer frame handled at second `now`, `shown` unless the list refuses a new row; or the clear command. */
  datatype AnswerEvent = Answer(id: string, text: string, charge: int, now: nat, shown: bool) | ClearAnswers

  const NO_BOARD := Board([], [])

  function RowOf(item: AnswerItem): AnswerRow {
    AnswerRow(item.nindex, item.id, item.answer, item.time, item.electricity)
  }

  /** Address and tag, ten id bytes, the battery level, four answer bytes. */
  function AnswerOf(msg: seq<Byte>, now: nat, shown: bool): AnswerEvent
    requires |msg| >= 18
  {
    Answer(IdOf(msg[3..13]), AnswerText(msg[14..18]), Signed(msg[13]), now, shown)
  }

  /** The answer as it is kept when `older` answers are on the board. */
  function ItemOf(e: AnswerEvent, older: nat): AnswerItem
    requires e.Answer?
  {
    AnswerItem(e.id, e.text, e.now, e.charge, older)
  }

  function Step(b: Board, e: AnswerEvent): Board {
    match e
    case ClearAnswers => NO_BOARD
    case Answer(_, _, _, _, shown) =>
      if !shown then b
      else
        var item := ItemOf(e, |b.rows|);
        Board([item] + b.items, [RowOf(item)] + b.rows)
  }

  function Run(events: seq<AnswerEvent>): Board {
    if events == [] then NO_BOARD else Step(Run(events[..|events| - 1]), events[|events| - 1])
  }

  /** The answers shown since the last clear, oldest first. */
  function Kept(events: seq<AnswerEvent>): (r: seq<AnswerEvent>)
    ensures forall i :: 0 <= i < |r| ==> r[i].Answer?
  {
    if events == [] then []
    else
      var before, e := Kept(events[..|events| - 1]), events[|events| - 1];
      if e.ClearAnswers? then [] else if e.shown then before + [e] else before
  }

  /**
   * The list and the vector have equal length, row by row and column by column they show the same,
   * element `i` is numbered from the back, and read from the back they are the answers `kept`.
   */
  ghost predicate Shows(b: Board, kept: seq<AnswerEvent>)
    requires forall i :: 0 <= i < |kept| ==> kept[i].Answer?
  {
    && |b.items| == |b.rows| == |kept|
    && forall i :: 0 <= i < |kept| ==>
         var n := |kept| - 1 - i;
         && b.items[i] == AnswerItem(
              id := kept[n].id, answer := kept[n].text, time := kept[n].now, electricity := kept[n].charge, nindex := n)
         && b.rows[i] == AnswerRow(
              index := n, id := kept[n].id, answer := kept[n].text, time := kept[n].now, electricity := kept[n].charge)
  }

  /** In every reachable state the board shows the answers kept. */
  lemma {:induction false} BoardShowsKept(events: seq<AnswerEvent>)
    ensures Shows(Run(events), Kept(events))
  {
    if events != [] {
      BoardShowsKept(events[..|events| - 1]);
    }
  }

  class AnswerDialog {
    var answerVec: seq<AnswerItem>
    var listAnswer: seq<AnswerRow>

    function State(): Board
      reads this
    {
      Board(answerVec, listAnswer)
    }

    constructor ()
      ensures State() == NO_BOARD && answerVec == [] && listAnswer == []
    {
      answerVec := [];
      listAnswer := [];
    }

    /** Puts the answer in front, unless the list refuses a new row. */
    method InsertAnswer(newItem: AnswerItem, shown: bool) returns (r: int)
      modifies this
      ensures !shown ==> r == -1 && State() == old(State())
      ensures shown ==>
                var item := newItem.(nindex := |old(listAnswer)|);
                r == 0 && State() == Board([item] + old(answerVec), [RowOf(item)] + old(listAnswer))
      ensures shown ==>
                var n := |old(listAnswer)|;
                && answerVec == [newItem.(nindex := n)] + old(answerVec)
                && listAnswer == [AnswerRow(
                     index := n, id := newItem.id, answer := newItem.answer,
                     time := newItem.time, electricity := newItem.electricity)] + old(listAnswer)
    {
      if !shown {
        return -1;
      }
      listAnswer := [AnswerRow(0, "", "", 0, 0)] + listAnswer;
      var item := newItem.(nindex := |listAnswer| - 1);
      listAnswer := listAnswer[0 := listAnswer[0].(index := item.nindex)];
      listAnswer := listAnswer[0 := listAnswer[0].(id := item.id)];
      listAnswer := listAnswer[0 := listAnswer[0].(answer := item.answer)];
      listAnswer := listAnswer[0 := listAnswer[0].(time := item.time)];
      listAnswer := listAnswer[0 := listAnswer[0].(electricity := item.electricity)];
      answerVec := [item] + answerVec;
      return 0;
    }

    /**
     * Records an answer that is handled at second `now`: the id from bytes 3 to 12, the battery level
     * from byte 13, the text from bytes 14 to 17.
     */
    method ProcessMsgAnswer(msg: seq<Byte>, now: nat, shown: bool) returns (r: int)
      requires |msg| >= 18
      modifies this
      ensures State() == Step(old(State()), AnswerOf(msg, now, shown))
      ensures r == if shown then 0 else -1
      ensures !shown ==> answerVec == old(answerVec) && listAnswer == old(listAnswer)
      ensures shown ==>
                && answerVec != [] && answerVec[1..] == old(answerVec)
                && var item := answerVec[0];
                && |item.id| == 10
                && (forall i :: 0 <= i < 10 ==>
                      item.id[i] == if msg[3 + i] <= 9 then ('0' as int + msg[3 + i]) as char else 'F')
                && (item.answer == "yes" <==> msg[14] == 1)
                && (item.answer == "no" <==> msg[14] == 2)
                && (msg[14] != 1 && msg[14] != 2 ==> Spells(msg[14..18], 0, item.answer))
                && item.time == now && item.nindex == |old(listAnswer)|
                && (msg[13] < 128 ==> item.electricity == msg[13])
                && (msg[13] >= 128 ==> item.electricity + 256 == msg[13])
                && listAnswer == [AnswerRow(
                     index := item.nindex, id := item.id, answer := item.answer,
                     time := item.time, electricity := item.electricity)] + old(listAnswer)
    {
      IdShown(msg);
      var id := "";
      ghost var ids := msg[3..13];
      for i := 0 to 10
        invariant id == IdOf(ids[..i])
        invariant State() == old(State())
      {
        LoopCharIsIdChar(msg[3 + i]);
        IdSnoc(ids, i);
        id := id + [LoopChar(msg[3 + i])];
      }
      assert ids[..10] == ids;
      var text := ReadAnswer(msg[14..18]);
      r := InsertAnswer(AnswerItem(id, text, now, Signed(msg[13]), 0), shown);
    }

    method OnClear()
      modifies this
      ensures State() == NO_BOARD && answerVec == [] && listAnswer == []
    {
      listAnswer := [];
      answerVec := [];
    }
  }
}
