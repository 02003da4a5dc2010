/** The attendance dialog: a map of cards and a list control that displays it. */
module Checking {
  import opened Wire
  import opened Packets
  import opened Attendance

  class CheckDialog {
    var checkMap: map<string, CheckItem>
    var listCheck: seq<CheckRow>

    function State(): Table
      reads this
    {
      Table(checkMap, listCheck)
    }

    constructor ()
      ensures State() == NO_TABLE && checkMap == map[] && listCheck == []
    {
      checkMap := map[];
      listCheck := [];
    }

    /** Rewrites the columns of the item's row, except its index and id. */
    method UpdateCheck(item: CheckItem) returns (r: int)
      modifies this`listCheck
      ensures r == 0 && listCheck == Refresh(old(listCheck), item)
      ensures var i, was := item.nindex, old(listCheck);
              listCheck ==
              if i >= |was| then was
              else was[i := CheckRow(
                         index := was[i].index, id := was[i].id,
                         firstTime := item.firstTime, lastTime := item.lastTime, electricity := item.electricity,
                         count := item.count, errCount := item.errCount)]
    {
      var i := item.nindex;
      if i < |listCheck| {
        listCheck := listCheck[i := listCheck[i].(firstTime := item.firstTime)];
        listCheck := listCheck[i := listCheck[i].(lastTime := item.lastTime)];
        listCheck := listCheck[i := listCheck[i].(electricity := item.electricity)];
        listCheck := listCheck[i := listCheck[i].(count := item.count)];
        listCheck := listCheck[i := listCheck[i].(errCount := item.errCount)];
      }
      return 0;
    }

    /** Adds a row at the end, unless the list refuses it, and an entry that refers to it. */
    method InsertCheck(newItem: CheckItem, shown: bool) returns (r: int)
      modifies this
      ensures !shown ==> r == -1 && State() == old(State())
      ensures shown ==>
                var item := newItem.(nindex := |old(listCheck)|);
                r == 0 && State() == Table(old(checkMap)[item.id := item], old(listCheck) + [RowOf(item)])
      ensures shown ==>
                && checkMap == old(checkMap)[newItem.id := newItem.(nindex := |old(listCheck)|)]
                && listCheck == old(listCheck) + [CheckRow(
                     index := |old(listCheck)|, id := newItem.id,
                     firstTime := newItem.firstTime, lastTime := newItem.lastTime,
                     electricity := newItem.electricity, count := newItem.count, errCount := newItem.errCount)]
    {
      if !shown {
        return -1;
      }
      var n := |listCheck|;
      listCheck := listCheck + [CheckRow(0, "", 0, 0, 0, 0, 0)];
      var item := newItem.(nindex := n);
      listCheck := listCheck[n := listCheck[n].(index := item.nindex)];
      listCheck := listCheck[n := listCheck[n].(id := item.id)];
      checkMap := checkMap[item.id := item];
      r := UpdateCheck(item);
    }

    /** Counts an attendance packet that is handled at second `now`. */
    method ProcessMsgCheck(msg: seq<Byte>, now: nat, shown: bool) returns (r: int)
      requires |msg| >= 15
      modifies this
      ensures State() == Step(old(State()), Packet(CheckPacketOf(msg), now, shown))
      ensures r == if CheckPacketOf(msg).id in old(checkMap) || shown then 0 else -1
      ensures var p, was, n := CheckPacketOf(msg), old(checkMap), |old(listCheck)|;
              && (p.id !in was && shown ==>
                    && checkMap == was[p.id := CheckItem(
                         id := p.id, firstTime := 0, lastTime := 0, count := if p.sound then 1 else 0,
                         errCount := if p.sound then 0 else 1, electricity := p.charge, nindex := n)]
                    && listCheck == old(listCheck) + [CheckRow(
                         index := n, id := p.id, firstTime := 0, lastTime := 0, electricity := p.charge,
                         count := if p.sound then 1 else 0, errCount := if p.sound then 0 else 1)])
              && ((p.id !in was && !shown) || (p.id in was && now == was[p.id].lastTime) ==>
                    checkMap == was && listCheck == old(listCheck))
              && (p.id in was && now != was[p.id].lastTime ==>
                    && var a := was[p.id];
                    && checkMap == was[p.id := CheckItem(
                         id := a.id, firstTime := if a.firstTime == 0 then now else a.firstTime,
                         lastTime := if a.firstTime == 0 then a.lastTime else now,
                         count := if p.sound then (a.count + 1) % 0x1_0000_0000 else a.count,
                         errCount := if p.sound then a.errCount else (a.errCount + 1) % 0x1_0000_0000,
                         electricity := a.electricity, nindex := a.nindex)]
                    && var c, rows := checkMap[p.id], old(listCheck);
                       listCheck ==
                       if c.nindex >= n then rows
                       else rows[c.nindex := CheckRow(
                                   index := rows[c.nindex].index, id := rows[c.nindex].id,
                                   firstTime := c.firstTime, lastTime := c.lastTime,
                                   electricity := c.electricity, count := c.count, errCount := c.errCount)])
    {
      var p := ReadCheckPacket(msg);
      var item := CheckItem(p.id, 0, 0, 0, 0, p.charge, 0);
      if p.sound {
        item := item.(count := Inc(item.count));
      } else {
        item := item.(errCount := Inc(item.errCount));
      }
      if p.id in checkMap {
        var c := checkMap[p.id];
        if now == c.lastTime {
          return 0;
        }
        if c.firstTime == 0 {
          c := c.(firstTime := now);
        } else {
          c := c.(lastTime := now);
        }
        if p.sound {
          c := c.(count := Inc(c.count));
        } else {
          c := c.(errCount := Inc(c.errCount));
        }
        checkMap := checkMap[p.id := c];
        r := UpdateCheck(c);
      } else {
        r := InsertCheck(item, shown);
      }
    }

    method OnClear()
      modifies this
      ensures State() == NO_TABLE && checkMap == map[] && listCheck == []
    {
      listCheck := [];
      checkMap := map[];
    }
  }
}
