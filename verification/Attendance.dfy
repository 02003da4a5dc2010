/** The attendance table and the history it stands for. */
module Attendance {
  import opened Packets

  const UINT := 0x1_0000_0000

  datatype CheckItem = CheckItem(
    id: string, firstTime: nat, lastTime: nat, count: nat, errCount: nat, electricity: nat, nindex: nat)

  /** The columns of a displayed row, left to right. */
  datatype CheckRow = CheckRow(
    index: nat, id: string, firstTime: nat, lastTime: nat, electricity: nat, count: nat, errCount: nat)

  datatype Table = Table(entries: map<string, CheckItem>, rows: seq<CheckRow>)

  /** A packet handled at second `now`, `shown` unless the list refuses a new row; or the clear command. */
  datatype CheckEvent = Packet(p: CheckPacket, now: nat, shown: bool) | Clear

  /** An unsigned counter incremented. */
  function Inc(n: nat): nat {
    (n + 1) % UINT
  }

  function RowOf(item: CheckItem): CheckRow {
    CheckRow(item.nindex, item.id, item.firstTime, item.lastTime, item.electricity, item.count, item.errCount)
  }

  /** The rows after every column but the first two is rewritten from `item`. */
  function Refresh(rows: seq<CheckRow>, item: CheckItem): (r: seq<CheckRow>)
    ensures |r| == |rows|
  {
    if item.nindex < |rows| then
      rows[item.nindex := RowOf(item).(index := rows[item.nindex].index, id := rows[item.nindex].id)]
    else rows
  }

  function NewItem(p: CheckPacket, nindex: nat): CheckItem {
    CheckItem(p.id, 0, 0, if p.sound then 1 else 0, if p.sound then 0 else 1, p.charge, nindex)
  }

  function Repeated(c: CheckItem, sound: bool, now: nat): CheckItem {
    c.(firstTime := if c.firstTime == 0 then now else c.firstTime,
       lastTime := if c.firstTime == 0 then c.lastTime else now,
       count := if sound then Inc(c.count) else c.count,
       errCount := if sound then c.errCount else Inc(c.errCount))
  }

  function Receive(t: Table, p: CheckPacket, now: nat, shown: bool): Table {
    if p.id in t.entries then
      if now == t.entries[p.id].lastTime then t
      else
        var c := Repeated(t.entries[p.id], p.sound, now);
        Table(t.entries[p.id := c], Refresh(t.rows, c))
    else if !shown then t
    else
      var item := NewItem(p, |t.rows|);
      Table(t.entries[p.id := item], t.rows + [RowOf(item)])
  }

  const NO_TABLE := Table(map[], [])

  function Step(t: Table, e: CheckEvent): Table {
    match e
    case Packet(p, now, shown) => Receive(t, p, now, shown)
    case Clear => NO_TABLE
  }

  function Run(events: seq<CheckEvent>): Table {
    if events == [] then NO_TABLE else Step(Run(events[..|events| - 1]), events[|events| - 1])
  }

  // ---- The history behind the table ----

  /** A packet that was accepted. */
  datatype Hit = Hit(time: nat, sound: bool, charge: nat)

  /** The accepted packets of every card since the last clear, and the cards in order of appearance. */
  datatype History = History(order: seq<string>, hits: map<string, seq<Hit>>)

  /** The second accepted packet's time counts as the first. */
  function FirstTime(h: seq<Hit>): nat {
    if |h| <= 1 then 0 else h[1].time
  }

  /** From the third accepted packet on, the latest packet's time. */
  function LastTime(h: seq<Hit>): nat {
    if |h| <= 2 then 0 else h[|h| - 1].time
  }

  function Tally(h: seq<Hit>, sound: bool): (n: nat)
    ensures n <= |h|
  {
    if h == [] then 0
    else Tally(h[..|h| - 1], sound) + if h[|h| - 1].sound == sound then 1 else 0
  }

  /** A packet of a known card is accepted unless it arrives in the second that is recorded as the last. */
  function Remember(l: History, e: CheckEvent): History {
    match e
    case Clear => History([], map[])
    case Packet(p, now, shown) =>
      var hit := Hit(now, p.sound, p.charge);
      if p.id in l.hits then
        if now == LastTime(l.hits[p.id]) then l
        else l.(hits := l.hits[p.id := l.hits[p.id] + [hit]])
      else if shown then History(l.order + [p.id], l.hits[p.id := [hit]])
      else l
  }

  function Past(events: seq<CheckEvent>): History {
    if events == [] then History([], map[]) else Remember(Past(events[..|events| - 1]), events[|events| - 1])
  }

  /** The entry that a card's accepted packets amount to. */
  function Summary(id: string, h: seq<Hit>, nindex: nat): CheckItem
    requires h != []
  {
    CheckItem(id, FirstTime(h), LastTime(h), Tally(h, true) % UINT, Tally(h, false) % UINT, h[0].charge, nindex)
  }

  ghost predicate Distinct(ids: seq<string>) {
    forall i, j :: 0 <= i < j < |ids| ==> ids[i] != ids[j]
  }

  /** No card without packets, and the time recorded second is never the unset value. */
  ghost predicate Plausible(h: seq<Hit>) {
    h != [] && (|h| >= 2 ==> h[1].time != 0)
  }

  /** The table and its display show exactly the history. */
  ghost predicate Shows(t: Table, l: History) {
    && |t.rows| == |l.order| && Distinct(l.order)
    && (forall id :: id in t.entries <==> id in l.hits)
    && (forall id :: id in l.hits <==> id in l.order)
    && (forall id :: id in l.hits ==> Plausible(l.hits[id]))
    && (forall i :: 0 <= i < |l.order| ==> ShowsCard(t, l, i))
  }

  /** The `i`th card's entry summarises its packets and its row repeats the entry, column by column. */
  ghost predicate ShowsCard(t: Table, l: History, i: nat)
    requires i < |l.order| && i < |t.rows|
  {
    var id := l.order[i];
    && id in t.entries && id in l.hits && l.hits[id] != []
    && t.entries[id] == Summary(id, l.hits[id], i)
    && var c := t.entries[id];
       t.rows[i] == CheckRow(
         index := i, id := id, firstTime := c.firstTime, lastTime := c.lastTime,
         electricity := c.electricity, count := c.count, errCount := c.errCount)
  }

  lemma {:induction false} TallySnoc(h: seq<Hit>, hit: Hit, sound: bool)
    ensures Tally(h + [hit], sound) == Tally(h, sound) + if hit.sound == sound then 1 else 0
  {
    assert (h + [hit])[..|h|] == h;
  }

  lemma IncModulo(n: nat)
    ensures Inc(n % UINT) == (n + 1) % UINT
  {
  }

  lemma TimesSnoc(h: seq<Hit>, hit: Hit)
    requires Plausible(h) && hit.time != LastTime(h)
    ensures Plausible(h + [hit])
    ensures FirstTime(h + [hit]) == if FirstTime(h) == 0 then hit.time else FirstTime(h)
    ensures LastTime(h + [hit]) == if FirstTime(h) == 0 then LastTime(h) else hit.time
  {
  }

  /** Accepting another packet of a card changes its entry as the history demands. */
  lemma SummarySnoc(id: string, h: seq<Hit>, hit: Hit, nindex: nat)
    requires Plausible(h) && hit.time != LastTime(h)
    ensures Plausible(h + [hit])
    ensures Summary(id, h + [hit], nindex) == Repeated(Summary(id, h, nindex), hit.sound, hit.time)
  {
    TimesSnoc(h, hit);
    TallySnoc(h, hit, true);
    TallySnoc(h, hit, false);
    IncModulo(Tally(h, hit.sound));
    assert (h + [hit])[0] == h[0];
  }

  lemma ShowsRepeat(t: Table, l: History, p: CheckPacket, now: nat, shown: bool)
    requires Shows(t, l) && p.id in l.hits && now != LastTime(l.hits[p.id])
    ensures Shows(Receive(t, p, now, shown), Remember(l, Packet(p, now, shown)))
  {
    var k: nat :| k < |l.order| && l.order[k] == p.id;
    assert ShowsCard(t, l, k);
    SummarySnoc(p.id, l.hits[p.id], Hit(now, p.sound, p.charge), k);
    var t', l' := Receive(t, p, now, shown), Remember(l, Packet(p, now, shown));
    forall i: nat | i < |l'.order|
      ensures ShowsCard(t', l', i)
    {
      assert ShowsCard(t, l, i);
    }
  }

  lemma ShowsSame(t: Table, l: History, p: CheckPacket, now: nat, shown: bool)
    requires Shows(t, l) && p.id in l.hits && now == LastTime(l.hits[p.id])
    ensures Receive(t, p, now, shown) == t
  {
    var k: nat :| k < |l.order| && l.order[k] == p.id;
    assert ShowsCard(t, l, k);
  }

  lemma ShowsNew(t: Table, l: History, p: CheckPacket, now: nat)
    requires Shows(t, l) && p.id !in l.hits
    ensures Shows(Receive(t, p, now, true), Remember(l, Packet(p, now, true)))
  {
    var hit := Hit(now, p.sound, p.charge);
    TallySnoc([], hit, true);
    TallySnoc([], hit, false);
    assert [] + [hit] == [hit];
    var t', l' := Receive(t, p, now, true), Remember(l, Packet(p, now, true));
    forall i: nat | i < |l'.order|
      ensures ShowsCard(t', l', i)
    {
      if i < |l.order| {
        assert ShowsCard(t, l, i);
      }
    }
  }

  lemma {:induction false} ShowsStep(t: Table, l: History, e: CheckEvent)
    requires Shows(t, l)
    ensures Shows(Step(t, e), Remember(l, e))
  {
    if e.Packet? {
      if e.p.id in l.hits {
        if e.now == LastTime(l.hits[e.p.id]) {
          ShowsSame(t, l, e.p, e.now, e.shown);
        } else {
          ShowsRepeat(t, l, e.p, e.now, e.shown);
        }
      } else if e.shown {
        ShowsNew(t, l, e.p, e.now);
      }
    }
  }

  /** In every reachable state the table and its display show exactly the history of accepted packets. */
  lemma {:induction false} TableShowsHistory(events: seq<CheckEvent>)
    ensures Shows(Run(events), Past(events))
  {
    if events != [] {
      TableShowsHistory(events[..|events| - 1]);
      ShowsStep(Run(events[..|events| - 1]), Past(events[..|events| - 1]), events[|events| - 1]);
    }
  }
}
