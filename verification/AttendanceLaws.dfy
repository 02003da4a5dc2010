/** What follows for the attendance table in every reachable state. */
module AttendanceLaws {
  import opened Attendance

  // ---- Entries and rows ----

  /**
   * The row index is a bijection from the cards onto the rows, and every row repeats its card's entry,
   * column by column.
   */
  lemma {:induction false} RowIndexBijective(events: seq<CheckEvent>)
    ensures var t := Run(events);
            && (forall id :: id in t.entries ==>
                  var c := t.entries[id];
                  && c.id == id
                  && c.nindex < |t.rows|
                  && t.rows[c.nindex] == CheckRow(
                       index := c.nindex, id := c.id, firstTime := c.firstTime, lastTime := c.lastTime,
                       electricity := c.electricity, count := c.count, errCount := c.errCount))
            && (forall a, b :: a in t.entries && b in t.entries && a != b ==>
                  t.entries[a].nindex != t.entries[b].nindex)
            && (forall i :: 0 <= i < |t.rows| ==>
                  t.rows[i].index == i && t.rows[i].id in t.entries && t.entries[t.rows[i].id].nindex == i)
  {
    TableShowsHistory(events);
    var t, l := Run(events), Past(events);
    forall id | id in t.entries
      ensures var c := t.entries[id];
              && c.id == id && c.nindex < |t.rows|
              && t.rows[c.nindex] == CheckRow(
                   index := c.nindex, id := c.id, firstTime := c.firstTime, lastTime := c.lastTime,
                   electricity := c.electricity, count := c.count, errCount := c.errCount)
    {
      assert id in l.order;
      var k: nat :| k < |l.order| && l.order[k] == id;
      assert ShowsCard(t, l, k);
    }
    forall i: nat | i < |t.rows|
      ensures t.rows[i].index == i && t.rows[i].id in t.entries && t.entries[t.rows[i].id].nindex == i
    {
      assert ShowsCard(t, l, i);
    }
  }

  /** The places of the sound packets, or of the others. */
  ghost function Places(h: seq<Hit>, sound: bool): set<int> {
    set i | 0 <= i < |h| && h[i].sound == sound
  }

  lemma {:induction false} TallyCounts(h: seq<Hit>, sound: bool)
    ensures Tally(h, sound) == |Places(h, sound)|
  {
    if h != [] {
      var n := |h| - 1;
      TallyCounts(h[..n], sound);
      if h[n].sound == sound {
        assert Places(h, sound) == Places(h[..n], sound) + {n};
      } else {
        assert Places(h, sound) == Places(h[..n], sound);
      }
    }
  }

  /**
   * What a card's accepted packets make of its entry: the counters are the numbers of sound and of
   * other packets, in 32 bits; the first time is that of the second packet, the last time that of the
   * latest from the third on, and the battery level that of the first.
   */
  lemma {:induction false} EntryIsFoldOfHistory(events: seq<CheckEvent>, id: string)
    ensures id in Run(events).entries <==> id in Past(events).hits
    ensures id in Run(events).entries ==>
              var c, h := Run(events).entries[id], Past(events).hits[id];
              && h != []
              && c.count == |Places(h, true)| % 0x1_0000_0000
              && c.errCount == |Places(h, false)| % 0x1_0000_0000
              && c.firstTime == (if |h| >= 2 then h[1].time else 0)
              && c.lastTime == (if |h| >= 3 then h[|h| - 1].time else 0)
              && c.electricity == h[0].charge
  {
    TableShowsHistory(events);
    var t, l := Run(events), Past(events);
    if id in t.entries {
      assert id in l.order;
      var k: nat :| k < |l.order| && l.order[k] == id;
      assert ShowsCard(t, l, k);
      TallyCounts(l.hits[id], true);
      TallyCounts(l.hits[id], false);
    }
  }

  lemma {:induction false} TallyTotal(h: seq<Hit>)
    ensures Tally(h, true) + Tally(h, false) == |h|
  {
    if h != [] {
      TallyTotal(h[..|h| - 1]);
    }
  }

  // ---- A clock that does not run backwards ----

  /** Every packet is handled at a positive time, not before any earlier packet. */
  ghost predicate ClockOk(events: seq<CheckEvent>) {
    && (forall i :: 0 <= i < |events| && events[i].Packet? ==> events[i].now > 0)
    && (forall i, j :: 0 <= i < j < |events| && events[i].Packet? && events[j].Packet? ==>
          events[i].now <= events[j].now)
  }

  /** Accepted packets are in order of time, and from the third on no two share a second. */
  ghost predicate Spaced(h: seq<Hit>) {
    && (forall i :: 0 <= i < |h| ==> h[i].time > 0)
    && (forall i, j :: 0 <= i < j < |h| ==> h[i].time <= h[j].time)
    && (forall i, j :: 2 <= i < j < |h| ==> h[i].time + (j - i) <= h[j].time)
  }

  /** `now` is no earlier than any accepted packet. */
  ghost predicate NotBefore(now: nat, h: seq<Hit>) {
    forall i :: 0 <= i < |h| ==> h[i].time <= now
  }

  lemma SpacedSnoc(h: seq<Hit>, hit: Hit)
    requires Spaced(h) && NotBefore(hit.time, h) && hit.time > 0 && hit.time != LastTime(h)
    ensures Spaced(h + [hit])
  {
    var n := |h|;
    if n > 2 {
      assert h[n - 1].time < hit.time;
      forall i | 2 <= i < n
        ensures h[i].time + (n - i) <= hit.time
      {
        if i < n - 1 {
          assert h[i].time + (n - 1 - i) <= h[n - 1].time;
        }
      }
    }
  }

  lemma {:induction false} HistorySpaced(events: seq<CheckEvent>, id: string, now: nat)
    requires ClockOk(events) && id in Past(events).hits
    requires forall i :: 0 <= i < |events| && events[i].Packet? ==> events[i].now <= now
    ensures Spaced(Past(events).hits[id]) && NotBefore(now, Past(events).hits[id])
    decreases |events|
  {
    var n := |events| - 1;
    var e, l := events[n], Past(events[..n]);
    if id in l.hits {
      if e.Packet? {
        HistorySpaced(events[..n], id, e.now);
        if e.now != LastTime(l.hits[id]) {
          SpacedSnoc(l.hits[id], Hit(e.now, e.p.sound, e.p.charge));
        }
      }
    }
  }

  /** The unset value 0 marks exactly the cards with one packet, and with at most two. */
  lemma {:induction false} TimesUnsetIff(events: seq<CheckEvent>, id: string)
    requires ClockOk(events) && id in Run(events).entries
    ensures id in Past(events).hits
    ensures var c, n := Run(events).entries[id], |Past(events).hits[id]|;
            (c.firstTime == 0 <==> n == 1) && (c.lastTime == 0 <==> n <= 2)
  {
    EntryIsFoldOfHistory(events, id);
    HistorySpaced(events, id, Latest(events));
  }

  /** The time of the last packet, or 0. */
  ghost function Latest(events: seq<CheckEvent>): (now: nat)
    requires ClockOk(events)
    ensures forall i :: 0 <= i < |events| && events[i].Packet? ==> events[i].now <= now
  {
    if events == [] then 0
    else if events[|events| - 1].Packet? then events[|events| - 1].now
    else Latest(events[..|events| - 1])
  }

  /**
   * Rate bound: once a last time is recorded, a card has at most three packets plus one per second
   * between its first and last time; so its counters are exact as long as these span less than 2^32 - 3 seconds.
   */
  lemma {:induction false} RateBound(events: seq<CheckEvent>, id: string)
    requires ClockOk(events) && id in Run(events).entries && Run(events).entries[id].lastTime != 0
    ensures id in Past(events).hits
    ensures var c, n := Run(events).entries[id], |Past(events).hits[id]|;
            && c.firstTime <= c.lastTime
            && c.count + c.errCount <= n <= c.lastTime - c.firstTime + 3
            && (c.lastTime - c.firstTime + 3 < 0x1_0000_0000 ==> c.count + c.errCount == n)
  {
    EntryIsFoldOfHistory(events, id);
    HistorySpaced(events, id, Latest(events));
    var h := Past(events).hits[id];
    TallyTotal(h);
    TallyCounts(h, true);
    TallyCounts(h, false);
    TallyModulo(h, true);
    TallyModulo(h, false);
    assert h[1].time <= h[2].time;
    assert |h| > 3 ==> h[2].time + (|h| - 3) <= h[|h| - 1].time;
  }

  lemma TallyModulo(h: seq<Hit>, sound: bool)
    ensures Tally(h, sound) % UINT <= Tally(h, sound)
    ensures |h| < UINT ==> Tally(h, sound) % UINT == Tally(h, sound)
  {
  }

  // ---- Which packets are accepted ----

  /** The times of a card's packets since the last clear, from the first that got a row, accepted or not. */
  function Arrivals(events: seq<CheckEvent>, id: string): seq<nat> {
    if events == [] then []
    else
      var before, e := Arrivals(events[..|events| - 1], id), events[|events| - 1];
      match e
      case Clear => []
      case Packet(p, now, shown) =>
        if p.id != id || (before == [] && !shown) then before else before + [now]
  }

  function Seconds(times: seq<nat>): set<nat> {
    set t | t in times
  }

  /** How many of a card's packets are accepted: the first two, and one for every second of the others. */
  ghost predicate AcceptedAsExpected(times: seq<nat>, h: seq<Hit>) {
    && (times == [] <==> h == [])
    && |h| == (if |times| <= 2 then |times| else 2 + |Seconds(times[2..])|)
    && (|times| > 2 ==> h[|h| - 1].time in times[2..] && forall t :: t in times[2..] ==> t <= h[|h| - 1].time)
  }

  lemma AcceptedSnoc(times: seq<nat>, h: seq<Hit>, hit: Hit)
    requires AcceptedAsExpected(times, h) && h != [] && hit.time > 0
    requires |times| > 2 ==> h[|h| - 1].time <= hit.time
    ensures AcceptedAsExpected(times + [hit.time], if hit.time == LastTime(h) then h else h + [hit])
  {
    var more := times + [hit.time];
    if |times| >= 2 {
      assert more[2..] == times[2..] + [hit.time];
      assert Seconds(more[2..]) == Seconds(times[2..]) + {hit.time};
    }
    if |times| == 2 {
      assert times[2..] == [];
      assert Seconds(more[2..]) == {hit.time};
    }
    if |times| > 2 {
      assert h[|h| - 1].time in Seconds(times[2..]);
      assert Seconds(times[2..]) != {};
    }
  }

  lemma {:induction false} AcceptedTotal(events: seq<CheckEvent>, id: string)
    requires ClockOk(events)
    ensures var l := Past(events);
            AcceptedAsExpected(Arrivals(events, id), if id in l.hits then l.hits[id] else [])
    decreases |events|
  {
    if events != [] {
      var n := |events| - 1;
      var e, l := events[n], Past(events[..n]);
      AcceptedTotal(events[..n], id);
      if e.Packet? && e.p.id == id {
        var hit := Hit(e.now, e.p.sound, e.p.charge);
        if id in l.hits {
          HistorySpaced(events[..n], id, e.now);
          TableShowsHistory(events[..n]);
          AcceptedSnoc(Arrivals(events[..n], id), l.hits[id], hit);
        }
      }
    }
  }
}
