/** From received bytes to the dialogs: the reader thread and the main window, in any interleaving. */
module EndToEnd {
  import opened Wire
  import opened Framing
  import opened Streams
  import opened Limits
  import opened Bounds
  import opened Session
  import opened Framer
  import A = Attendance
  import L = AttendanceLaws
  import B = Answers

  /** Bytes arrive; the main window takes one posted message; or the user clears a dialog. */
  datatype Event =
    | Arrive(chunk: seq<Byte>)
    | Deliver(now: nat, shown: bool, stale: seq<Byte>)
    | ClearTable
    | ClearBoard

  /**
   * `posts` are all messages posted so far, of which the first `taken` have been handled, as recorded
   * in `script`; `ok` says that no chunk was refused, `contained` that no copy left the buffer.
   */
  datatype System = System(
    buffer: seq<Byte>, posts: seq<Posting>, taken: nat, script: Script, ok: bool, contained: bool)

  ghost predicate Sane(s: System) {
    s.taken <= |s.posts| && forall i :: 0 <= i < |s.posts| ==> Announced(s.posts[i])
  }

  /**
   * The message as the main window gets it: bytes that had not been received when it was posted hold
   * whatever was in memory.  While copies stay inside the buffer that is all there is to it; a copy
   * that leaves it is taken to bring back some bytes or other.
   */
  function Message(p: Posting, stale: seq<Byte>): (msg: seq<Byte>)
    requires Announced(p)
    ensures |msg| == p.length && p.data <= msg && Readable(msg) && FrameLength(msg[2]) == |msg|
  {
    p.data + seq(p.length - |p.data|, i requires 0 <= i => if i < |stale| then stale[i] else 0)
  }

  const BOOT := System([], [], 0, [], true, true)

  function Tick(capacity: nat, s: System, e: Event): (r: System)
    requires Sane(s)
    ensures Sane(r)
  {
    match e
    case Arrive(chunk) =>
      var f := Feed(capacity, s.buffer, chunk);
      ScanAnnounced(s.buffer + chunk);
      s.(buffer := f.buffer, posts := s.posts + f.posts, ok := s.ok && f.ok,
         contained := s.contained && Contained(capacity, 0, f.posts))
    case Deliver(now, shown, stale) =>
      if s.taken == |s.posts| then s
      else s.(taken := s.taken + 1, script := s.script + [Handle(Message(s.posts[s.taken], stale), now, shown)])
    case ClearTable => s.(script := s.script + [ClearCheck])
    case ClearBoard => s.(script := s.script + [ClearAnswer])
  }

  function Operate(capacity: nat, events: seq<Event>): (r: System)
    ensures Sane(r)
  {
    if events == [] then BOOT else Tick(capacity, Operate(capacity, events[..|events| - 1]), events[|events| - 1])
  }

  /** The chunks that arrive. */
  function Chunks(events: seq<Event>): seq<seq<Byte>> {
    if events == [] then []
    else
      var before, e := Chunks(events[..|events| - 1]), events[|events| - 1];
      if e.Arrive? then before + [e.chunk] else before
  }

  /** The messages handled. */
  function Messages(s: Script): seq<seq<Byte>> {
    if s == [] then []
    else
      var before, e := Messages(s[..|s| - 1]), s[|s| - 1];
      if e.Handle? then before + [e.msg] else before
  }

  lemma FedSnoc(capacity: nat, chunks: seq<seq<Byte>>, c: seq<Byte>)
    ensures var f := FeedAll(capacity, [], chunks);
            FeedAll(capacity, [], chunks + [c]) == Then(f, Feed(capacity, f.buffer, c))
  {
    FeedAllSnoc(capacity, [], chunks + [c], |chunks|);
    assert (chunks + [c])[..|chunks|] == chunks && (chunks + [c])[..|chunks| + 1] == chunks + [c];
  }

  /** The framer's part of the system. */
  ghost predicate FedBy(s: System, f: Fed) {
    s.buffer == f.buffer && s.posts == f.posts && s.ok == f.ok
  }

  /** Taking messages does not disturb the framer. */
  lemma {:induction false} PostsAreFed(capacity: nat, events: seq<Event>)
    ensures FedBy(Operate(capacity, events), FeedAll(capacity, [], Chunks(events)))
    ensures Operate(capacity, events).contained <==> AllContained(capacity, [], Chunks(events))
  {
    if events != [] {
      var front, e := events[..|events| - 1], events[|events| - 1];
      PostsAreFed(capacity, front);
      if e.Arrive? {
        FedSnoc(capacity, Chunks(front), e.chunk);
        AllContainedSnoc(capacity, [], Chunks(front), e.chunk);
      }
    }
  }

  /** A message that was received in full is handled as it was sent. */
  ghost predicate HandledFrom(messages: seq<seq<Byte>>, posts: seq<Posting>) {
    && |messages| <= |posts|
    && forall i :: 0 <= i < |messages| ==> |messages[i]| == posts[i].length && posts[i].data <= messages[i]
  }

  ghost predicate InOrder(s: System) {
    |Messages(s.script)| == s.taken && HandledFrom(Messages(s.script), s.posts)
  }

  lemma MessagesSnoc(s: Script, e: UiEvent)
    requires Handleable(e)
    ensures Messages(s + [e]) == Messages(s) + if e.Handle? then [e.msg] else []
  {
    assert (s + [e])[..|s|] == s;
  }

  lemma InOrderTick(capacity: nat, s: System, e: Event)
    requires Sane(s) && InOrder(s)
    ensures InOrder(Tick(capacity, s, e))
  {
    match e
    case Arrive(_) =>
    case Deliver(now, shown, stale) =>
      if s.taken < |s.posts| {
        MessagesSnoc(s.script, Handle(Message(s.posts[s.taken], stale), now, shown));
      }
    case ClearTable => MessagesSnoc(s.script, ClearCheck);
    case ClearBoard => MessagesSnoc(s.script, ClearAnswer);
  }

  /** The messages handled are the first that were posted. */
  lemma {:induction false} MessagesInOrder(capacity: nat, events: seq<Event>)
    ensures InOrder(Operate(capacity, events))
  {
    if events != [] {
      MessagesInOrder(capacity, events[..|events| - 1]);
      InOrderTick(capacity, Operate(capacity, events[..|events| - 1]), events[|events| - 1]);
    }
  }

  /** Whatever bytes arrive, every message handled has the marker, a known tag and the length that belongs to it. */
  lemma {:induction false} EveryMessageAccepted(capacity: nat, events: seq<Event>, i: nat)
    requires i < |Messages(Operate(capacity, events).script)|
    ensures var msg := Messages(Operate(capacity, events).script)[i];
            && Readable(msg) && msg[0] == 0xf9
            && (|| (msg[2] == 2 && |msg| == 18)
                || (msg[2] == 5 && |msg| == 15)
                || (msg[2] == 7 && |msg| == 6)
                || (msg[2] in {1, 3, 4, 6} && |msg| == 3))
  {
    MessagesInOrder(capacity, events);
    assert Announced(Operate(capacity, events).posts[i]);
  }

  /**
   * End to end.  However a stream of frames is cut into fitting chunks, and however their arrival
   * interleaves with the handling of messages: nothing is refused, no copy leaves the buffer, the
   * incomplete tail stays buffered, and the messages handled are the first frames of the stream, in
   * order and unchanged, with the others still waiting in the queue.
   */
  lemma {:induction false} FramesReachTheWindow(capacity: nat, events: seq<Event>, fs: seq<Frame>, rest: seq<Byte>)
    requires Fitting(capacity, Chunks(events)) && IsPartial(rest)
    requires Flatten(Chunks(events)) == Serialize(fs) + rest
    ensures var s := Operate(capacity, events);
            && s.ok && s.contained && s.buffer == rest
            && s.taken <= |fs|
            && Messages(s.script) == fs[..s.taken]
            && s.posts[s.taken..] == Posts(fs[s.taken..])
  {
    PostsAreFed(capacity, events);
    ChunkIndependence(capacity, Chunks(events), fs, rest);
    PartialIffIncomplete(rest);
    assert [] + Flatten(Chunks(events)) == Flatten(Chunks(events));
    StreamContained(capacity, [], Chunks(events), fs, rest);
    MessagesInOrder(capacity, events);
    HandledWhole(Messages(Operate(capacity, events).script), fs);
  }

  /** Frames posted in full are handled unchanged. */
  lemma HandledWhole(messages: seq<seq<Byte>>, fs: seq<Frame>)
    requires HandledFrom(messages, Posts(fs))
    ensures |messages| <= |fs| && messages == fs[..|messages|]
    ensures Posts(fs)[|messages|..] == Posts(fs[|messages|..])
  {
    forall i | 0 <= i < |messages|
      ensures messages[i] == fs[i]
    {
      assert Posts(fs)[i] == Whole(fs[i]);
    }
  }

  // ---- What the window then shows ----

  /** The window's state and what it was told. */
  function Shown(capacity: nat, events: seq<Event>): Desk {
    Play(Operate(capacity, events).script)
  }

  /** What is asked of the window: to handle the next frame of the stream at a given time, or to clear. */
  datatype Command = Next(now: nat, shown: bool) | WipeTable | WipeBoard

  /** How many frames are complete among the first `n` bytes of a stream. */
  function Ready(fs: seq<Frame>, n: nat): (k: nat)
    ensures k <= |fs|
    decreases |fs|
  {
    if fs == [] || n < |fs[0]| then 0 else 1 + Ready(fs[1..], n - |fs[0]|)
  }

  function Nexts(commands: seq<Command>): nat {
    if commands == [] then 0
    else Nexts(commands[..|commands| - 1]) + if commands[|commands| - 1].Next? then 1 else 0
  }

  /**
   * The commands among the events, read off the stream and the events alone: a delivery counts if more
   * frames have arrived by then than have been handled.
   */
  function Commands(fs: seq<Frame>, events: seq<Event>): seq<Command> {
    if events == [] then []
    else
      var front, e := events[..|events| - 1], events[|events| - 1];
      var before := Commands(fs, front);
      match e
      case Arrive(_) => before
      case Deliver(now, shown, _) =>
        if Nexts(before) < Ready(fs, |Flatten(Chunks(front))|) then before + [Next(now, shown)] else before
      case ClearTable => before + [WipeTable]
      case ClearBoard => before + [WipeBoard]
  }

  /** The dispatcher folded over the frames, each with the time of its command, and over the clears between them. */
  function Enact(fs: seq<Frame>, commands: seq<Command>): Desk {
    if commands == [] then START
    else
      var before, c := commands[..|commands| - 1], commands[|commands| - 1];
      var d := Enact(fs, before);
      match c
      case Next(now, shown) =>
        if Nexts(before) < |fs| then Dispatch(d, Handle(fs[Nexts(before)], now, shown)) else d
      case WipeTable => Dispatch(d, ClearCheck)
      case WipeBoard => Dispatch(d, ClearAnswer)
  }

  lemma IncompleteShorter(b: seq<Byte>, f: Frame, w: seq<Byte>)
    requires Incomplete(b) && b <= f + w
    ensures |b| < |f|
  {
    assert |b| >= 3 ==> b[2] == (f + w)[2] == f[2];
  }

  /** Bytes that split into `j` frames and an incomplete part of the next hold `j` complete frames. */
  lemma {:induction false} ReadyIs(fs: seq<Frame>, j: nat, b: seq<Byte>, rest: seq<Byte>)
    requires j <= |fs| && Incomplete(b) && b <= Serialize(fs[j..]) + rest
    ensures Ready(fs, |Serialize(fs[..j])| + |b|) == j
    decreases j
  {
    if j > 0 {
      assert fs[..j][1..] == fs[1..][..j - 1] && fs[1..][j - 1..] == fs[j..];
      ReadyIs(fs[1..], j - 1, b, rest);
    } else if fs != [] {
      assert Serialize(fs[0..]) + rest == fs[0] + (Serialize(fs[1..]) + rest);
      IncompleteShorter(b, fs[0], Serialize(fs[1..]) + rest);
    }
  }

  lemma CutLengths(fs: seq<Frame>, rest: seq<Byte>, n: nat, j: nat, b: seq<Byte>)
    requires j <= |fs| && n <= |Serialize(fs) + rest|
    requires b + (Serialize(fs) + rest)[n..] == Serialize(fs[j..]) + rest
    ensures n == |Serialize(fs[..j])| + |b| && b <= Serialize(fs[j..]) + rest
  {
    SerializeSplit(fs, j);
    assert |b + (Serialize(fs) + rest)[n..]| == |b| + |Serialize(fs)| + |rest| - n;
  }

  /** When part of a stream has arrived, however cut, exactly its complete frames have been posted. */
  lemma PostsReady(capacity: nat, events: seq<Event>, fs: seq<Frame>, rest: seq<Byte>)
    requires Fitting(capacity, Chunks(events)) && Incomplete(rest)
    requires Flatten(Chunks(events)) <= Serialize(fs) + rest
    ensures Operate(capacity, events).posts == Posts(fs[..Ready(fs, |Flatten(Chunks(events))|)])
  {
    PostsAreFed(capacity, events);
    var n := |Flatten(Chunks(events))|;
    var j, b := BeforeEnd(capacity, Chunks(events), fs, rest);
    CutLengths(fs, rest, n, j, b);
    ReadyIs(fs, j, b, rest);
  }

  lemma FrontArrives(events: seq<Event>, capacity: nat, w: seq<Byte>)
    requires events != [] && Fitting(capacity, Chunks(events)) && Flatten(Chunks(events)) <= w
    ensures var front := events[..|events| - 1];
            Fitting(capacity, Chunks(front)) && Flatten(Chunks(front)) <= w
  {
    var front, e := events[..|events| - 1], events[|events| - 1];
    if e.Arrive? {
      FlattenAppend(Chunks(front), [e.chunk]);
      assert forall c :: c in Chunks(front) ==> c in Chunks(events);
    }
  }

  /** The system has done what the commands ask for. */
  ghost predicate Follows(s: System, fs: seq<Frame>, commands: seq<Command>) {
    s.taken == Nexts(commands) && Play(s.script) == Enact(fs, commands)
  }

  lemma EnactSnoc(fs: seq<Frame>, commands: seq<Command>, c: Command)
    ensures Nexts(commands + [c]) == Nexts(commands) + if c.Next? then 1 else 0
    ensures Enact(fs, commands + [c]) ==
            var d := Enact(fs, commands);
            if c.WipeTable? then Dispatch(d, ClearCheck)
            else if c.WipeBoard? then Dispatch(d, ClearAnswer)
            else if Nexts(commands) < |fs| then Dispatch(d, Handle(fs[Nexts(commands)], c.now, c.shown))
            else d
  {
    assert (commands + [c])[..|commands|] == commands;
  }

  lemma FollowsDeliver(capacity: nat, s: System, fs: seq<Frame>, k: nat, commands: seq<Command>, e: Event)
    requires e.Deliver? && Sane(s) && k <= |fs| && s.posts == Posts(fs[..k]) && Follows(s, fs, commands)
    ensures Follows(Tick(capacity, s, e), fs,
                    if Nexts(commands) < k then commands + [Next(e.now, e.shown)] else commands)
  {
    if s.taken < k {
      assert s.posts[s.taken] == Whole(fs[s.taken]);
      var msg := Message(s.posts[s.taken], e.stale);
      assert msg == fs[s.taken];
      PlaySnoc(s.script, Handle(msg, e.now, e.shown));
      EnactSnoc(fs, commands, Next(e.now, e.shown));
    }
  }

  lemma FollowsClear(capacity: nat, s: System, fs: seq<Frame>, commands: seq<Command>)
    requires Sane(s) && Follows(s, fs, commands)
    ensures Follows(Tick(capacity, s, ClearTable), fs, commands + [WipeTable])
    ensures Follows(Tick(capacity, s, ClearBoard), fs, commands + [WipeBoard])
  {
    PlaySnoc(s.script, ClearCheck);
    PlaySnoc(s.script, ClearAnswer);
    EnactSnoc(fs, commands, WipeTable);
    EnactSnoc(fs, commands, WipeBoard);
  }

  /**
   * End to end.  While a stream of frames arrives, however it is cut into fitting chunks and however
   * its arrival interleaves with the handling of messages, the window is in the state to which the
   * dispatcher comes on the frames themselves, each at the time at which it was asked for, and on the
   * clears between them.
   */
  lemma {:induction false} WindowFollowsStream(capacity: nat, events: seq<Event>, fs: seq<Frame>, rest: seq<Byte>)
    requires Fitting(capacity, Chunks(events)) && Incomplete(rest)
    requires Flatten(Chunks(events)) <= Serialize(fs) + rest
    ensures Follows(Operate(capacity, events), fs, Commands(fs, events))
    ensures Shown(capacity, events) == Enact(fs, Commands(fs, events))
    decreases |events|
  {
    if events != [] {
      var front, e := events[..|events| - 1], events[|events| - 1];
      FrontArrives(events, capacity, Serialize(fs) + rest);
      WindowFollowsStream(capacity, front, fs, rest);
      var s, commands := Operate(capacity, front), Commands(fs, front);
      match e
      case Arrive(_) =>
      case Deliver(_, _, _) =>
        PostsReady(capacity, front, fs, rest);
        FollowsDeliver(capacity, s, fs, Ready(fs, |Flatten(Chunks(front))|), commands, e);
      case ClearTable => FollowsClear(capacity, s, fs, commands);
      case ClearBoard => FollowsClear(capacity, s, fs, commands);
    }
  }

  /** Two ways of delivering parts of one stream that ask for the same. */
  ghost predicate SameDelivery(capacity: nat, a: seq<Event>, b: seq<Event>, fs: seq<Frame>) {
    && Fitting(capacity, Chunks(a)) && Flatten(Chunks(a)) <= Serialize(fs)
    && Fitting(capacity, Chunks(b)) && Flatten(Chunks(b)) <= Serialize(fs)
    && Commands(fs, a) == Commands(fs, b)
  }

  /** They end in the same state. */
  lemma {:induction false} DeliveryIrrelevant(capacity: nat, a: seq<Event>, b: seq<Event>, fs: seq<Frame>)
    ensures SameDelivery(capacity, a, b, fs) ==> Shown(capacity, a) == Shown(capacity, b)
  {
    if SameDelivery(capacity, a, b, fs) {
      assert Serialize(fs) + [] == Serialize(fs);
      WindowFollowsStream(capacity, a, fs, []);
      WindowFollowsStream(capacity, b, fs, []);
    }
  }

  /**
   * In every reachable state, whatever bytes arrived and however the threads interleaved: the flags
   * follow the last message of their tags, the attendance table shows exactly the history of accepted
   * packets and its display repeats every card column by column, and the answer board shows the answers
   * kept.
   */
  lemma {:induction false} ReachableWindow(capacity: nat, events: seq<Event>)
    ensures var script := Operate(capacity, events).script;
            && (Shown(capacity, events).checking <==> LastIsOn(script, {4, 5}, {6}))
            && (Shown(capacity, events).answering <==> LastIsOn(script, {1, 2}, {3}))
            && A.Shows(Shown(capacity, events).check, A.Past(CheckEvents(script)))
            && (forall id :: id in Shown(capacity, events).check.entries ==>
                  var t, c := Shown(capacity, events).check, Shown(capacity, events).check.entries[id];
                  && c.id == id && c.nindex < |t.rows|
                  && t.rows[c.nindex] == A.CheckRow(
                       index := c.nindex, id := c.id, firstTime := c.firstTime, lastTime := c.lastTime,
                       electricity := c.electricity, count := c.count, errCount := c.errCount))
            && B.Shows(Shown(capacity, events).answer, B.Kept(AnswerEvents(script)))
  {
    var script := Operate(capacity, events).script;
    FlagsFollowLastMessage(script);
    CheckSeesItsMessages(script);
    A.TableShowsHistory(CheckEvents(script));
    L.RowIndexBijective(CheckEvents(script));
    AnswerSeesItsMessages(script);
    B.BoardShowsKept(AnswerEvents(script));
  }

  /** The rate bound on what the window shows, in every state reachable under a clock that does not run backwards. */
  lemma {:induction false} ReachableRateBound(capacity: nat, events: seq<Event>, id: string, now: nat)
    requires var s := Operate(capacity, events).script;
             ClockOk(s) && forall i :: 0 <= i < |s| && s[i].Handle? ==> s[i].now <= now
    requires var t := Shown(capacity, events).check; id in t.entries && t.entries[id].lastTime != 0
    ensures var c := Shown(capacity, events).check.entries[id];
            c.firstTime <= c.lastTime <= now && c.count + c.errCount <= c.lastTime - c.firstTime + 3
  {
    var s := Operate(capacity, events).script;
    CheckSeesItsMessages(s);
    CheckClockOk(s, now);
    L.RateBound(CheckEvents(s), id);
    L.EntryIsFoldOfHistory(CheckEvents(s), id);
    L.HistorySpaced(CheckEvents(s), id, now);
  }

  // ---- The real objects ----

  /** The objects are in the state of the system; the posted messages not yet taken are in the queue. */
  ghost predicate Embodies(b: MsgBuffer, w: MainWindow, s: System)
    reads b, b.buf, w, w.dlgCheck, w.dlgAnswer
  {
    && b.Valid() && Sane(s)
    && b.Buffered() == s.buffer
    && b.posted == s.posts[s.taken..] && b.contained == s.contained
    && w.State() == Play(s.script)
  }

  /** The program starts with a framer of 2048 bytes, an empty queue and an empty window. */
  method Boot() returns (b: MsgBuffer, w: MainWindow)
    ensures b.size == b.buf.Length == 2048 && b.len == 0 && b.posted == []
    ensures Embodies(b, w, BOOT)
    ensures fresh(b) && fresh(b.buf) && fresh(w) && fresh(w.dlgCheck) && fresh(w.dlgAnswer)
  {
    b := new MsgBuffer();
    w := new MainWindow();
  }

  method HandleArrival(b: MsgBuffer, w: MainWindow, chunk: seq<Byte>, ghost s: System)
    requires Embodies(b, w, s)
    modifies b, b.buf
    ensures Embodies(b, w, Tick(b.size, s, Arrive(chunk)))
  {
    var _ := b.AddInput(chunk);
    ghost var t := Tick(b.size, s, Arrive(chunk));
    assert t.posts[t.taken..] == s.posts[s.taken..] + Feed(b.size, s.buffer, chunk).posts;
  }

  method HandleDelivery(b: MsgBuffer, w: MainWindow, now: nat, shown: bool, stale: seq<Byte>, ghost s: System)
    requires Embodies(b, w, s)
    modifies b`posted, w, w.dlgCheck, w.dlgAnswer
    ensures Embodies(b, w, Tick(b.size, s, Deliver(now, shown, stale)))
  {
    if b.posted != [] {
      var p := b.posted[0];
      assert p == s.posts[s.taken];
      b.posted := b.posted[1..];
      w.OnUserThreadEnd(Message(p, stale), now, shown);
      PlaySnoc(s.script, Handle(Message(p, stale), now, shown));
    }
  }

  method HandleClearTable(b: MsgBuffer, w: MainWindow, ghost s: System)
    requires Embodies(b, w, s)
    modifies w.dlgCheck
    ensures Embodies(b, w, Tick(b.size, s, ClearTable))
    ensures w.dlgCheck.checkMap == map[] && w.dlgCheck.listCheck == []
  {
    w.dlgCheck.OnClear();
    PlaySnoc(s.script, ClearCheck);
  }

  method HandleClearBoard(b: MsgBuffer, w: MainWindow, ghost s: System)
    requires Embodies(b, w, s)
    modifies w.dlgAnswer
    ensures Embodies(b, w, Tick(b.size, s, ClearBoard))
    ensures w.dlgAnswer.answerVec == [] && w.dlgAnswer.listAnswer == []
  {
    w.dlgAnswer.OnClear();
    PlaySnoc(s.script, ClearAnswer);
  }

  method HandleEvent(b: MsgBuffer, w: MainWindow, e: Event, ghost s: System)
    requires Embodies(b, w, s)
    modifies b, b.buf, w, w.dlgCheck, w.dlgAnswer
    ensures Embodies(b, w, Tick(b.size, s, e))
  {
    match e {
      case Arrive(chunk) => HandleArrival(b, w, chunk, s);
      case Deliver(now, shown, stale) => HandleDelivery(b, w, now, shown, stale, s);
      case ClearTable => HandleClearTable(b, w, s);
      case ClearBoard => HandleClearBoard(b, w, s);
    }
  }

  lemma OperateSnoc(capacity: nat, events: seq<Event>, i: nat)
    requires i < |events|
    ensures Operate(capacity, events[..i + 1]) == Tick(capacity, Operate(capacity, events[..i]), events[i])
  {
    assert events[..i + 1][..i] == events[..i];
  }

  /** The framer and the window, driven by any events, behave as the system above. */
  method Run(b: MsgBuffer, w: MainWindow, events: seq<Event>)
    requires Embodies(b, w, BOOT)
    modifies b, b.buf, w, w.dlgCheck, w.dlgAnswer
    ensures Embodies(b, w, Operate(b.size, events))
  {
    var i := 0;
    ghost var s := BOOT;
    while i < |events|
      invariant 0 <= i <= |events|
      invariant s == Operate(b.size, events[..i])
      invariant Embodies(b, w, s)
    {
      OperateSnoc(b.size, events, i);
      HandleEvent(b, w, events[i], s);
      s := Tick(b.size, s, events[i]);
      i := i + 1;
    }
    assert events[..i] == events;
  }

  lemma PlaySnoc(s: Script, e: UiEvent)
    requires Handleable(e)
    ensures Play(s + [e]) == Dispatch(Play(s), e)
  {
    assert (s + [e])[..|s|] == s;
  }
}
