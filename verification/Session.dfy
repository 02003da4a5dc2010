/** The main window: posted messages are dispatched to the two dialogs and switch the session flags. */
module Session {
  import opened Wire
  import opened Packets
  import A = Attendance
  import L = AttendanceLaws
  import B = Answers
  import C = Checking

  /** Whether answering and attendance checking are on, and what the two dialogs hold. */
  datatype Desk = Desk(answering: bool, checking: bool, check: A.Table, answer: B.Board)

  /**
   * A posted message handled at second `now` (`shown` says whether a list would take a new row), or
   * one of the clear commands of the dialogs.
   */
  datatype UiEvent = Handle(msg: seq<Byte>, now: nat, shown: bool) | ClearCheck | ClearAnswer

  const START := Desk(false, false, A.NO_TABLE, B.NO_BOARD)

  /** Long enough for the dispatcher and for every byte that the handler for its tag reads. */
  predicate Readable(msg: seq<Byte>) {
    |msg| >= 3 && (msg[2] == 2 ==> |msg| >= 18) && (msg[2] == 5 ==> |msg| >= 15) && (msg[2] == 7 ==> |msg| >= 6)
  }

  predicate Handleable(e: UiEvent) {
    e.Handle? ==> Readable(e.msg)
  }

  type Script = s: seq<UiEvent> | forall i :: 0 <= i < |s| ==> Handleable(s[i])

  function Dispatch(d: Desk, e: UiEvent): Desk
    requires Handleable(e)
  {
    match e
    case ClearCheck => d.(check := A.NO_TABLE)
    case ClearAnswer => d.(answer := B.NO_BOARD)
    case Handle(msg, now, shown) =>
      match msg[2]
      case 1 => d.(answering := true)
      case 2 => d.(answering := true, answer := B.Step(d.answer, B.AnswerOf(msg, now, shown)))
      case 3 => d.(answering := false)
      case 4 => d.(checking := true)
      case 5 => d.(checking := true, check := A.Step(d.check, A.Packet(CheckPacketOf(msg), now, shown)))
      case 6 => d.(checking := false)
      case _ => d
  }

  function Play(s: Script): Desk {
    if s == [] then START else Dispatch(Play(s[..|s| - 1]), s[|s| - 1])
  }

  // ---- What the flags and the dialogs depend on ----

  /** The event at `i` handles a message with one of the given tags. */
  predicate Tagged(s: Script, i: nat, tags: set<Byte>)
    requires i < |s|
  {
    s[i].Handle? && s[i].msg[2] in tags
  }

  /** The last message tagged with one of `on + off` exists and is tagged with one of `on`. */
  ghost predicate LastIsOn(s: Script, on: set<Byte>, off: set<Byte>) {
    exists i: nat :: i < |s| && Tagged(s, i, on) && forall j: nat :: i < j < |s| ==> !Tagged(s, j, off)
  }

  lemma LastIsOnSnoc(s: Script, e: UiEvent, on: set<Byte>, off: set<Byte>)
    requires Handleable(e) && on !! off
    ensures LastIsOn(s + [e], on, off) <==>
            (e.Handle? && e.msg[2] in on) || (LastIsOn(s, on, off) && !(e.Handle? && e.msg[2] in off))
  {
    var t: Script := s + [e];
    assert forall j: nat :: j < |s| ==> Tagged(t, j, on) == Tagged(s, j, on) && Tagged(t, j, off) == Tagged(s, j, off);
    if e.Handle? && e.msg[2] in on {
      assert Tagged(t, |s|, on);
    } else {
      assert !Tagged(t, |s|, on);
      if LastIsOn(s, on, off) && !(e.Handle? && e.msg[2] in off) {
        var i: nat :| i < |s| && Tagged(s, i, on) && forall j: nat :: i < j < |s| ==> !Tagged(s, j, off);
        assert Tagged(t, i, on);
        assert !Tagged(t, |s|, off);
      }
      if LastIsOn(t, on, off) {
        var i: nat :| i < |t| && Tagged(t, i, on) && forall j: nat :: i < j < |t| ==> !Tagged(t, j, off);
        assert i < |s| && Tagged(s, i, on);
        assert !Tagged(t, |s|, off);
      }
    }
  }

  /**
   * The flags are decided by the last message of their own tags: checking is on exactly when the last
   * of the messages 4, 5, 6 was a 4 or 5, answering exactly when the last of 1, 2, 3 was a 1 or 2.
   */
  lemma {:induction false} FlagsFollowLastMessage(s: Script)
    ensures Play(s).checking <==> LastIsOn(s, {4, 5}, {6})
    ensures Play(s).answering <==> LastIsOn(s, {1, 2}, {3})
  {
    if s != [] {
      var front, e := s[..|s| - 1], s[|s| - 1];
      FlagsFollowLastMessage(front);
      assert s == front + [e];
      LastIsOnSnoc(front, e, {4, 5}, {6});
      LastIsOnSnoc(front, e, {1, 2}, {3});
    }
  }

  /** What the attendance dialog sees of an event. */
  function CheckPart(e: UiEvent): seq<A.CheckEvent>
    requires Handleable(e)
  {
    if e.ClearCheck? then [A.Clear]
    else if e.Handle? && e.msg[2] == 5 then [A.Packet(CheckPacketOf(e.msg), e.now, e.shown)]
    else []
  }

  /** What the answer dialog sees of it. */
  function AnswerPart(e: UiEvent): seq<B.AnswerEvent>
    requires Handleable(e)
  {
    if e.ClearAnswer? then [B.ClearAnswers]
    else if e.Handle? && e.msg[2] == 2 then [B.AnswerOf(e.msg, e.now, e.shown)]
    else []
  }

  /** The events that reach the attendance dialog. */
  function CheckEvents(s: Script): seq<A.CheckEvent> {
    if s == [] then [] else CheckEvents(s[..|s| - 1]) + CheckPart(s[|s| - 1])
  }

  /** The events that reach the answer dialog. */
  function AnswerEvents(s: Script): seq<B.AnswerEvent> {
    if s == [] then [] else AnswerEvents(s[..|s| - 1]) + AnswerPart(s[|s| - 1])
  }

  lemma CheckRunSnoc(a: seq<A.CheckEvent>, e: A.CheckEvent)
    ensures A.Run(a + [e]) == A.Step(A.Run(a), e)
  {
    assert (a + [e])[..|a|] == a;
  }

  lemma AnswerRunSnoc(b: seq<B.AnswerEvent>, e: B.AnswerEvent)
    ensures B.Run(b + [e]) == B.Step(B.Run(b), e)
  {
    assert (b + [e])[..|b|] == b;
  }

  lemma DispatchParts(d: Desk, e: UiEvent)
    requires Handleable(e)
    ensures Dispatch(d, e).check == if CheckPart(e) == [] then d.check else A.Step(d.check, CheckPart(e)[0])
    ensures Dispatch(d, e).answer == if AnswerPart(e) == [] then d.answer else B.Step(d.answer, AnswerPart(e)[0])
  {
  }

  lemma CheckDispatch(d: Desk, a: seq<A.CheckEvent>, e: UiEvent)
    requires Handleable(e) && d.check == A.Run(a)
    ensures Dispatch(d, e).check == A.Run(a + CheckPart(e))
  {
    DispatchParts(d, e);
    if CheckPart(e) == [] {
      assert a + CheckPart(e) == a;
    } else {
      assert CheckPart(e) == [CheckPart(e)[0]];
      CheckRunSnoc(a, CheckPart(e)[0]);
    }
  }

  lemma AnswerDispatch(d: Desk, b: seq<B.AnswerEvent>, e: UiEvent)
    requires Handleable(e) && d.answer == B.Run(b)
    ensures Dispatch(d, e).answer == B.Run(b + AnswerPart(e))
  {
    DispatchParts(d, e);
    if AnswerPart(e) == [] {
      assert b + AnswerPart(e) == b;
    } else {
      assert AnswerPart(e) == [AnswerPart(e)[0]];
      AnswerRunSnoc(b, AnswerPart(e)[0]);
    }
  }

  /** The attendance dialog sees its own messages, in order, and is not affected by any others. */
  lemma {:induction false} CheckSeesItsMessages(s: Script)
    ensures Play(s).check == A.Run(CheckEvents(s))
  {
    if s != [] {
      var front := s[..|s| - 1];
      CheckSeesItsMessages(front);
      CheckDispatch(Play(front), CheckEvents(front), s[|s| - 1]);
    }
  }

  /** So does the answer dialog. */
  lemma {:induction false} AnswerSeesItsMessages(s: Script)
    ensures Play(s).answer == B.Run(AnswerEvents(s))
  {
    if s != [] {
      var front := s[..|s| - 1];
      AnswerSeesItsMessages(front);
      AnswerDispatch(Play(front), AnswerEvents(front), s[|s| - 1]);
    }
  }

  /** Messages are handled at positive times, none before an earlier one. */
  ghost predicate ClockOk(s: Script) {
    && (forall i :: 0 <= i < |s| && s[i].Handle? ==> s[i].now > 0)
    && (forall i, j :: 0 <= i < j < |s| && s[i].Handle? && s[j].Handle? ==> s[i].now <= s[j].now)
  }

  /** Then the attendance dialog's clock does not run backwards either. */
  lemma {:induction false} CheckClockOk(s: Script, now: nat)
    requires ClockOk(s) && forall i :: 0 <= i < |s| && s[i].Handle? ==> s[i].now <= now
    ensures L.ClockOk(CheckEvents(s))
    ensures forall e :: e in CheckEvents(s) && e.Packet? ==> e.now <= now
  {
    if s != [] {
      var front, e := s[..|s| - 1], s[|s| - 1];
      CheckClockOk(front, if e.Handle? then e.now else now);
    }
  }

  class MainWindow {
    var openAnswerEd: bool
    var checkOn: bool
    const dlgCheck: C.CheckDialog
    const dlgAnswer: B.AnswerDialog

    function State(): Desk
      reads this, dlgCheck, dlgAnswer
    {
      Desk(openAnswerEd, checkOn, dlgCheck.State(), dlgAnswer.State())
    }

    constructor ()
      ensures State() == START && fresh(dlgCheck) && fresh(dlgAnswer)
      ensures !openAnswerEd && !checkOn
      ensures dlgCheck.checkMap == map[] && dlgCheck.listCheck == []
      ensures dlgAnswer.answerVec == [] && dlgAnswer.listAnswer == []
    {
      openAnswerEd := false;
      checkOn := false;
      dlgCheck := new C.CheckDialog();
      dlgAnswer := new B.AnswerDialog();
    }

    method SetOpenAnswerEd(v: bool)
      modifies this`openAnswerEd
      ensures openAnswerEd == v
    {
      if v != openAnswerEd {
        openAnswerEd := v;
      }
    }

    method SetCheckOn(v: bool)
      modifies this`checkOn
      ensures checkOn == v
    {
      if v != checkOn {
        checkOn := v;
      }
    }

    /**
     * Dispatches a message on its tag: 0 when the tag is known, -1 otherwise.  Tags 1 to 3 concern
     * answering, of which 2 brings an answer; tags 4 to 6 concern checking, of which 5 brings a packet.
     */
    method GetMsgOne(msg: seq<Byte>, now: nat, shown: bool) returns (r: int)
      requires Readable(msg)
      modifies this, dlgCheck, dlgAnswer
      ensures State() == Dispatch(old(State()), Handle(msg, now, shown))
      ensures r == if 1 <= msg[2] <= 7 then 0 else -1
      ensures openAnswerEd == if msg[2] in {1, 2} then true else if msg[2] == 3 then false else old(openAnswerEd)
      ensures checkOn == if msg[2] in {4, 5} then true else if msg[2] == 6 then false else old(checkOn)
      ensures dlgAnswer.State() ==
              if msg[2] == 2 then B.Step(old(dlgAnswer.State()), B.AnswerOf(msg, now, shown))
              else old(dlgAnswer.State())
      ensures dlgCheck.State() ==
              if msg[2] == 5 then A.Step(old(dlgCheck.State()), A.Packet(CheckPacketOf(msg), now, shown))
              else old(dlgCheck.State())
    {
      var tag := msg[2];
      if tag == 2 {
        SetOpenAnswerEd(true);
        var _ := dlgAnswer.ProcessMsgAnswer(msg, now, shown);
        return 0;
      } else if tag == 5 {
        SetCheckOn(true);
        var _ := dlgCheck.ProcessMsgCheck(msg, now, shown);
        return 0;
      } else if tag == 4 || tag == 6 {
        SetCheckOn(tag == 4);
        return 0;
      } else if tag == 1 || tag == 3 {
        SetOpenAnswerEd(tag == 1);
        return 0;
      } else if tag == 7 {
        return 0;
      } else {
        return -1;
      }
    }

    /** A posted message arrives at the window. */
    method OnUserThreadEnd(msg: seq<Byte>, now: nat, shown: bool)
      requires Readable(msg)
      modifies this, dlgCheck, dlgAnswer
      ensures State() == Dispatch(old(State()), Handle(msg, now, shown))
    {
      var _ := GetMsgOne(msg, now, shown);
    }
  }
}
