/** When a POP3 session sends QUIT more than once: sending it does not change the state. */
module Pop3Quit {
  import opened Bytes
  import opened Common
  import opened Pop3Receiver
  import opened Pop3Session
  import opened Pop3Safety
  import opened Pop3Honest

  function QuitCount(sent: seq<Command>): nat {
    if sent == [] then 0 else QuitCount(sent[..|sent| - 1]) + (if sent[|sent| - 1].Quit? then 1 else 0)
  }

  lemma CountPush(sent: seq<Command>, c: Command)
    ensures QuitCount(sent + [c]) == QuitCount(sent) + (if c.Quit? then 1 else 0)
  {
    assert (sent + [c])[..|sent|] == sent;
  }

  lemma {:induction false} CountsQuits(sent: seq<Command>)
    ensures QuitCount(sent) > 0 <==> Quits(sent)
    decreases |sent|
  {
    if sent != [] {
      var front := sent[..|sent| - 1];
      CountsQuits(front);
      assert sent == front + [sent[|sent| - 1]];
      if i :| 0 <= i < |front| && front[i].Quit? {
        assert sent[i].Quit?;
      }
    }
  }

  /**
   Another dot while sizes are listed, or another positive reply while a DELE is awaited: the
   state that QUIT left is the one in which it was chosen.
   */
  predicate Provokes(s: Session, e: Event) {
    && e.Reply?
    && ((s.state == WaitingForListItems && e.line.Dotted()) || (s.state == WaitingForDeleResponse && e.line.Ok()))
  }

  lemma AfterQuit(s: Session, rcv: set<Uid>, trash: seq<Uid>)
    requires Inv(s, rcv, trash) && Quits(s.sent)
    ensures s.trashList == [] && !Early(s.state) && s.state != WaitingForRetrResponse
    ensures s.state != Idle ==> s.retrIndex == []
  {
  }

  /** After QUIT a step sends nothing, or QUIT again exactly when it is provoked. */
  lemma {:induction false} StepAfterQuit(s: Session, e: Event, rcv: set<Uid>, trash: seq<Uid>)
    requires Inv(s, rcv, trash) && Quits(s.sent)
    ensures Step(s, e).sent == if Provokes(s, e) then s.sent + [Quit] else s.sent
  {
    AfterQuit(s, rcv, trash);
    match e
    case Reply(line) => LineAfterQuit(s, line);
    case Data(block) =>
    case Stopped =>
  }

  lemma {:induction false} LineAfterQuit(s: Session, line: Line)
    requires s.WellFormed() && s.trashList == [] && !Early(s.state) && s.state != WaitingForRetrResponse
    requires s.state != Idle ==> s.retrIndex == []
    ensures OnLine(s, line).sent == if Provokes(s, Reply(line)) then s.sent + [Quit] else s.sent
  {
    if s.state != Idle {
      ChoosesQuit(s);
    }
  }

  /** At most one command more. */
  predicate OneMore(before: seq<Command>, after: seq<Command>) {
    before <= after && |after| <= |before| + 1
  }

  lemma {:induction false} ChooseSendsOne(s: Session)
    requires s.WellFormed()
    ensures OneMore(s.sent, RetrieveDeleteOrQuit(s).sent)
  {
    var after := RetrieveDeleteOrQuit(s).sent;
    assert after == s.sent + [after[|s.sent|]];
    PushIsOneMore(s.sent, after[|s.sent|]);
  }

  lemma {:induction false} StepSendsOne(s: Session, e: Event)
    requires s.WellFormed()
    ensures OneMore(s.sent, Step(s, e).sent)
  {
    match e
    case Reply(line) => LineSendsOne(s, line);
    case Data(block) =>
      if s.state == WaitingForRetrData {
        BlockSendsOne(s, block);
      }
    case Stopped =>
  }

  lemma {:induction false} BlockSendsOne(s: Session, block: seq<Byte>)
    requires s.WellFormed()
    ensures OneMore(s.sent, OnRetrBlock(s, block).sent)
  {
    var receipt := Feed(s.receipt, block);
    var s' := s.(receipt := receipt.(end := false), singleLine := true);
    if receipt.end && HasCurrent(s') {
      CompleteSendsOne(s', []);
    }
  }

  lemma {:induction false} CompleteSendsOne(s: Session, carry: seq<Byte>)
    requires s.WellFormed() && HasCurrent(s)
    ensures OneMore(s.sent, Complete(s, carry).sent)
  {
    var uid := s.mails[s.retrIndex[0]].uid;
    ChooseSendsOne(
      s.(trashList := if s.leave then s.trashList else MarkForDeletion(s.trashList, uid),
         rcvList := if s.leave then RcvInsert(s.rcvList, uid) else s.rcvList,
         retrieved := s.retrieved + [Retrieved(uid, s.receipt.buffer)],
         retrIndex := s.retrIndex[1..],
         receipt := Receipt([], carry, s.receipt.end)));
  }

  lemma {:induction false} LineSendsOne(s: Session, line: Line)
    requires s.WellFormed()
    ensures OneMore(s.sent, OnLine(s, line).sent)
  {
    match s.state
    case WaitingForUidlItems => UidlSendsOne(s, line);
    case WaitingForListItems => ListSendsOne(s, line);
    case WaitingForRetrResponse => RetrSendsNothing(s, line);
    case WaitingForRetrData => RetrLineSendsOne(s, line);
    case WaitingForDeleResponse => DeleSendsOne(s, line);
    case _ => LoginSendsOne(s, line.Ok());
  }

  lemma {:induction false} DeleSendsOne(s: Session, line: Line)
    requires s.WellFormed() && s.state == WaitingForDeleResponse
    ensures OneMore(s.sent, OnLine(s, line).sent)
  {
    if line.Ok() {
      ChooseSendsOne(s);
    }
  }

  lemma {:induction false} UidlSendsOne(s: Session, line: Line)
    requires s.WellFormed()
    ensures OneMore(s.sent, OnUidlItem(s, line).sent)
  {
  }

  lemma {:induction false} ListSendsOne(s: Session, line: Line)
    requires s.WellFormed()
    ensures OneMore(s.sent, OnListItem(s, line).sent)
  {
    if line.Dotted() {
      ChooseSendsOne(s);
    }
  }

  lemma {:induction false} RetrSendsNothing(s: Session, line: Line)
    requires s.WellFormed()
    ensures OnRetrResponse(s, line).sent == s.sent
  {
  }

  lemma {:induction false} RetrLineSendsOne(s: Session, line: Line)
    requires s.WellFormed()
    ensures OneMore(s.sent, OnRetrLine(s, line).sent)
  {
    if line.BareDot() && HasCurrent(s) {
      CompleteSendsOne(s, s.receipt.carry);
    }
  }

  lemma {:induction false} LoginSendsOne(s: Session, ok: bool)
    requires s.WellFormed()
    ensures OneMore(s.sent, OnLogin(s, ok).sent)
  {
    LoginOkSendsOne(s);
  }

  lemma {:induction false} LoginOkSendsOne(s: Session)
    requires s.WellFormed()
    ensures OneMore(s.sent, OnLoginOk(s).sent)
  {
    if s.state == WaitingForConnection {
      PushIsOneMore(s.sent, if s.starttls then Stls else User);
    } else if s.state == WaitingForSTARTTLS {
      PushIsOneMore(s.sent, User);
    } else if s.state == WaitingForUserResponse {
      PushIsOneMore(s.sent, Command.Pass);
    } else if s.state == WaitingForPassResponse {
      PushIsOneMore(s.sent, Uidl);
    } else {
      assert OnLoginOk(s).sent == s.sent;
    }
  }

  lemma PushIsOneMore(sent: seq<Command>, c: Command)
    ensures OneMore(sent, sent + [c])
  {
  }

  /** The k-th event provokes another QUIT after the first. */
  ghost predicate ProvokedAt(s: Session, events: seq<Event>, k: nat)
    requires s.WellFormed() && k < |events|
  {
    var now := Run(s, events[..k]);
    Quits(now.sent) && Provokes(now, events[k])
  }

  lemma {:induction false} RunLast(s: Session, events: seq<Event>, e: Event)
    requires s.WellFormed()
    ensures Run(s, events + [e]) == Step(Run(s, events), e)
    decreases |events|
  {
    if events == [] {
      assert events + [e] == [e] && [e][1..] == [];
    } else {
      assert (events + [e])[1..] == events[1..] + [e];
      RunLast(Step(s, events[0]), events[1..], e);
    }
  }

  ghost predicate NeverProvoked(s: Session, events: seq<Event>)
    requires s.WellFormed()
  {
    forall k :: 0 <= k < |events| ==> !ProvokedAt(s, events, k)
  }

  lemma {:induction false} NeverProvokedLast(s: Session, events: seq<Event>, e: Event)
    requires s.WellFormed()
    ensures NeverProvoked(s, events + [e]) <==>
            NeverProvoked(s, events) && !(Quits(Run(s, events).sent) && Provokes(Run(s, events), e))
  {
    var all, n := events + [e], |events|;
    forall k | 0 <= k < n ensures ProvokedAt(s, all, k) <==> ProvokedAt(s, events, k) {
      assert all[..k] == events[..k];
    }
    assert all[..n] == events && all[n] == e;
    assert ProvokedAt(s, all, n) <==> Quits(Run(s, events).sent) && Provokes(Run(s, events), e);
  }

  lemma {:induction false} LastCounts(s: Session, e: Event, rcv: set<Uid>, trash: seq<Uid>)
    requires Inv(s, rcv, trash)
    ensures QuitCount(Step(s, e).sent) <= 1 <==> QuitCount(s.sent) <= 1 && !(Quits(s.sent) && Provokes(s, e))
  {
    StepSendsOne(s, e);
    if Quits(s.sent) {
      StepAfterQuit(s, e, rcv, trash);
    }
    StepCounts(s.sent, Step(s, e).sent, Quits(s.sent) && Provokes(s, e));
  }

  lemma {:induction false} LongerRun(s: Session, events: seq<Event>, e: Event, rcv: set<Uid>, trash: seq<Uid>)
    requires Inv(s, rcv, trash)
    requires QuitCount(Run(s, events).sent) <= 1 <==> NeverProvoked(s, events)
    ensures QuitCount(Run(s, events + [e]).sent) <= 1 <==> NeverProvoked(s, events + [e])
  {
    RunInv(s, events, rcv, trash);
    RunLast(s, events, e);
    LastCounts(Run(s, events), e, rcv, trash);
    NeverProvokedLast(s, events, e);
  }

  /** A session that has just been set up. */
  predicate IsStart(s: Session) {
    s == Start(s.leave, s.starttls, s.tlsWorks, s.rcvList, s.trashList)
  }

  lemma {:induction false} LongerSession(s: Session, events: seq<Event>, e: Event)
    requires IsStart(s) && (QuitCount(Run(s, events).sent) <= 1 <==> NeverProvoked(s, events))
    ensures QuitCount(Run(s, events + [e]).sent) <= 1 <==> NeverProvoked(s, events + [e])
  {
    StartInv(s.leave, s.starttls, s.tlsWorks, s.rcvList, s.trashList);
    LongerRun(s, events, e, s.rcvList, s.trashList);
  }

  /** In every session QUIT is sent at most once exactly when nothing provokes another one. */
  lemma {:induction false} QuitOnce(s: Session, events: seq<Event>)
    requires IsStart(s)
    ensures QuitCount(Run(s, events).sent) <= 1 <==> NeverProvoked(s, events)
    decreases |events|
  {
    if events != [] {
      var n := |events| - 1;
      assert events == events[..n] + [events[n]];
      QuitOnce(s, events[..n]);
      LongerSession(s, events[..n], events[n]);
    }
  }

  /** What one step does to the count, given what it sends. */
  lemma {:induction false} StepCounts(before: seq<Command>, after: seq<Command>, again: bool)
    requires OneMore(before, after) && (again ==> Quits(before))
    requires Quits(before) ==> after == if again then before + [Quit] else before
    ensures QuitCount(after) <= 1 <==> QuitCount(before) <= 1 && !again
  {
    CountsQuits(before);
    if Quits(before) {
      CountPush(before, Quit);
    } else {
      CountsOneMore(before, after);
    }
  }

  lemma {:induction false} CountsOneMore(before: seq<Command>, after: seq<Command>)
    requires OneMore(before, after)
    ensures QuitCount(before) <= QuitCount(after) <= QuitCount(before) + 1
  {
    if after != before {
      CountPush(before, after[|before|]);
      assert after == before + [after[|before|]];
    }
  }

  /** It happens: an empty mailbox, and a server that ends its list of sizes twice. */
  lemma SecondQuit(c: Setup)
    requires Proper(c)
    ensures Run(Begin(c), Opening(c, []) + [END_OF_LIST]).sent == Prologue(c) + [Quit, Quit]
  {
    var s1 := RetrieveDeleteOrQuit(Sized(c, [], 0));
    Open(c, []);
    RunLast(Begin(c), Opening(c, []), END_OF_LIST);
    FirstQuit(c, s1);
    QuitAgain(s1);
    Assoc(Prologue(c), [Quit], [Quit]);
    assert [Quit] + [Quit] == [Quit, Quit];
  }

  lemma {:induction false} FirstQuit(c: Setup, s1: Session)
    requires s1 == RetrieveDeleteOrQuit(Sized(c, [], 0))
    ensures s1.sent == Prologue(c) + [Quit] && s1.state == WaitingForListItems
    ensures s1.trashList == [] && s1.retrIndex == []
  {
    NothingKnown(Sized(c, [], 0).trashList);
  }

  lemma {:induction false} QuitAgain(s: Session)
    requires s.WellFormed() && s.state == WaitingForListItems && s.trashList == [] && s.retrIndex == []
    ensures Step(s, END_OF_LIST).sent == s.sent + [Quit]
  {
    ChoosesQuit(s);
  }

  lemma {:induction false} NothingKnown(trash: seq<Uid>)
    ensures NextTrash(trash, map[]) == (None, [])
    decreases |trash|
  {
    if trash != [] {
      NothingKnown(trash[1..]);
    }
  }

  lemma {:induction false} NoQuitIn(sent: seq<Command>)
    requires NoQuits(sent)
    ensures QuitCount(sent) == 0
    decreases |sent|
  {
    if sent != [] {
      NoQuitIn(sent[..|sent| - 1]);
    }
  }

  lemma {:induction false} CountTail(sent: seq<Command>, quits: seq<Command>)
    requires NoQuits(sent)
    requires quits == [Quit] || quits == [Quit, Quit]
    ensures QuitCount(sent + quits) == |quits|
  {
    NoQuitIn(sent);
    CountPush(sent, Quit);
    CountPush(sent + [Quit], Quit);
    assert sent + [Quit] + [Quit] == sent + [Quit, Quit];
  }

  ghost predicate NoQuits(sent: seq<Command>) {
    forall i :: 0 <= i < |sent| ==> !sent[i].Quit?
  }

  lemma {:induction false} FrontHasNoQuit(c: Setup, entries: seq<nat>)
    ensures NoQuits(Prologue(c) + RetrCommands(entries))
  {
    assert NoQuits(Hello(c)) && NoQuits([User, Command.Pass]) && NoQuits([Uidl]) && NoQuits([List]);
    NoQuitsConcat(Hello(c), [User, Command.Pass]);
    NoQuitsConcat(Hello(c) + [User, Command.Pass], [Uidl]);
    NoQuitsConcat(Hello(c) + [User, Command.Pass] + [Uidl], [List]);
    NoQuitsConcat(Prologue(c), RetrCommands(entries));
  }

  lemma NoQuitsConcat(a: seq<Command>, b: seq<Command>)
    requires NoQuits(a) && NoQuits(b)
    ensures NoQuits(a + b)
  {
  }

  lemma {:induction false} LeavingQuits(c: Setup, mails: seq<Mail>, bye: Line)
    requires Mailbox(mails) && Proper(c) && bye.Ok() && c.leave
    ensures QuitCount(Run(Begin(c), ServerSide(c, mails, bye)).sent) == 1
  {
    HonestSessionLeaving(c, mails, bye);
    FrontHasNoQuit(c, NewMails(mails, c.rcv));
    CountTail(Prologue(c) + RetrCommands(NewMails(mails, c.rcv)), [Quit]);
  }

  lemma {:induction false} DeletingQuits(c: Setup, mails: seq<Mail>, bye: Line)
    requires Mailbox(mails) && Proper(c) && bye.Ok() && !c.leave
    ensures QuitCount(Run(Begin(c), ServerSide(c, mails, bye)).sent) == |QuitCommands(mails)|
  {
    var front := Prologue(c) + RetrCommands(NewMails(mails, c.rcv));
    var deles := HonestSessionDeleting(c, mails, bye);
    FrontHasNoQuit(c, NewMails(mails, c.rcv));
    assert NoQuits(deles);
    NoQuitsConcat(front, deles);
    Assoc(front, deles, QuitCommands(mails));
    CountTail(front + deles, QuitCommands(mails));
  }

  /**
   A conforming server and undisturbed sessions: those that leave messages send QUIT once,
   those that do not send it twice as soon as there is a message.
   */
  lemma {:induction false} ConformingQuits(c: Setup, mails: seq<Mail>, bye: Line)
    requires Mailbox(mails) && Proper(c) && bye.Ok()
    ensures QuitCount(Run(Begin(c), ServerSide(c, mails, bye)).sent) == if c.leave || mails == [] then 1 else 2
  {
    if c.leave {
      LeavingQuits(c, mails, bye);
    } else {
      DeletingQuits(c, mails, bye);
    }
  }
}
