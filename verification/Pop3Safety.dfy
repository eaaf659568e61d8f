/** What every POP3 session keeps, whatever the server sends. */
module Pop3Safety {
  import opened Bytes
  import opened Common
  import opened Pop3Receiver
  import opened Pop3Session

  // -------------------------------------------------------------------------
  // The vocabulary of the properties

  /** The positions of the UIDL entries whose uid is not in `rcv`, in order of arrival. */
  function NewEntries(mails: seq<MailInfo>, rcv: set<Uid>): seq<nat> {
    if mails == [] then []
    else
      var n := |mails| - 1;
      NewEntries(mails[..n], rcv) + (if mails[n].uid !in rcv then [n] else [])
  }

  /** The message numbers of the RETR commands, in order. */
  function RetrNumbers(sent: seq<Command>): seq<nat> {
    if sent == [] then []
    else
      var n := |sent| - 1;
      RetrNumbers(sent[..n]) + (if sent[n].Retr? then [sent[n].number] else [])
  }

  ghost predicate Deletes(sent: seq<Command>) {
    exists i :: 0 <= i < |sent| && sent[i].Dele?
  }

  ghost predicate Quits(sent: seq<Command>) {
    exists i :: 0 <= i < |sent| && sent[i].Quit?
  }

  /** Nothing but QUIT follows QUIT. */
  ghost predicate QuitIsLast(sent: seq<Command>) {
    forall i, j :: 0 <= i < j < |sent| && sent[i].Quit? ==> sent[j].Quit?
  }

  ghost predicate NoRetrAfterDele(sent: seq<Command>) {
    forall i, j :: 0 <= i < j < |sent| && sent[i].Dele? ==> !sent[j].Retr?
  }

  /** The message numbers of the first `r` new entries. */
  ghost predicate NumbersOf(numbers: seq<nat>, mails: seq<MailInfo>, entries: seq<nat>) {
    && |numbers| <= |entries|
    && forall i :: 0 <= i < |numbers| ==> entries[i] < |mails| && numbers[i] == mails[entries[i]].retr
  }

  /** The uid may be deleted: it was received before, was already in the trash, or has been retrieved. */
  ghost predicate Deletable(s: Session, uid: Uid, rcv: set<Uid>, trash: seq<Uid>) {
    uid in rcv || uid in trash || exists i :: 0 <= i < |s.retrieved| && s.retrieved[i].uid == uid
  }

  ghost predicate MayDelete(s: Session, number: nat, rcv: set<Uid>, trash: seq<Uid>) {
    exists k :: 0 <= k < |s.mails| && s.mails[k].retr == number && Deletable(s, s.mails[k].uid, rcv, trash)
  }

  /** The safety of a session that started with the given received and trash lists. */
  ghost predicate Safe(s: Session, rcv: set<Uid>, trash: seq<Uid>) {
    var entries := NewEntries(s.mails, rcv);
    && QuitIsLast(s.sent)
    && NoRetrAfterDele(s.sent)
    && NumbersOf(RetrNumbers(s.sent), s.mails, entries)
    && |s.retrieved| <= |entries|
    && (forall i :: 0 <= i < |s.retrieved| ==> entries[i] < |s.mails| && s.retrieved[i].uid == s.mails[entries[i]].uid)
    && (Deletes(s.sent) || Quits(s.sent) ==> |s.retrieved| == |RetrNumbers(s.sent)| == |entries|)
    && (Deletes(s.sent) ==> !s.leave)
    && (forall i :: 0 <= i < |s.sent| && s.sent[i].Dele? ==> MayDelete(s, s.sent[i].number, rcv, trash))
  }

  // -------------------------------------------------------------------------
  // The invariant

  predicate Early(state: State) {
    || state.WaitingForConnection? || state.WaitingForSTARTTLS? || state.WaitingForUserResponse?
    || state.WaitingForPassResponse? || state.WaitingForUidlResponse? || state.WaitingForUidlItems?
    || state.WaitingForListResponse?
  }

  /** The states in which the next command is chosen. */
  predicate Choosing(state: State) {
    state.WaitingForListItems? || state.WaitingForRetrData? || state.WaitingForDeleResponse?
  }

  /** The parts of the state that refer to each other. */
  ghost predicate Linked(s: Session, rcv: set<Uid>, trash: seq<Uid>) {
    var entries := NewEntries(s.mails, rcv);
    && s.WellFormed()
    && (forall u :: u in s.uidlIndex ==> s.mails[s.uidlIndex[u]].uid == u)
    && (forall u :: u in s.trashList ==> Deletable(s, u, rcv, trash))
    && |s.retrieved| <= |entries|
    && (s.state != Idle ==> s.retrIndex == entries[|s.retrieved|..])
  }

  /** Where the session stands in its retrievals. */
  ghost predicate InPhase(s: Session, rcv: set<Uid>) {
    var done, asked := |s.retrieved|, |RetrNumbers(s.sent)|;
    && (s.stopped <==> s.state == Idle)
    && (Early(s.state) || s.state == WaitingForListItems ==> done == asked == 0 && s.rcvList == rcv)
    && (Early(s.state) ==> !Deletes(s.sent) && !Quits(s.sent))
    && (s.state == WaitingForRetrResponse ==> asked == done + 1)
    && (s.state == WaitingForRetrData && !Quits(s.sent) ==> asked == done + 1)
    && (s.state == WaitingForDeleResponse ==> s.retrIndex == [] && asked == done)
    && (Quits(s.sent) ==> s.trashList == [])
  }

  ghost predicate Inv(s: Session, rcv: set<Uid>, trash: seq<Uid>) {
    Safe(s, rcv, trash) && Linked(s, rcv, trash) && InPhase(s, rcv)
  }

  lemma StartInv(leave: bool, starttls: bool, tlsWorks: bool, rcv: set<Uid>, trash: seq<Uid>)
    ensures Inv(Start(leave, starttls, tlsWorks, rcv, trash), rcv, trash)
  {
  }

  // -------------------------------------------------------------------------
  // Each step keeps it

  lemma SentOne(sent: seq<Command>, c: Command)
    ensures RetrNumbers(sent + [c]) == RetrNumbers(sent) + (if c.Retr? then [c.number] else [])
    ensures Deletes(sent + [c]) <==> Deletes(sent) || c.Dele?
    ensures Quits(sent + [c]) <==> Quits(sent) || c.Quit?
  {
    var more := sent + [c];
    assert more[..|sent|] == sent && more[|sent|] == c;
    if Deletes(sent) {
      var i :| 0 <= i < |sent| && sent[i].Dele?;
      assert more[i].Dele?;
    }
    if Quits(sent) {
      var i :| 0 <= i < |sent| && sent[i].Quit?;
      assert more[i].Quit?;
    }
  }

  lemma SentInOrder(sent: seq<Command>, c: Command)
    requires QuitIsLast(sent) && (Quits(sent) ==> c.Quit?)
    requires NoRetrAfterDele(sent) && (Deletes(sent) ==> !c.Retr?)
    ensures QuitIsLast(sent + [c]) && NoRetrAfterDele(sent + [c])
  {
  }

  /** The properties of a command under which sending it is safe. */
  ghost predicate MaySend(s: Session, c: Command, rcv: set<Uid>, trash: seq<Uid>) {
    var entries, asked := NewEntries(s.mails, rcv), |RetrNumbers(s.sent)|;
    && (Quits(s.sent) ==> c.Quit?)
    && (c.Dele? || c.Quit? ==> |s.retrieved| == asked == |entries|)
    && (c.Dele? ==> !s.leave && MayDelete(s, c.number, rcv, trash))
    && (c.Retr? ==> !Deletes(s.sent) && asked < |entries|)
    && (c.Retr? ==> entries[asked] < |s.mails| && c.number == s.mails[entries[asked]].retr)
  }

  lemma SendSafe(s: Session, c: Command, s': Session, rcv: set<Uid>, trash: seq<Uid>)
    requires Safe(s, rcv, trash) && MaySend(s, c, rcv, trash)
    requires s'.mails == s.mails && s'.retrieved == s.retrieved && s'.leave == s.leave && s'.sent == s.sent + [c]
    ensures Safe(s', rcv, trash)
  {
    SentOne(s.sent, c);
    SentInOrder(s.sent, c);
    forall i | 0 <= i < |s'.sent| && s'.sent[i].Dele?
      ensures MayDelete(s', s'.sent[i].number, rcv, trash)
    {
      assert MayDelete(s, s'.sent[i].number, rcv, trash);
      var k :| 0 <= k < |s.mails| && s.mails[k].retr == s'.sent[i].number && Deletable(s, s.mails[k].uid, rcv, trash);
      assert Deletable(s', s'.mails[k].uid, rcv, trash);
    }
  }

  /** Safety and the links between the parts speak of these fields only. */
  lemma SameLinks(s: Session, s': Session, rcv: set<Uid>, trash: seq<Uid>)
    requires Linked(s, rcv, trash)
    requires s'.mails == s.mails && s'.retrieved == s.retrieved && s'.uidlIndex == s.uidlIndex
    requires s'.listIndex == s.listIndex && s'.retrIndex == s.retrIndex
    requires forall u :: u in s'.trashList ==> u in s.trashList
    requires s'.state != Idle ==> s.state != Idle
    ensures Linked(s', rcv, trash)
  {
    forall u | u in s'.trashList ensures Deletable(s', u, rcv, trash) {
      assert Deletable(s, u, rcv, trash);
    }
  }

  lemma SameSafe(s: Session, s': Session, rcv: set<Uid>, trash: seq<Uid>)
    requires Safe(s, rcv, trash)
    requires s'.mails == s.mails && s'.retrieved == s.retrieved && s'.sent == s.sent && s'.leave == s.leave
    ensures Safe(s', rcv, trash)
  {
    forall i | 0 <= i < |s'.sent| && s'.sent[i].Dele?
      ensures MayDelete(s', s'.sent[i].number, rcv, trash)
    {
      var k :| 0 <= k < |s.mails| && s.mails[k].retr == s.sent[i].number && Deletable(s, s.mails[k].uid, rcv, trash);
      assert Deletable(s', s'.mails[k].uid, rcv, trash);
    }
  }

  /** A session about to choose its next command. */
  ghost predicate Ready(s: Session, rcv: set<Uid>, trash: seq<Uid>) {
    && Safe(s, rcv, trash) && Linked(s, rcv, trash)
    && !s.stopped && Choosing(s.state)
    && |RetrNumbers(s.sent)| == |s.retrieved|
    && (s.state == WaitingForListItems ==> |s.retrieved| == 0 && s.rcvList == rcv)
    && (s.state == WaitingForDeleResponse ==> s.retrIndex == [])
    && (Quits(s.sent) ==> s.trashList == [])
  }

  /** `s'` is `s` after sending `c` and dropping some of the trash. */
  ghost predicate Sends(s: Session, c: Command, s': Session) {
    && s'.sent == s.sent + [c] && s'.mails == s.mails && s'.retrieved == s.retrieved && s'.leave == s.leave
    && s'.uidlIndex == s.uidlIndex && s'.listIndex == s.listIndex && s'.retrIndex == s.retrIndex
    && s'.rcvList == s.rcvList && s'.stopped == s.stopped
    && (forall u :: u in s'.trashList ==> u in s.trashList)
    && match c
       case Retr(_) => s'.state == WaitingForRetrResponse
       case Dele(_) => s'.state == WaitingForDeleResponse
       case Quit => s'.state == s.state && s'.trashList == []
       case _ => false
  }

  lemma SendsInv(s: Session, c: Command, s': Session, rcv: set<Uid>, trash: seq<Uid>)
    requires Ready(s, rcv, trash) && MaySend(s, c, rcv, trash) && Sends(s, c, s')
    ensures Inv(s', rcv, trash)
  {
    assert Safe(s', rcv, trash) by { SendSafe(s, c, s', rcv, trash); }
    assert Linked(s', rcv, trash) by { SameLinks(s, s', rcv, trash); }
    SendsInPhase(s, c, s', rcv);
  }

  lemma SendsInPhase(s: Session, c: Command, s': Session, rcv: set<Uid>)
    requires Sends(s, c, s') && !s.stopped
    requires |RetrNumbers(s.sent)| == |s.retrieved|
    requires Choosing(s.state)
    requires s.state == WaitingForListItems ==> |s.retrieved| == 0 && s.rcvList == rcv
    requires !c.Retr? ==> s.retrIndex == []
    requires Quits(s.sent) ==> s.trashList == [] && c.Quit?
    ensures InPhase(s', rcv)
  {
    SentOne(s.sent, c);
    assert |RetrNumbers(s'.sent)| == |RetrNumbers(s.sent)| + (if c.Retr? then 1 else 0);
    assert Quits(s'.sent) ==> s'.trashList == [];
    if c.Quit? {
      assert s'.state == s.state;
    }
  }

  lemma MaySendDele(s: Session, uid: Uid, rcv: set<Uid>, trash: seq<Uid>)
    requires Ready(s, rcv, trash) && s.retrIndex == [] && !s.leave
    requires uid in s.trashList && uid in s.uidlIndex
    ensures MaySend(s, Dele(s.mails[s.uidlIndex[uid]].retr), rcv, trash)
  {
    var k := s.uidlIndex[uid];
    assert Deletable(s, s.mails[k].uid, rcv, trash);
    assert MayDelete(s, s.mails[k].retr, rcv, trash);
  }

  lemma ChooseInv(s: Session, rcv: set<Uid>, trash: seq<Uid>)
    requires Ready(s, rcv, trash)
    ensures Inv(RetrieveDeleteOrQuit(s), rcv, trash)
  {
    var s' := RetrieveDeleteOrQuit(s);
    if s.retrIndex != [] {
      assert s.retrIndex[0] == NewEntries(s.mails, rcv)[|s.retrieved|];
      SendsInv(s, Retr(s.mails[s.retrIndex[0]].retr), s', rcv, trash);
    } else {
      var found := NextTrash(s.trashList, s.uidlIndex).0;
      if !s.leave && found.Some? {
        MaySendDele(s, found.value, rcv, trash);
        SendsInv(s, Dele(s.mails[s.uidlIndex[found.value]].retr), s', rcv, trash);
      } else {
        SendsInv(s, Quit, s', rcv, trash);
      }
    }
  }

  // -------------------------------------------------------------------------
  // The individual handlers

  lemma StopInv(s: Session, rcv: set<Uid>, trash: seq<Uid>)
    requires Inv(s, rcv, trash)
    ensures Inv(Stop(s), rcv, trash)
  {
    if !s.stopped {
      SameSafe(s, Stop(s), rcv, trash);
      forall u | u in s.trashList ensures Deletable(Stop(s), u, rcv, trash) {
        assert Deletable(s, u, rcv, trash);
      }
    }
  }

  /** Sending a command that is neither RETR nor DELE nor QUIT, before the first list. */
  lemma EarlySendInv(s: Session, c: Command, s': Session, rcv: set<Uid>, trash: seq<Uid>)
    requires Inv(s, rcv, trash) && Early(s.state) && Early(s'.state)
    requires !c.Retr? && !c.Dele? && !c.Quit?
    requires s' == s.(sent := s.sent + [c], state := s'.state, starttls := s'.starttls)
    ensures Inv(s', rcv, trash)
  {
    SendSafe(s, c, s', rcv, trash);
    SameLinks(s, s', rcv, trash);
    SentOne(s.sent, c);
  }

  lemma EarlyMoveInv(s: Session, s': Session, rcv: set<Uid>, trash: seq<Uid>)
    requires Inv(s, rcv, trash) && Early(s.state)
    requires Early(s'.state) || s'.state == WaitingForListItems
    requires s' == s.(state := s'.state)
    ensures Inv(s', rcv, trash)
  {
    SameSafe(s, s', rcv, trash);
    SameLinks(s, s', rcv, trash);
  }

  /** The command that the next positive reply during the login brings out. */
  function LoginCommand(s: Session): Command {
    match s.state
    case WaitingForConnection => if s.starttls then Stls else User
    case WaitingForSTARTTLS => User
    case WaitingForUserResponse => Command.Pass
    case _ => Uidl
  }

  lemma LoginSends(s: Session)
    requires s.WellFormed() && Early(s.state)
    requires s.state != WaitingForUidlResponse && s.state != WaitingForListResponse && s.state != WaitingForUidlItems
    ensures
      var s' := OnLoginOk(s);
      s' == s.(sent := s.sent + [LoginCommand(s)], state := s'.state, starttls := s'.starttls) && Early(s'.state)
  {
  }

  lemma {:induction false} LoginOkInv(s: Session, rcv: set<Uid>, trash: seq<Uid>)
    requires Inv(s, rcv, trash) && Early(s.state)
    ensures Inv(OnLoginOk(s), rcv, trash)
  {
    if s.state == WaitingForUidlResponse || s.state == WaitingForListResponse {
      EarlyMoveInv(s, OnLoginOk(s), rcv, trash);
    } else if s.state != WaitingForUidlItems {
      LoginSends(s);
      EarlySendInv(s, LoginCommand(s), OnLoginOk(s), rcv, trash);
    }
  }

  lemma LoginInv(s: Session, ok: bool, rcv: set<Uid>, trash: seq<Uid>)
    requires Inv(s, rcv, trash) && (Early(s.state) || s.state == Idle)
    ensures Inv(OnLogin(s, ok), rcv, trash)
  {
    if s.state != Idle {
      if !ok || (s.state == WaitingForSTARTTLS && !s.tlsWorks) {
        StopInv(s, rcv, trash);
      } else {
        LoginOkInv(s, rcv, trash);
      }
    }
  }

  /** A UIDL entry is new exactly when its uid has not been received before. */
  lemma OneMoreEntry(mails: seq<MailInfo>, m: MailInfo, rcv: set<Uid>)
    ensures NewEntries(mails + [m], rcv) == NewEntries(mails, rcv) + (if m.uid !in rcv then [|mails|] else [])
  {
    assert (mails + [m])[..|mails|] == mails;
  }

  lemma UidlItemInv(s: Session, line: Line, rcv: set<Uid>, trash: seq<Uid>)
    requires Inv(s, rcv, trash) && s.state == WaitingForUidlItems
    ensures Inv(OnUidlItem(s, line), rcv, trash)
  {
    var s' := OnUidlItem(s, line);
    if line.Dotted() {
      EarlySendInv(s, List, s', rcv, trash);
    } else if line.item.None? {
      StopInv(s, rcv, trash);
    } else {
      var Item(number, uid, _) := line.item.value;
      EntryInv(s, s', MailInfo(uid, number, 0), rcv, trash);
    }
  }

  /** Taking in one more entry while nothing has been retrieved yet. */
  lemma EntryInv(s: Session, s': Session, m: MailInfo, rcv: set<Uid>, trash: seq<Uid>)
    requires Inv(s, rcv, trash) && s.state == WaitingForUidlItems
    requires s'.mails == s.mails + [m] && s'.WellFormed()
    requires s'.retrieved == s.retrieved && s'.sent == s.sent && s'.leave == s.leave
    requires s'.uidlIndex == s.uidlIndex[m.uid := |s.mails|]
    requires s'.retrIndex == s.retrIndex + (if m.uid !in rcv then [|s.mails|] else [])
    requires s'.state == s.state && s'.stopped == s.stopped && s'.rcvList == s.rcvList
    requires forall u :: u in s'.trashList ==> u in s.trashList || u in rcv
    ensures Inv(s', rcv, trash)
  {
    OneMoreEntry(s.mails, m, rcv);
    forall u | u in s'.trashList ensures Deletable(s', u, rcv, trash) {
      assert u in s.trashList ==> Deletable(s, u, rcv, trash);
    }
  }

  /** Setting a size changes neither uids nor numbers. */
  lemma {:induction false} SameEntries(mails: seq<MailInfo>, mails': seq<MailInfo>, rcv: set<Uid>)
    requires |mails'| == |mails|
    requires forall i :: 0 <= i < |mails| ==> mails'[i].uid == mails[i].uid
    ensures NewEntries(mails', rcv) == NewEntries(mails, rcv)
  {
    if mails != [] {
      SameEntries(mails[..|mails| - 1], mails'[..|mails| - 1], rcv);
    }
  }

  lemma ListItemInv(s: Session, line: Line, rcv: set<Uid>, trash: seq<Uid>)
    requires Inv(s, rcv, trash) && s.state == WaitingForListItems
    ensures Inv(OnListItem(s, line), rcv, trash)
  {
    if line.Dotted() {
      ChooseInv(s, rcv, trash);
    } else if line.item.None? {
      StopInv(s, rcv, trash);
    } else {
      SizeInv(s, OnListItem(s, line), rcv, trash);
    }
  }

  lemma SizeInv(s: Session, s': Session, rcv: set<Uid>, trash: seq<Uid>)
    requires Inv(s, rcv, trash)
    requires s' == s.(mails := s'.mails) && |s'.mails| == |s.mails|
    requires forall i :: 0 <= i < |s.mails| ==> s'.mails[i].uid == s.mails[i].uid && s'.mails[i].retr == s.mails[i].retr
    ensures Inv(s', rcv, trash)
  {
    SameEntries(s.mails, s'.mails, rcv);
    forall u | u in s'.trashList ensures Deletable(s', u, rcv, trash) {
      assert Deletable(s, u, rcv, trash);
    }
    forall i | 0 <= i < |s'.sent| && s'.sent[i].Dele?
      ensures MayDelete(s', s'.sent[i].number, rcv, trash)
    {
      var k :| 0 <= k < |s.mails| && s.mails[k].retr == s.sent[i].number && Deletable(s, s.mails[k].uid, rcv, trash);
      assert Deletable(s', s'.mails[k].uid, rcv, trash);
    }
  }

  lemma RetrResponseInv(s: Session, line: Line, rcv: set<Uid>, trash: seq<Uid>)
    requires Inv(s, rcv, trash) && s.state == WaitingForRetrResponse
    ensures Inv(OnRetrResponse(s, line), rcv, trash)
  {
    var s' := OnRetrResponse(s, line);
    if line.Ok() {
      SomethingAsked(s, rcv, trash);
      MoveToData(s, s', rcv, trash);
    } else {
      StopInv(s, rcv, trash);
    }
  }

  /** While a reply to RETR is awaited the queue is not empty. */
  lemma SomethingAsked(s: Session, rcv: set<Uid>, trash: seq<Uid>)
    requires Inv(s, rcv, trash) && s.state == WaitingForRetrResponse
    ensures s.retrIndex != []
  {
    assert |RetrNumbers(s.sent)| > |s.retrieved|;
  }

  lemma MoveToData(s: Session, s': Session, rcv: set<Uid>, trash: seq<Uid>)
    requires Inv(s, rcv, trash) && s.state == WaitingForRetrResponse && s'.state == WaitingForRetrData
    requires s' == s.(state := s'.state, receipt := s'.receipt, singleLine := s'.singleLine)
    ensures Inv(s', rcv, trash)
  {
    SameSafe(s, s', rcv, trash);
    SameLinks(s, s', rcv, trash);
  }

  /** The message being fetched is complete. */
  lemma CompleteInv(s: Session, carry: seq<Byte>, rcv: set<Uid>, trash: seq<Uid>)
    requires Inv(s, rcv, trash) && s.state == WaitingForRetrData && HasCurrent(s)
    ensures Inv(Complete(s, carry), rcv, trash)
  {
    var uid := s.mails[s.retrIndex[0]].uid;
    var s' := s.(trashList := if s.leave then s.trashList else MarkForDeletion(s.trashList, uid),
                 rcvList := if s.leave then RcvInsert(s.rcvList, uid) else s.rcvList,
                 retrieved := s.retrieved + [Retrieved(uid, s.receipt.buffer)],
                 retrIndex := s.retrIndex[1..],
                 receipt := Receipt([], carry, s.receipt.end));
    OneMoreRetrieved(s, s', uid, rcv, trash);
    ChooseInv(s', rcv, trash);
  }

  lemma OneMoreRetrieved(s: Session, s': Session, uid: Uid, rcv: set<Uid>, trash: seq<Uid>)
    requires Inv(s, rcv, trash) && s.state == WaitingForRetrData && s.retrIndex != []
    requires uid == s.mails[s.retrIndex[0]].uid
    requires s'.mails == s.mails && s'.sent == s.sent && s'.leave == s.leave && s'.state == s.state
    requires s'.uidlIndex == s.uidlIndex && s'.listIndex == s.listIndex && s'.stopped == s.stopped
    requires s'.retrIndex == s.retrIndex[1..]
    requires |s'.retrieved| == |s.retrieved| + 1 && s'.retrieved[..|s.retrieved|] == s.retrieved
    requires s'.retrieved[|s.retrieved|].uid == uid
    requires forall u :: u in s'.trashList ==> u in s.trashList || u == uid
    ensures Ready(s', rcv, trash)
  {
    var entries, done := NewEntries(s.mails, rcv), |s.retrieved|;
    assert s.retrIndex == entries[done..] && entries[done] == s.retrIndex[0];
    assert s'.retrIndex == entries[done + 1..];
    MoreDeletable(s, s', rcv, trash);
    assert Deletable(s', uid, rcv, trash);
  }

  lemma MoreDeletable(s: Session, s': Session, rcv: set<Uid>, trash: seq<Uid>)
    requires s'.mails == s.mails
    requires |s.retrieved| <= |s'.retrieved| && s'.retrieved[..|s.retrieved|] == s.retrieved
    ensures forall u :: Deletable(s, u, rcv, trash) ==> Deletable(s', u, rcv, trash)
    ensures forall n :: MayDelete(s, n, rcv, trash) ==> MayDelete(s', n, rcv, trash)
  {
    forall u | Deletable(s, u, rcv, trash) ensures Deletable(s', u, rcv, trash) {
      if u !in rcv && u !in trash {
        var i :| 0 <= i < |s.retrieved| && s.retrieved[i].uid == u;
        assert s'.retrieved[i] == s'.retrieved[..|s.retrieved|][i];
      }
    }
  }

  lemma RetrLineInv(s: Session, line: Line, rcv: set<Uid>, trash: seq<Uid>)
    requires Inv(s, rcv, trash) && s.state == WaitingForRetrData
    ensures Inv(OnRetrLine(s, line), rcv, trash)
  {
    if line.BareDot() && HasCurrent(s) {
      CompleteInv(s, s.receipt.carry, rcv, trash);
    } else {
      ReceiptInv(s, OnRetrLine(s, line), rcv, trash);
    }
  }

  lemma RetrBlockInv(s: Session, block: seq<Byte>, rcv: set<Uid>, trash: seq<Uid>)
    requires Inv(s, rcv, trash) && s.state == WaitingForRetrData
    ensures Inv(OnRetrBlock(s, block), rcv, trash)
  {
    var r := Feed(s.receipt, block);
    if r.end {
      var s' := s.(receipt := r.(end := false), singleLine := true);
      ReceiptInv(s, s', rcv, trash);
      if HasCurrent(s') { CompleteInv(s', [], rcv, trash); }
    } else {
      ReceiptInv(s, s.(receipt := r), rcv, trash);
    }
  }

  lemma ReceiptInv(s: Session, s': Session, rcv: set<Uid>, trash: seq<Uid>)
    requires Inv(s, rcv, trash)
    requires s' == s.(receipt := s'.receipt, singleLine := s'.singleLine)
    ensures Inv(s', rcv, trash)
  {
    SameSafe(s, s', rcv, trash);
    SameLinks(s, s', rcv, trash);
  }

  lemma DeleInv(s: Session, line: Line, rcv: set<Uid>, trash: seq<Uid>)
    requires Inv(s, rcv, trash) && s.state == WaitingForDeleResponse
    ensures Inv(OnLine(s, line), rcv, trash)
  {
    if line.Ok() {
      ChooseInv(s, rcv, trash);
    } else {
      StopInv(s, rcv, trash);
    }
  }

  lemma LineInv(s: Session, line: Line, rcv: set<Uid>, trash: seq<Uid>)
    requires Inv(s, rcv, trash)
    ensures Inv(OnLine(s, line), rcv, trash)
  {
    match s.state
    case WaitingForUidlItems => UidlItemInv(s, line, rcv, trash);
    case WaitingForListItems => ListItemInv(s, line, rcv, trash);
    case WaitingForRetrResponse => RetrResponseInv(s, line, rcv, trash);
    case WaitingForRetrData => RetrLineInv(s, line, rcv, trash);
    case WaitingForDeleResponse => DeleInv(s, line, rcv, trash);
    case _ => LoginInv(s, line.Ok(), rcv, trash);
  }

  lemma StepInv(s: Session, e: Event, rcv: set<Uid>, trash: seq<Uid>)
    requires Inv(s, rcv, trash)
    ensures Inv(Step(s, e), rcv, trash)
  {
    match e
    case Reply(line) => LineInv(s, line, rcv, trash);
    case Data(block) => if s.state == WaitingForRetrData { RetrBlockInv(s, block, rcv, trash); }
    case Stopped => StopInv(s, rcv, trash);
  }

  // -------------------------------------------------------------------------
  // The main result

  lemma {:induction false} RunInv(s: Session, events: seq<Event>, rcv: set<Uid>, trash: seq<Uid>)
    requires Inv(s, rcv, trash)
    ensures Inv(Run(s, events), rcv, trash)
    decreases |events|
  {
    if events != [] {
      StepInv(s, events[0], rcv, trash);
      RunInv(Step(s, events[0]), events[1..], rcv, trash);
    }
  }

  /** Every run of every session is safe, whatever the server sends and whenever it is stopped. */
  lemma EveryRunIsSafe(leave: bool, starttls: bool, tlsWorks: bool, rcv: set<Uid>, trash: seq<Uid>, events: seq<Event>)
    ensures Safe(Run(Start(leave, starttls, tlsWorks, rcv, trash), events), rcv, trash)
  {
    StartInv(leave, starttls, tlsWorks, rcv, trash);
    RunInv(Start(leave, starttls, tlsWorks, rcv, trash), events, rcv, trash);
  }
}
