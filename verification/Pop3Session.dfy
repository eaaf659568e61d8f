/**
 One POP3 session (`POP3Client`): log in, list the unique ids, fetch every message that
 is not in the received list, delete what is in the trash list, quit.

 A session is a state machine driven by whatever the server sends, one line or one block
 at a time, and by the events that stop it. `Session` is its whole state together with
 two histories: the commands sent and the messages retrieved.
 */
module Pop3Session {
  import opened Bytes
  import opened Common
  import opened Pop3Receiver

  type Uid = string

  datatype State =
    | Idle
    | WaitingForConnection
    | WaitingForSTARTTLS
    | WaitingForUserResponse
    | WaitingForPassResponse
    | WaitingForListResponse
    | WaitingForListItems
    | WaitingForUidlResponse
    | WaitingForUidlItems
    | WaitingForRetrResponse
    | WaitingForRetrData
    | WaitingForDeleResponse

  datatype Command = Stls | User | Pass | List | Uidl | Retr(number: nat) | Dele(number: nat) | Quit

  datatype MailInfo = MailInfo(uid: Uid, retr: nat, size: nat)

  /** The two fields of a UIDL or LIST line; `size` is the second one read as a number. */
  datatype Item = Item(number: nat, word: Uid, size: nat)

  /** A line from the server. `item` is None when it does not have exactly two fields. */
  datatype Line = Line(text: seq<Byte>, item: Option<Item>) {
    predicate Ok() {
      |text| >= 3 && text[..3] == [43, 79, 75]  // +OK
    }

    predicate Dotted() {
      StartsWithDot(text)
    }

    /** A dot and line-end characters only. */
    predicate BareDot() {
      Dotted() && forall i :: 1 <= i < |text| ==> text[i] == CR || text[i] == LF
    }
  }

  datatype Event = Reply(line: Line) | Data(block: seq<Byte>) | Stopped

  datatype Retrieved = Retrieved(uid: Uid, text: seq<Byte>)

  /**
   `mails` lists the UIDL entries in order of arrival; `uidlIndex`, `listIndex` and
   `retrIndex` refer to it by position. `trashList` is kept in key order.
   */
  datatype Session = Session(
    leave: bool,
    tlsWorks: bool,
    state: State,
    starttls: bool,
    singleLine: bool,
    stopped: bool,
    mails: seq<MailInfo>,
    uidlIndex: map<Uid, nat>,
    listIndex: map<nat, nat>,
    retrIndex: seq<nat>,
    receipt: Receipt,
    rcvList: set<Uid>,
    trashList: seq<Uid>,
    sent: seq<Command>,
    retrieved: seq<Retrieved>)
  {
    /** Every position that the three indexes hold is one of `mails`. */
    ghost predicate WellFormed() {
      && (forall u :: u in uidlIndex ==> uidlIndex[u] < |mails|)
      && (forall n :: n in listIndex ==> listIndex[n] < |mails|)
      && (forall i :: 0 <= i < |retrIndex| ==> retrIndex[i] < |mails|)
    }
  }

  /** The session after `getMail`, with the uid lists as loaded from disk. */
  function Start(leave: bool, starttls: bool, tlsWorks: bool, rcv: set<Uid>, trash: seq<Uid>): (s: Session) {
    Session(leave, tlsWorks, WaitingForConnection, starttls, true, false,
            [], map[], map[], [], FRESH, rcv, trash, [], [])
  }

  // -------------------------------------------------------------------------
  // The uid jar

  predicate Before(a: Uid, b: Uid) {
    if b == "" then false
    else if a == "" then true
    else a[0] < b[0] || (a[0] == b[0] && Before(a[1..], b[1..]))
  }

  /** Insertion into a map that iterates in key order; an existing key is kept. */
  function Insert(keys: seq<Uid>, uid: Uid): (r: seq<Uid>)
    ensures forall u :: u in r <==> u in keys || u == uid
  {
    if keys == [] then [uid]
    else if keys[0] == uid then keys
    else if Before(uid, keys[0]) then [uid] + keys
    else
      var rest := Insert(keys[1..], uid);
      assert forall u :: u in keys <==> u == keys[0] || u in keys[1..];
      [keys[0]] + rest
  }

  ghost predicate InKeyOrder(keys: seq<Uid>) {
    forall i, j :: 0 <= i < j < |keys| ==> Before(keys[i], keys[j])
  }

  lemma {:induction false} BeforeDiffers(a: Uid, b: Uid)
    requires Before(a, b)
    ensures a != b
    decreases |a|
  {
    if a != "" && b != "" && a[0] == b[0] && Before(a[1..], b[1..]) {
      BeforeDiffers(a[1..], b[1..]);
    }
  }

  lemma {:induction false} BeforeTotal(a: Uid, b: Uid)
    requires a != b
    ensures Before(a, b) || Before(b, a)
    decreases |a|
  {
    if a != "" && b != "" && a[0] == b[0] {
      assert a == [a[0]] + a[1..] && b == [b[0]] + b[1..];
      BeforeTotal(a[1..], b[1..]);
    }
  }

  lemma {:induction false} BeforeTransitive(a: Uid, b: Uid, c: Uid)
    requires Before(a, b) && Before(b, c)
    ensures Before(a, c)
    decreases |a|
  {
    if a != "" && a[0] == b[0] == c[0] {
      BeforeTransitive(a[1..], b[1..], c[1..]);
    }
  }

  /** Insertion keeps the key order, so that no key occurs twice. */
  lemma {:induction false} InsertInOrder(keys: seq<Uid>, uid: Uid)
    requires InKeyOrder(keys)
    ensures InKeyOrder(Insert(keys, uid))
    decreases |keys|
  {
    if keys != [] && keys[0] != uid {
      if Before(uid, keys[0]) {
        forall j | 1 <= j < |keys| ensures Before(uid, keys[j]) {
          BeforeTransitive(uid, keys[0], keys[j]);
        }
      } else {
        InsertInOrder(keys[1..], uid);
        BeforeTotal(keys[0], uid);
        var rest := Insert(keys[1..], uid);
        forall j | 0 <= j < |rest| ensures Before(keys[0], rest[j]) {
          assert rest[j] in rest;
        }
      }
    }
  }

  function MarkForDeletion(trash: seq<Uid>, uid: Uid): seq<Uid> {
    if uid == "" then trash else Insert(trash, uid)
  }

  function RcvInsert(rcv: set<Uid>, uid: Uid): set<Uid> {
    if uid == "" then rcv else rcv + {uid}
  }

  /** Takes uids from the trash in key order until one is known to the server. */
  function NextTrash(trash: seq<Uid>, known: map<Uid, nat>): (r: (Option<Uid>, seq<Uid>))
    ensures r.0.Some? ==> r.0.value in trash && r.0.value in known
    ensures r.0.None? ==> r.1 == [] && forall u :: u in trash ==> u !in known
    ensures forall u :: u in r.1 ==> u in trash
    ensures forall u :: u in trash && u in known && Some(u) != r.0 ==> u in r.1
  {
    if trash == [] then (None, [])
    else if trash[0] in known then (Some(trash[0]), trash[1..])
    else NextTrash(trash[1..], known)
  }

  // -------------------------------------------------------------------------
  // The handlers, as functions on the session

  function Send(s: Session, c: Command, next: State): (r: Session)
    ensures s.WellFormed() ==> r.WellFormed()
  {
    s.(sent := s.sent + [c], state := next)
  }

  function Stop(s: Session): (r: Session)
    ensures s.WellFormed() ==> r.WellFormed()
  {
    if s.stopped then s
    else s.(stopped := true, retrIndex := [], listIndex := map[], uidlIndex := map[], state := Idle)
  }

  function RetrieveDeleteOrQuit(s0: Session): (r: Session)
    requires s0.WellFormed()
    ensures r.WellFormed()
  {
    var s := s0.(singleLine := true);
    if s.retrIndex != [] then
      Send(s, Retr(s.mails[s.retrIndex[0]].retr), WaitingForRetrResponse)
    else if s.leave then
      Send(s.(trashList := []), Quit, s.state)
    else
      var (found, rest) := NextTrash(s.trashList, s.uidlIndex);
      var s' := s.(trashList := rest);
      if found.Some? then Send(s', Dele(s.mails[s.uidlIndex[found.value]].retr), WaitingForDeleResponse)
      else Send(s', Quit, s.state)
  }

  function OnUidlItem(s: Session, line: Line): (r: Session)
    requires s.WellFormed()
    ensures r.WellFormed()
  {
    if line.Dotted() then Send(s, List, WaitingForListResponse)
    else if line.item.None? then Stop(s)
    else
      var Item(number, uid, _) := line.item.value;
      var k := |s.mails|;
      var s' := s.(mails := s.mails + [MailInfo(uid, number, 0)],
                   uidlIndex := s.uidlIndex[uid := k],
                   listIndex := s.listIndex[number := k]);
      if uid !in s.rcvList then s'.(retrIndex := s.retrIndex + [k])
      else if !s.leave then s'.(trashList := MarkForDeletion(s.trashList, uid))
      else s'
  }

  function OnListItem(s: Session, line: Line): (r: Session)
    requires s.WellFormed()
    ensures r.WellFormed()
  {
    if line.Dotted() then RetrieveDeleteOrQuit(s)
    else if line.item.None? then Stop(s)
    else
      var Item(number, _, size) := line.item.value;
      if number in s.listIndex then
        var k := s.listIndex[number];
        s.(mails := s.mails[k := s.mails[k].(size := size)])
      else s
  }

  function OnRetrResponse(s: Session, line: Line): (r: Session)
    requires s.WellFormed()
    ensures r.WellFormed()
  {
    if !line.Ok() then Stop(s)
    else if s.retrIndex == [] then Stop(s.(state := WaitingForRetrData))
    else if s.mails[s.retrIndex[0]].size != 0 then
      s.(state := WaitingForRetrData, receipt := s.receipt.(buffer := []), singleLine := false)
    else
      s.(state := WaitingForRetrData, singleLine := true)
  }

  /** The message being fetched can be recorded under its uid. */
  predicate HasCurrent(s: Session)
    requires s.WellFormed()
  {
    s.retrIndex != [] && s.mails[s.retrIndex[0]].uid != ""
  }

  /** The current message is complete: record its uid and go on. */
  function Complete(s: Session, carry: seq<Byte>): (r: Session)
    requires s.WellFormed() && HasCurrent(s)
    ensures r.WellFormed()
  {
    var uid := s.mails[s.retrIndex[0]].uid;
    RetrieveDeleteOrQuit(
      s.(trashList := if s.leave then s.trashList else MarkForDeletion(s.trashList, uid),
         rcvList := if s.leave then RcvInsert(s.rcvList, uid) else s.rcvList,
         retrieved := s.retrieved + [Retrieved(uid, s.receipt.buffer)],
         retrIndex := s.retrIndex[1..],
         receipt := Receipt([], carry, s.receipt.end)))
  }

  function OnRetrLine(s: Session, line: Line): (r: Session)
    requires s.WellFormed()
    ensures r.WellFormed()
  {
    if line.BareDot() then
      if HasCurrent(s) then Complete(s, s.receipt.carry) else s
    else
      var text := if line.Dotted() then line.text[1..] else line.text;
      s.(receipt := s.receipt.(buffer := s.receipt.buffer + text))
  }

  function OnRetrBlock(s0: Session, block: seq<Byte>): (r: Session)
    requires s0.WellFormed()
    ensures r.WellFormed()
  {
    var receipt := Feed(s0.receipt, block);
    if !receipt.end then s0.(receipt := receipt)
    else
      var s := s0.(receipt := receipt.(end := false), singleLine := true);
      if HasCurrent(s) then Complete(s, []) else s
  }

  /** The replies to the commands before the first list. */
  function OnLogin(s: Session, ok: bool): (r: Session)
    requires s.WellFormed()
    ensures r.WellFormed()
  {
    if s.state == Idle then s
    else if !ok || (s.state == WaitingForSTARTTLS && !s.tlsWorks) then Stop(s)
    else OnLoginOk(s)
  }

  function OnLoginOk(s: Session): (r: Session)
    requires s.WellFormed()
    ensures r.WellFormed()
  {
    match s.state
    case WaitingForConnection =>
      if s.starttls then Send(s, Stls, WaitingForSTARTTLS) else Send(s, User, WaitingForUserResponse)
    case WaitingForSTARTTLS => Send(s.(starttls := false), User, WaitingForUserResponse)
    case WaitingForUserResponse => Send(s, Command.Pass, WaitingForPassResponse)
    case WaitingForPassResponse => Send(s, Uidl, WaitingForUidlResponse)
    case WaitingForUidlResponse => s.(state := WaitingForUidlItems)
    case WaitingForListResponse => s.(state := WaitingForListItems)
    case _ => s
  }

  function OnLine(s: Session, line: Line): (r: Session)
    requires s.WellFormed()
    ensures r.WellFormed()
  {
    match s.state
    case WaitingForUidlItems => OnUidlItem(s, line)
    case WaitingForListItems => OnListItem(s, line)
    case WaitingForRetrResponse => OnRetrResponse(s, line)
    case WaitingForRetrData => OnRetrLine(s, line)
    case WaitingForDeleResponse =>
      if line.Ok() then RetrieveDeleteOrQuit(s) else Stop(s)
    case _ => OnLogin(s, line.Ok())
  }

  /** The result of the handler for a line: false stops the reading of further input. */
  predicate Accepts(s: Session, line: Line)
    requires s.WellFormed()
  {
    match s.state
    case Idle => true
    case WaitingForUidlItems => line.Dotted() || line.item.Some?
    case WaitingForListItems => line.Dotted() || line.item.Some?
    case WaitingForRetrResponse => line.Ok() && s.retrIndex != []
    case WaitingForRetrData => line.BareDot() ==> HasCurrent(s)
    case WaitingForSTARTTLS => line.Ok() && s.tlsWorks
    case _ => line.Ok()
  }

  function Step(s: Session, e: Event): (r: Session)
    requires s.WellFormed()
    ensures r.WellFormed()
  {
    match e
    case Reply(line) => OnLine(s, line)
    case Data(block) => if s.state == WaitingForRetrData then OnRetrBlock(s, block) else s
    case Stopped => Stop(s)
  }

  function Run(s: Session, events: seq<Event>): (r: Session)
    requires s.WellFormed()
    ensures r.WellFormed()
    decreases |events|
  {
    if events == [] then s else Run(Step(s, events[0]), events[1..])
  }

  /** A run in two parts. */
  lemma {:induction false} RunConcat(s: Session, a: seq<Event>, b: seq<Event>)
    requires s.WellFormed()
    ensures Run(s, a + b) == Run(Run(s, a), b)
    decreases |a|
  {
    if a == [] {
      assert a + b == b;
    } else {
      assert (a + b)[1..] == a[1..] + b;
      RunConcat(Step(s, a[0]), a[1..], b);
    }
  }
}
