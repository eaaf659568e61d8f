/** The POP3 client object: its handlers update the fields in place as the session functions say. */
module Pop3Client {
  import opened Bytes
  import opened Common
  import opened Pop3Receiver
  import opened Pop3Session
  import opened Pop3Safety
  import opened Pop3Lines
  import opened Pop3Stream

  class Client {
    const leave: bool
    const tlsWorks: bool
    const receiver: Receiver
    var state: State
    var starttls: bool
    var singleLine: bool
    var stopped: bool
    var mails: seq<MailInfo>
    var uidlIndex: map<Uid, nat>
    var listIndex: map<nat, nat>
    var retrIndex: seq<nat>
    var rcvList: set<Uid>
    var trashList: seq<Uid>
    ghost var sent: seq<Command>
    ghost var retrieved: seq<Retrieved>

    ghost function View(): Session
      reads this, receiver
    {
      Session(leave, tlsWorks, state, starttls, singleLine, stopped, mails, uidlIndex, listIndex, retrIndex,
              receiver.View(), rcvList, trashList, sent, retrieved)
    }

    constructor (leave: bool, starttls: bool, tlsWorks: bool, rcv: set<Uid>, trash: seq<Uid>)
      ensures fresh(receiver)
      ensures View() == Start(leave, starttls, tlsWorks, rcv, trash)
    {
      this.leave, this.starttls, this.tlsWorks := leave, starttls, tlsWorks;
      receiver := new Receiver();
      state, singleLine, stopped := WaitingForConnection, true, false;
      mails, uidlIndex, listIndex, retrIndex := [], map[], map[], [];
      rcvList, trashList := rcv, trash;
      sent, retrieved := [], [];
    }

    method WriteLine(c: Command)
      modifies this`sent
      ensures sent == old(sent) + [c]
    {
      sent := sent + [c];
    }

    method Halt()
      requires View().WellFormed()
      modifies this
      ensures View() == Stop(old(View()))
    {
      if !stopped {
        stopped := true;
        retrIndex := [];
        listIndex := map[];
        uidlIndex := map[];
        state := Idle;
      }
    }

    /** Takes uids from the trash until one is known to the server. */
    method TakeTrash() returns (found: Option<Uid>)
      modifies this`trashList
      ensures (found, trashList) == NextTrash(old(trashList), uidlIndex)
    {
      while trashList != []
        invariant NextTrash(trashList, uidlIndex) == NextTrash(old(trashList), uidlIndex)
        decreases |trashList|
      {
        var uid := trashList[0];
        trashList := trashList[1..];
        if uid in uidlIndex {
          return Some(uid);
        }
      }
      return None;
    }

    method RetrieveDeleteOrQuit()
      requires View().WellFormed()
      modifies this
      ensures View() == Pop3Session.RetrieveDeleteOrQuit(old(View()))
    {
      var atEnd := true;
      singleLine := true;
      if retrIndex != [] {
        WriteLine(Retr(mails[retrIndex[0]].retr));
        state := WaitingForRetrResponse;
        atEnd := false;
      } else if trashList != [] {
        if !leave {
          var found := TakeTrash();
          if found.Some? {
            WriteLine(Dele(mails[uidlIndex[found.value]].retr));
            state := WaitingForDeleResponse;
            atEnd := false;
          }
        } else {
          trashList := [];
        }
      }
      if atEnd {
        WriteLine(Quit);
      }
    }

    method HandleUidlItem(line: Line) returns (ok: bool)
      requires View().WellFormed()
      modifies this
      ensures View() == OnUidlItem(old(View()), line) && ok == (line.Dotted() || line.item.Some?)
    {
      ok := true;
      if line.Dotted() {
        WriteLine(List);
        state := WaitingForListResponse;
      } else if line.item.None? {
        Halt();
        ok := false;
      } else {
        var Item(index, uid, _) := line.item.value;
        var k := |mails|;
        mails := mails + [MailInfo(uid, index, 0)];
        uidlIndex := uidlIndex[uid := k];
        listIndex := listIndex[index := k];
        if uid !in rcvList {
          retrIndex := retrIndex + [k];
        } else if !leave {
          trashList := MarkForDeletion(trashList, uid);
        }
      }
    }

    method HandleListItem(line: Line) returns (ok: bool)
      requires View().WellFormed()
      modifies this
      ensures View() == OnListItem(old(View()), line) && ok == (line.Dotted() || line.item.Some?)
    {
      ok := true;
      if line.Dotted() {
        RetrieveDeleteOrQuit();
      } else if line.item.None? {
        Halt();
        ok := false;
      } else {
        var Item(index, _, size) := line.item.value;
        if index in listIndex {
          var k := listIndex[index];
          mails := mails[k := mails[k].(size := size)];
        }
      }
    }

    method HandleRetrResponse(line: Line) returns (ok: bool)
      requires View().WellFormed()
      modifies this, receiver
      ensures View() == OnRetrResponse(old(View()), line) && ok == (line.Ok() && old(retrIndex) != [])
    {
      if !line.Ok() {
        Halt();
        return false;
      }
      ok, state := true, WaitingForRetrData;
      if retrIndex == [] {
        Halt();
        ok := false;
      } else if mails[retrIndex[0]].size != 0 {
        receiver.retrBuffer := [];
        singleLine := false;
      } else {
        singleLine := true;
      }
    }

    /** Records the uid of the message at the head of the queue and takes it off. */
    method FinishCurrent()
      requires View().WellFormed() && HasCurrent(View())
      modifies this, receiver`retrBuffer
      ensures View() == Complete(old(View()), old(receiver.retrBufferData))
    {
      var uid := mails[retrIndex[0]].uid;
      retrieved := retrieved + [Retrieved(uid, receiver.retrBuffer)];
      if !leave {
        trashList := MarkForDeletion(trashList, uid);
      } else {
        rcvList := RcvInsert(rcvList, uid);
      }
      retrIndex := retrIndex[1..];
      receiver.retrBuffer := [];
      RetrieveDeleteOrQuit();
    }

    method HandleRetrLine(line: Line) returns (ok: bool)
      requires View().WellFormed()
      modifies this, receiver
      ensures View() == OnRetrLine(old(View()), line) && ok == (line.BareDot() ==> HasCurrent(old(View())))
    {
      ok := true;
      if line.BareDot() {
        if retrIndex != [] && mails[retrIndex[0]].uid != "" {
          FinishCurrent();
        } else {
          ok := false;
        }
      } else if line.Dotted() {
        receiver.retrBuffer := receiver.retrBuffer + line.text[1..];
      } else {
        receiver.retrBuffer := receiver.retrBuffer + line.text;
      }
    }

    method HandleRetrBlock(block: seq<Byte>)
      requires View().WellFormed()
      modifies this, receiver
      ensures View() == OnRetrBlock(old(View()), block)
    {
      var _ := receiver.ToMail(block);
      if receiver.endOfMessage {
        receiver.endOfMessage := false;
        singleLine := true;
        if retrIndex != [] && mails[retrIndex[0]].uid != "" {
          receiver.retrBufferData := [];
          FinishCurrent();
        }
      }
    }

    /** The replies before the first list; in the idle state nothing is done. */
    method HandleLogin(positive: bool) returns (ok: bool)
      requires View().WellFormed()
      modifies this
      ensures View() == OnLogin(old(View()), positive)
      ensures ok == (old(state) == Idle || (positive && (old(state) == WaitingForSTARTTLS ==> tlsWorks)))
    {
      ok := true;
      if state == Idle {
        return;
      }
      if !positive || (state == WaitingForSTARTTLS && !tlsWorks) {
        Halt();
        return false;
      }
      match state
      case WaitingForConnection =>
        if starttls {
          WriteLine(Stls);
          state := WaitingForSTARTTLS;
        } else {
          WriteLine(User);
          state := WaitingForUserResponse;
        }
      case WaitingForSTARTTLS =>
        starttls := false;
        WriteLine(User);
        state := WaitingForUserResponse;
      case WaitingForUserResponse =>
        WriteLine(Command.Pass);
        state := WaitingForPassResponse;
      case WaitingForPassResponse =>
        WriteLine(Uidl);
        state := WaitingForUidlResponse;
      case WaitingForUidlResponse => state := WaitingForUidlItems;
      case WaitingForListResponse => state := WaitingForListItems;
      case _ =>
    }

    method HandleDeleResponse(line: Line) returns (ok: bool)
      requires View().WellFormed()
      modifies this
      ensures View() == if ok then Pop3Session.RetrieveDeleteOrQuit(old(View())) else Stop(old(View()))
      ensures ok == line.Ok()
    {
      ok := line.Ok();
      if ok {
        RetrieveDeleteOrQuit();
      } else {
        Halt();
      }
    }

    method ProcessLine(line: Line) returns (ok: bool)
      requires View().WellFormed()
      modifies this, receiver
      ensures View() == OnLine(old(View()), line) && ok == Accepts(old(View()), line)
    {
      match state
      case WaitingForUidlItems => ok := HandleUidlItem(line);
      case WaitingForListItems => ok := HandleListItem(line);
      case WaitingForRetrResponse => ok := HandleRetrResponse(line);
      case WaitingForRetrData => ok := HandleRetrLine(line);
      case WaitingForDeleResponse => ok := HandleDeleResponse(line);
      case _ => ok := HandleLogin(line.Ok());
    }

    /** A block is of use only while a message is awaited. */
    method ProcessMultiLine(block: seq<Byte>)
      requires View().WellFormed()
      modifies this, receiver
      ensures View() == Step(old(View()), Data(block))
    {
      if state == WaitingForRetrData {
        HandleRetrBlock(block);
      }
    }

    /** Takes what it can from the available bytes and leaves the rest. */
    method SlotReadyRead(available: seq<Byte>, toULong: seq<Byte> -> nat) returns (left: seq<Byte>)
      requires View().WellFormed()
      modifies this, receiver
      ensures Stream(View(), left) == ReadyRead(old(View()), available, toULong)
    {
      var ok: bool;
      if singleLine {
        left, ok := TakeLines(available, toULong);
      } else {
        left, ok := available, true;
      }
      if ok && !singleLine && left != [] {
        ProcessMultiLine(left);
        left := [];
      }
    }

    /** The loop over complete lines. */
    method TakeLines(available: seq<Byte>, toULong: seq<Byte> -> nat) returns (left: seq<Byte>, ok: bool)
      requires View().WellFormed()
      modifies this, receiver
      ensures Reading(View(), left, ok) == ReadLines(old(View()), available, toULong)
    {
      left, ok := available, true;
      while LineLength(left) > 0
        invariant ok && View().WellFormed()
        invariant ReadLines(View(), left, toULong) == ReadLines(old(View()), available, toULong)
        decreases |left|
      {
        var n := LineLength(left);
        ok := ProcessLine(LineOf(left[..n], toULong));
        left := left[n..];
        if !ok || !singleLine {
          return;
        }
      }
    }

    /** One call for every portion that arrives, and what is left in the end. */
    method Serve(portions: seq<seq<Byte>>, toULong: seq<Byte> -> nat) returns (pending: seq<Byte>)
      requires View().WellFormed()
      modifies this, receiver
      ensures Stream(View(), pending) == Deliver(Stream(old(View()), []), portions, toULong)
    {
      pending := [];
      assert portions[0..] == portions;
      for i := 0 to |portions|
        invariant View().WellFormed()
        invariant Deliver(Stream(View(), pending), portions[i..], toULong)
                  == Deliver(Stream(old(View()), []), portions, toULong)
      {
        assert portions[i..][1..] == portions[i + 1..];
        pending := SlotReadyRead(pending + portions[i], toULong);
      }
    }

    /** Takes in everything that happens during a session, in order. */
    method Drive(events: seq<Event>)
      requires View().WellFormed()
      modifies this, receiver
      ensures View() == Run(old(View()), events)
    {
      assert events[0..] == events;
      for i := 0 to |events|
        invariant View().WellFormed()
        invariant Run(View(), events[i..]) == Run(old(View()), events)
      {
        assert events[i..][1..] == events[i + 1..];
        match events[i]
        case Reply(line) => var _ := ProcessLine(line);
        case Data(block) => ProcessMultiLine(block);
        case Stopped => Halt();
      }
    }
  }

  /** A client from its creation on: whatever bytes arrive, and in whatever portions, it is safe. */
  method RunStream(leave: bool, starttls: bool, tlsWorks: bool, rcv: set<Uid>, trash: seq<Uid>,
                   portions: seq<seq<Byte>>, toULong: seq<Byte> -> nat)
    returns (c: Client, pending: seq<Byte>)
    ensures fresh(c) && fresh(c.receiver)
    ensures
      var start := Start(leave, starttls, tlsWorks, rcv, trash);
      Stream(c.View(), pending) == Deliver(Stream(start, []), portions, toULong)
    ensures Inv(c.View(), rcv, trash) && Safe(c.View(), rcv, trash)
  {
    c := new Client(leave, starttls, tlsWorks, rcv, trash);
    StreamIsSafe(leave, starttls, tlsWorks, rcv, trash, portions, toULong);
    pending := c.Serve(portions, toULong);
  }

  /** A client from its creation on: whatever happens, it is safe, and each further event keeps it so. */
  method RunSession(leave: bool, starttls: bool, tlsWorks: bool, rcv: set<Uid>, trash: seq<Uid>, events: seq<Event>)
    returns (c: Client)
    ensures fresh(c) && fresh(c.receiver)
    ensures c.View() == Run(Start(leave, starttls, tlsWorks, rcv, trash), events)
    ensures Inv(c.View(), rcv, trash) && Safe(c.View(), rcv, trash)
  {
    c := new Client(leave, starttls, tlsWorks, rcv, trash);
    StartInv(leave, starttls, tlsWorks, rcv, trash);
    RunInv(c.View(), events, rcv, trash);
    c.Drive(events);
  }
}
