/** A whole session with a server that follows the protocol. */
module Pop3Honest {
  import opened Bytes
  import opened Common
  import opened Pop3Receiver
  import opened Pop3Session
  import opened Pop3Safety

  /**
   A message on the server: its lines, the size that LIST gives, which may be 0 when it is not
   known, and the blocks in which the network delivers it if it is.
   */
  datatype Mail = Mail(uid: Uid, lines: seq<seq<Byte>>, size: nat, blocks: seq<seq<Byte>>)

  ghost predicate Ascii(lines: seq<seq<Byte>>) {
    forall i, j :: 0 <= i < |lines| && 0 <= j < |lines[i]| ==> lines[i][j] < 128
  }

  /** A message of known size has a line; one of unknown size is read as text and must be ASCII. */
  ghost predicate Sendable(m: Mail) {
    && m.uid != "" && AreLines(m.lines)
    && if m.size > 0 then m.lines != [] && IsCutting(m.blocks, Wire(m.lines)) else Ascii(m.lines)
  }

  /** The lines of a message, each with CR LF. */
  function CrLfText(lines: seq<seq<Byte>>): seq<Byte> {
    if lines == [] then [] else (lines[0] + [CR, LF]) + CrLfText(lines[1..])
  }

  /** What the client makes of a message: block reading ends lines by LF and doubles a leading dot. */
  function Received(m: Mail): seq<Byte> {
    if m.size == 0 then CrLfText(m.lines)
    else if m.lines == [] then []
    else LeadingDot(m.lines[0]) + Text(m.lines)
  }

  ghost predicate Mailbox(mails: seq<Mail>) {
    && (forall i :: 0 <= i < |mails| ==> Sendable(mails[i]))
    && (forall i, j :: 0 <= i < j < |mails| ==> mails[i].uid != mails[j].uid)
  }

  // -------------------------------------------------------------------------
  // What the server sends

  const OK: Event := Reply(Line([43, 79, 75], None))
  const END_OF_LIST: Event := Reply(Line([DOT], None))

  /** A UIDL or LIST entry; of its text only the first character matters, which is not a dot. */
  function Entry(number: nat, word: Uid, size: nat): Event {
    Reply(Line([49], Some(Item(number, word, size))))
  }

  /** How the session is set up, and the uid lists it starts with. */
  datatype Setup = Setup(leave: bool, starttls: bool, tls: bool, rcv: set<Uid>, trash: seq<Uid>)

  /** STLS works if it is asked for, and the trash list is in key order. */
  ghost predicate Proper(c: Setup) {
    (c.starttls ==> c.tls) && InKeyOrder(c.trash)
  }

  function Begin(c: Setup): (s: Session)
    ensures s.WellFormed()
  {
    Start(c.leave, c.starttls, c.tls, c.rcv, c.trash)
  }

  /** The commands before USER. */
  function Hello(c: Setup): seq<Command> {
    if c.starttls then [Stls] else []
  }

  /** Message number i + 1 is `mails[i]`. */
  function UidlEntries(mails: seq<Mail>): seq<Event> {
    seq(|mails|, i requires 0 <= i < |mails| => Entry(i + 1, mails[i].uid, 0))
  }

  function ListEntries(mails: seq<Mail>): seq<Event> {
    seq(|mails|, i requires 0 <= i < |mails| => Entry(i + 1, "", mails[i].size))
  }

  function Blocks(blocks: seq<seq<Byte>>): seq<Event> {
    seq(|blocks|, i requires 0 <= i < |blocks| => Data(blocks[i]))
  }

  /** The message line by line, as it is read when its size is not known. */
  function LineReplies(lines: seq<seq<Byte>>): seq<Event> {
    if lines == [] then [Reply(Line([DOT, CR, LF], None))]
    else [Reply(Line(Stuff(lines[0]) + [CR, LF], None))] + LineReplies(lines[1..])
  }

  /** The reply to RETR. */
  function Delivery(m: Mail): seq<Event> {
    [OK] + (if m.size > 0 then Blocks(m.blocks) else LineReplies(m.lines))
  }

  function Messages(mails: seq<Mail>, entries: seq<nat>): seq<Event>
    requires forall i :: 0 <= i < |entries| ==> entries[i] < |mails|
  {
    if entries == [] then [] else Delivery(mails[entries[0]]) + Messages(mails, entries[1..])
  }

  function Times(n: nat): seq<Event> {
    seq(n, _ => OK)
  }

  // -------------------------------------------------------------------------
  // Runs

  /** The blocks of one message, up to the one that completes it. */
  lemma {:induction false} RunBlocks(s: Session, blocks: seq<seq<Byte>>)
    requires s.WellFormed() && s.state == WaitingForRetrData && HasCurrent(s) && !s.receipt.end
    requires FeedAll(s.receipt, blocks).end
    requires forall k :: 0 <= k < |blocks| ==> !FeedAll(s.receipt, blocks[..k]).end
    ensures Run(s, Blocks(blocks)) ==
            Complete(s.(receipt := FeedAll(s.receipt, blocks).(end := false), singleLine := true), [])
    decreases |blocks|
  {
    var events := Blocks(blocks);
    var r := Feed(s.receipt, blocks[0]);
    assert events[0] == Data(blocks[0]);
    assert events[1..] == Blocks(blocks[1..]);
    if |blocks| == 1 {
      assert FeedAll(s.receipt, blocks) == r;
    } else {
      assert blocks[..1] == [blocks[0]];
      assert FeedAll(s.receipt, blocks[..1]) == r;
      var s' := s.(receipt := r);
      assert Step(s, events[0]) == s';
      forall k | 0 <= k < |blocks| - 1 ensures !FeedAll(r, blocks[1..][..k]).end {
        assert blocks[..k + 1][1..] == blocks[1..][..k];
        assert !FeedAll(s.receipt, blocks[..k + 1]).end;
      }
      RunBlocks(s', blocks[1..]);
    }
  }

  // -------------------------------------------------------------------------
  // The lists: what the session knows after the first k entries

  function Infos(mails: seq<Mail>, sized: nat): seq<MailInfo> {
    seq(|mails|, i requires 0 <= i < |mails| => MailInfo(mails[i].uid, i + 1, if i < sized then mails[i].size else 0))
  }

  function Uids(mails: seq<Mail>): map<Uid, nat> {
    if mails == [] then map[] else Uids(mails[..|mails| - 1])[mails[|mails| - 1].uid := |mails| - 1]
  }

  function Numbers(n: nat): map<nat, nat> {
    if n == 0 then map[] else Numbers(n - 1)[n := n - 1]
  }

  /** The trash after listing: what was in it and what was received before, unless messages are to be left. */
  function Marked(mails: seq<Mail>, c: Setup): seq<Uid> {
    if mails == [] then c.trash
    else
      var n := |mails| - 1;
      var before := Marked(mails[..n], c);
      if !c.leave && mails[n].uid in c.rcv then MarkForDeletion(before, mails[n].uid) else before
  }

  /** The session after the UIDL entries of `mails`. */
  function Listed(c: Setup, mails: seq<Mail>): (s: Session)
    ensures s.WellFormed()
  {
    UidsAre(mails);
    NumbersAre(|mails|);
    EntriesBelow(Infos(mails, 0), c.rcv);
    Session(c.leave, c.tls, WaitingForUidlItems, false, true, false,
            Infos(mails, 0), Uids(mails), Numbers(|mails|), NewEntries(Infos(mails, 0), c.rcv),
            FRESH, c.rcv, Marked(mails, c), Hello(c) + [User, Command.Pass] + [Uidl], [])
  }

  lemma {:induction false} UidsAre(mails: seq<Mail>)
    ensures forall u :: u in Uids(mails) ==> Uids(mails)[u] < |mails|
    ensures forall u :: u in Uids(mails) ==> mails[Uids(mails)[u]].uid == u
    ensures forall i :: 0 <= i < |mails| ==> mails[i].uid in Uids(mails)
  {
    if mails != [] {
      UidsAre(mails[..|mails| - 1]);
    }
  }

  lemma {:induction false} EntriesBelow(infos: seq<MailInfo>, rcv: set<Uid>)
    ensures forall i :: 0 <= i < |NewEntries(infos, rcv)| ==>
              NewEntries(infos, rcv)[i] < |infos| && infos[NewEntries(infos, rcv)[i]].uid !in rcv
  {
    if infos != [] {
      EntriesBelow(infos[..|infos| - 1], rcv);
    }
  }

  lemma NumbersAre(n: nat)
    ensures forall i :: i in Numbers(n) <==> 1 <= i <= n
    ensures forall i :: i in Numbers(n) ==> Numbers(n)[i] == i - 1
  {
  }

  lemma ListOne(c: Setup, mails: seq<Mail>)
    requires mails != []
    ensures
      var n := |mails| - 1;
      OnUidlItem(Listed(c, mails[..n]), Entry(n + 1, mails[n].uid, 0).line) == Listed(c, mails)
  {
    var n := |mails| - 1;
    var before, after := Infos(mails[..n], 0), Infos(mails, 0);
    assert after == before + [MailInfo(mails[n].uid, n + 1, 0)];
    OneMoreEntry(before, MailInfo(mails[n].uid, n + 1, 0), c.rcv);
    assert mails[..n][..n] == mails[..n];
  }

  lemma {:induction false} LastEntry(mails: seq<Mail>)
    requires mails != []
    ensures
      var n := |mails| - 1;
      UidlEntries(mails) == UidlEntries(mails[..n]) + [Entry(n + 1, mails[n].uid, 0)]
  {
  }

  lemma {:induction false} RunEntry(c: Setup, mails: seq<Mail>)
    requires mails != []
    ensures
      var n := |mails| - 1;
      Run(Listed(c, mails[..n]), [Entry(n + 1, mails[n].uid, 0)]) == Listed(c, mails)
  {
    var n := |mails| - 1;
    ListOne(c, mails);
    RunOne(Listed(c, mails[..n]), Entry(n + 1, mails[n].uid, 0));
  }

  /** The UIDL entries one by one. */
  lemma {:induction false} ListAll(c: Setup, mails: seq<Mail>)
    ensures Run(Listed(c, []), UidlEntries(mails)) == Listed(c, mails)
    decreases |mails|
  {
    if mails != [] {
      var n := |mails| - 1;
      ListAll(c, mails[..n]);
      LastEntry(mails);
      RunConcat(Listed(c, []), UidlEntries(mails[..n]), [Entry(n + 1, mails[n].uid, 0)]);
      RunEntry(c, mails);
    }
  }

  lemma RunOne(s: Session, e: Event)
    requires s.WellFormed()
    ensures Run(s, [e]) == Step(s, e)
  {
  }

  /** The session when LIST has been answered, with the sizes of the first `sized` messages. */
  function Sized(c: Setup, mails: seq<Mail>, sized: nat): (s: Session)
    ensures s.WellFormed()
  {
    var s := Listed(c, mails);
    s.(state := WaitingForListItems, mails := Infos(mails, sized), sent := s.sent + [List])
  }

  lemma SizeOne(c: Setup, mails: seq<Mail>, k: nat)
    requires k < |mails|
    ensures OnListItem(Sized(c, mails, k), Entry(k + 1, "", mails[k].size).line)
            == Sized(c, mails, k + 1)
  {
    NumbersAre(|mails|);
    var infos := Infos(mails, k);
    assert infos[k := infos[k].(size := mails[k].size)] == Infos(mails, k + 1);
  }

  lemma {:induction false} SizeAll(c: Setup, mails: seq<Mail>, k: nat)
    requires k <= |mails|
    ensures Run(Sized(c, mails, k), ListEntries(mails)[k..]) == Sized(c, mails, |mails|)
    decreases |mails| - k
  {
    var events := ListEntries(mails)[k..];
    if k < |mails| {
      assert events[0] == Entry(k + 1, "", mails[k].size);
      assert events[1..] == ListEntries(mails)[k + 1..];
      SizeOne(c, mails, k);
      SizeAll(c, mails, k + 1);
    }
  }

  function Opening(c: Setup, mails: seq<Mail>): seq<Event> {
    LogInReplies(c) + (UidlEntries(mails) + ([END_OF_LIST, OK] + (ListEntries(mails) + [END_OF_LIST])))
  }

  /** The greeting and the replies to STLS, if sent, USER, PASS and UIDL. */
  function LogInReplies(c: Setup): seq<Event> {
    (if c.starttls then [OK] else []) + ([OK, OK] + [OK, OK])
  }

  lemma RunTwo(s: Session, a: Event, b: Event)
    requires s.WellFormed()
    ensures Run(s, [a, b]) == Step(Step(s, a), b)
  {
    assert [a, b] == [a] + [b];
    RunConcat(s, [a], [b]);
    RunOne(s, a);
    RunOne(Step(s, a), b);
  }

  lemma OkStep(s: Session)
    requires s.WellFormed() && Early(s.state) && s.state != WaitingForUidlItems
    ensures Step(s, OK) == OnLogin(s, true)
  {
    assert OK.line.text[..3] == [43, 79, 75];
  }

  /** The session that has sent USER and PASS. */
  function Asked(c: Setup): (s: Session)
    ensures s.WellFormed()
  {
    Begin(c).(starttls := false, state := WaitingForPassResponse, sent := Hello(c) + [User, Command.Pass])
  }

  /** With STLS the next positive reply makes the client send USER, as the greeting does without. */
  function Secured(c: Setup): (s: Session)
    ensures s.WellFormed()
  {
    if c.starttls then Begin(c).(state := WaitingForSTARTTLS, sent := [Stls]) else Begin(c)
  }

  lemma Secure(c: Setup)
    ensures Run(Begin(c), if c.starttls then [OK] else []) == Secured(c)
  {
    OkStep(Begin(c));
    RunOne(Begin(c), OK);
  }

  lemma GiveNameAndPassword(c: Setup)
    requires c.starttls ==> c.tls
    ensures Run(Secured(c), [OK, OK]) == Asked(c)
  {
    var s := Secured(c);
    RunTwo(s, OK, OK);
    OkStep(s);
    OkStep(Step(s, OK));
    assert Hello(c) + [User] + [Command.Pass] == Hello(c) + [User, Command.Pass];
  }

  lemma AskForUids(c: Setup)
    ensures Run(Asked(c), [OK, OK]) == Listed(c, [])
  {
    var s := Asked(c);
    RunTwo(s, OK, OK);
    OkStep(s);
    OkStep(Step(s, OK));
    assert Infos([], 0) == [];
  }

  lemma LogIn(c: Setup)
    requires c.starttls ==> c.tls
    ensures Run(Begin(c), LogInReplies(c)) == Listed(c, [])
  {
    RunConcat(Begin(c), if c.starttls then [OK] else [], [OK, OK] + [OK, OK]);
    Secure(c);
    RunConcat(Secured(c), [OK, OK], [OK, OK]);
    GiveNameAndPassword(c);
    AskForUids(c);
  }

  lemma AskForSizes(c: Setup, mails: seq<Mail>)
    ensures Run(Listed(c, mails), [END_OF_LIST, OK]) == Sized(c, mails, 0)
  {
    var s := Listed(c, mails);
    RunTwo(s, END_OF_LIST, OK);
    OkStep(Step(s, END_OF_LIST));
  }

  lemma OpenLists(c: Setup, mails: seq<Mail>)
    ensures Run(Listed(c, mails), [END_OF_LIST, OK] + (ListEntries(mails) + [END_OF_LIST]))
            == RetrieveDeleteOrQuit(Sized(c, mails, |mails|))
  {
    RunConcat(Listed(c, mails), [END_OF_LIST, OK], ListEntries(mails) + [END_OF_LIST]);
    AskForSizes(c, mails);
    RunConcat(Sized(c, mails, 0), ListEntries(mails), [END_OF_LIST]);
    assert ListEntries(mails)[0..] == ListEntries(mails);
    SizeAll(c, mails, 0);
    RunOne(Sized(c, mails, |mails|), END_OF_LIST);
  }

  /** From the greeting to the first command after the lists. */
  lemma Open(c: Setup, mails: seq<Mail>)
    requires c.starttls ==> c.tls
    ensures Run(Begin(c), Opening(c, mails))
            == RetrieveDeleteOrQuit(Sized(c, mails, |mails|))
  {
    var lists := [END_OF_LIST, OK] + (ListEntries(mails) + [END_OF_LIST]);
    RunConcat(Begin(c), LogInReplies(c), UidlEntries(mails) + lists);
    LogIn(c);
    RunConcat(Listed(c, []), UidlEntries(mails), lists);
    ListAll(c, mails);
    OpenLists(c, mails);
  }

  // -------------------------------------------------------------------------
  // The messages

  /** The session about to choose its next command, once `m` at the head of the queue has been fetched. */
  function Next(s: Session, m: Mail): (r: Session)
    requires s.WellFormed() && s.retrIndex != []
    ensures r.WellFormed()
  {
    s.(state := WaitingForRetrData,
       singleLine := true,
       sent := s.sent + [Retr(s.mails[s.retrIndex[0]].retr)],
       retrieved := s.retrieved + [Retrieved(m.uid, Received(m))],
       retrIndex := s.retrIndex[1..],
       trashList := if s.leave then s.trashList else MarkForDeletion(s.trashList, m.uid),
       rcvList := if s.leave then RcvInsert(s.rcvList, m.uid) else s.rcvList,
       receipt := FRESH)
  }

  /** The reply to RETR opens the receiver. */
  lemma RetrOk(s: Session)
    requires s.WellFormed() && s.retrIndex != [] && s.mails[s.retrIndex[0]].size != 0 && s.receipt == FRESH
    ensures Step(RetrieveDeleteOrQuit(s), OK) ==
            s.(state := WaitingForRetrData, singleLine := false, sent := s.sent + [Retr(s.mails[s.retrIndex[0]].retr)])
  {
    assert OK.line.text[..3] == [43, 79, 75];
  }

  lemma {:induction false} FetchSized(s: Session, m: Mail)
    requires s.WellFormed() && s.retrIndex != [] && s.receipt == FRESH && Sendable(m) && m.size > 0
    requires s.mails[s.retrIndex[0]].uid == m.uid && s.mails[s.retrIndex[0]].size == m.size
    ensures Run(RetrieveDeleteOrQuit(s), Delivery(m)) == RetrieveDeleteOrQuit(Next(s, m))
  {
    var s1 := RetrieveDeleteOrQuit(s);
    var s2 := Step(s1, OK);
    RetrOk(s);
    RunConcat(s1, [OK], Blocks(m.blocks));
    RunOne(s1, OK);
    ReceiveAny(m.lines, m.blocks);
    RunBlocks(s2, m.blocks);
    assert Complete(s2.(receipt := Receipt(Received(m), THE_END, false), singleLine := true), [])
           == RetrieveDeleteOrQuit(Next(s, m));
  }

  /** Without a size the reply to RETR is followed by lines. */
  lemma {:induction false} RetrOkUnsized(s: Session)
    requires s.WellFormed() && s.retrIndex != [] && s.mails[s.retrIndex[0]].size == 0
    ensures Step(RetrieveDeleteOrQuit(s), OK) ==
            s.(state := WaitingForRetrData, singleLine := true, sent := s.sent + [Retr(s.mails[s.retrIndex[0]].retr)])
  {
    assert OK.line.text[..3] == [43, 79, 75];
  }

  function Buffered(s: Session, more: seq<Byte>): (r: Session)
    ensures s.WellFormed() ==> r.WellFormed()
  {
    s.(receipt := s.receipt.(buffer := s.receipt.buffer + more))
  }

  /** A stuffed line is never taken for the end, and is unstuffed. */
  lemma {:induction false} OneLine(s: Session, line: seq<Byte>)
    requires s.WellFormed() && s.state == WaitingForRetrData
    ensures Step(s, Reply(Line(Stuff(line) + [CR, LF], None))) == Buffered(s, line + [CR, LF])
  {
    var l := Line(Stuff(line) + [CR, LF], None);
    if StartsWithDot(line) {
      assert l.text[0] == DOT && l.text[1] == DOT;
      assert l.text[1..] == line + [CR, LF];
    } else {
      assert l.text == line + [CR, LF];
    }
  }

  lemma {:induction false} RunLines(s: Session, lines: seq<seq<Byte>>)
    requires s.WellFormed() && s.state == WaitingForRetrData && HasCurrent(s)
    ensures Run(s, LineReplies(lines)) == Complete(Buffered(s, CrLfText(lines)), s.receipt.carry)
    decreases |lines|
  {
    if lines == [] {
      var last := Reply(Line([DOT, CR, LF], None));
      RunOne(s, last);
      PlusEmpty(s.receipt.buffer);
    } else {
      var s' := Buffered(s, lines[0] + [CR, LF]);
      var first := Reply(Line(Stuff(lines[0]) + [CR, LF], None));
      OneLine(s, lines[0]);
      RunConcat(s, [first], LineReplies(lines[1..]));
      RunOne(s, first);
      RunLines(s', lines[1..]);
      Assoc(s.receipt.buffer, lines[0] + [CR, LF], CrLfText(lines[1..]));
    }
  }

  lemma {:induction false} FetchUnsized(s: Session, m: Mail)
    requires s.WellFormed() && s.retrIndex != [] && s.receipt == FRESH && Sendable(m) && m.size == 0
    requires s.mails[s.retrIndex[0]].uid == m.uid && s.mails[s.retrIndex[0]].size == m.size
    ensures Run(RetrieveDeleteOrQuit(s), Delivery(m)) == RetrieveDeleteOrQuit(Next(s, m))
  {
    var s1 := RetrieveDeleteOrQuit(s);
    var s2 := Step(s1, OK);
    RetrOkUnsized(s);
    RunConcat(s1, [OK], LineReplies(m.lines));
    RunOne(s1, OK);
    RunLines(s2, m.lines);
    PlusEmpty(Received(m));
    assert Complete(Buffered(s2, Received(m)), []) == RetrieveDeleteOrQuit(Next(s, m));
  }

  /** One message, whichever way it is read. */
  lemma {:induction false} FetchOne(s: Session, m: Mail)
    requires s.WellFormed() && s.retrIndex != [] && s.receipt == FRESH && Sendable(m)
    requires s.mails[s.retrIndex[0]].uid == m.uid && s.mails[s.retrIndex[0]].size == m.size
    ensures Run(RetrieveDeleteOrQuit(s), Delivery(m)) == RetrieveDeleteOrQuit(Next(s, m))
  {
    if m.size > 0 {
      FetchSized(s, m);
    } else {
      FetchUnsized(s, m);
    }
  }

  function NextAll(s: Session, mails: seq<Mail>): (r: Session)
    requires s.WellFormed() && |s.mails| == |mails|
    ensures r.WellFormed() && r.retrIndex == [] && r.leave == s.leave && r.uidlIndex == s.uidlIndex
            && r.mails == s.mails
    decreases |s.retrIndex|
  {
    if s.retrIndex == [] then s else NextAll(Next(s, mails[s.retrIndex[0]]), mails)
  }

  lemma {:induction false} FetchAll(s: Session, mails: seq<Mail>)
    requires Mailbox(mails) && s.WellFormed() && s.receipt == FRESH && s.mails == Infos(mails, |mails|)
    ensures Run(RetrieveDeleteOrQuit(s), Messages(mails, s.retrIndex)) == RetrieveDeleteOrQuit(NextAll(s, mails))
    decreases |s.retrIndex|
  {
    if s.retrIndex != [] {
      var m := mails[s.retrIndex[0]];
      FetchOne(s, m);
      RunConcat(RetrieveDeleteOrQuit(s), Delivery(m), Messages(mails, s.retrIndex[1..]));
      FetchAll(Next(s, m), mails);
    }
  }

  // -------------------------------------------------------------------------
  // The deletions

  /** The uids that the server knows, in the same order. */
  function Known(trash: seq<Uid>, index: map<Uid, nat>): (r: seq<Uid>)
    ensures forall u :: u in r <==> u in trash && u in index
  {
    if trash == [] then []
    else
      assert forall u :: u in trash <==> u == trash[0] || u in trash[1..];
      (if trash[0] in index then [trash[0]] else []) + Known(trash[1..], index)
  }

  lemma {:induction false} KnownInOrder(trash: seq<Uid>, index: map<Uid, nat>)
    requires InKeyOrder(trash)
    ensures InKeyOrder(Known(trash, index))
    decreases |trash|
  {
    if trash != [] {
      KnownInOrder(trash[1..], index);
      var rest := Known(trash[1..], index);
      forall j | 0 <= j < |rest| ensures Before(trash[0], rest[j]) {
        assert rest[j] in rest;
        var k :| 0 <= k < |trash[1..]| && trash[1..][k] == rest[j];
        assert trash[k + 1] == rest[j];
      }
    }
  }

  /** Taking from the trash takes the first uid that is known. */
  lemma {:induction false} TakesFirstKnown(trash: seq<Uid>, index: map<Uid, nat>)
    ensures
      var (found, rest) := NextTrash(trash, index);
      if found.None? then Known(trash, index) == []
      else |rest| < |trash| && Known(trash, index) == [found.value] + Known(rest, index)
    decreases |trash|
  {
    if trash != [] && trash[0] !in index {
      TakesFirstKnown(trash[1..], index);
    }
  }

  /** The DELE commands for known uids, in order. */
  function Deles(uids: seq<Uid>, s: Session): seq<Command>
    requires s.WellFormed() && forall u :: u in uids ==> u in s.uidlIndex
  {
    seq(|uids|, i requires 0 <= i < |uids| => Dele(s.mails[s.uidlIndex[uids[i]]].retr))
  }

  lemma DelesSplit(uid: Uid, uids: seq<Uid>, s: Session, s1: Session)
    requires s.WellFormed() && s1.WellFormed() && s1.mails == s.mails && s1.uidlIndex == s.uidlIndex
    requires uid in s.uidlIndex && forall u :: u in uids ==> u in s.uidlIndex
    ensures Deles([uid] + uids, s) == [Dele(s.mails[s.uidlIndex[uid]].retr)] + Deles(uids, s1)
  {
  }

  /** The session after a DELE for `uid`. */
  function AfterDele(s: Session, uid: Uid, rest: seq<Uid>): (r: Session)
    requires s.WellFormed() && uid in s.uidlIndex
    ensures r.WellFormed()
  {
    s.(singleLine := true, state := WaitingForDeleResponse, trashList := rest,
       sent := s.sent + [Dele(s.mails[s.uidlIndex[uid]].retr)])
  }

  lemma DeleteOne(s: Session)
    requires s.WellFormed() && s.retrIndex == [] && !s.leave && NextTrash(s.trashList, s.uidlIndex).0.Some?
    ensures
      var (found, rest) := NextTrash(s.trashList, s.uidlIndex);
      var s1 := AfterDele(s, found.value, rest);
      RetrieveDeleteOrQuit(s) == s1 && Step(s1, OK) == RetrieveDeleteOrQuit(s1)
  {
    assert OK.line.text[..3] == [43, 79, 75];
  }

  /** The reply to the first DELE brings the session to the next one. */
  lemma {:induction false} RunDele(s: Session, s1: Session, n: nat)
    requires s.WellFormed() && s.retrIndex == [] && !s.leave
    requires
      var (found, rest) := NextTrash(s.trashList, s.uidlIndex);
      found.Some? && s1 == AfterDele(s, found.value, rest)
    ensures s1.WellFormed() && Run(RetrieveDeleteOrQuit(s), Times(n + 1)) == Run(RetrieveDeleteOrQuit(s1), Times(n))
  {
    DeleteOne(s);
    assert Times(n + 1) == [OK] + Times(n);
    RunConcat(s1, [OK], Times(n));
    RunOne(s1, OK);
  }

  /** One DELE for every known uid of the trash, in order, and then QUIT. */
  lemma {:induction false} DeleteAll(s: Session, uids: seq<Uid>)
    requires s.WellFormed() && s.retrIndex == [] && !s.leave && uids == Known(s.trashList, s.uidlIndex)
    ensures Run(RetrieveDeleteOrQuit(s), Times(|uids|)).sent == s.sent + (Deles(uids, s) + [Quit])
    ensures Run(RetrieveDeleteOrQuit(s), Times(|uids|)).retrieved == s.retrieved
    decreases |s.trashList|
  {
    var n := |uids|;
    TakesFirstKnown(s.trashList, s.uidlIndex);
    var (found, rest) := NextTrash(s.trashList, s.uidlIndex);
    if found.None? {
      assert Times(0) == [];
      assert Deles([], s) + [Quit] == [Quit];
    } else {
      var s1 := AfterDele(s, found.value, rest);
      RunDele(s, s1, n - 1);
      assert uids[1..] == Known(rest, s.uidlIndex);
      DeleteAll(s1, uids[1..]);
      DelesFrom(s, found.value, rest, uids[1..]);
    }
  }

  /** The session in which QUIT has been sent. */
  lemma {:induction false} DeleteAllEnds(s: Session, uids: seq<Uid>)
    requires s.WellFormed() && s.retrIndex == [] && !s.leave && uids == Known(s.trashList, s.uidlIndex)
    ensures
      var r := Run(RetrieveDeleteOrQuit(s), Times(|uids|));
      && r.retrIndex == [] && r.trashList == []
      && r.state == if uids == [] then s.state else WaitingForDeleResponse
    decreases |s.trashList|
  {
    TakesFirstKnown(s.trashList, s.uidlIndex);
    var (found, rest) := NextTrash(s.trashList, s.uidlIndex);
    if found.None? {
      assert Times(0) == [];
    } else {
      var s1 := AfterDele(s, found.value, rest);
      RunDele(s, s1, |uids| - 1);
      assert uids[1..] == Known(rest, s.uidlIndex);
      DeleteAllEnds(s1, uids[1..]);
    }
  }

  lemma DelesFrom(s: Session, uid: Uid, rest: seq<Uid>, uids: seq<Uid>)
    requires s.WellFormed() && uid in s.uidlIndex && forall u :: u in uids ==> u in s.uidlIndex
    ensures
      var s1 := AfterDele(s, uid, rest);
      s1.sent + (Deles(uids, s1) + [Quit]) == s.sent + (Deles([uid] + uids, s) + [Quit])
  {
    var s1 := AfterDele(s, uid, rest);
    var dele := Dele(s.mails[s.uidlIndex[uid]].retr);
    DelesSplit(uid, uids, s, s1);
    assert s.sent + ([dele] + Deles(uids, s1) + [Quit]) == s1.sent + (Deles(uids, s1) + [Quit]);
  }

  // -------------------------------------------------------------------------
  // What the queue of new entries leads to

  function RetrCommands(entries: seq<nat>): seq<Command> {
    seq(|entries|, i requires 0 <= i < |entries| => Retr(entries[i] + 1))
  }

  function Texts(mails: seq<Mail>, entries: seq<nat>): seq<Retrieved>
    requires forall i :: 0 <= i < |entries| ==> entries[i] < |mails|
  {
    seq(|entries|, i requires 0 <= i < |entries| => Retrieved(mails[entries[i]].uid, Received(mails[entries[i]])))
  }

  lemma Regroup<T>(a: seq<T>, x: T, b: seq<T>)
    ensures (a + [x]) + b == a + ([x] + b)
  {
  }

  lemma RetrCommandsCons(entries: seq<nat>)
    requires entries != []
    ensures RetrCommands(entries) == [Retr(entries[0] + 1)] + RetrCommands(entries[1..])
  {
  }

  lemma {:induction false} NextAllSent(s: Session, mails: seq<Mail>)
    requires s.WellFormed() && |s.mails| == |mails|
    requires forall i :: 0 <= i < |s.mails| ==> s.mails[i].retr == i + 1
    ensures NextAll(s, mails).sent == s.sent + RetrCommands(s.retrIndex)
    decreases |s.retrIndex|
  {
    if s.retrIndex != [] {
      var k := s.retrIndex[0];
      NextAllSent(Next(s, mails[k]), mails);
      RetrCommandsCons(s.retrIndex);
      Regroup(s.sent, Retr(k + 1), RetrCommands(s.retrIndex[1..]));
    } else {
      assert RetrCommands([]) == [];
    }
  }

  lemma TextsCons(mails: seq<Mail>, entries: seq<nat>)
    requires entries != [] && forall i :: 0 <= i < |entries| ==> entries[i] < |mails|
    ensures Texts(mails, entries) == [Retrieved(mails[entries[0]].uid, Received(mails[entries[0]]))]
            + Texts(mails, entries[1..])
  {
  }

  lemma {:induction false} NextAllRetrieved(s: Session, mails: seq<Mail>)
    requires s.WellFormed() && |s.mails| == |mails|
    ensures NextAll(s, mails).retrieved == s.retrieved + Texts(mails, s.retrIndex)
    decreases |s.retrIndex|
  {
    if s.retrIndex != [] {
      var m := mails[s.retrIndex[0]];
      NextAllRetrieved(Next(s, m), mails);
      TextsCons(mails, s.retrIndex);
      Regroup(s.retrieved, Retrieved(m.uid, Received(m)), Texts(mails, s.retrIndex[1..]));
    } else {
      assert Texts(mails, []) == [];
    }
  }

  /** The trash only grows while messages are fetched, by their uids, and stays in order. */
  lemma {:induction false} NextAllTrash(s: Session, mails: seq<Mail>)
    requires s.WellFormed() && |s.mails| == |mails| && !s.leave && InKeyOrder(s.trashList)
    requires forall i :: 0 <= i < |mails| ==> mails[i].uid != ""
    ensures InKeyOrder(NextAll(s, mails).trashList)
    ensures forall u :: u in s.trashList ==> u in NextAll(s, mails).trashList
    ensures forall k :: k in s.retrIndex ==> mails[k].uid in NextAll(s, mails).trashList
    decreases |s.retrIndex|
  {
    if s.retrIndex != [] {
      InsertInOrder(s.trashList, mails[s.retrIndex[0]].uid);
      NextAllTrash(Next(s, mails[s.retrIndex[0]]), mails);
      assert forall k :: k in s.retrIndex ==> k == s.retrIndex[0] || k in s.retrIndex[1..];
    }
  }

  /** While listing, every message is either queued or, when it was received before, marked. */
  lemma {:induction false} MarkedOrNew(mails: seq<Mail>, c: Setup)
    requires !c.leave && InKeyOrder(c.trash) && forall i :: 0 <= i < |mails| ==> mails[i].uid != ""
    ensures InKeyOrder(Marked(mails, c))
    ensures forall i :: 0 <= i < |mails| ==> mails[i].uid in Marked(mails, c) || i in NewEntries(Infos(mails, 0), c.rcv)
    decreases |mails|
  {
    if mails != [] {
      var n := |mails| - 1;
      var before := mails[..n];
      MarkedOrNew(before, c);
      InsertInOrder(Marked(before, c), mails[n].uid);
      assert Infos(mails, 0) == Infos(before, 0) + [MailInfo(mails[n].uid, n + 1, 0)];
      OneMoreEntry(Infos(before, 0), MailInfo(mails[n].uid, n + 1, 0), c.rcv);
      forall i | 0 <= i < |mails|
        ensures mails[i].uid in Marked(mails, c) || i in NewEntries(Infos(mails, 0), c.rcv)
      {
        assert i < n ==> before[i] == mails[i];
      }
    }
  }

  lemma {:induction false} UidsFind(mails: seq<Mail>, i: nat)
    requires i < |mails|
    requires forall i, j :: 0 <= i < j < |mails| ==> mails[i].uid != mails[j].uid
    ensures mails[i].uid in Uids(mails) && Uids(mails)[mails[i].uid] == i
  {
    if i < |mails| - 1 {
      UidsFind(mails[..|mails| - 1], i);
    }
  }

  // -------------------------------------------------------------------------
  // The main result

  /** The session that has fetched everything and is about to delete or quit. */
  function Done(c: Setup, mails: seq<Mail>): (s: Session)
    ensures s.WellFormed()
  {
    NextAll(Sized(c, mails, |mails|), mails)
  }

  function NewMails(mails: seq<Mail>, rcv: set<Uid>): (entries: seq<nat>)
    ensures forall i :: 0 <= i < |entries| ==> entries[i] < |mails|
  {
    EntriesBelow(Infos(mails, 0), rcv);
    NewEntries(Infos(mails, 0), rcv)
  }

  /** The uids that are on the server and in the trash in the end. */
  function ToDelete(c: Setup, mails: seq<Mail>): seq<Uid> {
    if c.leave then [] else Known(Done(c, mails).trashList, Uids(mails))
  }

  /**
   Everything the server does: lists, the messages asked for, one reply to each DELE, the
   positive reply `bye` to QUIT, and closing the connection.
   */
  function ServerSide(c: Setup, mails: seq<Mail>, bye: Line): seq<Event> {
    UpToQuit(c, mails) + [Reply(bye), Stopped]
  }

  function UpToQuit(c: Setup, mails: seq<Mail>): seq<Event> {
    Opening(c, mails) + (Messages(mails, NewMails(mails, c.rcv)) + Times(|ToDelete(c, mails)|))
  }

  /** The commands up to the first one after the lists. */
  function Prologue(c: Setup): seq<Command> {
    Hello(c) + [User, Command.Pass] + [Uidl] + [List]
  }

  lemma DoneTrash(c: Setup, mails: seq<Mail>)
    requires Mailbox(mails) && Proper(c) && !c.leave
    ensures Done(c, mails).uidlIndex == Uids(mails) && Done(c, mails).mails == Infos(mails, |mails|)
    ensures InKeyOrder(Done(c, mails).trashList)
    ensures forall i :: 0 <= i < |mails| ==> mails[i].uid in Done(c, mails).trashList
  {
    forall i | 0 <= i < |mails| ensures mails[i].uid != "" {
      assert Sendable(mails[i]);
    }
    MarkedOrNew(mails, c);
    NextAllTrash(Sized(c, mails, |mails|), mails);
  }

  lemma DoneHistory(c: Setup, mails: seq<Mail>)
    ensures Done(c, mails).sent == Prologue(c) + RetrCommands(NewMails(mails, c.rcv))
    ensures Done(c, mails).retrieved == Texts(mails, NewMails(mails, c.rcv))
  {
    var s := Sized(c, mails, |mails|);
    NextAllSent(s, mails);
    NextAllRetrieved(s, mails);
    assert s.sent == Prologue(c);
    assert s.retrieved + Texts(mails, s.retrIndex) == Texts(mails, s.retrIndex);
  }

  /** The session up to the point where everything new has been fetched. */
  lemma FetchEverything(c: Setup, mails: seq<Mail>)
    requires Mailbox(mails) && Proper(c)
    ensures Run(Begin(c), Opening(c, mails) + Messages(mails, NewMails(mails, c.rcv)))
            == RetrieveDeleteOrQuit(Done(c, mails))
  {
    var s := Sized(c, mails, |mails|);
    RunConcat(Begin(c), Opening(c, mails), Messages(mails, NewMails(mails, c.rcv)));
    Open(c, mails);
    FetchAll(s, mails);
  }

  // -------------------------------------------------------------------------
  // The reply to QUIT

  /** With nothing left to retrieve or delete, choosing the next command means QUIT. */
  lemma ChoosesQuit(s: Session)
    requires s.WellFormed() && s.retrIndex == [] && s.trashList == []
    ensures RetrieveDeleteOrQuit(s).sent == s.sent + [Quit]
  {
  }

  /** The state in which QUIT is sent when nothing is deleted. */
  lemma {:induction false} NextAllState(s: Session, mails: seq<Mail>)
    requires s.WellFormed() && |s.mails| == |mails|
    requires s.state == WaitingForListItems || s.state == WaitingForRetrData
    ensures NextAll(s, mails).state == WaitingForListItems || NextAll(s, mails).state == WaitingForRetrData
    decreases |s.retrIndex|
  {
    if s.retrIndex != [] {
      NextAllState(Next(s, mails[s.retrIndex[0]]), mails);
    }
  }

  /** There the reply to QUIT is taken for a list entry or for a line of a message, and brings out nothing. */
  lemma {:induction false} ByeIgnored(s: Session, bye: Line)
    requires s.WellFormed() && bye.Ok() && (s.state == WaitingForListItems || s.state == WaitingForRetrData)
    ensures Step(s, Reply(bye)).sent == s.sent && Step(s, Reply(bye)).retrieved == s.retrieved
  {
    assert bye.text[0] == bye.text[..3][0] == 43;
  }

  /** After a DELE it is taken for the reply to another one, and brings out a second QUIT. */
  lemma {:induction false} ByeTakenForDele(s: Session, bye: Line)
    requires s.WellFormed() && bye.Ok() && s.state == WaitingForDeleResponse && s.retrIndex == [] && s.trashList == []
    ensures Step(s, Reply(bye)).sent == s.sent + [Quit] && Step(s, Reply(bye)).retrieved == s.retrieved
  {
    ChoosesQuit(s);
  }

  /** The connection ends. */
  lemma {:induction false} Hangup(s: Session, bye: Line)
    requires s.WellFormed()
    ensures
      var r, end := Step(s, Reply(bye)), Run(s, [Reply(bye), Stopped]);
      end.sent == r.sent && end.retrieved == r.retrieved && (!r.stopped ==> end.state == Idle)
  {
    RunTwo(s, Reply(bye), Stopped);
  }

  /**
   A session that leaves messages on the server fetches every new message, in order and
   however the network cuts it, and quits.
   */
  lemma {:induction false} HonestSessionLeaving(c: Setup, mails: seq<Mail>, bye: Line)
    requires Mailbox(mails) && Proper(c) && c.leave && bye.Ok()
    ensures
      var s := Run(Begin(c), ServerSide(c, mails, bye));
      && s.retrieved == Texts(mails, NewMails(mails, c.rcv))
      && s.sent == Prologue(c) + RetrCommands(NewMails(mails, c.rcv)) + [Quit]
  {
    var s := RetrieveDeleteOrQuit(Done(c, mails));
    FetchEverything(c, mails);
    DoneHistory(c, mails);
    assert Times(0) == [];
    assert UpToQuit(c, mails) == Opening(c, mails) + Messages(mails, NewMails(mails, c.rcv));
    RunConcat(Begin(c), UpToQuit(c, mails), [Reply(bye), Stopped]);
    NextAllState(Sized(c, mails, |mails|), mails);
    ByeIgnored(s, bye);
    Hangup(s, bye);
  }

  predicate IsDeleted(deles: seq<Command>, i: nat) {
    Dele(i + 1) in deles
  }

  /** Only messages on the server, and none of them twice. */
  ghost predicate DeletesOnce(deles: seq<Command>, n: nat) {
    && (forall i :: 0 <= i < |deles| ==> deles[i].Dele? && 1 <= deles[i].number <= n)
    && (forall i, j :: 0 <= i < j < |deles| ==> deles[i] != deles[j])
  }

  /**
   One that does not leave them also deletes every message on the server exactly once, fetched
   now or before, whatever else was in the trash, and quits after that: once when there was no
   message, and otherwise twice, since the reply to QUIT is taken for that to a DELE.
   */
  lemma {:induction false} HonestSessionDeleting(c: Setup, mails: seq<Mail>, bye: Line) returns (deles: seq<Command>)
    requires Mailbox(mails) && Proper(c) && !c.leave && bye.Ok()
    ensures
      var s := Run(Begin(c), ServerSide(c, mails, bye));
      && s.retrieved == Texts(mails, NewMails(mails, c.rcv))
      && s.sent == Prologue(c) + RetrCommands(NewMails(mails, c.rcv)) + (deles + QuitCommands(mails))
    ensures DeletesOnce(deles, |mails|)
    ensures forall i :: 0 <= i < |mails| ==> IsDeleted(deles, i)
  {
    DoneTrash(c, mails);
    deles := Deles(ToDelete(c, mails), Done(c, mails));
    DeletingRun(c, mails, bye);
    DoneHistory(c, mails);
    DeletesThem(Done(c, mails), ToDelete(c, mails), mails);
  }

  lemma {:induction false} DeletingRun(c: Setup, mails: seq<Mail>, bye: Line)
    requires Mailbox(mails) && Proper(c) && !c.leave && bye.Ok() && Done(c, mails).uidlIndex == Uids(mails)
    ensures
      var s, r := Done(c, mails), Run(Begin(c), ServerSide(c, mails, bye));
      r.retrieved == s.retrieved && r.sent == s.sent + (Deles(ToDelete(c, mails), s) + QuitCommands(mails))
  {
    HonestRun(c, mails);
    LastReply(c, mails, bye);
    LastCommands(Done(c, mails).sent, Deles(ToDelete(c, mails), Done(c, mails)), mails);
  }

  lemma LastCommands(sent: seq<Command>, deles: seq<Command>, mails: seq<Mail>)
    ensures sent + (deles + [Quit]) + QuitCommands(mails)[1..] == sent + (deles + QuitCommands(mails))
  {
    assert [Quit] + QuitCommands(mails)[1..] == QuitCommands(mails);
    Assoc(sent, deles + [Quit], QuitCommands(mails)[1..]);
    Assoc(deles, [Quit], QuitCommands(mails)[1..]);
  }

  /** QUIT once for an empty mailbox, twice for any other. */
  function QuitCommands(mails: seq<Mail>): seq<Command> {
    if mails == [] then [Quit] else [Quit, Quit]
  }

  lemma {:induction false} HonestRun(c: Setup, mails: seq<Mail>)
    requires Mailbox(mails) && Proper(c) && !c.leave && Done(c, mails).uidlIndex == Uids(mails)
    ensures
      var s, r := Done(c, mails), Run(Begin(c), UpToQuit(c, mails));
      && r.sent == s.sent + (Deles(ToDelete(c, mails), s) + [Quit]) && r.retrieved == s.retrieved
      && r.retrIndex == [] && r.trashList == []
      && r.state == if ToDelete(c, mails) == [] then s.state else WaitingForDeleResponse
  {
    var s, fetch := Done(c, mails), Opening(c, mails) + Messages(mails, NewMails(mails, c.rcv));
    assert UpToQuit(c, mails) == fetch + Times(|ToDelete(c, mails)|);
    RunConcat(Begin(c), fetch, Times(|ToDelete(c, mails)|));
    FetchEverything(c, mails);
    DeleteAll(s, ToDelete(c, mails));
    DeleteAllEnds(s, ToDelete(c, mails));
  }

  lemma {:induction false} NothingIsKnown(trash: seq<Uid>)
    ensures Known(trash, map[]) == []
    decreases |trash|
  {
    if trash != [] {
      NothingIsKnown(trash[1..]);
    }
  }

  /** There is something to delete exactly when there is a message. */
  lemma {:induction false} SomethingToDelete(c: Setup, mails: seq<Mail>)
    requires Mailbox(mails) && Proper(c) && !c.leave
    ensures ToDelete(c, mails) == [] <==> mails == []
  {
    DoneTrash(c, mails);
    if mails == [] {
      NothingIsKnown(Done(c, mails).trashList);
    } else {
      UidsFind(mails, 0);
      assert mails[0].uid in ToDelete(c, mails);
    }
  }

  /** What the reply to QUIT brings out. */
  lemma {:induction false} LastReply(c: Setup, mails: seq<Mail>, bye: Line)
    requires Mailbox(mails) && Proper(c) && !c.leave && bye.Ok()
    ensures
      var r, end := Run(Begin(c), UpToQuit(c, mails)), Run(Begin(c), ServerSide(c, mails, bye));
      end.sent == r.sent + QuitCommands(mails)[1..] && end.retrieved == r.retrieved
  {
    var r := Run(Begin(c), UpToQuit(c, mails));
    DoneTrash(c, mails);
    HonestRun(c, mails);
    SomethingToDelete(c, mails);
    RunConcat(Begin(c), UpToQuit(c, mails), [Reply(bye), Stopped]);
    Hangup(r, bye);
    if mails == [] {
      NextAllState(Sized(c, mails, |mails|), mails);
      ByeIgnored(r, bye);
      PlusEmpty(r.sent);
    } else {
      ByeTakenForDele(r, bye);
    }
  }

  lemma {:induction false} DeletesThem(s: Session, uids: seq<Uid>, mails: seq<Mail>)
    requires Mailbox(mails) && s.WellFormed() && s.uidlIndex == Uids(mails) && s.mails == Infos(mails, |mails|)
    requires InKeyOrder(s.trashList) && uids == Known(s.trashList, Uids(mails))
    requires forall i :: 0 <= i < |mails| ==> mails[i].uid in s.trashList
    ensures DeletesOnce(Deles(uids, s), |mails|)
    ensures forall i :: 0 <= i < |mails| ==> IsDeleted(Deles(uids, s), i)
  {
    KnownInOrder(s.trashList, Uids(mails));
    DelesOnce(s, uids, mails);
    forall i | 0 <= i < |mails| ensures IsDeleted(Deles(uids, s), i) {
      UidsFind(mails, i);
      DeleFor(s, uids, mails, i);
    }
  }

  lemma {:induction false} DelesOnce(s: Session, uids: seq<Uid>, mails: seq<Mail>)
    requires s.WellFormed() && s.uidlIndex == Uids(mails) && s.mails == Infos(mails, |mails|)
    requires InKeyOrder(uids) && forall u :: u in uids ==> u in s.uidlIndex
    ensures DeletesOnce(Deles(uids, s), |mails|)
  {
    var deles := Deles(uids, s);
    forall i | 0 <= i < |uids| ensures deles[i].Dele? && 1 <= deles[i].number <= |mails| {
      assert uids[i] in uids;
    }
    forall i, j | 0 <= i < j < |uids| ensures deles[i] != deles[j] {
      DeletesApart(s, uids, mails, i, j);
    }
  }

  /** Different uids have different numbers. */
  lemma {:induction false} DeletesApart(s: Session, uids: seq<Uid>, mails: seq<Mail>, i: nat, j: nat)
    requires s.WellFormed() && s.uidlIndex == Uids(mails) && s.mails == Infos(mails, |mails|)
    requires i < j < |uids| && Before(uids[i], uids[j]) && forall u :: u in uids ==> u in s.uidlIndex
    ensures Deles(uids, s)[i] != Deles(uids, s)[j]
  {
    UidsAre(mails);
    BeforeDiffers(uids[i], uids[j]);
    assert uids[i] in uids && uids[j] in uids;
  }

  lemma DeleFor(s: Session, uids: seq<Uid>, mails: seq<Mail>, i: nat)
    requires Mailbox(mails) && i < |mails| && s.WellFormed() && s.uidlIndex == Uids(mails)
    requires forall u :: u in uids ==> u in s.uidlIndex
    requires mails[i].uid in uids
    requires |s.mails| == |mails| && s.mails[i].retr == i + 1
    ensures IsDeleted(Deles(uids, s), i)
  {
    UidsFind(mails, i);
    var j :| 0 <= j < |uids| && uids[j] == mails[i].uid;
    assert Deles(uids, s)[j] == Dele(i + 1);
  }
}
