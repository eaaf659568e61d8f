/**
 A whole session with a conforming server over the bytes on the wire: its replies, in whatever
 words and however they are cut into portions, have the effect of the events that stand for them.
 */
module Pop3Wire {
  import opened Bytes
  import opened Common
  import opened Pop3Receiver
  import opened Pop3Session
  import opened Pop3Safety
  import opened Pop3Lines
  import opened Pop3Stream
  import opened Pop3Honest

  // -------------------------------------------------------------------------
  // Which text stands for an event

  /**
   A positive reply begins with "+OK", the end of a list with a dot; of a UIDL entry number and
   uid matter and of a LIST entry, which has no uid, number and size; a message line is what it is.
   */
  ghost predicate Tells(raw: seq<Byte>, e: Event, toULong: seq<Byte> -> nat) {
    && IsRaw(raw) && e.Reply?
    && var l, a := LineOf(raw, toULong), e.line;
       if a.item.Some? then !l.Dotted() && l.item.Some? && SameEntry(l.item.value, a.item.value)
       else if LF in a.text then l.text == a.text
       else if a.Dotted() then l.Dotted()
       else l.Ok()
  }

  predicate SameEntry(i: Item, j: Item) {
    i.number == j.number && if j.word != "" then i.word == j.word else i.size == j.size
  }

  ghost predicate Tell(raws: seq<seq<Byte>>, events: seq<Event>, toULong: seq<Byte> -> nat) {
    |raws| == |events| && forall i :: 0 <= i < |raws| ==> Tells(raws[i], events[i], toULong)
  }

  /** The session is in a state for this reply. */
  ghost predicate Expects(s: Session, e: Event)
    requires s.WellFormed()
  {
    && e.Reply? && Accepts(s, e.line)
    && var a := e.line;
       if a.item.Some? then
         !a.Dotted() && s.state == if a.item.value.word != "" then WaitingForUidlItems else WaitingForListItems
       else if LF in a.text then s.state == WaitingForRetrData
       else if a.Dotted() then s.state == WaitingForUidlItems || s.state == WaitingForListItems
       else a.Ok() && s.state != WaitingForUidlItems && s.state != WaitingForListItems && s.state != WaitingForRetrData
  }

  /** A UIDL entry and a LIST entry in the form of sections 5 and 7 of RFC 1939. */
  lemma EntryTells(n: nat, word: seq<Byte>, size: nat, toULong: seq<Byte> -> nat)
    requires IsWord(word) && toULong(Decimal(n)) == n && toULong(Decimal(size)) == size
    ensures Tells(EntryText(n, word), Entry(n, Chars(word), 0), toULong)
    ensures Tells(EntryText(n, Decimal(size)), Entry(n, "", size), toULong)
  {
    EntryIsRead(n, word, toULong);
    EntryIsRead(n, Decimal(size), toULong);
  }

  lemma {:induction false} SameEntryEffect(s: Session, l: Line, a: Line)
    requires s.WellFormed() && l.item.Some? && a.item.Some? && !l.Dotted() && !a.Dotted()
    requires SameEntry(l.item.value, a.item.value)
    requires s.state == if a.item.value.word != "" then WaitingForUidlItems else WaitingForListItems
    ensures OnLine(s, l) == OnLine(s, a) && Accepts(s, l)
  {
  }

  lemma {:induction false} SameEffect(s: Session, raw: seq<Byte>, e: Event, toULong: seq<Byte> -> nat)
    requires s.WellFormed() && Tells(raw, e, toULong) && Expects(s, e)
    ensures OnLine(s, LineOf(raw, toULong)) == Step(s, e) && Accepts(s, LineOf(raw, toULong))
  {
    if e.line.item.Some? {
      SameEntryEffect(s, LineOf(raw, toULong), e.line);
    }
  }

  /** The reply is expected, and the client goes on reading lines. */
  ghost predicate OneSmooth(s: Session, e: Event)
    requires s.WellFormed()
  {
    Expects(s, e) && Step(s, e).singleLine
  }

  ghost predicate SmoothAt(s: Session, events: seq<Event>, k: nat)
    requires s.WellFormed() && k < |events|
  {
    OneSmooth(Run(s, events[..k]), events[k])
  }

  ghost predicate Smooth(s: Session, events: seq<Event>)
    requires s.WellFormed()
  {
    forall k :: 0 <= k < |events| ==> SmoothAt(s, events, k)
  }

  lemma SmoothAtConcat(s: Session, a: seq<Event>, b: seq<Event>, k: nat)
    requires s.WellFormed() && k < |a + b|
    ensures SmoothAt(s, a + b, k) == if k < |a| then SmoothAt(s, a, k) else SmoothAt(Run(s, a), b, k - |a|)
  {
    if k < |a| {
      assert (a + b)[..k] == a[..k];
    } else {
      assert (a + b)[..k] == a + b[..k - |a|];
      RunConcat(s, a, b[..k - |a|]);
    }
  }

  lemma SmoothConcat(s: Session, a: seq<Event>, b: seq<Event>)
    requires s.WellFormed() && Smooth(s, a) && Smooth(Run(s, a), b)
    ensures Smooth(s, a + b)
  {
    forall k | 0 <= k < |a + b| ensures SmoothAt(s, a + b, k) {
      SmoothAtConcat(s, a, b, k);
    }
  }

  lemma SmoothCons(s: Session, e: Event, events: seq<Event>)
    requires s.WellFormed() && Expects(s, e) && Step(s, e).singleLine && Smooth(Step(s, e), events)
    ensures Smooth(s, [e] + events)
  {
    SmoothOne(s, e);
    RunOne(s, e);
    SmoothConcat(s, [e], events);
  }

  lemma SmoothFirst(s: Session, events: seq<Event>)
    requires s.WellFormed() && Smooth(s, events) && events != []
    ensures OneSmooth(s, events[0])
  {
    assert events[..0] == [];
    assert SmoothAt(s, events, 0);
  }

  lemma SmoothLater(s: Session, events: seq<Event>)
    requires s.WellFormed() && Smooth(s, events) && events != []
    ensures Smooth(Step(s, events[0]), events[1..])
  {
    var e, later := [events[0]], events[1..];
    assert events == e + later;
    RunOne(s, events[0]);
    forall k | 0 <= k < |later| ensures SmoothAt(Run(s, e), later, k) {
      SmoothAtConcat(s, e, later, k + 1);
      assert SmoothAt(s, events, k + 1);
    }
  }

  lemma SmoothOne(s: Session, e: Event)
    requires s.WellFormed() && Expects(s, e) && Step(s, e).singleLine
    ensures Smooth(s, [e])
  {
    assert [e][..0] == [];
  }

  lemma {:induction false} SmoothIsSingle(s: Session, events: seq<Event>)
    requires s.WellFormed() && s.singleLine && Smooth(s, events)
    ensures Run(s, events).singleLine
    decreases |events|
  {
    if events != [] {
      SmoothFirst(s, events);
      SmoothLater(s, events);
      SmoothIsSingle(Step(s, events[0]), events[1..]);
    }
  }

  /** Reading the lines has the effect of the events that they stand for. */
  lemma {:induction false} SmoothReads(s: Session, raws: seq<seq<Byte>>, events: seq<Event>, toULong: seq<Byte> -> nat)
    requires s.WellFormed() && Smooth(s, events) && Tell(raws, events, toULong)
    ensures ReadLines(s, Concat(raws), toULong) == Reading(Run(s, events), [], true)
    decreases |events|
  {
    if events != [] {
      var raw, more := raws[0], Concat(raws[1..]);
      SmoothFirst(s, events);
      SmoothLater(s, events);
      assert Tells(raw, events[0], toULong);
      LineLengthOf(raw, more);
      CutSum(raw, more, 0);
      assert (raw + more)[..|raw|] == raw;
      SameEffect(s, raw, events[0], toULong);
      forall i | 0 <= i < |raws| - 1 ensures Tells(raws[1..][i], events[1..][i], toULong) {
        assert Tells(raws[i + 1], events[i + 1], toULong);
      }
      SmoothReads(Step(s, events[0]), raws[1..], events[1..], toULong);
    }
  }

  /** Portions of lines that stand for the events. */
  ghost predicate Lines(portions: seq<seq<Byte>>, events: seq<Event>, toULong: seq<Byte> -> nat) {
    exists raws :: Tell(raws, events, toULong) && IsCutting(portions, Concat(raws))
  }

  lemma {:induction false} DeliverLines(s: Session, portions: seq<seq<Byte>>, events: seq<Event>,
                                        toULong: seq<Byte> -> nat)
    requires s.WellFormed() && s.singleLine && Smooth(s, events) && Lines(portions, events, toULong)
    ensures Deliver(Stream(s, []), portions, toULong) == Stream(Run(s, events), [])
    ensures Run(s, events).singleLine
  {
    var raws :| Tell(raws, events, toULong) && IsCutting(portions, Concat(raws));
    SmoothReads(s, raws, events, toULong);
    SmoothIsSingle(s, events);
    PlusEmpty(Concat(portions));
    LinesInPortions(Stream(s, []), portions, toULong);
  }

  lemma {:induction false} DeliverConcat(now: Stream, a: seq<seq<Byte>>, b: seq<seq<Byte>>, toULong: seq<Byte> -> nat)
    requires now.session.WellFormed()
    ensures Deliver(now, a + b, toULong) == Deliver(Deliver(now, a, toULong), b, toULong)
    decreases |a|
  {
    if a == [] {
      assert a + b == b;
    } else {
      assert (a + b)[1..] == a[1..] + b && (a + b)[0] == a[0];
      DeliverConcat(ReadyRead(now.session, now.pending + a[0], toULong), a[1..], b, toULong);
    }
  }

  // -------------------------------------------------------------------------
  // Up to the end of the lists

  lemma {:induction false} SmoothOk(s: Session)
    requires s.WellFormed() && s.singleLine && Early(s.state) && s.state != WaitingForUidlItems
    requires s.state == WaitingForSTARTTLS ==> s.tlsWorks
    ensures Smooth(s, [OK])
  {
    assert OK.line.text[..3] == [43, 79, 75];
    OkStep(s);
    SmoothOne(s, OK);
  }

  lemma {:induction false} SmoothTwo(s: Session)
    requires s.WellFormed() && Smooth(s, [OK]) && Smooth(Step(s, OK), [OK])
    ensures Smooth(s, [OK, OK])
  {
    RunOne(s, OK);
    SmoothConcat(s, [OK], [OK]);
    assert [OK] + [OK] == [OK, OK];
  }

  lemma {:induction false} SmoothLogIn(c: Setup)
    requires c.starttls ==> c.tls
    ensures Smooth(Begin(c), LogInReplies(c))
  {
    var tls := if c.starttls then [OK] else [];
    SmoothOk(Begin(c));
    Secure(c);
    SmoothTwoOks(Secured(c));
    GiveNameAndPassword(c);
    SmoothTwoOks(Asked(c));
    SmoothConcat(Secured(c), [OK, OK], [OK, OK]);
    SmoothConcat(Begin(c), tls, [OK, OK] + [OK, OK]);
  }

  lemma {:induction false} SmoothTwoOks(s: Session)
    requires s.WellFormed() && s.singleLine && (s.state == WaitingForSTARTTLS ==> s.tlsWorks)
    requires s.state == WaitingForSTARTTLS || s.state == WaitingForPassResponse
             || (s.state == WaitingForConnection && !s.starttls)
    ensures Smooth(s, [OK, OK])
  {
    SmoothOk(s);
    OkStep(s);
    SmoothOk(Step(s, OK));
    SmoothTwo(s);
  }

  lemma {:induction false} SmoothUidl(c: Setup, mails: seq<Mail>)
    requires forall i :: 0 <= i < |mails| ==> mails[i].uid != ""
    ensures Smooth(Listed(c, []), UidlEntries(mails))
    decreases |mails|
  {
    if mails != [] {
      var n := |mails| - 1;
      SmoothUidl(c, mails[..n]);
      ListAll(c, mails[..n]);
      LastEntry(mails);
      SmoothEntry(c, mails);
      SmoothConcat(Listed(c, []), UidlEntries(mails[..n]), [Entry(n + 1, mails[n].uid, 0)]);
    }
  }

  lemma {:induction false} SmoothEntry(c: Setup, mails: seq<Mail>)
    requires mails != [] && mails[|mails| - 1].uid != ""
    ensures
      var n := |mails| - 1;
      Smooth(Listed(c, mails[..n]), [Entry(n + 1, mails[n].uid, 0)])
  {
    var n := |mails| - 1;
    ListOne(c, mails);
    SmoothOne(Listed(c, mails[..n]), Entry(n + 1, mails[n].uid, 0));
  }

  lemma {:induction false} SmoothSizes(c: Setup, mails: seq<Mail>, k: nat)
    requires k <= |mails|
    ensures Smooth(Sized(c, mails, k), ListEntries(mails)[k..])
    decreases |mails| - k
  {
    var events := ListEntries(mails)[k..];
    if k < |mails| {
      assert events[0] == Entry(k + 1, "", mails[k].size);
      assert events[1..] == ListEntries(mails)[k + 1..];
      SizeOne(c, mails, k);
      SmoothSizes(c, mails, k + 1);
      SmoothCons(Sized(c, mails, k), events[0], events[1..]);
      assert [events[0]] + events[1..] == events;
    }
  }

  lemma {:induction false} SmoothEndAndOk(c: Setup, mails: seq<Mail>)
    ensures Smooth(Listed(c, mails), [END_OF_LIST, OK])
  {
    var s := Listed(c, mails);
    SmoothOne(s, END_OF_LIST);
    RunOne(s, END_OF_LIST);
    SmoothOk(Step(s, END_OF_LIST));
    SmoothConcat(s, [END_OF_LIST], [OK]);
    assert [END_OF_LIST] + [OK] == [END_OF_LIST, OK];
  }

  lemma {:induction false} SmoothListReply(c: Setup, mails: seq<Mail>)
    ensures Smooth(Sized(c, mails, 0), ListEntries(mails) + [END_OF_LIST])
  {
    assert ListEntries(mails)[0..] == ListEntries(mails);
    SmoothSizes(c, mails, 0);
    SizeAll(c, mails, 0);
    SmoothOne(Sized(c, mails, |mails|), END_OF_LIST);
    SmoothConcat(Sized(c, mails, 0), ListEntries(mails), [END_OF_LIST]);
  }

  lemma {:induction false} SmoothLists(c: Setup, mails: seq<Mail>)
    ensures Smooth(Listed(c, mails), [END_OF_LIST, OK] + (ListEntries(mails) + [END_OF_LIST]))
  {
    SmoothEndAndOk(c, mails);
    AskForSizes(c, mails);
    SmoothListReply(c, mails);
    SmoothConcat(Listed(c, mails), [END_OF_LIST, OK], ListEntries(mails) + [END_OF_LIST]);
  }

  lemma {:induction false} SmoothOpening(c: Setup, mails: seq<Mail>)
    requires c.starttls ==> c.tls
    requires forall i :: 0 <= i < |mails| ==> mails[i].uid != ""
    ensures Smooth(Begin(c), Opening(c, mails))
  {
    var lists := [END_OF_LIST, OK] + (ListEntries(mails) + [END_OF_LIST]);
    SmoothLogIn(c);
    LogIn(c);
    SmoothUidl(c, mails);
    ListAll(c, mails);
    SmoothLists(c, mails);
    SmoothConcat(Listed(c, []), UidlEntries(mails), lists);
    SmoothConcat(Begin(c), LogInReplies(c), UidlEntries(mails) + lists);
  }

  // -------------------------------------------------------------------------
  // A message of unknown size

  /** The lines of the reply, each with CR LF, and the final one. */
  function WireLines(lines: seq<seq<Byte>>): seq<seq<Byte>> {
    if lines == [] then [[DOT, CR, LF]] else [Stuff(lines[0]) + [CR, LF]] + WireLines(lines[1..])
  }

  lemma {:induction false} WireIsLines(lines: seq<seq<Byte>>)
    ensures Concat(WireLines(lines)) == Wire(lines)
    decreases |lines|
  {
    if lines == [] {
      PlusEmpty([DOT, CR, LF]);
    } else {
      WireIsLines(lines[1..]);
      var first := Stuff(lines[0]) + [CR, LF];
      assert ([first] + WireLines(lines[1..]))[1..] == WireLines(lines[1..]);
      Assoc(Stuff(lines[0]), [CR, LF], Wire(lines[1..]));
    }
  }

  lemma {:induction false} MessageLineTells(line: seq<Byte>, toULong: seq<Byte> -> nat)
    requires IsLine(line)
    ensures Tells(Stuff(line) + [CR, LF], Reply(Line(Stuff(line) + [CR, LF], None)), toULong)
  {
    var raw := Stuff(line) + [CR, LF];
    StuffedIsRaw(line);
    CStringKeeps(raw);
    assert raw[|raw| - 1] == LF;
  }

  lemma StuffedIsRaw(line: seq<Byte>)
    requires IsLine(line)
    ensures IsRaw(Stuff(line) + [CR, LF]) && NUL !in Stuff(line) + [CR, LF]
  {
    var raw := Stuff(line) + [CR, LF];
    assert raw[..|raw| - 1] == Stuff(line) + [CR];
  }

  lemma LastLineTells(toULong: seq<Byte> -> nat)
    ensures Tells([DOT, CR, LF], Reply(Line([DOT, CR, LF], None)), toULong)
  {
    var raw: seq<Byte> := [DOT, CR, LF];
    assert raw[..2] == [DOT, CR] && raw[2] == LF;
    CStringKeeps(raw);
  }

  lemma {:induction false} WireTells(lines: seq<seq<Byte>>, toULong: seq<Byte> -> nat)
    requires AreLines(lines)
    ensures Tell(WireLines(lines), LineReplies(lines), toULong)
    decreases |lines|
  {
    if lines == [] {
      LastLineTells(toULong);
    } else {
      assert IsLine(lines[0]);
      forall i | 0 <= i < |lines| - 1 ensures IsLine(lines[1..][i]) {
        assert IsLine(lines[i + 1]);
      }
      MessageLineTells(lines[0], toULong);
      WireTells(lines[1..], toULong);
      TellCons(Stuff(lines[0]) + [CR, LF], Reply(Line(Stuff(lines[0]) + [CR, LF], None)),
               WireLines(lines[1..]), LineReplies(lines[1..]), toULong);
    }
  }

  lemma TellCons(raw: seq<Byte>, e: Event, raws: seq<seq<Byte>>, events: seq<Event>, toULong: seq<Byte> -> nat)
    requires Tells(raw, e, toULong) && Tell(raws, events, toULong)
    ensures Tell([raw] + raws, [e] + events, toULong)
  {
    forall i | 0 <= i < |raws| + 1 ensures Tells(([raw] + raws)[i], ([e] + events)[i], toULong) {
      if i > 0 {
        assert Tells(raws[i - 1], events[i - 1], toULong);
      }
    }
  }

  lemma {:induction false} SmoothMessage(s: Session, lines: seq<seq<Byte>>)
    requires s.WellFormed() && s.state == WaitingForRetrData && s.singleLine && HasCurrent(s)
    ensures Smooth(s, LineReplies(lines))
    decreases |lines|
  {
    if lines == [] {
      var last := Reply(Line([DOT, CR, LF], None));
      assert last.line.text[2] == LF;
      SmoothOne(s, last);
    } else {
      SmoothMessageLine(s, lines[0]);
      SmoothMessage(Buffered(s, lines[0] + [CR, LF]), lines[1..]);
      SmoothCons(s, Reply(Line(Stuff(lines[0]) + [CR, LF], None)), LineReplies(lines[1..]));
    }
  }

  lemma {:induction false} SmoothMessageLine(s: Session, line: seq<Byte>)
    requires s.WellFormed() && s.state == WaitingForRetrData && s.singleLine && HasCurrent(s)
    ensures
      var e := Reply(Line(Stuff(line) + [CR, LF], None));
      OneSmooth(s, e) && Step(s, e) == Buffered(s, line + [CR, LF])
  {
    var text := Stuff(line) + [CR, LF];
    assert text[|Stuff(line)| + 1] == LF;
    OneLine(s, line);
    NotTheEnd(line);
  }

  lemma NotTheEnd(line: seq<Byte>)
    ensures !Line(Stuff(line) + [CR, LF], None).BareDot()
  {
    var text := Stuff(line) + [CR, LF];
    if StartsWithDot(line) {
      assert text[1] == DOT;
    }
  }

  lemma {:induction false} SmoothUnsized(s: Session, m: Mail)
    requires s.WellFormed() && HasCurrent(s) && s.mails[s.retrIndex[0]].size == 0
    ensures Smooth(RetrieveDeleteOrQuit(s), [OK] + LineReplies(m.lines))
  {
    var s1 := RetrieveDeleteOrQuit(s);
    assert OK.line.text[..3] == [43, 79, 75];
    RetrOkUnsized(s);
    SmoothOne(s1, OK);
    RunOne(s1, OK);
    SmoothMessage(Step(s1, OK), m.lines);
    SmoothConcat(s1, [OK], LineReplies(m.lines));
  }

  // -------------------------------------------------------------------------
  // A message of known size

  /** Blocks are taken as they come, up to the one that completes the message. */
  lemma {:induction false} DeliverBlocks(s: Session, blocks: seq<seq<Byte>>, toULong: seq<Byte> -> nat)
    requires s.WellFormed() && s.state == WaitingForRetrData && !s.singleLine && !s.receipt.end
    requires forall i :: 0 <= i < |blocks| ==> blocks[i] != []
    requires forall k :: 0 <= k < |blocks| ==> !FeedAll(s.receipt, blocks[..k]).end
    ensures Deliver(Stream(s, []), blocks, toULong) == Stream(Run(s, Blocks(blocks)), [])
    decreases |blocks|
  {
    if blocks != [] {
      var events := Blocks(blocks);
      assert events[0] == Data(blocks[0]) && events[1..] == Blocks(blocks[1..]);
      PlusEmpty(blocks[0]);
      var s' := Step(s, events[0]);
      if |blocks| > 1 {
        MoreBlocks(s, blocks);
        DeliverBlocks(s', blocks[1..], toULong);
      }
    }
  }

  lemma {:induction false} MoreBlocks(s: Session, blocks: seq<seq<Byte>>)
    requires s.WellFormed() && s.state == WaitingForRetrData && |blocks| > 1
    requires forall k :: 0 <= k < |blocks| ==> !FeedAll(s.receipt, blocks[..k]).end
    ensures
      var r := Feed(s.receipt, blocks[0]);
      && Step(s, Data(blocks[0])) == s.(receipt := r) && !r.end
      && forall k :: 0 <= k < |blocks[1..]| ==> !FeedAll(r, blocks[1..][..k]).end
  {
    var r := Feed(s.receipt, blocks[0]);
    assert blocks[..1] == [blocks[0]];
    assert FeedAll(s.receipt, blocks[..1]) == r;
    forall k | 0 <= k < |blocks| - 1 ensures !FeedAll(r, blocks[1..][..k]).end {
      assert blocks[..k + 1][1..] == blocks[1..][..k];
      assert !FeedAll(s.receipt, blocks[..k + 1]).end;
    }
  }

  /** The reply line to RETR, however it is cut, and what follows it: that comes as blocks. */
  lemma {:induction false} ReplyThenBlocks(s: Session, pending: seq<Byte>, portions: seq<seq<Byte>>, raw: seq<Byte>,
                                           wire: seq<Byte>, toULong: seq<Byte> -> nat)
    returns (blocks: seq<seq<Byte>>)
    requires s.WellFormed() && s.singleLine && IsRaw(raw) && Accepts(s, LineOf(raw, toULong))
    requires !OnLine(s, LineOf(raw, toULong)).singleLine && |pending| < |raw|
    requires pending + Concat(portions) == raw + wire && forall i :: 0 <= i < |portions| ==> portions[i] != []
    ensures IsCutting(blocks, wire)
    ensures Deliver(Stream(s, pending), portions, toULong)
            == Deliver(Stream(OnLine(s, LineOf(raw, toULong)), []), blocks, toULong)
    decreases |portions|
  {
    if portions == [] {
      assert false;
    } else {
      var stream, more := pending + portions[0], Concat(portions[1..]);
      Assoc(pending, portions[0], more);
      if |stream| < |raw| {
        ShortOfLine(stream, more, raw, wire);
        blocks := ReplyThenBlocks(s, stream, portions[1..], raw, wire, toULong);
      } else {
        blocks := TailThenBlocks(s, stream, portions[1..], raw, wire, toULong);
      }
    }
  }

  lemma ShortOfLine(stream: seq<Byte>, more: seq<Byte>, raw: seq<Byte>, wire: seq<Byte>)
    requires IsRaw(raw) && stream + more == raw + wire && |stream| < |raw|
    ensures LineLength(stream) == 0
  {
    forall i | 0 <= i < |stream| ensures stream[i] != LF {
      assert stream[i] == (stream + more)[i] == (raw + wire)[i] == raw[..|raw| - 1][i];
    }
  }

  lemma TailOf(stream: seq<Byte>, more: seq<Byte>, raw: seq<Byte>, wire: seq<Byte>)
    requires stream + more == raw + wire && |stream| >= |raw|
    ensures stream == raw + stream[|raw|..] && wire == stream[|raw|..] + more
  {
    assert stream == (stream + more)[..|stream|] == (raw + wire)[..|stream|];
    assert wire == (raw + wire)[|raw|..] == (stream + more)[|raw|..];
  }

  /** The reply line turns the client to blocks; what has arrived behind it is the first one. */
  lemma {:induction false} ReadReply(s: Session, raw: seq<Byte>, tail: seq<Byte>, toULong: seq<Byte> -> nat)
    requires s.WellFormed() && s.singleLine && IsRaw(raw) && Accepts(s, LineOf(raw, toULong))
    requires !OnLine(s, LineOf(raw, toULong)).singleLine
    ensures
      var s1 := OnLine(s, LineOf(raw, toULong));
      ReadyRead(s, raw + tail, toULong) == if tail == [] then Stream(s1, []) else Stream(Step(s1, Data(tail)), [])
  {
    LineLengthOf(raw, tail);
    assert (raw + tail)[..|raw|] == raw && (raw + tail)[|raw|..] == tail;
  }

  lemma {:induction false} TailThenBlocks(s: Session, stream: seq<Byte>, portions: seq<seq<Byte>>, raw: seq<Byte>,
                                          wire: seq<Byte>, toULong: seq<Byte> -> nat)
    returns (blocks: seq<seq<Byte>>)
    requires s.WellFormed() && s.singleLine && IsRaw(raw) && Accepts(s, LineOf(raw, toULong))
    requires !OnLine(s, LineOf(raw, toULong)).singleLine && |stream| >= |raw|
    requires stream + Concat(portions) == raw + wire && forall i :: 0 <= i < |portions| ==> portions[i] != []
    ensures IsCutting(blocks, wire)
    ensures Deliver(ReadyRead(s, stream, toULong), portions, toULong)
            == Deliver(Stream(OnLine(s, LineOf(raw, toULong)), []), blocks, toULong)
  {
    var tail := stream[|raw|..];
    TailOf(stream, Concat(portions), raw, wire);
    ReadReply(s, raw, tail, toULong);
    if tail == [] {
      PlusEmpty(Concat(portions));
      blocks := portions;
    } else {
      blocks := [tail] + portions;
      assert blocks[1..] == portions;
      FirstBlock(OnLine(s, LineOf(raw, toULong)), tail, portions, toULong);
    }
  }

  lemma {:induction false} FirstBlock(s: Session, block: seq<Byte>, portions: seq<seq<Byte>>, toULong: seq<Byte> -> nat)
    requires s.WellFormed() && !s.singleLine && block != []
    ensures Deliver(Stream(s, []), [block] + portions, toULong)
            == Deliver(Stream(Step(s, Data(block)), []), portions, toULong)
  {
    assert ([block] + portions)[1..] == portions;
    PlusEmpty(block);
  }

  // -------------------------------------------------------------------------
  // Messages and deletions

  /** A reply to RETR with the message, in portions. */
  ghost predicate Fetch(portions: seq<seq<Byte>>, m: Mail, toULong: seq<Byte> -> nat) {
    exists raw :: Tells(raw, OK, toULong) && IsCutting(portions, raw + Wire(m.lines))
  }

  lemma {:induction false} DeliverSized(s: Session, m: Mail, portions: seq<seq<Byte>>, toULong: seq<Byte> -> nat)
    requires s.WellFormed() && HasCurrent(s) && s.receipt == FRESH && Sendable(m) && m.size > 0
    requires s.mails[s.retrIndex[0]].uid == m.uid && s.mails[s.retrIndex[0]].size == m.size
    requires Fetch(portions, m, toULong)
    ensures Deliver(Stream(RetrieveDeleteOrQuit(s), []), portions, toULong)
            == Stream(RetrieveDeleteOrQuit(Next(s, m)), [])
  {
    var raw :| Tells(raw, OK, toULong) && IsCutting(portions, raw + Wire(m.lines));
    var s1 := RetrieveDeleteOrQuit(s);
    var s2 := Step(s1, OK);
    assert OK.line.text[..3] == [43, 79, 75];
    RetrOk(s);
    SameEffect(s1, raw, OK, toULong);
    PlusEmpty(Concat(portions));
    var blocks := ReplyThenBlocks(s1, [], portions, raw, Wire(m.lines), toULong);
    ReceiveAny(m.lines, blocks);
    DeliverBlocks(s2, blocks, toULong);
    var m' := m.(blocks := blocks);
    FetchSized(s, m');
    RunConcat(s1, [OK], Blocks(blocks));
    RunOne(s1, OK);
    assert Next(s, m') == Next(s, m);
  }

  lemma {:induction false} DeliverUnsized(s: Session, m: Mail, portions: seq<seq<Byte>>, toULong: seq<Byte> -> nat)
    requires s.WellFormed() && HasCurrent(s) && s.receipt == FRESH && Sendable(m) && m.size == 0
    requires s.mails[s.retrIndex[0]].uid == m.uid && s.mails[s.retrIndex[0]].size == m.size
    requires Fetch(portions, m, toULong)
    ensures Deliver(Stream(RetrieveDeleteOrQuit(s), []), portions, toULong)
            == Stream(RetrieveDeleteOrQuit(Next(s, m)), [])
  {
    var raw :| Tells(raw, OK, toULong) && IsCutting(portions, raw + Wire(m.lines));
    var raws, events := [raw] + WireLines(m.lines), [OK] + LineReplies(m.lines);
    WireTells(m.lines, toULong);
    TellCons(raw, OK, WireLines(m.lines), LineReplies(m.lines), toULong);
    WireIsLines(m.lines);
    assert raws[1..] == WireLines(m.lines);
    assert Concat(raws) == raw + Wire(m.lines);
    SmoothUnsized(s, m);
    DeliverLines(RetrieveDeleteOrQuit(s), portions, events, toULong);
    FetchUnsized(s, m);
  }

  lemma {:induction false} DeliverOne(s: Session, m: Mail, portions: seq<seq<Byte>>, toULong: seq<Byte> -> nat)
    requires s.WellFormed() && HasCurrent(s) && s.receipt == FRESH && Sendable(m) && Fetch(portions, m, toULong)
    requires s.mails[s.retrIndex[0]].uid == m.uid && s.mails[s.retrIndex[0]].size == m.size
    ensures Deliver(Stream(RetrieveDeleteOrQuit(s), []), portions, toULong)
            == Stream(RetrieveDeleteOrQuit(Next(s, m)), [])
  {
    if m.size > 0 {
      DeliverSized(s, m, portions, toULong);
    } else {
      DeliverUnsized(s, m, portions, toULong);
    }
  }

  lemma {:induction false} DeliverAll(s: Session, mails: seq<Mail>, fetches: seq<seq<seq<Byte>>>,
                                      toULong: seq<Byte> -> nat)
    requires Mailbox(mails) && s.WellFormed() && s.receipt == FRESH && s.mails == Infos(mails, |mails|)
    requires |fetches| == |s.retrIndex|
    requires forall k :: 0 <= k < |fetches| ==> Fetch(fetches[k], mails[s.retrIndex[k]], toULong)
    ensures Deliver(Stream(RetrieveDeleteOrQuit(s), []), Concat(fetches), toULong)
            == Stream(RetrieveDeleteOrQuit(NextAll(s, mails)), [])
    decreases |s.retrIndex|
  {
    if fetches != [] {
      var m := mails[s.retrIndex[0]];
      assert Fetch(fetches[0], m, toULong) && Sendable(m);
      var now := Stream(RetrieveDeleteOrQuit(s), []);
      DeliverConcat(now, fetches[0], Concat(fetches[1..]), toULong);
      DeliverOne(s, m, fetches[0], toULong);
      forall k | 0 <= k < |fetches| - 1
        ensures Fetch(fetches[1..][k], mails[Next(s, m).retrIndex[k]], toULong)
      {
        assert Fetch(fetches[k + 1], mails[s.retrIndex[k + 1]], toULong);
      }
      DeliverAll(Next(s, m), mails, fetches[1..], toULong);
    }
  }

  lemma DeleExpectsOk(s: Session)
    requires s.WellFormed() && s.state == WaitingForDeleResponse
    ensures Expects(s, OK) && Step(s, OK).singleLine
  {
    assert OK.line.text[..3] == [43, 79, 75];
  }

  /** The reply to one DELE, when those to the others are expected. */
  lemma {:induction false} SmoothDele(s: Session, s1: Session, n: nat)
    requires s.WellFormed() && s.retrIndex == [] && !s.leave
    requires
      var (found, rest) := NextTrash(s.trashList, s.uidlIndex);
      found.Some? && s1 == AfterDele(s, found.value, rest)
    requires s1.WellFormed() && Smooth(RetrieveDeleteOrQuit(s1), Times(n))
    ensures Smooth(RetrieveDeleteOrQuit(s), Times(n + 1))
  {
    DeleteOne(s);
    DeleExpectsOk(s1);
    SmoothCons(s1, OK, Times(n));
    assert [OK] + Times(n) == Times(n + 1);
  }

  lemma {:induction false} SmoothDeles(s: Session)
    requires s.WellFormed() && s.retrIndex == [] && !s.leave
    ensures Smooth(RetrieveDeleteOrQuit(s), Times(|Known(s.trashList, s.uidlIndex)|))
    decreases |s.trashList|
  {
    TakesFirstKnown(s.trashList, s.uidlIndex);
    var (found, rest) := NextTrash(s.trashList, s.uidlIndex);
    if found.None? {
      SmoothNothing(RetrieveDeleteOrQuit(s));
    } else {
      var s1 := AfterDele(s, found.value, rest);
      SmoothDeles(s1);
      SmoothDele(s, s1, |Known(rest, s.uidlIndex)|);
    }
  }

  lemma SmoothNothing(s: Session)
    requires s.WellFormed()
    ensures Smooth(s, Times(0))
  {
  }

  // -------------------------------------------------------------------------
  // The whole session

  lemma ReadNothing(s: Session, toULong: seq<Byte> -> nat)
    requires s.WellFormed()
    ensures ReadLines(s, [], toULong) == Reading(s, [], true)
  {
  }

  lemma {:induction false} ReadOneLine(s: Session, raw: seq<Byte>, toULong: seq<Byte> -> nat)
    requires s.WellFormed() && s.singleLine && IsRaw(raw)
    ensures ReadyRead(s, raw, toULong) == Stream(OnLine(s, LineOf(raw, toULong)), [])
  {
    PlusEmpty(raw);
    LineLengthOf(raw, []);
    assert raw[..|raw|] == raw && raw[|raw|..] == [];
    ReadNothing(OnLine(s, LineOf(raw, toULong)), toULong);
  }

  /** One line in portions; nothing follows it. */
  lemma {:induction false} DeliverLast(s: Session, pending: seq<Byte>, portions: seq<seq<Byte>>, raw: seq<Byte>,
                                       toULong: seq<Byte> -> nat)
    requires s.WellFormed() && s.singleLine && IsRaw(raw) && |pending| < |raw|
    requires pending + Concat(portions) == raw && forall i :: 0 <= i < |portions| ==> portions[i] != []
    ensures Deliver(Stream(s, pending), portions, toULong) == Stream(OnLine(s, LineOf(raw, toULong)), [])
    decreases |portions|
  {
    if portions == [] {
      assert false;
    } else {
      var stream, more := pending + portions[0], Concat(portions[1..]);
      Assoc(pending, portions[0], more);
      PlusEmpty(raw);
      if |stream| < |raw| {
        ShortOfLine(stream, more, raw, []);
        DeliverLast(s, stream, portions[1..], raw, toULong);
      } else {
        assert more == [] && stream == raw;
        NothingMore(portions[1..]);
        ReadOneLine(s, raw, toULong);
      }
    }
  }

  lemma NothingMore(portions: seq<seq<Byte>>)
    requires Concat(portions) == [] && forall i :: 0 <= i < |portions| ==> portions[i] != []
    ensures portions == []
  {
  }

  /**
   What the server sends, portion by portion: up to the end of the lists, the reply to each
   RETR, the replies to the DELEs, and the reply to QUIT.
   */
  datatype Traffic = Traffic(opening: seq<seq<Byte>>, fetches: seq<seq<seq<Byte>>>, deletions: seq<seq<Byte>>,
                             bye: seq<seq<Byte>>)
  {
    function All(): seq<seq<Byte>> {
      opening + (Concat(fetches) + (deletions + bye))
    }
  }

  /** The server conforms; no portion has bytes of two of these. */
  ghost predicate Conforms(t: Traffic, c: Setup, mails: seq<Mail>, bye: seq<Byte>, toULong: seq<Byte> -> nat) {
    && Lines(t.opening, Opening(c, mails), toULong)
    && |t.fetches| == |NewMails(mails, c.rcv)|
    && (forall k :: 0 <= k < |t.fetches| ==> Fetch(t.fetches[k], mails[NewMails(mails, c.rcv)[k]], toULong))
    && Lines(t.deletions, Times(|ToDelete(c, mails)|), toULong)
    && Tells(bye, OK, toULong) && IsCutting(t.bye, bye)
  }

  lemma {:induction false} DeliverOpening(c: Setup, mails: seq<Mail>, portions: seq<seq<Byte>>,
                                          toULong: seq<Byte> -> nat)
    requires Mailbox(mails) && Proper(c) && Lines(portions, Opening(c, mails), toULong)
    ensures Deliver(Stream(Begin(c), []), portions, toULong)
            == Stream(RetrieveDeleteOrQuit(Sized(c, mails, |mails|)), [])
  {
    forall i | 0 <= i < |mails| ensures mails[i].uid != "" {
      assert Sendable(mails[i]);
    }
    SmoothOpening(c, mails);
    DeliverLines(Begin(c), portions, Opening(c, mails), toULong);
    Open(c, mails);
  }

  lemma {:induction false} DeliverDeletions(c: Setup, mails: seq<Mail>, portions: seq<seq<Byte>>,
                                            toULong: seq<Byte> -> nat)
    requires Mailbox(mails) && Proper(c) && Lines(portions, Times(|ToDelete(c, mails)|), toULong)
    ensures
      var s := Run(RetrieveDeleteOrQuit(Done(c, mails)), Times(|ToDelete(c, mails)|));
      Deliver(Stream(RetrieveDeleteOrQuit(Done(c, mails)), []), portions, toULong) == Stream(s, []) && s.singleLine
  {
    if c.leave {
      assert Times(0) == [];
    } else {
      DoneTrash(c, mails);
      SmoothDeles(Done(c, mails));
    }
    DeliverLines(RetrieveDeleteOrQuit(Done(c, mails)), portions, Times(|ToDelete(c, mails)|), toULong);
  }

  lemma {:induction false} DeliverUpToQuit(t: Traffic, c: Setup, mails: seq<Mail>, bye: seq<Byte>,
                                           toULong: seq<Byte> -> nat)
    requires Mailbox(mails) && Proper(c) && Conforms(t, c, mails, bye, toULong)
    ensures
      var s := Run(Begin(c), UpToQuit(c, mails));
      && Deliver(Stream(Begin(c), []), t.opening + (Concat(t.fetches) + t.deletions), toULong) == Stream(s, [])
      && s.singleLine
  {
    var fetch, deles := Messages(mails, NewMails(mails, c.rcv)), Times(|ToDelete(c, mails)|);
    DeliverConcat(Stream(Begin(c), []), t.opening, Concat(t.fetches) + t.deletions, toULong);
    DeliverOpening(c, mails, t.opening, toULong);
    var s := Sized(c, mails, |mails|);
    DeliverConcat(Stream(RetrieveDeleteOrQuit(s), []), Concat(t.fetches), t.deletions, toULong);
    DeliverAll(s, mails, t.fetches, toULong);
    DeliverDeletions(c, mails, t.deletions, toULong);
    FetchEverything(c, mails);
    RunConcat(Begin(c), Opening(c, mails) + fetch, deles);
    Assoc(Opening(c, mails), fetch, deles);
  }

  /**
   However the server words its replies and however they are cut, the session over the bytes is
   the session over the events, and no byte is left over.
   */
  lemma {:induction false} WireSession(t: Traffic, c: Setup, mails: seq<Mail>, bye: seq<Byte>,
                                       toULong: seq<Byte> -> nat)
    requires Mailbox(mails) && Proper(c) && Conforms(t, c, mails, bye, toULong)
    ensures
      var r := Deliver(Stream(Begin(c), []), t.All(), toULong);
      && r.pending == []
      && Stop(r.session) == Run(Begin(c), ServerSide(c, mails, LineOf(bye, toULong)))
  {
    var front := t.opening + (Concat(t.fetches) + t.deletions);
    DeliverUpToQuit(t, c, mails, bye, toULong);
    AllOf(t);
    DeliverConcat(Stream(Begin(c), []), front, t.bye, toULong);
    PlusEmpty(Concat(t.bye));
    DeliverLast(Run(Begin(c), UpToQuit(c, mails)), [], t.bye, bye, toULong);
    RunConcat(Begin(c), UpToQuit(c, mails), [Reply(LineOf(bye, toULong)), Stopped]);
    LastTwo(Run(Begin(c), UpToQuit(c, mails)), LineOf(bye, toULong));
  }

  /** So exactly the new messages are retrieved, and the commands are those of the session over the events. */
  lemma {:induction false} WireRetrieves(t: Traffic, c: Setup, mails: seq<Mail>, bye: seq<Byte>,
                                         toULong: seq<Byte> -> nat)
    requires Mailbox(mails) && Proper(c) && Conforms(t, c, mails, bye, toULong)
    ensures
      var s := Deliver(Stream(Begin(c), []), t.All(), toULong).session;
      && s.retrieved == Texts(mails, NewMails(mails, c.rcv))
      && s.sent == Run(Begin(c), ServerSide(c, mails, LineOf(bye, toULong))).sent
  {
    WireSession(t, c, mails, bye, toULong);
    StopKeepsHistory(Deliver(Stream(Begin(c), []), t.All(), toULong).session);
    EventsRetrieve(c, mails, LineOf(bye, toULong));
  }

  lemma StopKeepsHistory(s: Session)
    ensures Stop(s).sent == s.sent && Stop(s).retrieved == s.retrieved
  {
  }

  lemma {:induction false} EventsRetrieve(c: Setup, mails: seq<Mail>, bye: Line)
    requires Mailbox(mails) && Proper(c) && bye.Ok()
    ensures Run(Begin(c), ServerSide(c, mails, bye)).retrieved == Texts(mails, NewMails(mails, c.rcv))
  {
    if c.leave {
      HonestSessionLeaving(c, mails, bye);
    } else {
      var _ := HonestSessionDeleting(c, mails, bye);
    }
  }

  lemma AllOf(t: Traffic)
    ensures t.All() == (t.opening + (Concat(t.fetches) + t.deletions)) + t.bye
  {
    Assoc(Concat(t.fetches), t.deletions, t.bye);
    Assoc(t.opening, Concat(t.fetches) + t.deletions, t.bye);
  }

  lemma LastTwo(s: Session, line: Line)
    requires s.WellFormed()
    ensures Run(s, [Reply(line), Stopped]) == Stop(OnLine(s, line))
  {
    RunTwo(s, Reply(line), Stopped);
  }
}
