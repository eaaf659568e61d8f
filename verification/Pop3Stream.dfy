/**
 The session behind its socket (`POP3Client::slotReadyRead`): bytes arrive in portions, whole
 lines are taken off as long as the client reads line by line, and everything available becomes
 one block when it does not.
 */
module Pop3Stream {
  import opened Bytes
  import opened Common
  import opened Pop3Receiver
  import opened Pop3Session
  import opened Pop3Safety
  import opened Pop3Lines

  /** The session, the bytes not taken yet, and whether the last handler accepted its input. */
  datatype Reading = Reading(session: Session, rest: seq<Byte>, ok: bool)

  /** Reads lines until there is none, one is refused, or the client turns to blocks. */
  function ReadLines(s: Session, stream: seq<Byte>, toULong: seq<Byte> -> nat): (r: Reading)
    requires s.WellFormed()
    ensures r.session.WellFormed()
    decreases |stream|
  {
    var n := LineLength(stream);
    if n == 0 then Reading(s, stream, true)
    else
      var line := LineOf(stream[..n], toULong);
      var s' := OnLine(s, line);
      if Accepts(s, line) && s'.singleLine then ReadLines(s', stream[n..], toULong)
      else Reading(s', stream[n..], Accepts(s, line))
  }

  datatype Stream = Stream(session: Session, pending: seq<Byte>)

  /** One call of `slotReadyRead` with all these bytes available. */
  function ReadyRead(s: Session, stream: seq<Byte>, toULong: seq<Byte> -> nat): (r: Stream)
    requires s.WellFormed()
    ensures r.session.WellFormed()
  {
    var r := if s.singleLine then ReadLines(s, stream, toULong) else Reading(s, stream, true);
    if r.ok && !r.session.singleLine && r.rest != [] then Stream(Step(r.session, Data(r.rest)), [])
    else Stream(r.session, r.rest)
  }

  /** One call for every portion that arrives. */
  function Deliver(now: Stream, portions: seq<seq<Byte>>, toULong: seq<Byte> -> nat): (r: Stream)
    requires now.session.WellFormed()
    ensures r.session.WellFormed()
    decreases |portions|
  {
    if portions == [] then now
    else Deliver(ReadyRead(now.session, now.pending + portions[0], toULong), portions[1..], toULong)
  }

  // -------------------------------------------------------------------------
  // What the bytes become

  /** A stretch of the stream that is handled at once. */
  datatype Piece = TextLine(bytes: seq<Byte>) | Block(bytes: seq<Byte>)

  function EventOf(p: Piece, toULong: seq<Byte> -> nat): Event {
    match p
    case TextLine(raw) => Reply(LineOf(raw, toULong))
    case Block(bytes) => Data(bytes)
  }

  function EventsOf(pieces: seq<Piece>, toULong: seq<Byte> -> nat): seq<Event> {
    if pieces == [] then [] else [EventOf(pieces[0], toULong)] + EventsOf(pieces[1..], toULong)
  }

  function BytesOf(pieces: seq<Piece>): seq<Byte> {
    if pieces == [] then [] else pieces[0].bytes + BytesOf(pieces[1..])
  }

  /** A line ends with its only LF, a block is not empty. */
  ghost predicate IsPiece(p: Piece) {
    if p.TextLine? then IsRaw(p.bytes) else p.bytes != []
  }

  ghost predicate ArePieces(pieces: seq<Piece>) {
    forall i :: 0 <= i < |pieces| ==> IsPiece(pieces[i])
  }

  /** `pieces` lead from one session to the next and use up the front of the stream. */
  ghost predicate Explains(pieces: seq<Piece>, s: Session, stream: seq<Byte>, s': Session, rest: seq<Byte>,
                           toULong: seq<Byte> -> nat)
    requires s.WellFormed()
  {
    && ArePieces(pieces) && BytesOf(pieces) + rest == stream
    && s' == Run(s, EventsOf(pieces, toULong))
  }

  lemma ExplainsNothing(s: Session, stream: seq<Byte>, toULong: seq<Byte> -> nat)
    requires s.WellFormed()
    ensures Explains([], s, stream, s, stream, toULong)
  {
    PlusEmpty(stream);
  }

  lemma {:induction false} ExplainsFirst(p: Piece, pieces: seq<Piece>, s: Session, stream: seq<Byte>, s': Session,
                                         rest: seq<Byte>, toULong: seq<Byte> -> nat)
    requires s.WellFormed() && IsPiece(p)
    requires Explains(pieces, Step(s, EventOf(p, toULong)), stream, s', rest, toULong)
    ensures Explains([p] + pieces, s, p.bytes + stream, s', rest, toULong)
  {
    assert ([p] + pieces)[1..] == pieces;
    var first, later := EventOf(p, toULong), EventsOf(pieces, toULong);
    assert EventsOf([p] + pieces, toULong) == [first] + later && ([first] + later)[1..] == later;
    Assoc(p.bytes, BytesOf(pieces), rest);
  }

  lemma {:induction false} EventsConcat(a: seq<Piece>, b: seq<Piece>, toULong: seq<Byte> -> nat)
    ensures EventsOf(a + b, toULong) == EventsOf(a, toULong) + EventsOf(b, toULong)
    decreases |a|
  {
    if a == [] {
      assert a + b == b;
    } else {
      assert (a + b)[1..] == a[1..] + b && (a + b)[0] == a[0];
      EventsConcat(a[1..], b, toULong);
      Assoc([EventOf(a[0], toULong)], EventsOf(a[1..], toULong), EventsOf(b, toULong));
    }
  }

  lemma {:induction false} BytesConcat(a: seq<Piece>, b: seq<Piece>)
    ensures BytesOf(a + b) == BytesOf(a) + BytesOf(b)
    decreases |a|
  {
    if a == [] {
      assert a + b == b;
    } else {
      assert (a + b)[1..] == a[1..] + b && (a + b)[0] == a[0];
      BytesConcat(a[1..], b);
      Assoc(a[0].bytes, BytesOf(a[1..]), BytesOf(b));
    }
  }

  lemma {:induction false} ExplainsConcat(a: seq<Piece>, b: seq<Piece>, s: Session, stream: seq<Byte>, s': Session,
                                          rest: seq<Byte>, more: seq<Byte>, s'': Session, rest': seq<Byte>,
                                          toULong: seq<Byte> -> nat)
    requires s.WellFormed() && s'.WellFormed() && Explains(a, s, stream, s', rest, toULong)
    requires Explains(b, s', rest + more, s'', rest', toULong)
    ensures Explains(a + b, s, stream + more, s'', rest', toULong)
  {
    EventsConcat(a, b, toULong);
    BytesConcat(a, b);
    RunConcat(s, EventsOf(a, toULong), EventsOf(b, toULong));
    Assoc(BytesOf(a), BytesOf(b), rest');
    Assoc(BytesOf(a), rest, more);
  }

  lemma {:induction false} LinesExplained(s: Session, stream: seq<Byte>, toULong: seq<Byte> -> nat)
    returns (pieces: seq<Piece>)
    requires s.WellFormed()
    ensures
      var r := ReadLines(s, stream, toULong);
      Explains(pieces, s, stream, r.session, r.rest, toULong)
    decreases |stream|
  {
    var n := LineLength(stream);
    if n == 0 {
      pieces := [];
      ExplainsNothing(s, stream, toULong);
    } else {
      var line, rest, r := LineOf(stream[..n], toULong), stream[n..], ReadLines(s, stream, toULong);
      if Accepts(s, line) && OnLine(s, line).singleLine {
        pieces := LinesExplained(OnLine(s, line), rest, toULong);
      } else {
        pieces := [];
        ExplainsNothing(OnLine(s, line), rest, toULong);
      }
      FirstLineExplained(s, stream, pieces, r.session, r.rest, toULong);
      pieces := [TextLine(stream[..n])] + pieces;
    }
  }

  lemma {:induction false} FirstLineExplained(s: Session, stream: seq<Byte>, pieces: seq<Piece>, s': Session,
                                              rest: seq<Byte>, toULong: seq<Byte> -> nat)
    requires s.WellFormed() && LineLength(stream) > 0
    requires
      var n := LineLength(stream);
      Explains(pieces, OnLine(s, LineOf(stream[..n], toULong)), stream[n..], s', rest, toULong)
    ensures Explains([TextLine(stream[..LineLength(stream)])] + pieces, s, stream, s', rest, toULong)
  {
    var n := LineLength(stream);
    FirstIsRaw(stream);
    StepOfLine(s, stream[..n], toULong);
    ExplainsFirst(TextLine(stream[..n]), pieces, s, stream[n..], s', rest, toULong);
    assert stream[..n] + stream[n..] == stream;
  }

  lemma StepOfLine(s: Session, raw: seq<Byte>, toULong: seq<Byte> -> nat)
    requires s.WellFormed()
    ensures Step(s, EventOf(TextLine(raw), toULong)) == OnLine(s, LineOf(raw, toULong))
  {
  }

  lemma {:induction false} ReadyReadExplained(s: Session, stream: seq<Byte>, toULong: seq<Byte> -> nat)
    returns (pieces: seq<Piece>)
    requires s.WellFormed()
    ensures
      var r := ReadyRead(s, stream, toULong);
      Explains(pieces, s, stream, r.session, r.pending, toULong)
  {
    var r := if s.singleLine then ReadLines(s, stream, toULong) else Reading(s, stream, true);
    if s.singleLine {
      pieces := LinesExplained(s, stream, toULong);
    } else {
      pieces := [];
      ExplainsNothing(s, stream, toULong);
    }
    if r.ok && !r.session.singleLine && r.rest != [] {
      var s', block := Step(r.session, Data(r.rest)), Block(r.rest);
      ExplainsNothing(s', [], toULong);
      ExplainsFirst(block, [], r.session, [], s', [], toULong);
      PlusEmpty(r.rest);
      ExplainsConcat(pieces, [block] + [], s, stream, r.session, r.rest, [], s', [], toULong);
      PlusEmpty(stream);
      pieces := pieces + ([block] + []);
    }
  }

  /**
   However the bytes arrive, the session is a run of lines and blocks which together with what
   is pending are the bytes that arrived, in order.
   */
  lemma {:induction false} DeliverIsRun(now: Stream, portions: seq<seq<Byte>>, toULong: seq<Byte> -> nat)
    returns (pieces: seq<Piece>)
    requires now.session.WellFormed()
    ensures
      var r := Deliver(now, portions, toULong);
      Explains(pieces, now.session, now.pending + Concat(portions), r.session, r.pending, toULong)
    decreases |portions|
  {
    if portions == [] {
      pieces := [];
      PlusEmpty(now.pending);
      ExplainsNothing(now.session, now.pending, toULong);
    } else {
      var next := ReadyRead(now.session, now.pending + portions[0], toULong);
      var first := ReadyReadExplained(now.session, now.pending + portions[0], toULong);
      var later := DeliverIsRun(next, portions[1..], toULong);
      var r := Deliver(now, portions, toULong);
      ExplainsConcat(first, later, now.session, now.pending + portions[0], next.session, next.pending,
                     Concat(portions[1..]), r.session, r.pending, toULong);
      Assoc(now.pending, portions[0], Concat(portions[1..]));
      pieces := first + later;
    }
  }

  /** A client that has just been set up is safe, whatever bytes arrive and however they do. */
  lemma StreamIsSafe(leave: bool, starttls: bool, tlsWorks: bool, rcv: set<Uid>, trash: seq<Uid>,
                     portions: seq<seq<Byte>>, toULong: seq<Byte> -> nat)
    ensures
      var s := Deliver(Stream(Start(leave, starttls, tlsWorks, rcv, trash), []), portions, toULong).session;
      Inv(s, rcv, trash) && Safe(s, rcv, trash)
  {
    var s := Start(leave, starttls, tlsWorks, rcv, trash);
    var pieces := DeliverIsRun(Stream(s, []), portions, toULong);
    StartInv(leave, starttls, tlsWorks, rcv, trash);
    RunInv(s, EventsOf(pieces, toULong), rcv, trash);
  }

  // -------------------------------------------------------------------------
  // How lines are cut into portions does not matter

  lemma {:induction false} NoLineLeft(s: Session, stream: seq<Byte>, toULong: seq<Byte> -> nat)
    requires s.WellFormed() && ReadLines(s, stream, toULong).ok && ReadLines(s, stream, toULong).session.singleLine
    ensures LineLength(ReadLines(s, stream, toULong).rest) == 0
    decreases |stream|
  {
    var n := LineLength(stream);
    if n > 0 {
      NoLineLeft(OnLine(s, LineOf(stream[..n], toULong)), stream[n..], toULong);
    }
  }

  /** Reading what has arrived first and then the rest is reading everything. */
  lemma {:induction false} ReadLinesSplit(s: Session, stream: seq<Byte>, more: seq<Byte>, toULong: seq<Byte> -> nat)
    requires s.WellFormed()
    ensures
      var r := ReadLines(s, stream, toULong);
      ReadLines(s, stream + more, toULong)
      == if r.ok && (r.session.singleLine || LineLength(stream) == 0) then ReadLines(r.session, r.rest + more, toULong)
         else Reading(r.session, r.rest + more, r.ok)
    decreases |stream|
  {
    var n := LineLength(stream);
    if n > 0 {
      var line := LineOf(stream[..n], toULong);
      LineLengthMore(stream, more);
      assert (stream + more)[..n] == stream[..n] && (stream + more)[n..] == stream[n..] + more;
      if Accepts(s, line) && OnLine(s, line).singleLine {
        ReadLinesSplit(OnLine(s, line), stream[n..], more, toULong);
      }
    }
  }

  /** As long as the client reads line by line, only the bytes count. */
  lemma {:induction false} LinesInPortions(now: Stream, portions: seq<seq<Byte>>, toULong: seq<Byte> -> nat)
    requires now.session.WellFormed() && now.session.singleLine && LineLength(now.pending) == 0
    requires
      var whole := ReadLines(now.session, now.pending + Concat(portions), toULong);
      whole.ok && whole.session.singleLine
    ensures
      var whole := ReadLines(now.session, now.pending + Concat(portions), toULong);
      Deliver(now, portions, toULong) == Stream(whole.session, whole.rest)
    decreases |portions|
  {
    if portions == [] {
      PlusEmpty(now.pending);
    } else {
      var stream, more := now.pending + portions[0], Concat(portions[1..]);
      var r := ReadLines(now.session, stream, toULong);
      Assoc(now.pending, portions[0], more);
      ReadLinesSplit(now.session, stream, more, toULong);
      NoLineLeft(now.session, stream, toULong);
      LinesInPortions(Stream(r.session, r.rest), portions[1..], toULong);
    }
  }
}
