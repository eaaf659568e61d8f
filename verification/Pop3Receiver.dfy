/**
 The incremental receiver of one POP3 message (`POP3Client::toMail`).

 The network delivers the multi-line reply in blocks cut at arbitrary places. The
 receiver drops CR and NUL, undoes dot-stuffing (section 3 of RFC 1939), keeps an
 unfinished tail that starts with CR for the next call, and raises a flag when it
 sees CR LF . CR LF.
 */
module Pop3Receiver {
  import opened Bytes
  import opened Common

  const THE_END: seq<Byte> := [CR, LF, DOT, CR, LF]

  /** `buffer` is the text so far, `carry` the tail kept for the next block. */
  datatype Receipt = Receipt(buffer: seq<Byte>, carry: seq<Byte>, end: bool)

  const FRESH := Receipt([], [], false)

  /** What one pass over `data` adds: text, new carry, and whether the end was seen. */
  datatype Pass = Pass(out: seq<Byte>, carry: seq<Byte>, end: bool) {
    function After(text: seq<Byte>): Pass {
      Pass(text + out, carry, end)
    }
  }

  // -------------------------------------------------------------------------
  // The specification of one call

  function LastChar(buffer: seq<Byte>): Byte {
    if buffer == [] then NUL else buffer[|buffer| - 1]
  }

  /** The effect of scanning `data` when the last character accepted was `last`. */
  function Scan(data: seq<Byte>, last: Byte): Pass {
    if data == [] then Pass([], [], false)
    else if data[0] == NUL then Scan(data[1..], last)
    else if data[0] == CR then
      if |data| < 5 then Pass([], data, false)
      else if data[..5] == THE_END then Pass([LF], THE_END, true)
      else Scan(data[1..], last)
    else if data[0] == DOT && last == LF then Scan(data[1..], DOT)
    else Scan(data[1..], data[0]).After([data[0]])
  }

  function Feed(r: Receipt, block: seq<Byte>): Receipt {
    var p := Scan(r.carry + block, LastChar(r.buffer));
    Receipt(r.buffer + p.out, p.carry, r.end || p.end)
  }

  function FeedAll(r: Receipt, blocks: seq<seq<Byte>>): Receipt
    decreases |blocks|
  {
    if blocks == [] then r else FeedAll(Feed(r, blocks[0]), blocks[1..])
  }

  // -------------------------------------------------------------------------
  // The receiver itself

  class Receiver {
    var retrBuffer: seq<Byte>
    var retrBufferData: seq<Byte>
    var endOfMessage: bool

    ghost function View(): Receipt
      reads this
    {
      Receipt(retrBuffer, retrBufferData, endOfMessage)
    }

    constructor ()
      ensures View() == FRESH
    {
      retrBuffer, retrBufferData, endOfMessage := [], [], false;
    }

    /** Consumes one block; `used` counts the bytes of it up to the end of the message. */
    method ToMail(block: seq<Byte>) returns (used: int)
      modifies this
      ensures View() == Feed(old(View()), block)
      ensures
        var data, carried := old(retrBufferData) + block, |old(retrBufferData)|;
        if Scan(data, LastChar(old(retrBuffer))).end then
          5 <= carried + used <= |data| && data[carried + used - 5..carried + used] == THE_END
        else
          used == |block|
    {
      var lastChar: Byte := if |retrBuffer| > 0 then retrBuffer[|retrBuffer| - 1] else NUL;
      var prepend := |retrBufferData|;
      var data := retrBufferData + block;
      var output: seq<Byte> := [];
      ghost var whole := Scan(data, lastChar);
      retrBufferData := [];
      assert data[0..] == data && whole.After([]) == whole;

      var i := 0;
      while i < |data|
        invariant 0 <= i <= |data|
        invariant retrBuffer == old(retrBuffer) && retrBufferData == [] && endOfMessage == old(endOfMessage)
        invariant whole == Scan(data[i..], lastChar).After(output)
      {
        var currentChar := data[i];
        ScanOne(data[i..], lastChar, output);
        assert data[i..][1..] == data[i + 1..];
        if currentChar == NUL {
        } else if currentChar == CR {
          if |data| - i >= 5 {
            assert data[i..][..5] == data[i..i + 5];
            if data[i..i + 5] == THE_END {
              endOfMessage := true;
              retrBufferData := THE_END;
              retrBuffer := retrBuffer + (output + [LF]);
              return i + 5 - prepend;
            }
          } else {
            retrBufferData := data[i..];
            retrBuffer := retrBuffer + output;
            return |block|;
          }
        } else if currentChar == DOT && lastChar == LF {
          lastChar := currentChar;
        } else {
          lastChar := currentChar;
          output := output + [currentChar];
        }
        i := i + 1;
      }
      assert data[i..] == [];
      assert whole == Pass(output, [], false);
      retrBuffer := retrBuffer + output;
      return |block|;
    }
  }

  /** One character of a scan that has already added `output`. */
  lemma ScanOne(data: seq<Byte>, last: Byte, output: seq<Byte>)
    requires data != []
    ensures Scan(data, last).After(output) ==
            if data[0] == NUL then Scan(data[1..], last).After(output)
            else if data[0] == CR then
              if |data| < 5 then Pass(output, data, false)
              else if data[..5] == THE_END then Pass(output + [LF], THE_END, true)
              else Scan(data[1..], last).After(output)
            else if data[0] == DOT && last == LF then Scan(data[1..], DOT).After(output)
            else Scan(data[1..], data[0]).After(output + [data[0]])
  {
    var rest := Scan(data[1..], data[0]);
    assert output + ([data[0]] + rest.out) == (output + [data[0]]) + rest.out;
    assert output + [] == output;
  }

  // -------------------------------------------------------------------------
  // What the server sends: lines, dot-stuffed and terminated

  ghost predicate IsLine(line: seq<Byte>) {
    forall i :: 0 <= i < |line| ==> line[i] != NUL && line[i] != CR && line[i] != LF
  }

  ghost predicate AreLines(lines: seq<seq<Byte>>) {
    forall i :: 0 <= i < |lines| ==> IsLine(lines[i])
  }

  predicate StartsWithDot(line: seq<Byte>) {
    line != [] && line[0] == DOT
  }

  function LeadingDot(line: seq<Byte>): seq<Byte> {
    if StartsWithDot(line) then [DOT] else []
  }

  function Stuff(line: seq<Byte>): seq<Byte> {
    LeadingDot(line) + line
  }

  /** The multi-line reply that carries `lines`, with its final ". CR LF". */
  function Wire(lines: seq<seq<Byte>>): seq<Byte> {
    if lines == [] then [DOT, CR, LF]
    else Stuff(lines[0]) + ([CR, LF] + Wire(lines[1..]))
  }

  /** The message as it is to be stored: every line ended by LF alone. */
  function Text(lines: seq<seq<Byte>>): seq<Byte> {
    if lines == [] then [] else lines[0] + ([LF] + Text(lines[1..]))
  }

  ghost predicate IsCutting(blocks: seq<seq<Byte>>, stream: seq<Byte>) {
    && (forall i :: 0 <= i < |blocks| ==> blocks[i] != [])
    && Concat(blocks) == stream
  }

  // -------------------------------------------------------------------------
  // The cutting does not matter

  /**
   A remaining stream that can be cut anywhere: CR only before LF, LF only after CR,
   a dot at the start of a line either doubled or the final one.
   */
  ghost predicate Cuttable(t: seq<Byte>, last: Byte) {
    t != [] &&
    if t[0] == CR then
      && |t| >= 3 && t[1] == LF
      && if t[2] != DOT then Cuttable(t[2..], LF)
         else t == THE_END || (|t| >= 4 && t[3] == DOT && Cuttable(t[4..], DOT))
    else
      t[0] != NUL && t[0] != LF && !(t[0] == DOT && last == LF) && Cuttable(t[1..], t[0])
  }

  /** The character before what is scanned next, once `out` has been added after `last`. */
  function Latest(last: Byte, out: seq<Byte>): Byte {
    if out == [] then last else LastChar(out)
  }

  /** `whole` is what `p` found, followed by a scan of its carry and `b`. */
  ghost predicate Resumes(p: Pass, whole: Pass, b: seq<Byte>, last: Byte) {
    && !p.end && |p.carry| <= 4
    && Cuttable(p.carry + b, Latest(last, p.out))
    && whole == Scan(p.carry + b, Latest(last, p.out)).After(p.out)
  }

  lemma ResumesAfter(text: seq<Byte>, p: Pass, whole: Pass, b: seq<Byte>, last: Byte)
    requires text != [] && Resumes(p, whole, b, LastChar(text))
    ensures Resumes(p.After(text), whole.After(text), b, last)
  {
    var rest := Scan(p.carry + b, Latest(LastChar(text), p.out));
    assert text + (p.out + rest.out) == (text + p.out) + rest.out;
  }

  /** Scanning `a` and then its carry with `b` is scanning `a + b`. */
  lemma {:induction false} ScanSplit(a: seq<Byte>, b: seq<Byte>, last: Byte)
    requires Cuttable(a + b, last) && b != []
    ensures Resumes(Scan(a, last), Scan(a + b, last), b, last)
    decreases |a|
  {
    if a == [] {
      assert a + b == b;
      assert Scan(b, last).After([]) == Scan(b, last);
    } else if a[0] != CR {
      assert (a + b)[1..] == a[1..] + b;
      ScanSplit(a[1..], b, a[0]);
      ResumesAfter([a[0]], Scan(a[1..], a[0]), Scan(a[1..] + b, a[0]), b, last);
    } else if |a| < 5 {
      assert Scan(a + b, last).After([]) == Scan(a + b, last);
    } else {
      ScanSplitLineEnd(a, b, last);
    }
  }

  lemma {:induction false} ScanSplitLineEnd(a: seq<Byte>, b: seq<Byte>, last: Byte)
    requires Cuttable(a + b, last) && b != [] && |a| >= 5 && a[0] == CR
    ensures Resumes(Scan(a, last), Scan(a + b, last), b, last)
    decreases |a|, 0
  {
    var t := a + b;
    assert t[1] == a[1] && t[2] == a[2];
    if a[2] != DOT {
      assert t[2..] == a[2..] + b;
      ScanSplit(a[2..], b, LF);
      ScanLineEnd(a, last);
      ScanLineEnd(t, last);
      ResumesAfter([LF], Scan(a[2..], LF), Scan(t[2..], LF), b, last);
    } else {
      assert t[3] == a[3];
      assert t[4..] == a[4..] + b;
      ScanSplit(a[4..], b, DOT);
      ScanStuffedLine(a, last);
      ScanStuffedLine(t, last);
      ResumesAfter([LF, DOT], Scan(a[4..], DOT), Scan(t[4..], DOT), b, last);
    }
  }

  /** CR LF before an ordinary character adds one LF. */
  lemma ScanLineEnd(t: seq<Byte>, last: Byte)
    requires |t| >= 5 && t[0] == CR && t[1] == LF && t[2] != DOT
    ensures Scan(t, last) == Scan(t[2..], LF).After([LF])
  {
    assert t[1..][1..] == t[2..];
    assert t[..5][2] == t[2];
  }

  /** CR LF . . adds one LF and one dot. */
  lemma ScanStuffedLine(t: seq<Byte>, last: Byte)
    requires |t| >= 5 && t[0] == CR && t[1] == LF && t[2] == DOT && t[3] == DOT
    ensures Scan(t, last) == Scan(t[4..], DOT).After([LF, DOT])
  {
    assert t[..5][3] == t[3];
    assert t[1..][1..] == t[2..];
    assert t[2..][1..] == t[3..];
    assert t[3..][1..] == t[4..];
    assert Scan(t[2..], LF) == Scan(t[3..], DOT);
    assert Scan(t[3..], DOT) == Scan(t[4..], DOT).After([DOT]);
    assert [LF] + ([DOT] + Scan(t[4..], DOT).out) == [LF, DOT] + Scan(t[4..], DOT).out;
  }

  lemma LatestOfBuffer(buffer: seq<Byte>, out: seq<Byte>)
    ensures LastChar(buffer + out) == Latest(LastChar(buffer), out)
  {
  }

  /** What is left to scan after `r`: its carry and the blocks still to come. */
  ghost function Remaining(r: Receipt, blocks: seq<seq<Byte>>): seq<Byte> {
    r.carry + Concat(blocks)
  }

  /** One block moves the boundary between scanned and remaining, and nothing else. */
  lemma FeedResumes(r: Receipt, blocks: seq<seq<Byte>>)
    requires !r.end && |blocks| >= 2 && blocks[1] != []
    requires Cuttable(Remaining(r, blocks), LastChar(r.buffer))
    ensures
      var r' := Feed(r, blocks[0]);
      && !r'.end && |r'.carry| <= 4
      && Cuttable(Remaining(r', blocks[1..]), LastChar(r'.buffer))
      && Scan(Remaining(r', blocks[1..]), LastChar(r'.buffer)).After(r'.buffer)
         == Scan(Remaining(r, blocks), LastChar(r.buffer)).After(r.buffer)
  {
    var a, b, last := r.carry + blocks[0], Concat(blocks[1..]), LastChar(r.buffer);
    assert Remaining(r, blocks) == a + b;
    assert b != [] by { assert b[..|blocks[1]|] == blocks[1]; }
    ScanSplit(a, b, last);
    LatestOfBuffer(r.buffer, Scan(a, last).out);
    var rest := Scan(Scan(a, last).carry + b, Latest(last, Scan(a, last).out));
    assert r.buffer + (Scan(a, last).out + rest.out) == (r.buffer + Scan(a, last).out) + rest.out;
  }

  /** Feeding the blocks one by one has the effect of a single scan of the whole stream. */
  lemma {:induction false} FeedAllIsOneScan(r: Receipt, blocks: seq<seq<Byte>>)
    requires !r.end && blocks != []
    requires forall i :: 0 <= i < |blocks| ==> blocks[i] != []
    requires Cuttable(Remaining(r, blocks), LastChar(r.buffer))
    ensures
      var p := Scan(Remaining(r, blocks), LastChar(r.buffer)).After(r.buffer);
      FeedAll(r, blocks) == Receipt(p.out, p.carry, p.end)
    decreases |blocks|
  {
    if |blocks| == 1 {
      assert Remaining(r, blocks) == r.carry + blocks[0];
      assert FeedAll(r, blocks) == Feed(r, blocks[0]);
    } else {
      FeedResumes(r, blocks);
      FeedAllIsOneScan(Feed(r, blocks[0]), blocks[1..]);
    }
  }

  /** As long as blocks are to come, the flag is down and the carry is short. */
  lemma {:induction false} NoEarlyEnd(r: Receipt, blocks: seq<seq<Byte>>, k: nat)
    requires !r.end && |r.carry| <= 4 && k < |blocks|
    requires forall i :: 0 <= i < |blocks| ==> blocks[i] != []
    requires Cuttable(Remaining(r, blocks), LastChar(r.buffer))
    ensures !FeedAll(r, blocks[..k]).end && |FeedAll(r, blocks[..k]).carry| <= 4
    decreases k
  {
    if k > 0 {
      FeedResumes(r, blocks);
      NoEarlyEnd(Feed(r, blocks[0]), blocks[1..], k - 1);
      assert blocks[..k][1..] == blocks[1..][..k - 1];
    }
  }

  // -------------------------------------------------------------------------
  // One scan of a well-formed reply

  /** What is left of a reply when `tail` of the current line and `lines` after it remain. */
  ghost function RestOfReply(tail: seq<Byte>, lines: seq<seq<Byte>>): seq<Byte> {
    tail + ([CR, LF] + Wire(lines))
  }

  ghost predicate ScansTo(t: seq<Byte>, last: Byte, text: seq<Byte>) {
    Cuttable(t, last) && Scan(t, last) == Pass(text, THE_END, true)
  }

  /** Scanning the rest of a line and everything after it. */
  lemma {:induction false} ScanLine(tail: seq<Byte>, lines: seq<seq<Byte>>, last: Byte)
    requires IsLine(tail) && AreLines(lines)
    requires !(StartsWithDot(tail) && last == LF)
    ensures ScansTo(RestOfReply(tail, lines), last, tail + ([LF] + Text(lines)))
    decreases |lines|, 1, |tail|
  {
    var t := RestOfReply(tail, lines);
    if tail != [] {
      assert t[1..] == RestOfReply(tail[1..], lines);
      ScanLine(tail[1..], lines, tail[0]);
      assert tail + ([LF] + Text(lines)) == [tail[0]] + (tail[1..] + ([LF] + Text(lines)));
    } else {
      assert t == [CR, LF] + Wire(lines);
      ScanNextLine(lines, last);
      assert tail + ([LF] + Text(lines)) == [LF] + Text(lines);
    }
  }

  lemma {:induction false} ScanNextLine(lines: seq<seq<Byte>>, last: Byte)
    requires AreLines(lines)
    ensures ScansTo([CR, LF] + Wire(lines), last, [LF] + Text(lines))
    decreases |lines|, 0
  {
    if lines == [] {
      ScanTheEnd(last);
    } else if StartsWithDot(lines[0]) {
      ScanLine(lines[0][1..], lines[1..], DOT);
      NextStuffed(lines, last);
    } else {
      ScanLine(lines[0], lines[1..], LF);
      NextPlain(lines, last);
    }
  }

  lemma ScanTheEnd(last: Byte)
    ensures ScansTo([CR, LF] + Wire([]), last, [LF] + Text([]))
  {
    assert [CR, LF] + Wire([]) == THE_END;
    assert THE_END[..5] == THE_END;
    assert [LF] + Text([]) == [LF];
  }

  lemma StuffedAfterBreak(rest: seq<Byte>, text: seq<Byte>, last: Byte)
    requires |rest| >= 3 && ScansTo(rest, DOT, text)
    ensures ScansTo([CR, LF, DOT, DOT] + rest, last, [LF, DOT] + text)
  {
    var t := [CR, LF, DOT, DOT] + rest;
    assert t[4..] == rest;
    ScanStuffedLine(t, last);
  }

  lemma PlainAfterBreak(rest: seq<Byte>, text: seq<Byte>, last: Byte)
    requires |rest| >= 3 && rest[0] != DOT && ScansTo(rest, LF, text)
    ensures ScansTo([CR, LF] + rest, last, [LF] + text)
  {
    var t := [CR, LF] + rest;
    assert t[2..] == rest && t[2] == rest[0];
    ScanLineEnd(t, last);
  }

  lemma TwoDots(tail: seq<Byte>, more: seq<Byte>)
    ensures [CR, LF] + (([DOT] + ([DOT] + tail)) + more) == [CR, LF, DOT, DOT] + (tail + more)
  {
  }

  lemma WireStuffed(lines: seq<seq<Byte>>)
    requires lines != [] && StartsWithDot(lines[0])
    ensures [CR, LF] + Wire(lines) == [CR, LF, DOT, DOT] + RestOfReply(lines[0][1..], lines[1..])
  {
    assert lines[0] == [DOT] + lines[0][1..];
    TwoDots(lines[0][1..], [CR, LF] + Wire(lines[1..]));
  }

  lemma NextStuffed(lines: seq<seq<Byte>>, last: Byte)
    requires AreLines(lines) && lines != [] && StartsWithDot(lines[0])
    requires ScansTo(RestOfReply(lines[0][1..], lines[1..]), DOT, lines[0][1..] + ([LF] + Text(lines[1..])))
    ensures ScansTo([CR, LF] + Wire(lines), last, [LF] + Text(lines))
  {
    var rest := RestOfReply(lines[0][1..], lines[1..]);
    WireStuffed(lines);
    StuffedAfterBreak(rest, lines[0][1..] + ([LF] + Text(lines[1..])), last);
    StuffedText(lines);
  }

  lemma NextPlain(lines: seq<seq<Byte>>, last: Byte)
    requires AreLines(lines) && lines != [] && !StartsWithDot(lines[0])
    requires ScansTo(RestOfReply(lines[0], lines[1..]), LF, lines[0] + ([LF] + Text(lines[1..])))
    ensures ScansTo([CR, LF] + Wire(lines), last, [LF] + Text(lines))
  {
    WireLength(lines[1..]);
    assert Stuff(lines[0]) == lines[0];
    PlainAfterBreak(RestOfReply(lines[0], lines[1..]), lines[0] + ([LF] + Text(lines[1..])), last);
  }

  lemma DotText(tail: seq<Byte>, more: seq<Byte>)
    ensures [LF, DOT] + (tail + more) == [LF] + (([DOT] + tail) + more)
  {
  }

  lemma {:induction false} StuffedText(lines: seq<seq<Byte>>)
    requires lines != [] && StartsWithDot(lines[0])
    ensures [LF, DOT] + (lines[0][1..] + ([LF] + Text(lines[1..]))) == [LF] + Text(lines)
  {
    assert lines[0] == [DOT] + lines[0][1..];
    DotText(lines[0][1..], [LF] + Text(lines[1..]));
  }

  lemma WireLength(lines: seq<seq<Byte>>)
    ensures |Wire(lines)| >= 3
  {
  }

  // -------------------------------------------------------------------------
  // The main results

  lemma {:induction false} ScanWire(lines: seq<seq<Byte>>)
    requires AreLines(lines) && lines != []
    ensures ScansTo(Wire(lines), NUL, LeadingDot(lines[0]) + Text(lines))
  {
    ScanLine(Stuff(lines[0]), lines[1..], NUL);
    Assoc(LeadingDot(lines[0]), lines[0], [LF] + Text(lines[1..]));
  }

  /**
   Whatever the cutting, the text of a non-empty message is received whole, with one
   extra dot when its first line starts with one; only the last block raises the flag,
   and no more than four bytes are ever carried.
   */
  lemma ReceiveAny(lines: seq<seq<Byte>>, blocks: seq<seq<Byte>>)
    requires AreLines(lines) && lines != []
    requires IsCutting(blocks, Wire(lines))
    ensures FeedAll(FRESH, blocks) == Receipt(LeadingDot(lines[0]) + Text(lines), THE_END, true)
    ensures forall k :: 0 <= k < |blocks| ==>
              !FeedAll(FRESH, blocks[..k]).end && |FeedAll(FRESH, blocks[..k]).carry| <= 4
  {
    ScanWire(lines);
    assert Remaining(FRESH, blocks) == Wire(lines);
    FeedAllIsOneScan(FRESH, blocks);
    forall k | 0 <= k < |blocks|
      ensures !FeedAll(FRESH, blocks[..k]).end && |FeedAll(FRESH, blocks[..k]).carry| <= 4
    {
      NoEarlyEnd(FRESH, blocks, k);
    }
  }

  lemma {:induction false} ShortNeverEnds(r: Receipt, blocks: seq<seq<Byte>>)
    requires !r.end && |r.carry| + |Concat(blocks)| < 5
    ensures !FeedAll(r, blocks).end
    decreases |blocks|
  {
    if blocks != [] {
      ScanShort(r.carry + blocks[0], LastChar(r.buffer));
      ShortNeverEnds(Feed(r, blocks[0]), blocks[1..]);
    }
  }

  lemma ScanShort(data: seq<Byte>, last: Byte)
    requires |data| < 5
    ensures !Scan(data, last).end && |Scan(data, last).carry| <= |data|
  {
  }

  /**
   The receiver delivers the message that was sent, for every cutting, exactly when the
   message has a line and its first line does not start with a dot.
   */
  lemma ReceivesExactly(lines: seq<seq<Byte>>, blocks: seq<seq<Byte>>)
    requires AreLines(lines)
    requires IsCutting(blocks, Wire(lines))
    ensures FeedAll(FRESH, blocks).end <==> lines != []
    ensures FeedAll(FRESH, blocks).end && FeedAll(FRESH, blocks).buffer == Text(lines)
            <==> lines != [] && !StartsWithDot(lines[0])
  {
    if lines == [] {
      ShortNeverEnds(FRESH, blocks);
    } else {
      ReceiveAny(lines, blocks);
      ShorterDiffers(LeadingDot(lines[0]), Text(lines));
    }
  }

  lemma ShorterDiffers(prefix: seq<Byte>, text: seq<Byte>)
    ensures prefix + text == text <==> prefix == []
  {
    assert |prefix + text| == |prefix| + |text|;
  }

  /** The one-line message "." is stored as "..". */
  lemma LeadingDotIsDoubled()
    ensures
      var sent := [[DOT]];
      AreLines(sent) && FeedAll(FRESH, [Wire(sent)]).buffer == [DOT, DOT, LF] != Text(sent)
  {
    var sent := [[DOT]];
    assert Concat([Wire(sent)]) == Wire(sent);
    WireLength(sent);
    ReceiveAny(sent, [Wire(sent)]);
    assert Text(sent) == [DOT, LF];
  }
}
