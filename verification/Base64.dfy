/**
 Base64 as in section 6.8 of RFC 2045, with the peculiarities of `MIMECodec`: the encoder ends
 its result with a NUL byte, may break lines, writes characters past the end of the data first
 and replaces them by "=" afterwards; the decoder skips what is not in the alphabet before a
 group and finds out from the last two characters how much of the last group counts.
 */
module Base64 {
  import opened Bytes
  import opened Common

  const EQ: Byte := 61
  const LETTER_A: Byte := 65
  const WRAP := 76

  // -------------------------------------------------------------------------
  // The alphabet

  function Char(e: int): Byte
    requires 0 <= e < 64
  {
    if e < 26 then 65 + e else if e < 52 then 71 + e else if e < 62 then e - 4 else if e == 62 then 43 else 47
  }

  /** The decoder's table: -1 outside the alphabet, 64 for "=". */
  function Rev(c: Byte): (e: int)
    ensures -1 <= e <= 64
  {
    if 65 <= c < 91 then c - 65 else if 97 <= c < 123 then c - 71 else if 48 <= c < 58 then c + 4
    else if c == 43 then 62 else if c == 47 then 63 else if c == 61 then 64 else -1
  }

  lemma RevChar(e: int)
    requires 0 <= e < 64
    ensures Rev(Char(e)) == e && Char(e) != EQ && Char(e) != LF
  {
  }

  /** The table read into an unsigned char. */
  function Rev8(c: Byte): Byte {
    if Rev(c) == -1 then 255 else Rev(c)
  }

  // -------------------------------------------------------------------------
  // The standard encoding

  function Group(c1: Byte, c2: Byte, c3: Byte): (r: seq<Byte>)
    ensures |r| == 4
  {
    [Char(c1 / 4), Char(c1 % 4 * 16 + c2 / 16), Char(c2 % 16 * 4 + c3 / 64), Char(c3 % 64)]
  }

  /** The group for the first one, two or three bytes, filled up with "=". */
  function Head(buf: seq<Byte>): (r: seq<Byte>)
    requires buf != []
    ensures |r| == 4
  {
    if |buf| == 1 then Group(buf[0], 0, 0)[..2] + [EQ, EQ]
    else if |buf| == 2 then Group(buf[0], buf[1], 0)[..3] + [EQ]
    else Group(buf[0], buf[1], buf[2])
  }

  function Rest(buf: seq<Byte>): (r: seq<Byte>)
    requires buf != []
    ensures |r| < |buf|
  {
    if |buf| < 3 then [] else buf[3..]
  }

  /** The encoding of section 6.8 of RFC 2045 without line breaks. */
  function Plain(buf: seq<Byte>): (r: seq<Byte>)
    ensures |r| == (|buf| + 2) / 3 * 4
    decreases |buf|
  {
    if buf == [] then [] else Head(buf) + Plain(Rest(buf))
  }

  /** Lines of 76 characters, a line break between two of them. */
  function Wrapped(s: seq<Byte>): seq<Byte>
    decreases |s|
  {
    if |s| <= WRAP then s else s[..WRAP] + [LF] + Wrapped(s[WRAP..])
  }

  function Encode(buf: seq<Byte>, endNewLine: bool, endAllNewLines: bool): seq<Byte> {
    (if endAllNewLines then Wrapped(Plain(buf)) else Plain(buf)) + (if endNewLine then [LF] else []) + [NUL]
  }

  // -------------------------------------------------------------------------
  // What the encoder's loop writes

  function Break(lindex: nat, all: bool): seq<Byte> {
    if all && lindex == WRAP then [LF] else []
  }

  function Column(lindex: nat, all: bool): nat {
    (if all && lindex == WRAP then 0 else lindex) + 4
  }

  /** The first group before its end is replaced; `fill` stands for a byte that is not there. */
  function RawHead(buf: seq<Byte>, fill: Byte): (r: seq<Byte>)
    requires buf != []
    ensures |r| == 4
  {
    Group(buf[0], if |buf| > 1 then buf[1] else 0, if |buf| > 2 then buf[2] else if |buf| == 1 then fill else 0)
  }

  function Raw(buf: seq<Byte>, lindex: nat, all: bool, fill: Byte): (r: seq<Byte>)
    ensures buf != [] ==> |r| >= 4
    decreases |buf|
  {
    if buf == [] then [] else Break(lindex, all) + (RawHead(buf, fill) + Raw(Rest(buf), Column(lindex, all), all, fill))
  }

  /** The end of the last group is replaced. */
  function Patched(s: seq<Byte>, r: nat): seq<Byte>
    requires r > 0 ==> |s| >= 4
  {
    var n := |s|;
    if r == 0 then s else if r == 1 then s[n - 2 := EQ][n - 1 := EQ] else s[n - 1 := EQ]
  }

  function Emit(buf: seq<Byte>, lindex: nat, all: bool): seq<Byte>
    decreases |buf|
  {
    if buf == [] then [] else Break(lindex, all) + (Head(buf) + Emit(Rest(buf), Column(lindex, all), all))
  }

  lemma PatchLate(a: seq<Byte>, s: seq<Byte>, r: nat)
    requires r > 0 ==> |s| >= 4
    ensures Patched(a + s, r) == a + Patched(s, r)
  {
  }

  lemma PatchHead(buf: seq<Byte>, fill: Byte)
    requires 0 < |buf| <= 3
    ensures Patched(RawHead(buf, fill), |buf| % 3) == Head(buf)
  {
  }

  lemma PatchLast(buf: seq<Byte>, fill: Byte, more: seq<Byte>)
    requires 0 < |buf| <= 3 && more == []
    ensures Patched(RawHead(buf, fill) + more, |buf| % 3) == Head(buf)
  {
    PatchHead(buf, fill);
    assert RawHead(buf, fill) + [] == RawHead(buf, fill);
  }

  lemma PatchEarlier(buf: seq<Byte>, fill: Byte, more: seq<Byte>)
    requires |buf| > 3 && |more| >= 4
    ensures Patched(RawHead(buf, fill) + more, |buf| % 3) == Head(buf) + Patched(more, |buf| % 3)
  {
    PatchLate(RawHead(buf, fill), more, |buf| % 3);
  }

  /** Whatever was read past the end, replacing gives the padded groups. */
  lemma {:induction false} PatchedRaw(buf: seq<Byte>, lindex: nat, all: bool, fill: Byte, raw: seq<Byte>, r: nat)
    requires raw == Raw(buf, lindex, all, fill) && r == |buf| % 3
    ensures Patched(raw, r) == Emit(buf, lindex, all)
    decreases |buf|
  {
    if buf != [] {
      var more := Raw(Rest(buf), Column(lindex, all), all, fill);
      PatchLate(Break(lindex, all), RawHead(buf, fill) + more, r);
      if |buf| <= 3 {
        PatchLast(buf, fill, more);
        assert Head(buf) + [] == Head(buf);
      } else {
        assert (|buf| - 3) % 3 == r;
        PatchedRaw(Rest(buf), Column(lindex, all), all, fill, more, r);
        PatchEarlier(buf, fill, more);
      }
    }
  }

  /** The rest of a wrapped text when the current line has `lindex` characters. */
  function WrapAt(s: seq<Byte>, lindex: nat): seq<Byte>
    requires lindex <= WRAP
  {
    if |s| <= WRAP - lindex then s else s[..WRAP - lindex] + ([LF] + Wrapped(s[WRAP - lindex..]))
  }

  lemma WrapAtZero(s: seq<Byte>)
    ensures WrapAt(s, 0) == Wrapped(s)
  {
    if |s| > WRAP {
      assert s[..WRAP] + ([LF] + Wrapped(s[WRAP..])) == s[..WRAP] + [LF] + Wrapped(s[WRAP..]);
    }
  }

  lemma {:induction false} WrapHead(head: seq<Byte>, s: seq<Byte>, lindex: nat)
    requires |head| == 4 && lindex + 4 <= WRAP
    ensures WrapAt(head + s, lindex) == head + WrapAt(s, lindex + 4)
  {
    var k := WRAP - lindex - 4;
    if |s| > k {
      CutSum(head, s, k);
      Assoc(head, s[..k], [LF] + Wrapped(s[k..]));
    }
  }

  lemma {:induction false} EmitIsWrapped(buf: seq<Byte>, lindex: nat)
    requires lindex % 4 == 0 && lindex <= WRAP
    ensures Emit(buf, lindex, true) == WrapAt(Plain(buf), lindex)
    decreases |buf|
  {
    if buf != [] {
      var column := if lindex == WRAP then 0 else lindex;
      NextColumn(column);
      EmitIsWrapped(Rest(buf), column + 4);
      EmitOne(buf, lindex, column);
    }
  }

  lemma NextColumn(lindex: nat)
    requires lindex % 4 == 0 && lindex < WRAP
    ensures lindex + 4 <= WRAP && (lindex + 4) % 4 == 0
  {
  }

  lemma EmitOne(buf: seq<Byte>, lindex: nat, column: nat)
    requires buf != [] && lindex <= WRAP && lindex % 4 == 0 && column == if lindex == WRAP then 0 else lindex
    requires Emit(Rest(buf), column + 4, true) == WrapAt(Plain(Rest(buf)), column + 4)
    ensures Emit(buf, lindex, true) == WrapAt(Plain(buf), lindex)
  {
    WrapHead(Head(buf), Plain(Rest(buf)), column);
    assert Emit(buf, lindex, true) == Break(lindex, true) + WrapAt(Plain(buf), column);
    WrapBreak(Plain(buf), lindex, column);
  }

  lemma WrapBreak(s: seq<Byte>, lindex: nat, column: nat)
    requires s != [] && lindex <= WRAP && column == if lindex == WRAP then 0 else lindex
    ensures Break(lindex, true) + WrapAt(s, column) == WrapAt(s, lindex)
  {
    if lindex == WRAP {
      WrapAtZero(s);
      assert s[..0] == [] && s[0..] == s;
    }
  }

  lemma {:induction false} EmitIsPlain(buf: seq<Byte>, lindex: nat)
    ensures Emit(buf, lindex, false) == Plain(buf)
    decreases |buf|
  {
    if buf != [] {
      EmitIsPlain(Rest(buf), lindex + 4);
    }
  }

  /** A text without line breaks is broken after every 76 characters and nowhere else. */
  lemma {:induction false} BreaksOf(s: seq<Byte>, w: seq<Byte>, i: nat)
    requires w == Wrapped(s) && i < |w| && forall k :: 0 <= k < |s| ==> s[k] != LF
    ensures w[i] == LF <==> i % (WRAP + 1) == WRAP
    decreases |s|
  {
    if |s| > WRAP && i > WRAP {
      BreaksOf(s[WRAP..], Wrapped(s[WRAP..]), i - WRAP - 1);
      assert w[i] == Wrapped(s[WRAP..])[i - WRAP - 1];
      assert (i - 77) % 77 == i % 77;
    }
  }

  lemma {:induction false} PlainHasNoBreaks(buf: seq<Byte>, k: nat)
    requires k < |Plain(buf)|
    ensures Plain(buf)[k] != LF
    decreases |buf|
  {
    if k >= 4 {
      PlainHasNoBreaks(Rest(buf), k - 4);
    } else {
      HeadHasNoBreaks(buf, k);
    }
  }

  lemma HeadHasNoBreaks(buf: seq<Byte>, k: nat)
    requires buf != [] && k < 4
    ensures Head(buf)[k] != LF
  {
  }

  /**
   With wrapping on, a line break follows every 76 characters and there is no other before the
   end of the text, so breaks fall between groups of four and no line is longer.
   */
  lemma LinesFit(buf: seq<Byte>, endNewLine: bool, i: nat)
    requires i < |Wrapped(Plain(buf))|
    ensures Wrapped(Plain(buf)) <= Encode(buf, endNewLine, true)
    ensures Encode(buf, endNewLine, true)[i] == LF <==> i % 77 == 76
  {
    forall k | 0 <= k < |Plain(buf)| ensures Plain(buf)[k] != LF {
      PlainHasNoBreaks(buf, k);
    }
    BreaksOf(Plain(buf), Wrapped(Plain(buf)), i);
  }

  // -------------------------------------------------------------------------
  // The decoder

  /** Three bytes out of four table values, truncated to bytes. */
  function Triple(e1: Byte, e2: Byte, e3: Byte, e4: Byte): (r: seq<Byte>)
    ensures |r| == 3
  {
    [(e1 * 4 + e2 / 16 % 4) % 256, (e2 % 16 * 16 + e3 / 4 % 16) % 256, (e3 % 4 * 64 + e4) % 256]
  }

  /** The character at i, or the letter A behind the end. */
  function At(s: seq<Byte>, i: nat): Byte {
    if i < |s| then s[i] else LETTER_A
  }

  /** Groups of four; characters outside the alphabet are skipped in front of a group only. */
  function Triples(s: seq<Byte>): seq<Byte>
    decreases |s|
  {
    if s == [] then []
    else if Rev(s[0]) == -1 then Triples(s[1..])
    else Triple(Rev8(s[0]), Rev8(At(s, 1)), Rev8(At(s, 2)), Rev8(At(s, 3))) + Triples(if |s| < 4 then [] else s[4..])
  }

  lemma {:induction false} TriplesWhole(s: seq<Byte>)
    ensures |Triples(s)| % 3 == 0
    decreases |s|
  {
    if s != [] {
      var rest := if Rev(s[0]) == -1 then s[1..] else if |s| < 4 then [] else s[4..];
      TriplesWhole(rest);
      LessThree(|Triples(rest)| + 3);
    }
  }

  /** The last character of the alphabet that is not at the very beginning; 0 if there is none. */
  function LastIndex(s: seq<Byte>): (i: nat)
    requires s != []
    ensures i < |s|
    decreases |s|
  {
    var n := |s| - 1;
    if n == 0 || Rev(s[n]) != -1 then n else LastIndex(s[..n])
  }

  /** How many bytes of the last group do not count; `front` is the byte in front of the buffer. */
  function Excess(s: seq<Byte>, front: Byte): int
    requires s != []
  {
    var last := LastIndex(s);
    var previous := if last == 0 then front else s[last - 1];
    if s[last] != EQ then 0 else if previous == EQ then 2 else 1
  }

  lemma {:induction false} ExcessFits(s: seq<Byte>, front: Byte)
    requires s != []
    ensures Excess(s, front) <= |Triples(s)|
  {
    if Excess(s, front) > 0 {
      SomeTriple(s, LastIndex(s));
    }
  }

  lemma {:induction false} SomeTriple(s: seq<Byte>, i: nat)
    requires i < |s| && Rev(s[i]) != -1
    ensures |Triples(s)| >= 3
    decreases |s|
  {
    if Rev(s[0]) == -1 {
      SomeTriple(s[1..], i - 1);
    }
  }

  function Decode(s: seq<Byte>, front: Byte): seq<Byte> {
    if |s| < 4 then [] else ExcessFits(s, front); Triples(s)[..|Triples(s)| - Excess(s, front)]
  }

  // -------------------------------------------------------------------------
  // The round trip

  lemma GroupTriple(c1: Byte, c2: Byte, c3: Byte)
    ensures
      var g := Group(c1, c2, c3);
      Triple(Rev8(g[0]), Rev8(g[1]), Rev8(g[2]), Rev8(g[3])) == [c1, c2, c3]
  {
    RevChar(c1 / 4);
    RevChar(c1 % 4 * 16 + c2 / 16);
    RevChar(c2 % 16 * 4 + c3 / 64);
    RevChar(c3 % 64);
    SixBits(c1, c2, c3);
  }

  lemma SixBits(c1: Byte, c2: Byte, c3: Byte)
    ensures Triple(c1 / 4, c1 % 4 * 16 + c2 / 16, c2 % 16 * 4 + c3 / 64, c3 % 64) == [c1, c2, c3]
  {
    TwoAndFour(c1 % 4, c2 / 16);
    FourAndTwo(c2 % 16, c3 / 64);
  }

  lemma TwoAndFour(high: int, low: int)
    requires 0 <= high < 4 && 0 <= low < 16
    ensures (high * 16 + low) / 16 % 4 == high && (high * 16 + low) % 16 == low
  {
  }

  lemma FourAndTwo(high: int, low: int)
    requires 0 <= high < 16 && 0 <= low < 4
    ensures (high * 4 + low) / 4 % 16 == high && (high * 4 + low) % 4 == low
  {
  }

  lemma TriplesGroup(g: seq<Byte>, s: seq<Byte>)
    requires |g| == 4 && Rev(g[0]) != -1
    ensures Triples(g + s) == Triple(Rev8(g[0]), Rev8(g[1]), Rev8(g[2]), Rev8(g[3])) + Triples(s)
  {
    assert (g + s)[4..] == s;
  }

  /** The bytes of a group come back, whatever its fill characters decode to. */
  lemma HeadTriple(buf: seq<Byte>, s: seq<Byte>)
    requires buf != []
    ensures
      var t := Triples(Head(buf) + s);
      && |t| == 3 + |Triples(s)|
      && t[3..] == Triples(s)
      && forall i :: 0 <= i < 3 && i < |buf| ==> t[i] == buf[i]
  {
    RevChar(buf[0] / 4);
    TriplesGroup(Head(buf), s);
    HeadBytes(buf);
  }

  lemma HeadBytes(buf: seq<Byte>)
    requires buf != []
    ensures
      var g := Head(buf);
      var t := Triple(Rev8(g[0]), Rev8(g[1]), Rev8(g[2]), Rev8(g[3]));
      forall i :: 0 <= i < 3 && i < |buf| ==> t[i] == buf[i]
  {
    var full := Group(buf[0], if |buf| > 1 then buf[1] else 0, if |buf| > 2 then buf[2] else 0);
    var g := Head(buf);
    GroupTriple(buf[0], if |buf| > 1 then buf[1] else 0, if |buf| > 2 then buf[2] else 0);
    assert g[0] == full[0] && g[1] == full[1] && (|buf| > 1 ==> g[2] == full[2]) && (|buf| > 2 ==> g[3] == full[3]);
    TripleDepends(Rev8(g[0]), Rev8(g[1]), Rev8(g[2]), Rev8(g[3]), Rev8(full[2]), Rev8(full[3]));
  }

  /** The first byte does not depend on the last two characters, the second not on the last one. */
  lemma TripleDepends(e1: Byte, e2: Byte, e3: Byte, e4: Byte, f3: Byte, f4: Byte)
    ensures Triple(e1, e2, e3, e4)[0] == Triple(e1, e2, f3, f4)[0]
    ensures e3 == f3 ==> Triple(e1, e2, e3, e4)[1] == Triple(e1, e2, f3, f4)[1]
  {
  }

  lemma SkipBreak(lindex: nat, all: bool, s: seq<Byte>)
    ensures Triples(Break(lindex, all) + s) == Triples(s)
  {
    if Break(lindex, all) == [] {
      assert [] + s == s;
    } else {
      assert ([LF] + s)[1..] == s;
    }
  }

  ghost predicate Recovers(t: seq<Byte>, buf: seq<Byte>) {
    |t| == (|buf| + 2) / 3 * 3 && t[..|buf|] == buf
  }

  lemma RecoversMore(t: seq<Byte>, buf: seq<Byte>)
    requires buf != [] && |t| >= 3 && Recovers(t[3..], Rest(buf))
    requires forall i :: 0 <= i < 3 && i < |buf| ==> t[i] == buf[i]
    ensures Recovers(t, buf)
  {
    forall i | 0 <= i < |buf| ensures t[i] == buf[i] {
      if i >= 3 {
        assert t[3..][..|buf| - 3][i - 3] == t[i];
      }
    }
  }

  lemma {:induction false} EmitDecodes(buf: seq<Byte>, lindex: nat, all: bool, tail: seq<Byte>)
    requires Triples(tail) == []
    ensures Recovers(Triples(Emit(buf, lindex, all) + tail), buf)
    decreases |buf|
  {
    if buf == [] {
      assert [] + tail == tail;
    } else {
      var more := Emit(Rest(buf), Column(lindex, all), all);
      EmitDecodes(Rest(buf), Column(lindex, all), all, tail);
      GroupDecodes(buf, lindex, all, more + tail);
      Regroup(Break(lindex, all), Head(buf), more, tail);
    }
  }

  lemma GroupDecodes(buf: seq<Byte>, lindex: nat, all: bool, s: seq<Byte>)
    requires buf != [] && Recovers(Triples(s), Rest(buf))
    ensures Recovers(Triples(Break(lindex, all) + (Head(buf) + s)), buf)
  {
    SkipBreak(lindex, all, Head(buf) + s);
    HeadTriple(buf, s);
    RecoversMore(Triples(Head(buf) + s), buf);
  }

  lemma Regroup(a: seq<Byte>, b: seq<Byte>, c: seq<Byte>, d: seq<Byte>)
    ensures a + (b + c) + d == a + (b + (c + d))
  {
  }

  /** The end of the text tells how much of the last group counts. */
  ghost predicate EndsLike(e: seq<Byte>, r: nat) {
    && |e| >= 4 && Rev(e[|e| - 1]) != -1
    && (e[|e| - 1] == EQ <==> r != 0)
    && (e[|e| - 1] == EQ ==> (e[|e| - 2] == EQ <==> r == 1))
  }

  lemma HeadEnds(buf: seq<Byte>)
    requires 0 < |buf| <= 3
    ensures EndsLike(Head(buf), |buf| % 3)
  {
  }

  lemma EndsLater(a: seq<Byte>, e: seq<Byte>, r: nat)
    requires EndsLike(e, r)
    ensures EndsLike(a + e, r)
  {
  }

  lemma {:induction false} EmitEnds(buf: seq<Byte>, lindex: nat, all: bool)
    requires buf != []
    ensures EndsLike(Emit(buf, lindex, all), |buf| % 3)
    decreases |buf|
  {
    var more := Emit(Rest(buf), Column(lindex, all), all);
    if |buf| <= 3 {
      HeadEnds(buf);
      PlusEmpty(Head(buf));
    } else {
      EmitEnds(Rest(buf), Column(lindex, all), all);
      LessThree(|buf|);
      EndsLater(Head(buf), more, |buf| % 3);
    }
    EndsLater(Break(lindex, all), Head(buf) + more, |buf| % 3);
  }

  lemma LessThree(n: nat)
    requires n >= 3
    ensures (n - 3) % 3 == n % 3
  {
  }

  function Ending(endNewLine: bool): seq<Byte> {
    (if endNewLine then [LF] else []) + [NUL]
  }

  lemma EndingTriples(endNewLine: bool)
    ensures Triples(Ending(endNewLine)) == []
  {
    assert [LF, NUL][1..] == [NUL] && [NUL][1..] == [];
    assert Triples([NUL]) == Triples([NUL][1..]);
    assert [LF] + [NUL] == [LF, NUL] && [] + [NUL] == [NUL];
  }

  lemma LastBefore(e: seq<Byte>, c: Byte)
    requires e != [] && Rev(c) == -1
    ensures LastIndex(e + [c]) == LastIndex(e)
  {
    assert (e + [c])[..|e|] == e;
  }

  lemma LastOfText(e: seq<Byte>, endNewLine: bool)
    requires e != [] && Rev(e[|e| - 1]) != -1
    ensures LastIndex(e + Ending(endNewLine)) == |e| - 1
  {
    if endNewLine {
      LastBefore(e, LF);
      LastBefore(e + [LF], NUL);
      assert e + ([LF] + [NUL]) == (e + [LF]) + [NUL];
    } else {
      LastBefore(e, NUL);
      assert [] + [NUL] == [NUL];
    }
  }

  lemma EncodeIsEmit(buf: seq<Byte>, endNewLine: bool, all: bool)
    ensures Encode(buf, endNewLine, all) == Emit(buf, 0, all) + Ending(endNewLine)
  {
    var e := Emit(buf, 0, all);
    if all {
      EmitIsWrapped(buf, 0);
      WrapAtZero(Plain(buf));
    } else {
      EmitIsPlain(buf, 0);
    }
    assert e + (if endNewLine then [LF] else []) + [NUL] == e + Ending(endNewLine);
  }

  lemma DecodeText(buf: seq<Byte>, e: seq<Byte>, endNewLine: bool, front: Byte)
    requires buf != [] && EndsLike(e, |buf| % 3) && Recovers(Triples(e + Ending(endNewLine)), buf)
    ensures Decode(e + Ending(endNewLine), front) == buf
  {
    var s := e + Ending(endNewLine);
    LastOfText(e, endNewLine);
    assert s[|e| - 1] == e[|e| - 1] && s[|e| - 2] == e[|e| - 2];
    assert Excess(s, front) == (if |buf| % 3 == 0 then 0 else 3 - |buf| % 3);
    WholeGroups(|buf|);
  }

  lemma WholeGroups(n: nat)
    ensures (n + 2) / 3 * 3 - (if n % 3 == 0 then 0 else 3 - n % 3) == n
  {
  }

  /** Decoding undoes encoding for all bytes, with and without line breaks. */
  lemma RoundTrip(buf: seq<Byte>, endNewLine: bool, endAllNewLines: bool, front: Byte)
    ensures Decode(Encode(buf, endNewLine, endAllNewLines), front) == buf
  {
    var e := Emit(buf, 0, endAllNewLines);
    EncodeIsEmit(buf, endNewLine, endAllNewLines);
    if buf != [] {
      EndingTriples(endNewLine);
      EmitDecodes(buf, 0, endAllNewLines, Ending(endNewLine));
      EmitEnds(buf, 0, endAllNewLines);
      DecodeText(buf, e, endNewLine, front);
    }
  }

  // -------------------------------------------------------------------------
  // The loops

  /** Writes one character at position i. */
  method Put(a: array<Byte>, i: nat, c: Byte)
    requires i < a.Length
    modifies a
    ensures a[..i + 1] == old(a[..i]) + [c]
  {
    a[i] := c;
  }

  method PutTwo(a: array<Byte>, i: nat, c: Byte, d: Byte)
    requires i + 1 < a.Length
    modifies a
    ensures a[..i + 2] == old(a[..i]) + [c, d]
  {
    Put(a, i, c);
    Put(a, i + 1, d);
  }

  /** A line break if the line is full. */
  method MaybeBreak(a: array<Byte>, i: nat, column: nat, all: bool) returns (oindex: nat, lindex: nat)
    requires i + |Break(column, all)| <= a.Length
    modifies a
    ensures oindex == i + |Break(column, all)| && a[..oindex] == old(a[..i]) + Break(column, all)
    ensures lindex == if Break(column, all) == [] then column else 0
  {
    oindex, lindex := i, column;
    if lindex == WRAP && all {
      Put(a, i, LF);
      oindex, lindex := oindex + 1, 0;
    } else {
      assert a[..i] + [] == a[..i];
    }
  }

  /** One round of the encoder's loop. The second check for a line break never succeeds. */
  method PutGroup(a: array<Byte>, i: nat, column: nat, all: bool, c1: Byte, c2: Byte, c3: Byte) returns (oindex: nat,
                  lindex: nat)
    requires column % 4 == 0 && i + |Break(column, all)| + 4 <= a.Length
    modifies a
    ensures oindex == i + |Break(column, all)| + 4 && lindex == Column(column, all)
    ensures a[..oindex] == old(a[..i]) + (Break(column, all) + Group(c1, c2, c3))
  {
    ghost var before := a[..i];
    var g := Group(c1, c2, c3);
    oindex, lindex := MaybeBreak(a, i, column, all);
    PutTwo(a, oindex, Char(c1 / 4), Char(c1 % 4 * 16 + c2 / 16));
    oindex, lindex := oindex + 2, lindex + 2;
    oindex, lindex := MaybeBreak(a, oindex, lindex, all);
    PutTwo(a, oindex, Char(c2 % 16 * 4 + c3 / 64), Char(c3 % 64));
    oindex, lindex := oindex + 2, lindex + 2;
    assert before + Break(column, all) + [g[0], g[1]] + [] + [g[2], g[3]] == before + (Break(column, all) + g);
  }

  lemma {:induction false} RawLength(buf: seq<Byte>, lindex: nat, all: bool, fill: Byte)
    ensures |Raw(buf, lindex, all, fill)| <= (|buf| + 2) / 3 * 5
    decreases |buf|
  {
    if buf != [] {
      RawLength(Rest(buf), Column(lindex, all), all, fill);
      OneGroupLess(|buf|);
      assert |Break(lindex, all)| <= 1 && |RawHead(buf, fill)| == 4;
    }
  }

  lemma OneGroupLess(n: nat)
    requires n > 0
    ensures ((if n < 3 then 0 else n - 3) + 2) / 3 + 1 == (n + 2) / 3
  {
  }

  lemma {:induction false} RawStep(done: seq<Byte>, buf: seq<Byte>, lindex: nat, all: bool, fill: Byte)
    requires buf != []
    ensures (done + (Break(lindex, all) + RawHead(buf, fill))) + Raw(Rest(buf), Column(lindex, all), all, fill)
            == done + Raw(buf, lindex, all, fill)
  {
    var more := Raw(Rest(buf), Column(lindex, all), all, fill);
    Assoc(done, Break(lindex, all) + RawHead(buf, fill), more);
    Assoc(Break(lindex, all), RawHead(buf, fill), more);
  }

  function Left(buf: seq<Byte>, index: nat): seq<Byte> {
    if index < |buf| then buf[index..] else []
  }

  /** The loop's state: what is written and what the remaining bytes give are the whole. */
  ghost predicate Wrote(out: seq<Byte>, buf: seq<Byte>, index: nat, lindex: nat, all: bool, fill: Byte,
                        whole: seq<Byte>) {
    lindex % 4 == 0 && out + Raw(Left(buf, index), lindex, all, fill) == whole
  }

  lemma WroteMore(out: seq<Byte>, buf: seq<Byte>, index: nat, lindex: nat, all: bool, fill: Byte, whole: seq<Byte>)
    requires index < |buf| && Wrote(out, buf, index, lindex, all, fill, whole)
    ensures |out| + |Break(lindex, all)| + 4 <= |whole|
    ensures Wrote(out + (Break(lindex, all) + RawHead(buf[index..], fill)), buf, index + 3,
                  Column(lindex, all), all, fill, whole)
  {
    RawStep(out, buf[index..], lindex, all, fill);
    assert Left(buf, index + 3) == Rest(buf[index..]);
  }

  lemma ReadsHead(buf: seq<Byte>, index: nat, fill: Byte, c1: Byte, c2: Byte, c3: Byte)
    requires index < |buf| && c1 == buf[index] && (|buf| != 1 ==> fill == 0)
    requires c2 == (if index < |buf| - 1 then buf[index + 1] else 0)
             && c3 == (if index < |buf| - 2 then buf[index + 2] else fill)
    ensures Group(c1, c2, c3) == RawHead(buf[index..], fill)
  {
  }

  /** The encoder's loop; `fill` is what is read behind a buffer of one byte. */
  method PutGroups(buf: seq<Byte>, all: bool, fill: Byte, outbuf: array<Byte>) returns (oindex: nat)
    requires |buf| != 1 ==> fill == 0
    requires |Raw(buf, 0, all, fill)| <= outbuf.Length
    modifies outbuf
    ensures oindex <= outbuf.Length && outbuf[..oindex] == Raw(buf, 0, all, fill)
  {
    var index, lindex := 0, 0;
    oindex := 0;
    ghost var whole := Raw(buf, 0, all, fill);
    assert Left(buf, 0) == buf && [] + whole == whole;
    while index < |buf|
      invariant oindex <= outbuf.Length && Wrote(outbuf[..oindex], buf, index, lindex, all, fill, whole)
    {
      var c1 := buf[index];
      var c2 := if index < |buf| - 1 then buf[index + 1] else 0;
      var c3 := if index < |buf| - 2 then buf[index + 2] else fill;
      ReadsHead(buf, index, fill, c1, c2, c3);
      WroteMore(outbuf[..oindex], buf, index, lindex, all, fill, whole);
      oindex, lindex := PutGroup(outbuf, oindex, lindex, all, c1, c2, c3);
      index := index + 3;
    }
    assert outbuf[..oindex] + [] == outbuf[..oindex];
  }

  /** `encodeBase64`. The buffer is always large enough. */
  method EncodeBase64(buf: seq<Byte>, endNewLine: bool, endAllNewLines: bool, filler: Byte) returns (out: seq<Byte>)
    ensures out == Encode(buf, endNewLine, endAllNewLines)
  {
    var outsize := (|buf| + 2) / 3 * 4;
    outsize := outsize + (outsize + WRAP - 1 / WRAP) * 2;
    var outbuf := new Byte[outsize](_ => 0);
    var fill := if |buf| == 1 then filler else 0;
    RawLength(buf, 0, endAllNewLines, fill);
    var oindex := PutGroups(buf, endAllNewLines, fill, outbuf);
    PatchedRaw(buf, 0, endAllNewLines, fill, outbuf[..oindex], |buf| % 3);
    out := Finish(outbuf, oindex, |buf| % 3, endNewLine);
    EncodeIsEmit(buf, endNewLine, endAllNewLines);
  }

  /** The encoder behind its loop. */
  method Finish(outbuf: array<Byte>, size: nat, r: nat, endNewLine: bool) returns (out: seq<Byte>)
    requires size + 2 <= outbuf.Length && r < 3 && (r > 0 ==> size >= 4)
    modifies outbuf
    ensures out == Patched(old(outbuf[..size]), r) + Ending(endNewLine)
  {
    var oindex := size;
    if r == 1 {
      outbuf[oindex - 2] := EQ;
    }
    if r != 0 {
      outbuf[oindex - 1] := EQ;
    }
    ghost var patched := outbuf[..size];
    assert patched == Patched(old(outbuf[..size]), r);
    if endNewLine {
      Put(outbuf, oindex, LF);
      oindex := oindex + 1;
    }
    Put(outbuf, oindex, NUL);
    out := outbuf[..oindex + 1];
    assert out == patched + Ending(endNewLine);
  }

  /** The table values of the group at `index`, the letter A standing in behind the end. */
  lemma TriplesAt(s: seq<Byte>, index: nat)
    requires index < |s|
    ensures Rev(s[index]) == -1 ==> Triples(s[index..]) == Triples(s[index + 1..])
    ensures Rev(s[index]) != -1 ==>
              Triples(s[index..]) ==
              Triple(Rev8(s[index]), Rev8(At(s, index + 1)), Rev8(At(s, index + 2)), Rev8(At(s, index + 3)))
              + Triples(s[if index + 4 <= |s| then index + 4 else |s|..])
  {
    var t := s[index..];
    assert t[1..] == s[index + 1..];
    assert t[0] == s[index] && At(t, 1) == At(s, index + 1) && At(t, 2) == At(s, index + 2)
           && At(t, 3) == At(s, index + 3);
    if |t| >= 4 {
      assert t[4..] == s[index + 4..];
    } else {
      assert s[|s|..] == [];
    }
  }

  lemma {:induction false} TriplesLength(s: seq<Byte>)
    ensures |Triples(s)| <= (|s| + 3) / 4 * 3
    decreases |s|
  {
    if s != [] {
      if Rev(s[0]) == -1 {
        TriplesLength(s[1..]);
      } else {
        var rest := if |s| < 4 then [] else s[4..];
        TriplesLength(rest);
        assert (|rest| + 3) / 4 + 1 == (|s| + 3) / 4;
      }
    }
  }

  method PutTriple(a: array<Byte>, i: nat, t: seq<Byte>)
    requires |t| == 3 && i + 3 <= a.Length
    modifies a
    ensures a[..i + 3] == old(a[..i]) + t
  {
    PutTwo(a, i, t[0], t[1]);
    Put(a, i + 2, t[2]);
  }

  ghost predicate Decoded(out: seq<Byte>, buf: seq<Byte>, index: nat, whole: seq<Byte>) {
    index <= |buf| && out + Triples(buf[index..]) == whole
  }

  lemma DecodedMore(out: seq<Byte>, buf: seq<Byte>, index: nat, whole: seq<Byte>, t: seq<Byte>, next: nat)
    requires index < |buf| && Decoded(out, buf, index, whole) && Rev(buf[index]) != -1
    requires t == Triple(Rev8(buf[index]), Rev8(At(buf, index + 1)), Rev8(At(buf, index + 2)), Rev8(At(buf, index + 3)))
    requires next == if index + 4 <= |buf| then index + 4 else |buf|
    ensures |out| + 3 <= |whole| && Decoded(out + t, buf, next, whole)
  {
    TriplesAt(buf, index);
    assert out + (t + Triples(buf[next..])) == (out + t) + Triples(buf[next..]);
  }

  /** The decoder's loop. */
  method PutTriples(buf: seq<Byte>, outbuf: array<Byte>) returns (oindex: nat)
    requires |Triples(buf)| <= outbuf.Length
    modifies outbuf
    ensures oindex <= outbuf.Length && outbuf[..oindex] == Triples(buf)
  {
    var index := 0;
    oindex := 0;
    ghost var whole := Triples(buf);
    assert buf[0..] == buf && [] + whole == whole;
    while index < |buf|
      invariant oindex <= outbuf.Length && Decoded(outbuf[..oindex], buf, index, whole)
    {
      if Rev(buf[index]) == -1 {
        TriplesAt(buf, index);
        index := index + 1;
      } else {
        var t, next := ReadGroup(buf, index);
        DecodedMore(outbuf[..oindex], buf, index, whole, t, next);
        PutTriple(outbuf, oindex, t);
        oindex, index := oindex + 3, next;
      }
    }
    assert buf[|buf|..] == [] && outbuf[..oindex] + [] == outbuf[..oindex];
  }

  method ReadGroup(buf: seq<Byte>, from: nat) returns (t: seq<Byte>, index: nat)
    requires from < |buf|
    ensures t == Triple(Rev8(buf[from]), Rev8(At(buf, from + 1)), Rev8(At(buf, from + 2)), Rev8(At(buf, from + 3)))
    ensures index == if from + 4 <= |buf| then from + 4 else |buf|
  {
    var e1, e2, e3, e4 := buf[from], LETTER_A, LETTER_A, LETTER_A;
    index := from + 1;
    if index < |buf| {
      e2, index := buf[index], index + 1;
    }
    if index < |buf| {
      e3, index := buf[index], index + 1;
    }
    if index < |buf| {
      e4, index := buf[index], index + 1;
    }
    t := Triple(Rev8(e1), Rev8(e2), Rev8(e3), Rev8(e4));
  }

  /** The search for the last character of the alphabet, backwards. */
  method FindLast(buf: seq<Byte>) returns (last: nat)
    requires buf != []
    ensures last == LastIndex(buf)
  {
    var i := |buf| - 1;
    last := 0;
    assert buf[..|buf|] == buf;
    while i > 0
      invariant 0 <= i < |buf| && last == 0 && LastIndex(buf) == LastIndex(buf[..i + 1])
    {
      assert buf[..i + 1][..i] == buf[..i];
      if Rev(buf[i]) != -1 {
        return i;
      }
      i := i - 1;
    }
  }

  /** `decodeBase64`; characters index a table of 256 entries, `front` is the byte before the buffer. */
  method DecodeBase64(buf: seq<Byte>, front: Byte) returns (out: seq<Byte>)
    requires forall i :: 0 <= i < |buf| ==> buf[i] < 128
    ensures out == Decode(buf, front)
  {
    if |buf| < 4 {
      return [];
    }
    var outbuf := new Byte[(|buf| + 3) / 4 * 3](_ => 0);
    TriplesLength(buf);
    var oindex := PutTriples(buf, outbuf);
    var last := FindLast(buf);
    ExcessFits(buf, front);
    var previous := if last == 0 then front else buf[last - 1];
    if previous == EQ && buf[last] == EQ {
      oindex := oindex - 1;
    } else if buf[last] != EQ {
      oindex := oindex + 1;
    }
    out := outbuf[..oindex - 1];
  }

  /** Everything that the encoder writes can be looked up. */
  lemma {:induction false} EmitIsAscii(buf: seq<Byte>, lindex: nat, all: bool, i: nat)
    requires i < |Emit(buf, lindex, all)|
    ensures Emit(buf, lindex, all)[i] < 128
    decreases |buf|
  {
    var n := |Break(lindex, all)|;
    if i >= n + 4 {
      EmitIsAscii(Rest(buf), Column(lindex, all), all, i - n - 4);
    } else if i >= n {
      HeadIsAscii(buf, i - n);
    }
  }

  lemma EncodeIsAscii(buf: seq<Byte>, endNewLine: bool, all: bool)
    ensures forall i :: 0 <= i < |Encode(buf, endNewLine, all)| ==> Encode(buf, endNewLine, all)[i] < 128
  {
    var text := Encode(buf, endNewLine, all);
    EncodeIsEmit(buf, endNewLine, all);
    forall i | 0 <= i < |text| ensures text[i] < 128 {
      if i < |Emit(buf, 0, all)| {
        EmitIsAscii(buf, 0, all, i);
      }
    }
  }

  lemma HeadIsAscii(buf: seq<Byte>, k: nat)
    requires buf != [] && k < 4
    ensures Head(buf)[k] < 128
  {
  }

  /** Both loops one after the other. */
  method Recode(buf: seq<Byte>, endNewLine: bool, endAllNewLines: bool, filler: Byte,
                front: Byte) returns (out: seq<Byte>)
    ensures out == buf
  {
    var text := EncodeBase64(buf, endNewLine, endAllNewLines, filler);
    EncodeIsAscii(buf, endNewLine, endAllNewLines);
    RoundTrip(buf, endNewLine, endAllNewLines, front);
    out := DecodeBase64(text, front);
  }
}
