/**
 Quoted-printable as in section 6.7 of RFC 2045, the way `MIMECodec` writes and reads it. Texts
 are C strings: they hold no NUL byte, and appending one adds nothing.
 */
module QuotedPrintable {
  import opened Bytes
  import opened Common

  const EQ: Byte := 61
  const WRAP := 76
  const SOFT: seq<Byte> := [EQ, CR, LF]
  const LETTER_A: Byte := 97

  ghost predicate NulFree(s: seq<Byte>) {
    forall i :: 0 <= i < |s| ==> s[i] != NUL
  }

  function Append(s: seq<Byte>, c: Byte): seq<Byte> {
    if c == NUL then s else s + [c]
  }

  /** One of the characters !"#@[\]^`{|}~ that some gateways change. */
  predicate Fragile(c: Byte) {
    33 <= c <= 35 || c == 64 || 91 <= c <= 94 || c == 96 || 123 <= c <= 126
  }

  predicate Literal(c: Byte, compat: bool) {
    (33 <= c <= 60 || 62 <= c <= 126 || c == 9 || c == 32) && !(compat && Fragile(c))
  }

  /** The test that decides about an early line break; tab and space count as special here. */
  predicate Special(c: Byte, compat: bool) {
    c < 33 || c == 61 || c > 126 || (compat && Fragile(c))
  }

  function HexDigit(h: int): Byte
    requires 0 <= h < 16
  {
    if h < 10 then h + 48 else h - 10 + 65
  }

  // -------------------------------------------------------------------------
  // Encoding

  function Quoted(c: Byte, compat: bool): (r: seq<Byte>)
    ensures 0 < |r| <= 3
  {
    if Literal(c, compat) then [c] else [EQ, HexDigit(c / 16), HexDigit(c % 16)]
  }

  function At(s: seq<Byte>, i: nat): Byte {
    if i < |s| then s[i] else LETTER_A
  }

  /** Whether a soft line break follows column `lindex`, given the characters that come next. */
  predicate BreaksBefore(lindex: nat, next: seq<Byte>, compat: bool) {
    || lindex == WRAP - 1
    || ((Special(At(next, 0), compat) || Special(At(next, 1), compat) || Special(At(next, 2), compat))
        && lindex == WRAP - 3)
  }

  function Encode(s: seq<Byte>, lindex: nat, compat: bool): seq<Byte>
    decreases |s|
  {
    if s == [] then []
    else
      var q, column := Quoted(s[0], compat), lindex + |Quoted(s[0], compat)|;
      if BreaksBefore(column, s[1..], compat) then q + (SOFT + Encode(s[1..], 0, compat))
      else q + Encode(s[1..], column, compat)
  }

  // -------------------------------------------------------------------------
  // Decoding

  /** Conversion to upper case is a library's; on upper case hexadecimal digits it does nothing. */
  ghost predicate UpperKeepsHex(upper: Byte -> Byte) {
    forall h :: 0 <= h < 16 ==> upper(HexDigit(h)) == HexDigit(h)
  }

  function HexValue(c: Byte): int {
    if 65 <= c <= 70 then c - 65 + 10 else c - 48
  }

  /** The byte of an escape; anything but digits gives some byte. */
  function Escaped(c1: Byte, c2: Byte, upper: Byte -> Byte): Byte {
    (HexValue(upper(c1)) * 16 + HexValue(upper(c2))) % 256
  }

  function Prepend(c: Byte, s: seq<Byte>): seq<Byte> {
    if c == NUL then s else [c] + s
  }

  function Decode(s: seq<Byte>, upper: Byte -> Byte): seq<Byte>
    decreases |s|
  {
    if s == [] then []
    else if s[0] != EQ then Prepend(s[0], Decode(s[1..], upper))
    else
      var c1 := if |s| > 1 then s[1] else LF;
      var c2 := if |s| > 2 then s[2] else 88;
      if c1 == CR && c2 == LF then Decode(Skip(s, 3), upper)
      else if c1 == LF then Decode(Skip(s, 2), upper)
      else Prepend(Escaped(c1, c2, upper), Decode(Skip(s, 3), upper))
  }

  function Skip(s: seq<Byte>, n: nat): (r: seq<Byte>)
    ensures n > 0 && s != [] ==> |r| < |s|
  {
    if n <= |s| then s[n..] else []
  }

  // -------------------------------------------------------------------------
  // The round trip

  lemma HexBack(c: Byte, upper: Byte -> Byte)
    requires UpperKeepsHex(upper)
    ensures Escaped(HexDigit(c / 16), HexDigit(c % 16), upper) == c
  {
    HexDigitValue(c / 16);
    HexDigitValue(c % 16);
  }

  lemma HexDigitValue(h: int)
    requires 0 <= h < 16
    ensures HexValue(HexDigit(h)) == h && HexDigit(h) != CR && HexDigit(h) != LF
  {
  }

  lemma DecodeQuoted(c: Byte, compat: bool, rest: seq<Byte>, upper: Byte -> Byte)
    requires UpperKeepsHex(upper)
    ensures Decode(Quoted(c, compat) + rest, upper) == Prepend(c, Decode(rest, upper))
  {
    var s := Quoted(c, compat) + rest;
    if Literal(c, compat) {
      assert s[1..] == rest;
    } else {
      HexDigitValue(c / 16);
      HexBack(c, upper);
      assert Skip(s, 3) == rest;
    }
  }

  lemma DecodeSoft(rest: seq<Byte>, upper: Byte -> Byte)
    ensures Decode(SOFT + rest, upper) == Decode(rest, upper)
  {
    assert Skip(SOFT + rest, 3) == rest;
  }

  lemma DecodeQuotedSoft(c: Byte, compat: bool, rest: seq<Byte>, upper: Byte -> Byte)
    requires UpperKeepsHex(upper)
    ensures Decode(Quoted(c, compat) + (SOFT + rest), upper) == Prepend(c, Decode(rest, upper))
  {
    DecodeQuoted(c, compat, SOFT + rest, upper);
    DecodeSoft(rest, upper);
  }

  lemma DecodeFirst(s: seq<Byte>, lindex: nat, compat: bool, next: nat, upper: Byte -> Byte)
    requires s != [] && UpperKeepsHex(upper)
    requires next == (if BreaksBefore(lindex + |Quoted(s[0], compat)|, s[1..], compat) then 0
                      else lindex + |Quoted(s[0], compat)|)
    ensures Decode(Encode(s, lindex, compat), upper) == Prepend(s[0], Decode(Encode(s[1..], next, compat), upper))
  {
    if BreaksBefore(lindex + |Quoted(s[0], compat)|, s[1..], compat) {
      DecodeQuotedSoft(s[0], compat, Encode(s[1..], 0, compat), upper);
    } else {
      DecodeQuoted(s[0], compat, Encode(s[1..], next, compat), upper);
    }
  }

  /** Decoding undoes encoding, wherever the soft breaks fall. */
  lemma {:induction false} RoundTrip(s: seq<Byte>, lindex: nat, compat: bool, upper: Byte -> Byte)
    requires NulFree(s) && UpperKeepsHex(upper)
    ensures Decode(Encode(s, lindex, compat), upper) == s
    decreases |s|
  {
    if s != [] {
      var column := lindex + |Quoted(s[0], compat)|;
      var next := if BreaksBefore(column, s[1..], compat) then 0 else column;
      RoundTrip(s[1..], next, compat, upper);
      DecodeFirst(s, lindex, compat, next, upper);
      assert Prepend(s[0], s[1..]) == s;
    }
  }

  // -------------------------------------------------------------------------
  // Which bytes occur

  /** Every byte is printable, a tab or a space, or part of a soft break. */
  ghost predicate Transportable(t: seq<Byte>, i: nat)
    requires i < |t|
  {
    && (t[i] == CR ==> i >= 1 && i + 1 < |t| && t[i - 1] == EQ && t[i + 1] == LF)
    && (t[i] == LF ==> i >= 2 && t[i - 2] == EQ && t[i - 1] == CR)
    && (t[i] == CR || t[i] == LF || t[i] == 9 || 32 <= t[i] <= 126)
  }

  ghost predicate AllTransportable(t: seq<Byte>) {
    forall i :: 0 <= i < |t| ==> Transportable(t, i)
  }

  lemma TransportableConcat(a: seq<Byte>, b: seq<Byte>)
    requires AllTransportable(a) && AllTransportable(b)
    ensures AllTransportable(a + b)
  {
    forall i | 0 <= i < |a + b| ensures Transportable(a + b, i) {
      if i < |a| {
        assert Transportable(a, i);
      } else {
        assert Transportable(b, i - |a|);
      }
    }
  }

  lemma QuotedIsTransportable(c: Byte, compat: bool)
    ensures AllTransportable(Quoted(c, compat))
  {
  }

  lemma {:induction false} OnlySafeBytes(s: seq<Byte>, lindex: nat, compat: bool)
    ensures AllTransportable(Encode(s, lindex, compat))
    decreases |s|
  {
    if s != [] {
      var column := lindex + |Quoted(s[0], compat)|;
      QuotedIsTransportable(s[0], compat);
      if BreaksBefore(column, s[1..], compat) {
        OnlySafeBytes(s[1..], 0, compat);
        TransportableConcat(SOFT, Encode(s[1..], 0, compat));
        TransportableConcat(Quoted(s[0], compat), SOFT + Encode(s[1..], 0, compat));
      } else {
        OnlySafeBytes(s[1..], column, compat);
        TransportableConcat(Quoted(s[0], compat), Encode(s[1..], column, compat));
      }
    }
  }

  /** With `compat` on, no fragile character occurs. */
  lemma {:induction false} NoFragileBytes(s: seq<Byte>, lindex: nat, i: nat)
    requires i < |Encode(s, lindex, true)|
    ensures !Fragile(Encode(s, lindex, true)[i])
    decreases |s|
  {
    var n := |Quoted(s[0], true)|;
    var soft := BreaksBefore(lindex + n, s[1..], true);
    var m := if soft then n + 3 else n;
    if i >= m {
      NoFragileBytes(s[1..], if soft then 0 else lindex + n, i - m);
    } else if i >= n {
      assert Encode(s, lindex, true)[i] == SOFT[i - n];
    } else {
      assert Encode(s, lindex, true)[i] == Quoted(s[0], true)[i];
    }
  }

  // -------------------------------------------------------------------------
  // The loops

  /** What is written and what the rest gives are the whole. */
  ghost predicate Coded(out: seq<Byte>, s: seq<Byte>, lindex: nat, compat: bool, whole: seq<Byte>) {
    out + Encode(s, lindex, compat) == whole
  }

  method EncodeQuotedPrintable(s: seq<Byte>, compat: bool) returns (out: seq<Byte>)
    ensures out == Encode(s, 0, compat)
  {
    out := [];
    var index: nat, lindex: nat := 0, 0;
    ghost var whole := Encode(s, 0, compat);
    assert s[0..] == s;
    PlusEmpty(whole);
    while index < |s|
      invariant 0 <= index <= |s| && Coded(out, s[index..], lindex, compat, whole)
    {
      var q := Quote(s[index], compat);
      CodedMore(out, s[index..], lindex, compat, whole);
      assert s[index..][1..] == s[index + 1..];
      index, out, lindex := index + 1, out + q, lindex + |q|;
      var soft := IsBreak(s, index, lindex, compat);
      if soft {
        out := out + SOFT;
        lindex := 0;
      }
    }
    assert s[|s|..] == [];
    PlusEmpty(out);
  }

  /** One character, as it is or as three. */
  method Quote(c: Byte, compat: bool) returns (q: seq<Byte>)
    ensures q == Quoted(c, compat)
  {
    if Literal(c, compat) {
      q := [c];
    } else {
      q := [EQ] + [HexDigit(c / 16)] + [HexDigit(c % 16)];
    }
  }

  method IsBreak(s: seq<Byte>, index: nat, lindex: nat, compat: bool) returns (soft: bool)
    requires index <= |s|
    ensures soft == BreaksBefore(lindex, s[index..], compat)
  {
    var c1 := if index < |s| then s[index] else LETTER_A;
    var c2 := if index + 1 < |s| then s[index + 1] else LETTER_A;
    var c3 := if index + 2 < |s| then s[index + 2] else LETTER_A;
    var special := Special(c1, compat) || Special(c2, compat) || Special(c3, compat);
    soft := lindex == WRAP - 1 || (special && lindex == WRAP - 3);
  }

  lemma {:induction false} CodedMore(out: seq<Byte>, s: seq<Byte>, lindex: nat, compat: bool, whole: seq<Byte>)
    requires s != [] && Coded(out, s, lindex, compat, whole)
    ensures
      var q := Quoted(s[0], compat);
      if BreaksBefore(lindex + |q|, s[1..], compat) then Coded(out + q + SOFT, s[1..], 0, compat, whole)
      else Coded(out + q, s[1..], lindex + |q|, compat, whole)
  {
    var q := Quoted(s[0], compat);
    if BreaksBefore(lindex + |q|, s[1..], compat) {
      AssocFour(out, q, SOFT, Encode(s[1..], 0, compat));
    } else {
      Assoc(out, q, Encode(s[1..], lindex + |q|, compat));
    }
  }

  lemma DecodeStep(out: seq<Byte>, c: Byte, rest: seq<Byte>)
    ensures out + Prepend(c, rest) == Append(out, c) + rest
  {
    assert out + ([c] + rest) == (out + [c]) + rest;
  }

  method DecodeQuotedPrintable(s: seq<Byte>, upper: Byte -> Byte) returns (out: seq<Byte>)
    ensures out == Decode(s, upper)
  {
    out := [];
    var index := 0;
    assert Skip(s, 0) == s;
    while index < |s|
      invariant 0 <= index && out + Decode(Skip(s, index), upper) == Decode(s, upper)
      decreases |s| - index
    {
      ghost var rest := Skip(s, index);
      SkipSkip(s, index);
      var c := s[index];
      if c == EQ {
        var c1 := if index + 1 < |s| then s[index + 1] else LF;
        var c2 := if index + 2 < |s| then s[index + 2] else 88;
        if c1 == CR && c2 == LF {
          index := index + 3;
        } else if c1 == LF {
          index := index + 2;
        } else {
          DecodeStep(out, Escaped(c1, c2, upper), Decode(Skip(rest, 3), upper));
          out := Append(out, Escaped(c1, c2, upper));
          index := index + 3;
        }
      } else {
        DecodeStep(out, c, Decode(rest[1..], upper));
        out := Append(out, c);
        index := index + 1;
      }
    }
    assert out + [] == out;
  }

  lemma SkipSkip(s: seq<Byte>, index: nat)
    requires index < |s|
    ensures
      var rest := Skip(s, index);
      && rest != [] && rest[0] == s[index]
      && rest[1..] == Skip(s, index + 1) && Skip(rest, 2) == Skip(s, index + 2) && Skip(rest, 3) == Skip(s, index + 3)
  {
  }
}
