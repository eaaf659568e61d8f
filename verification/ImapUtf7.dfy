/**
 The mailbox name converter of `ImapUTF7Convertor`: modified UTF-7 as in section 5.1.3 of
 RFC 3501. Printable ASCII stands for itself, "&" is written "&-", and everything else goes
 into runs "&...-" of modified base64 over UTF-16. The converter works on UTF-8 bytes and
 keeps a bit buffer.
 */
module ImapUtf7 {
  import opened Bytes
  import opened Common

  const AMP: Byte := 38
  const DASH: Byte := 45
  const UNDEFINED := 64
  const UTF16BASE := 0x10000
  const UTF16HIGHSTART := 0xD800
  const UTF16HIGHEND := 0xDBFF
  const UTF16LOSTART := 0xDC00
  const UTF16LOEND := 0xDFFF
  /** The bit buffer is a machine word; the narrowest `unsigned long` has 32 bits. */
  const WORD := 0x1_0000_0000

  function Pow2(n: nat): (p: nat)
    ensures p > 0
  {
    if n == 0 then 1 else 2 * Pow2(n - 1)
  }

  // -------------------------------------------------------------------------
  // The modified base64 alphabet

  function Char64(d: int): Byte
    requires 0 <= d < 64
  {
    if d < 26 then 65 + d
    else if d < 52 then 97 + (d - 26)
    else if d < 62 then 48 + (d - 52)
    else if d == 62 then 43
    else 44
  }

  /** The reverse table: UNDEFINED for characters outside the alphabet. */
  function Digit64(c: Byte): (d: int)
    ensures 0 <= d <= UNDEFINED
  {
    if 65 <= c <= 90 then c - 65
    else if 97 <= c <= 122 then c - 97 + 26
    else if 48 <= c <= 57 then c - 48 + 52
    else if c == 43 then 62
    else if c == 44 then 63
    else UNDEFINED
  }

  lemma AlphabetInverse(d: int)
    requires 0 <= d < 64
    ensures Digit64(Char64(d)) == d && Char64(d) != DASH && Char64(d) != AMP
  {
  }

  function Chars(digits: seq<int>): seq<Byte>
    requires forall i :: 0 <= i < |digits| ==> 0 <= digits[i] < 64
  {
    seq(|digits|, i requires 0 <= i < |digits| => Char64(digits[i]))
  }

  // -------------------------------------------------------------------------
  // UTF-8

  function Utf8(cp: nat): (r: seq<Byte>)
    requires cp < 0x110000
  {
    if cp < 0x80 then [cp]
    else if cp < 0x800 then [0xC0 + cp / 64, 0x80 + cp % 64]
    else if cp < 0x10000 then [0xE0 + cp / 4096, 0x80 + cp / 64 % 64, 0x80 + cp % 64]
    else [0xF0 + cp / 262144, 0x80 + cp / 4096 % 64, 0x80 + cp / 64 % 64, 0x80 + cp % 64]
  }

  ghost predicate CodePoints(cps: seq<nat>, limit: nat) {
    limit <= 0x110000 && forall i :: 0 <= i < |cps| ==> cps[i] < limit
  }

  function Utf8All(cps: seq<nat>): seq<Byte>
    requires CodePoints(cps, 0x110000)
  {
    if cps == [] then [] else Utf8(cps[0]) + Utf8All(cps[1..])
  }

  predicate Printable(c: int) {
    32 <= c <= 126
  }

  // -------------------------------------------------------------------------
  // The encoder

  datatype Encoder = Encoder(out: seq<Byte>, utf7mode: bool, bitbuf: nat, bitstogo: nat,
                             ucs4: nat, utf8pos: nat, utf8total: nat)

  const ENCODER := Encoder([], false, 0, 0, 0, 0, 0)

  /** The base64 digits that can be taken off a buffer holding `bits` unwritten bits. */
  function Spew(bitbuf: nat, bits: nat): (r: seq<int>)
    requires bits <= 21
    ensures forall i :: 0 <= i < |r| ==> 0 <= r[i] < 64
  {
    if bits < 6 then [] else [bitbuf / Pow2(bits - 6) % 64] + Spew(bitbuf, bits - 6)
  }

  /** Appends one UTF-16 unit to the buffer and writes what is complete. */
  function PutUnit(e: Encoder, unit: nat): Encoder
    requires e.bitstogo <= 5
  {
    var bitbuf := (e.bitbuf * 65536 + unit) % WORD;
    e.(bitbuf := bitbuf, bitstogo := (e.bitstogo + 16) % 6, out := e.out + Chars(Spew(bitbuf, e.bitstogo + 16)))
  }

  /** The last digit of a run, padded with zero bits. */
  function Flushed(e: Encoder): seq<Byte>
    requires e.bitstogo <= 5
  {
    if e.bitstogo > 0 then [Char64(e.bitbuf * Pow2(6 - e.bitstogo) % 64)] else []
  }

  /** A complete code point goes out as one unit, or as a surrogate pair. */
  function PutCodePoint(e: Encoder, ucs4: nat): (r: Encoder)
    requires e.bitstogo <= 5
    ensures r.bitstogo <= 5 && r.utf8total == 0
  {
    var e' := e.(utf8total := 0);
    if ucs4 >= UTF16BASE then
      var rest := ucs4 - UTF16BASE;
      var low := rest % 1024 + UTF16LOSTART;
      PutUnit(PutUnit(e', rest / 1024 + UTF16HIGHSTART), low).(ucs4 := low)
    else
      PutUnit(e', ucs4).(ucs4 := ucs4)
  }

  function EncodeByte(e: Encoder, c: Byte): (r: Encoder)
    requires e.bitstogo <= 5
    ensures r.bitstogo <= 5
  {
    if Printable(c) then
      var left := if e.utf7mode then e.(out := e.out + Flushed(e) + [DASH], bitstogo := 0, utf7mode := false) else e;
      left.(out := left.out + (if c == AMP then [c, DASH] else [c]))
    else
      var run := if e.utf7mode then e else e.(out := e.out + [AMP], utf7mode := true);
      if c < 0x80 then PutCodePoint(run, c)
      else if run.utf8total != 0 then
        var more := run.(ucs4 := run.ucs4 * 64 + c % 64, utf8pos := run.utf8pos + 1);
        if more.utf8pos < more.utf8total then more else PutCodePoint(more, more.ucs4)
      else if c < 0xE0 then run.(utf8pos := 1, utf8total := 2, ucs4 := c % 32)
      else if c < 0xF0 then run.(utf8pos := 1, utf8total := 3, ucs4 := c % 16)
      else run.(utf8pos := 1, utf8total := 4, ucs4 := c % 4)
  }

  function EncodeBytes(e: Encoder, src: seq<Byte>): (r: Encoder)
    requires e.bitstogo <= 5
    ensures r.bitstogo <= 5
    decreases |src|
  {
    if src == [] then e else EncodeBytes(EncodeByte(e, src[0]), src[1..])
  }

  function Finished(e: Encoder): seq<Byte>
    requires e.bitstogo <= 5
  {
    if e.utf7mode then e.out + Flushed(e) + [DASH] else e.out
  }

  /** `unicodeToIMAPUTF7` before its quoting step; the UTF-8 text is a C string. */
  function Encode(src: seq<Byte>): seq<Byte> {
    Finished(EncodeBytes(ENCODER, CString(src)))
  }

  // -------------------------------------------------------------------------
  // The decoder

  /**
   The bytes written for a UCS-4 value; the fourth byte of a long form is whatever was there,
   and appending a NUL to a C string adds nothing.
   */
  function Written(ucs4: nat, stale: Byte): seq<Byte> {
    CString(if ucs4 < 0x10000 then Utf8(ucs4)
            else [0xF0 + ucs4 / 262144 % 16, 0x80 + ucs4 / 4096 % 64, 0x80 + ucs4 / 64 % 64, stale])
  }

  /** Text outside a run, from position i on. */
  function DecodeText(src: seq<Byte>, i: nat, stale: Byte): seq<Byte>
    requires i <= |src|
    decreases |src| - i, 1
  {
    if i == |src| then []
    else if src[i] != AMP then [src[i]] + DecodeText(src, i + 1, stale)
    else if i + 1 < |src| && src[i + 1] == DASH then [AMP] + DecodeText(src, i + 2, stale)
    else DecodeRun(src, i + 1, 0, 0, 0, stale)
  }

  /** Inside a run: `bits` bits of the buffer have not been used yet. */
  function DecodeRun(src: seq<Byte>, i: nat, bitbuf: nat, bits: nat, ucs4: nat, stale: Byte): seq<Byte>
    requires i <= |src| && bits < 16
    decreases |src| - i, 2
  {
    if i < |src| && Digit64(src[i]) != UNDEFINED then
      var buf := (bitbuf * 64 + Digit64(src[i])) % WORD;
      if bits + 6 < 16 then DecodeRun(src, i + 1, buf, bits + 6, ucs4, stale)
      else
        var left := bits + 6 - 16;
        var utf16 := buf / Pow2(left) % 65536;
        if UTF16HIGHSTART <= utf16 <= UTF16HIGHEND then
          DecodeRun(src, i + 1, buf, left, (utf16 - UTF16HIGHSTART) * 1024, stale)
        else
          var cp := if UTF16LOSTART <= utf16 <= UTF16LOEND then ucs4 + (utf16 - UTF16LOSTART) + UTF16BASE else utf16;
          Written(cp, stale) + DecodeRun(src, i + 1, buf, left, cp, stale)
    else if i < |src| && src[i] == DASH then DecodeText(src, i + 1, stale)
    else DecodeText(src, i, stale)
  }

  /** `imapUTF7ToUnicode` up to the final conversion from UTF-8. */
  function Decode(src: seq<Byte>, stale: Byte): seq<Byte> {
    DecodeText(CString(src), 0, stale)
  }

  /** A digit that completes no unit. */
  lemma {:induction false} DigitKept(src: seq<Byte>, i: nat, b: nat, bits: nat, ucs4: nat, stale: Byte)
    requires i < |src| && Digit64(src[i]) != UNDEFINED && bits < 10
    ensures DecodeRun(src, i, b, bits, ucs4, stale)
            == DecodeRun(src, i + 1, (b * 64 + Digit64(src[i])) % WORD, bits + 6, ucs4, stale)
  {
  }

  /** One that does, with the first half of a pair or a whole code point. */
  lemma {:induction false} DigitCompletes(src: seq<Byte>, i: nat, b: nat, bits: nat, ucs4: nat, stale: Byte)
    requires i < |src| && Digit64(src[i]) != UNDEFINED && 10 <= bits < 16
    ensures
      var buf := (b * 64 + Digit64(src[i])) % WORD;
      var utf16 := buf / Pow2(bits - 10) % 65536;
      var cp := if UTF16LOSTART <= utf16 <= UTF16LOEND then ucs4 + (utf16 - UTF16LOSTART) + UTF16BASE else utf16;
      DecodeRun(src, i, b, bits, ucs4, stale)
      == if UTF16HIGHSTART <= utf16 <= UTF16HIGHEND
         then DecodeRun(src, i + 1, buf, bits - 10, (utf16 - UTF16HIGHSTART) * 1024, stale)
         else Written(cp, stale) + DecodeRun(src, i + 1, buf, bits - 10, cp, stale)
  {
  }

  /** The dash that ends a run is skipped, anything else is text again. */
  lemma {:induction false} RunStops(src: seq<Byte>, i: nat, b: nat, bits: nat, ucs4: nat, stale: Byte)
    requires i <= |src| && bits < 16 && (i < |src| ==> Digit64(src[i]) == UNDEFINED)
    ensures DecodeRun(src, i, b, bits, ucs4, stale)
            == DecodeText(src, if i < |src| && src[i] == DASH then i + 1 else i, stale)
  {
  }

  // -------------------------------------------------------------------------
  // The loops

  /** Writes all complete digits of the buffer. */
  method SpewOut(bitbuf: nat, bits: nat) returns (out: seq<Byte>, left: nat)
    requires bits <= 21
    ensures left == bits % 6 && out == Chars(Spew(bitbuf, bits))
  {
    left, out := bits, [];
    ghost var whole, k: nat := Chars(Spew(bitbuf, bits)), 0;
    PlusEmpty(whole);
    while left >= 6
      invariant bits == 6 * k + left && out + Chars(Spew(bitbuf, left)) == whole
    {
      SpewOne(out, bitbuf, left);
      left, k := left - 6, k + 1;
      out := out + [Char64(bitbuf / Pow2(left) % 64)];
    }
    Remainder6(k, left);
    PlusEmpty(out);
  }

  lemma Remainder6(k: nat, left: nat)
    requires left < 6
    ensures (6 * k + left) % 6 == left
  {
  }

  lemma {:induction false} SpewOne(out: seq<Byte>, bitbuf: nat, bits: nat)
    requires 6 <= bits <= 21
    ensures out + Chars(Spew(bitbuf, bits))
            == out + [Char64(bitbuf / Pow2(bits - 6) % 64)] + Chars(Spew(bitbuf, bits - 6))
  {
    var d, rest := bitbuf / Pow2(bits - 6) % 64, Spew(bitbuf, bits - 6);
    CharsFirst(d, rest);
    Assoc(out, [Char64(d)], Chars(rest));
  }

  lemma CharsFirst(d: int, rest: seq<int>)
    requires 0 <= d < 64 && forall i :: 0 <= i < |rest| ==> 0 <= rest[i] < 64
    ensures Chars([d] + rest) == [Char64(d)] + Chars(rest)
  {
  }

  method PushUnit(e: Encoder, unit: nat) returns (r: Encoder)
    requires e.bitstogo <= 5
    ensures r.bitstogo <= 5 && r == PutUnit(e, unit)
  {
    r := e.(bitbuf := (e.bitbuf * 65536 + unit) % WORD);
    var out, left := SpewOut(r.bitbuf, r.bitstogo + 16);
    r := r.(out := r.out + out, bitstogo := left);
  }

  /** Splits a code point into units if necessary and pushes them through the buffer. */
  method PushCodePoint(e: Encoder, codePoint: nat) returns (r: Encoder)
    requires e.bitstogo <= 5
    ensures r == PutCodePoint(e, codePoint)
  {
    var ucs4 := codePoint;
    r := e.(utf8total := 0);
    if ucs4 >= UTF16BASE {
      ucs4 := ucs4 - UTF16BASE;
      r := PushUnit(r, ucs4 / 1024 + UTF16HIGHSTART);
      ucs4 := ucs4 % 1024 + UTF16LOSTART;
    }
    r := PushUnit(r, ucs4);
    r := r.(ucs4 := ucs4);
  }

  /** Ends the run that the encoder is in, if any. */
  method LeaveRun(e: Encoder) returns (r: Encoder)
    requires e.bitstogo <= 5
    ensures r.out == Finished(e) && !r.utf7mode
    ensures r == if e.utf7mode then e.(out := Finished(e), bitstogo := 0, utf7mode := false) else e
  {
    r := e;
    if r.utf7mode {
      if r.bitstogo > 0 {
        r := r.(out := r.out + [Char64(r.bitbuf * Pow2(6 - r.bitstogo) % 64)]);
        r := r.(bitstogo := 0);
      }
      r := r.(out := r.out + [DASH], utf7mode := false);
    }
  }

  method PrintableByte(e: Encoder, c: Byte) returns (r: Encoder)
    requires e.bitstogo <= 5 && Printable(c)
    ensures r == EncodeByte(e, c)
  {
    r := LeaveRun(e);
    ghost var out := r.out;
    r := r.(out := r.out + [c]);
    if c == AMP {
      r := r.(out := r.out + [DASH]);
      assert r.out == out + [c, DASH];
    }
  }

  method OtherByte(e: Encoder, c: Byte) returns (r: Encoder)
    requires e.bitstogo <= 5 && !Printable(c)
    ensures r == EncodeByte(e, c)
  {
    r := e;
    if !r.utf7mode {
      r := r.(out := r.out + [AMP], utf7mode := true);
    }
    if c < 0x80 {
      r := PushCodePoint(r, c);
    } else if r.utf8total != 0 {
      r := r.(ucs4 := r.ucs4 * 64 + c % 64, utf8pos := r.utf8pos + 1);
      if r.utf8pos >= r.utf8total {
        r := PushCodePoint(r, r.ucs4);
      }
    } else if c < 0xE0 {
      r := r.(utf8pos := 1, utf8total := 2, ucs4 := c % 32);
    } else if c < 0xF0 {
      r := r.(utf8pos := 1, utf8total := 3, ucs4 := c % 16);
    } else {
      r := r.(utf8pos := 1, utf8total := 4, ucs4 := c % 4);
    }
  }

  method UnicodeToImapUtf7(text: seq<Byte>) returns (out: seq<Byte>)
    ensures out == Encode(text)
  {
    var e, src := ENCODER, CString(text);
    assert src[0..] == src;
    for i := 0 to |src|
      invariant e.bitstogo <= 5
      invariant EncodeBytes(e, src[i..]) == EncodeBytes(ENCODER, src)
    {
      assert src[i..][1..] == src[i + 1..];
      if Printable(src[i]) {
        e := PrintableByte(e, src[i]);
      } else {
        e := OtherByte(e, src[i]);
      }
    }
    assert src[|src|..] == [];
    e := LeaveRun(e);
    out := e.out;
  }

  method ImapUtf7ToUnicode(text: seq<Byte>, stale: Byte) returns (out: seq<Byte>)
    ensures out == Decode(text, stale)
  {
    out := [];
    var i, src := 0, CString(text);
    while i < |src|
      invariant 0 <= i <= |src|
      invariant out + DecodeText(src, i, stale) == Decode(text, stale)
      decreases |src| - i
    {
      var c := src[i];
      if c != AMP || (i + 1 < |src| && src[i + 1] == DASH) {
        Assoc(out, [c], DecodeText(src, if c == AMP then i + 2 else i + 1, stale));
        out := out + [c];
        i := if c == AMP then i + 2 else i + 1;
      } else {
        var more, j := ReadRun(src, i + 1, stale);
        Assoc(out, more, DecodeText(src, j, stale));
        out, i := out + more, j;
      }
    }
    PlusEmpty(out);
  }

  /** Shifts one digit into the buffer and writes the unit that it completes. */
  method TakeDigit(src: seq<Byte>, i: nat, bitbuf: nat, bits: nat, ucs4: nat, stale: Byte)
    returns (out: seq<Byte>, bitbuf': nat, bits': nat, ucs4': nat)
    requires i < |src| && Digit64(src[i]) != UNDEFINED && bits < 16
    ensures bits' < 16
    ensures DecodeRun(src, i, bitbuf, bits, ucs4, stale)
            == out + DecodeRun(src, i + 1, bitbuf', bits', ucs4', stale)
  {
    out, bitbuf', bits', ucs4' := [], (bitbuf * 64 + Digit64(src[i])) % WORD, bits + 6, ucs4;
    if bits' < 16 {
      DigitKept(src, i, bitbuf, bits, ucs4, stale);
    } else {
      DigitCompletes(src, i, bitbuf, bits, ucs4, stale);
      bits' := bits' - 16;
      var utf16 := bitbuf' / Pow2(bits') % 65536;
      if UTF16HIGHSTART <= utf16 <= UTF16HIGHEND {
        ucs4' := (utf16 - UTF16HIGHSTART) * 1024;
      } else {
        ucs4' := if UTF16LOSTART <= utf16 <= UTF16LOEND then ucs4 + (utf16 - UTF16LOSTART) + UTF16BASE else utf16;
        out := Written(ucs4', stale);
      }
    }
  }

  /** Reads one run and the dash that ends it. */
  method ReadRun(src: seq<Byte>, from: nat, stale: Byte) returns (out: seq<Byte>, i: nat)
    requires from <= |src|
    ensures from <= i <= |src|
    ensures DecodeRun(src, from, 0, 0, 0, stale) == out + DecodeText(src, i, stale)
  {
    var bitbuf: nat, bits: nat, ucs4: nat := 0, 0, 0;
    out, i := [], from;
    ghost var whole := DecodeRun(src, from, 0, 0, 0, stale);
    PlusEmpty(whole);
    while i < |src| && Digit64(src[i]) != UNDEFINED
      invariant from <= i <= |src| && bits < 16
      invariant whole == out + DecodeRun(src, i, bitbuf, bits, ucs4, stale)
    {
      var more;
      more, bitbuf, bits, ucs4 := TakeDigit(src, i, bitbuf, bits, ucs4, stale);
      i := i + 1;
      Assoc(out, more, DecodeRun(src, i, bitbuf, bits, ucs4, stale));
      out := out + more;
    }
    RunStops(src, i, bitbuf, bits, ucs4, stale);
    if i < |src| && src[i] == DASH {
      i := i + 1;
    }
  }
}
