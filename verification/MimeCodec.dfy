/** Transfer encodings by name (`MIMECodec::encode`, `MIMECodec::decode`). */
module MimeCodec {
  import opened Bytes
  import opened Common
  import Base64
  import QuotedPrintable

  datatype Coding = Verbatim | Quoted | QuotedCompat | Radix64 | Unknown

  function LowerChar(c: char): char {
    if 'A' <= c <= 'Z' then ((c as int) + 32) as char else c
  }

  function Lower(s: string): string {
    seq(|s|, i requires 0 <= i < |s| => LowerChar(s[i]))
  }

  /** What a name stands for; case does not matter. */
  function CodingOf(encoding: string): Coding {
    var enc := Lower(encoding);
    if enc == "7bit" || enc == "8bit" || enc == "none" || enc == "binary" then Verbatim
    else if enc == "quoted-printable" then Quoted
    else if enc == "quoted-printable-compat" then QuotedCompat
    else if enc == "base64" then Radix64
    else Unknown
  }

  const NO_SUCH_ENCODING: CText := [117, 110, 107, 110, 111, 119, 110, 32, 101, 110, 99, 111, 100, 105, 110, 103]

  /** Quoted-printable of a C string and the footer behind it, which an empty text does not get. */
  function QuotedText(data: seq<Byte>, compat: bool, footer: CText): seq<Byte> {
    var text := CString(data);
    if text == [] then [] else QuotedPrintable.Encode(text + footer, 0, compat)
  }

  /** The characters that stand for the data. */
  function Encoded(data: seq<Byte>, encoding: string, footer: CText): seq<Byte> {
    match CodingOf(encoding)
    case Verbatim => data
    case Quoted => QuotedText(data, false, footer)
    case QuotedCompat => QuotedText(data, true, footer)
    case Radix64 => Base64.Wrapped(Base64.Plain(data)) + [LF]
    case Unknown => []
  }

  /** The byte array that holds them: the two codecs put a NUL behind their text. */
  function Encode(data: seq<Byte>, encoding: string, footer: CText): seq<Byte> {
    match CodingOf(encoding)
    case Verbatim => data
    case Unknown => []
    case _ => Encoded(data, encoding, footer) + [NUL]
  }

  /** Names are the same for decoding, except that "quoted-printable-compat" is not known. */
  function Decode(buf: seq<Byte>, encoding: string, upper: Byte -> Byte, front: Byte): seq<Byte> {
    match CodingOf(encoding)
    case Verbatim => buf
    case Quoted => QuotedPrintable.Decode(CString(buf), upper) + [NUL]
    case Radix64 => Base64.Decode(buf, front)
    case _ => NO_SUCH_ENCODING + [NUL]
  }

  // -------------------------------------------------------------------------
  // Bodies: what is stored as a C string, and what it is read as

  /** The body that is stored for the data. */
  function BodyFor(data: seq<Byte>, encoding: string, footer: CText): CText {
    CString(Encode(data, encoding, footer))
  }

  /** What reading a part gives; the buffer has a NUL behind the body. */
  function DataOf(body: seq<Byte>, encoding: string, upper: Byte -> Byte, front: Byte): seq<Byte> {
    if body == [] then [] else Decode(body + [NUL], encoding, upper, front)
  }

  /** The base64 decoder looks characters up in a table of 256 entries. */
  ghost predicate Readable(body: seq<Byte>, encoding: string) {
    CodingOf(encoding).Radix64? ==> forall i :: 0 <= i < |body| ==> body[i] < 128
  }

  lemma CutAtNul(text: seq<Byte>)
    requires NUL !in text
    ensures CString(text + [NUL]) == text
  {
    CStringConcat(text, [NUL]);
    PlusEmpty(text);
  }

  lemma {:induction false} PlainHasNoNul(data: seq<Byte>)
    ensures NUL !in Base64.Plain(data)
    decreases |data|
  {
    if data != [] {
      PlainHasNoNul(Base64.Rest(data));
    }
  }

  lemma {:induction false} WrappedHasNoNul(s: seq<Byte>)
    requires NUL !in s
    ensures NUL !in Base64.Wrapped(s)
    decreases |s|
  {
    if |s| > Base64.WRAP {
      WrappedHasNoNul(s[Base64.WRAP..]);
    }
  }

  lemma QuotedHasNoNul(data: seq<Byte>, compat: bool, footer: CText)
    ensures NUL !in QuotedText(data, compat, footer)
  {
    var text := CString(data) + footer;
    var wire := QuotedPrintable.Encode(text, 0, compat);
    QuotedPrintable.OnlySafeBytes(text, 0, compat);
    forall i | 0 <= i < |wire| ensures wire[i] != NUL {
      assert QuotedPrintable.Transportable(wire, i);
    }
  }

  /** Only data that is copied as it is can bring a NUL into the body. */
  lemma EncodedHasNoNul(data: seq<Byte>, encoding: string, footer: CText)
    ensures NUL in Encoded(data, encoding, footer) ==> CodingOf(encoding).Verbatim? && NUL in data
  {
    match CodingOf(encoding)
    case Quoted => QuotedHasNoNul(data, false, footer);
    case QuotedCompat => QuotedHasNoNul(data, true, footer);
    case Radix64 =>
      PlainHasNoNul(data);
      WrappedHasNoNul(Base64.Plain(data));
    case _ =>
  }

  /** The body holds all the characters exactly when there is no NUL among them. */
  lemma BodyIsEncoded(data: seq<Byte>, encoding: string, footer: CText)
    ensures BodyFor(data, encoding, footer) == Encoded(data, encoding, footer)
            <==> (CodingOf(encoding).Verbatim? ==> NUL !in data)
  {
    EncodedHasNoNul(data, encoding, footer);
    if CodingOf(encoding).Verbatim? || CodingOf(encoding).Unknown? {
      CStringKeeps(Encode(data, encoding, footer));
    } else {
      CutAtNul(Encoded(data, encoding, footer));
    }
  }

  lemma BodyIsReadable(data: seq<Byte>, encoding: string, footer: CText)
    ensures Readable(BodyFor(data, encoding, footer), encoding)
  {
    if CodingOf(encoding).Radix64? {
      assert BodyFor(data, encoding, footer) <= Base64.Encode(data, true, true);
      Base64.EncodeIsAscii(data, true, true);
    }
  }

  // -------------------------------------------------------------------------
  // Reading what was stored

  /** A C string with its NUL, or nothing. */
  function Terminated(text: CText): seq<Byte> {
    if text == [] then [] else text + [NUL]
  }

  /** What comes back when data is stored and read again. */
  function Restored(data: seq<Byte>, encoding: string, footer: CText): seq<Byte> {
    match CodingOf(encoding)
    case Verbatim => Terminated(CString(data))
    case Quoted => Terminated(if CString(data) == [] then [] else CString(data) + footer)
    case QuotedCompat => Terminated(if CString(data) == [] then [] else NO_SUCH_ENCODING)
    case Radix64 => data
    case Unknown => []
  }

  lemma QuotedBack(text: CText, upper: Byte -> Byte)
    requires text != [] && QuotedPrintable.UpperKeepsHex(upper)
    ensures
      var wire := QuotedPrintable.Encode(text, 0, false);
      wire != [] && QuotedPrintable.Decode(wire, upper) == text
  {
    QuotedPrintable.RoundTrip(text, 0, false, upper);
  }

  lemma RestoresQuoted(data: seq<Byte>, encoding: string, footer: CText, upper: Byte -> Byte, front: Byte)
    requires CodingOf(encoding).Quoted? && QuotedPrintable.UpperKeepsHex(upper)
    ensures DataOf(BodyFor(data, encoding, footer), encoding, upper, front) == Restored(data, encoding, footer)
  {
    var body := QuotedText(data, false, footer);
    BodyIsEncoded(data, encoding, footer);
    if CString(data) != [] {
      QuotedBack(CString(data) + footer, upper);
      QuotedHasNoNul(data, false, footer);
      CutAtNul(body);
    }
  }

  lemma RestoresBase64(data: seq<Byte>, encoding: string, footer: CText, upper: Byte -> Byte, front: Byte)
    requires CodingOf(encoding).Radix64?
    ensures DataOf(BodyFor(data, encoding, footer), encoding, upper, front) == data
  {
    BodyIsEncoded(data, encoding, footer);
    assert Encoded(data, encoding, footer) + [NUL] == Base64.Encode(data, true, true);
    Base64.RoundTrip(data, true, true, front);
  }

  /** Storing and reading, for every encoding and all data. */
  lemma Restores(data: seq<Byte>, encoding: string, footer: CText, upper: Byte -> Byte, front: Byte)
    requires QuotedPrintable.UpperKeepsHex(upper)
    ensures DataOf(BodyFor(data, encoding, footer), encoding, upper, front) == Restored(data, encoding, footer)
  {
    match CodingOf(encoding)
    case Verbatim =>
    case Quoted => RestoresQuoted(data, encoding, footer, upper, front);
    case QuotedCompat => RestoresCompat(data, encoding, footer, upper, front);
    case Radix64 => RestoresBase64(data, encoding, footer, upper, front);
    case Unknown =>
  }

  lemma RestoresCompat(data: seq<Byte>, encoding: string, footer: CText, upper: Byte -> Byte, front: Byte)
    requires CodingOf(encoding).QuotedCompat?
    ensures DataOf(BodyFor(data, encoding, footer), encoding, upper, front) == Restored(data, encoding, footer)
  {
    BodyIsEncoded(data, encoding, footer);
    if CString(data) != [] {
      assert QuotedPrintable.Encode(CString(data) + footer, 0, true) != [];
    }
  }

  /** A C string that is not empty, with its NUL and nothing behind it. */
  predicate IsTerminated(data: seq<Byte>) {
    |data| >= 2 && data[|data| - 1] == NUL && NUL !in data[..|data| - 1]
  }

  /** Whether data survives being stored and read again. */
  predicate Survives(data: seq<Byte>, encoding: string, footer: CText) {
    match CodingOf(encoding)
    case Verbatim => IsTerminated(data)
    case Quoted => IsTerminated(data) && footer == []
    case QuotedCompat => data == NO_SUCH_ENCODING + [NUL]
    case Radix64 => true
    case Unknown => false
  }

  lemma IsTerminatedIff(data: seq<Byte>)
    requires data != []
    ensures Terminated(CString(data)) == data <==> IsTerminated(data)
  {
    var n := |data| - 1;
    if IsTerminated(data) {
      CutAtNul(data[..n]);
      assert data[..n] + [NUL] == data;
    }
    if Terminated(CString(data)) == data {
      assert data[..n] == CString(data);
    }
  }

  lemma FooterShows(data: seq<Byte>, footer: CText)
    requires footer != []
    ensures CString(data) + footer + [NUL] != data
  {
    var text := CString(data);
    assert (text + footer + [NUL])[|text|] == footer[0];
    assert footer[0] in footer;
  }

  /** Exactly which data comes back. */
  lemma SurvivesIff(data: seq<Byte>, encoding: string, footer: CText, upper: Byte -> Byte, front: Byte)
    requires QuotedPrintable.UpperKeepsHex(upper) && data != []
    ensures DataOf(BodyFor(data, encoding, footer), encoding, upper, front) == data
            <==> Survives(data, encoding, footer)
  {
    Restores(data, encoding, footer, upper, front);
    match CodingOf(encoding)
    case Verbatim => IsTerminatedIff(data);
    case Quoted => QuotedSurvives(data, footer);
    case QuotedCompat => CompatSurvives(data);
    case _ =>
  }

  lemma QuotedSurvives(data: seq<Byte>, footer: CText)
    requires data != []
    ensures Terminated(if CString(data) == [] then [] else CString(data) + footer) == data
            <==> IsTerminated(data) && footer == []
  {
    IsTerminatedIff(data);
    if footer == [] {
      PlusEmpty(CString(data));
    } else {
      FooterShows(data, footer);
    }
  }

  lemma CompatSurvives(data: seq<Byte>)
    requires data != []
    ensures Terminated(if CString(data) == [] then [] else NO_SUCH_ENCODING) == data
            <==> data == NO_SUCH_ENCODING + [NUL]
  {
    if data == NO_SUCH_ENCODING + [NUL] {
      CutAtNul(NO_SUCH_ENCODING);
    }
  }

  // -------------------------------------------------------------------------
  // The two operations

  /** `MIMECodec::encode`; the base64 encoder may read a byte outside its buffer. */
  method EncodeData(data: seq<Byte>, encoding: string, footer: CText, outside: Byte) returns (out: seq<Byte>)
    ensures out == Encode(data, encoding, footer)
  {
    out := [];
    var coding := CodingOf(encoding);
    if coding.Verbatim? {
      out := data;
    }
    if coding.Quoted? || coding.QuotedCompat? {
      var text := CString(data);
      if text != [] {
        out := QuotedPrintable.EncodeQuotedPrintable(text + footer, coding.QuotedCompat?);
      }
      out := out + [NUL];
    }
    if coding.Radix64? {
      out := Base64.EncodeBase64(data, true, true, outside);
    }
  }

  /** `MIMECodec::decode`. */
  method DecodeData(buf: seq<Byte>, encoding: string, upper: Byte -> Byte, front: Byte) returns (out: seq<Byte>)
    requires Readable(buf, encoding)
    ensures out == Decode(buf, encoding, upper, front)
  {
    out := NO_SUCH_ENCODING + [NUL];
    var coding := CodingOf(encoding);
    if coding.Verbatim? {
      out := buf;
    }
    if coding.Quoted? {
      out := QuotedPrintable.DecodeQuotedPrintable(CString(buf), upper);
      out := out + [NUL];
    }
    if coding.Radix64? {
      out := Base64.DecodeBase64(buf, front);
    }
  }
}
