/** Lines from the server: cutting them off the stream, and the fields of a UIDL or LIST entry. */
module Pop3Lines {
  import opened Bytes
  import opened Common
  import opened Pop3Receiver
  import opened Pop3Session

  const SPACE: Byte := 32
  const CRLF: seq<Byte> := [CR, LF]

  /** The length of the first line with its LF, or 0 if there is no complete line. */
  function LineLength(stream: seq<Byte>): (n: nat)
    ensures n <= |stream|
    ensures n == 0 <==> LF !in stream
    ensures n > 0 ==> stream[n - 1] == LF && LF !in stream[..n - 1]
  {
    if stream == [] then 0
    else if stream[0] == LF then 1
    else
      var n := LineLength(stream[1..]);
      assert stream == [stream[0]] + stream[1..];
      if n == 0 then 0
      else
        assert stream[..n] == [stream[0]] + stream[1..][..n - 1];
        n + 1
  }

  /** One line and its LF. */
  ghost predicate IsRaw(raw: seq<Byte>) {
    raw != [] && raw[|raw| - 1] == LF && LF !in raw[..|raw| - 1]
  }

  lemma {:induction false} LineLengthOf(raw: seq<Byte>, more: seq<Byte>)
    requires IsRaw(raw)
    ensures LineLength(raw + more) == |raw|
    decreases |raw|
  {
    if |raw| > 1 {
      assert raw[0] in raw[..|raw| - 1];
      assert raw[1..][..|raw| - 2] == raw[..|raw| - 1][1..];
      assert (raw + more)[1..] == raw[1..] + more;
      LineLengthOf(raw[1..], more);
    }
  }

  lemma FirstIsRaw(stream: seq<Byte>)
    requires LineLength(stream) > 0
    ensures IsRaw(stream[..LineLength(stream)])
  {
    var n := LineLength(stream);
    assert stream[..n][..n - 1] == stream[..n - 1];
  }

  /** What follows a complete line does not matter. */
  lemma LineLengthMore(stream: seq<Byte>, more: seq<Byte>)
    requires LineLength(stream) > 0
    ensures LineLength(stream + more) == LineLength(stream)
  {
    var n := LineLength(stream);
    FirstIsRaw(stream);
    LineLengthOf(stream[..n], stream[n..] + more);
    assert stream + more == stream[..n] + (stream[n..] + more);
  }

  // -------------------------------------------------------------------------
  // Fields

  function TokenLength(text: seq<Byte>): (n: nat)
    ensures n <= |text| && SPACE !in text[..n] && (n == |text| || text[n] == SPACE)
  {
    if text == [] || text[0] == SPACE then 0
    else
      assert text[..TokenLength(text[1..]) + 1] == [text[0]] + text[1..][..TokenLength(text[1..])];
      TokenLength(text[1..]) + 1
  }

  /** The stretches between spaces, empty ones left out. */
  function Tokens(text: seq<Byte>): seq<seq<Byte>>
    decreases |text|
  {
    if text == [] then []
    else if text[0] == SPACE then Tokens(text[1..])
    else [text[..TokenLength(text)]] + Tokens(text[TokenLength(text)..])
  }

  predicate IsBlank(c: Byte) {
    9 <= c <= 13 || c == SPACE || c == 160
  }

  function StripFront(text: seq<Byte>): seq<Byte> {
    if text != [] && IsBlank(text[0]) then StripFront(text[1..]) else text
  }

  function StripBack(text: seq<Byte>): seq<Byte> {
    if text != [] && IsBlank(text[|text| - 1]) then StripBack(text[..|text| - 1]) else text
  }

  function Strip(text: seq<Byte>): seq<Byte> {
    StripBack(StripFront(text))
  }

  /** Bytes as characters. */
  function Chars(text: seq<Byte>): string {
    seq(|text|, i requires 0 <= i < |text| => text[i] as char)
  }

  /** The two fields of an entry; `toULong` is a library's conversion, which gives 0 for anything but a number. */
  function ItemOf(text: seq<Byte>, toULong: seq<Byte> -> nat): Option<Item> {
    var tokens := Tokens(text);
    if |tokens| != 2 then None
    else Some(Item(toULong(Strip(tokens[0])), Chars(Strip(tokens[1])), toULong(Strip(tokens[1]))))
  }

  /** A line as it is handed to the session: text up to the first NUL. */
  function LineOf(raw: seq<Byte>, toULong: seq<Byte> -> nat): Line {
    Line(CString(raw), ItemOf(CString(raw), toULong))
  }

  // -------------------------------------------------------------------------
  // Entries as section 7 of RFC 1939 has them

  function Decimal(n: nat): (text: seq<Byte>)
    ensures text != [] && forall i :: 0 <= i < |text| ==> 48 <= text[i] <= 57
  {
    if n < 10 then [48 + n] else Decimal(n / 10) + [48 + n % 10]
  }

  /** Printable characters without the space. */
  ghost predicate IsWord(word: seq<Byte>) {
    word != [] && forall i :: 0 <= i < |word| ==> 33 <= word[i] <= 126
  }

  lemma {:induction false} TokenLengthOf(word: seq<Byte>, more: seq<Byte>)
    requires SPACE !in word && (more == [] || more[0] == SPACE)
    ensures TokenLength(word + more) == |word|
    decreases |word|
  {
    if word == [] {
      assert word + more == more;
    } else {
      assert (word + more)[1..] == word[1..] + more;
      TokenLengthOf(word[1..], more);
    }
  }

  lemma {:induction false} TokensOne(word: seq<Byte>)
    requires word != [] && SPACE !in word
    ensures Tokens(word) == [word]
  {
    PlusEmpty(word);
    TokenLengthOf(word, []);
    assert word[..|word|] == word && word[|word|..] == [];
    PlusEmpty([word]);
  }

  lemma {:induction false} TokensTwo(first: seq<Byte>, second: seq<Byte>)
    requires first != [] && SPACE !in first && second != [] && SPACE !in second
    ensures Tokens(first + [SPACE] + second) == [first, second]
  {
    var text, rest := first + [SPACE] + second, [SPACE] + second;
    assert text == first + rest && text[0] == first[0] && rest[1..] == second;
    TokenLengthOf(first, rest);
    assert text[..|first|] == first && text[|first|..] == rest;
    TokensOne(second);
  }

  lemma {:induction false} StripWord(word: seq<Byte>)
    requires IsWord(word)
    ensures Strip(word) == word && Strip(word + CRLF) == word
  {
    assert (word + CRLF)[..|word| + 1] == word + [CR] && (word + [CR])[..|word|] == word;
    assert StripBack(word + CRLF) == StripBack(word + [CR]) == StripBack(word) == word;
  }

  function EntryText(n: nat, word: seq<Byte>): seq<Byte> {
    Decimal(n) + [SPACE] + (word + CRLF)
  }

  lemma {:induction false} EntryIsRaw(n: nat, word: seq<Byte>)
    requires IsWord(word)
    ensures IsRaw(EntryText(n, word)) && NUL !in EntryText(n, word) && !StartsWithDot(EntryText(n, word))
  {
    var text, number := EntryText(n, word), Decimal(n) + [SPACE];
    assert text == (number + word + [CR]) + [LF];
    assert text[0] == Decimal(n)[0];
  }

  lemma {:induction false} EntryItem(n: nat, word: seq<Byte>, toULong: seq<Byte> -> nat)
    requires IsWord(word) && toULong(Decimal(n)) == n
    ensures ItemOf(EntryText(n, word), toULong) == Some(Item(n, Chars(word), toULong(word)))
  {
    TokensTwo(Decimal(n), word + CRLF);
    StripWord(word);
    StripWord(Decimal(n));
  }

  /** A number and a word with a space between them are read as such. */
  lemma {:induction false} EntryIsRead(n: nat, word: seq<Byte>, toULong: seq<Byte> -> nat)
    requires IsWord(word) && toULong(Decimal(n)) == n
    ensures IsRaw(EntryText(n, word)) && !LineOf(EntryText(n, word), toULong).Dotted()
    ensures LineOf(EntryText(n, word), toULong).item == Some(Item(n, Chars(word), toULong(word)))
  {
    EntryIsRaw(n, word);
    EntryItem(n, word, toULong);
    CStringKeeps(EntryText(n, word));
  }
}
