/**
 Interleaved 2 of 5: digits in pairs, the first of a pair in the bars and the second in the
 spaces between them, and a check digit that is summed by index here and from the right in
 `ean_make_checksum`.
 */
module Interleaved25 {
  import opened Common

  const START := "0a1a1"
  const STOP := "c1a"
  const CODES: seq<string> := ["11331", "31113", "13113", "33111", "11313", "31311", "13311", "11133", "31131", "13131"]

  // -------------------------------------------------------------------------
  // The checksum of EAN, from the right

  /** The digits at distance 0, 2, 4, ... from the end. */
  function EvenSum(s: seq<Digit>): (r: nat) {
    if s == [] then 0 else s[|s| - 1] + OddSum(s[..|s| - 1])
  }

  /** The digits at distance 1, 3, 5, ... from the end. */
  function OddSum(s: seq<Digit>): (r: nat) {
    if s == [] then 0 else EvenSum(s[..|s| - 1])
  }

  function EanSum(s: seq<Digit>, mode: int): Digit {
    if mode == 0 then (10 - (3 * EvenSum(s) + OddSum(s)) % 10) % 10 else (3 * EvenSum(s) + 9 * OddSum(s)) % 10
  }

  /** The digits before the blank that separates an add-on, if there is one. */
  function FirstPart(text: string): string {
    if text == "" || text[0] == ' ' then "" else [text[0]] + FirstPart(text[1..])
  }

  ghost predicate AreDigits(text: string) {
    forall i :: 0 <= i < |text| ==> '0' <= text[i] <= '9'
  }

  function ValueOf(c: char): Digit
    requires '0' <= c <= '9'
  {
    (c - '0') as int
  }

  function Values(text: string): (r: seq<Digit>)
    requires AreDigits(text)
    ensures |r| == |text|
  {
    seq(|text|, i requires 0 <= i < |text| => ValueOf(text[i]))
  }

  lemma {:induction false} FirstPartIs(text: string, i: nat)
    requires i <= |text| && (forall j :: 0 <= j < i ==> text[j] != ' ') && (i == |text| || text[i] == ' ')
    ensures FirstPart(text) == text[..i]
    decreases i
  {
    if i > 0 {
      FirstPartIs(text[1..], i - 1);
      assert text[..i] == [text[0]] + text[1..][..i - 1];
    }
  }

  /** Where the first part ends. */
  method FindBlank(text: string) returns (i: nat)
    ensures i <= |text| && FirstPart(text) == text[..i]
  {
    i := 0;
    while i < |text| && text[i] != ' '
      invariant i <= |text| && forall j :: 0 <= j < i ==> text[j] != ' '
    {
      i := i + 1;
    }
    FirstPartIs(text, i);
  }

  method EanMakeChecksum(text: string, mode: int) returns (r: Digit)
    requires AreDigits(FirstPart(text))
    ensures r == EanSum(Values(FirstPart(text)), mode)
  {
    var n := FindBlank(text);
    ghost var digits := Values(FirstPart(text));
    var esum: int, osum: int, even := 0, 0, true;
    var i := n;
    assert digits[..n] == digits;
    while i > 0
      invariant 0 <= i <= n
      invariant esum + (if even then EvenSum(digits[..i]) else OddSum(digits[..i])) == EvenSum(digits)
      invariant osum + (if even then OddSum(digits[..i]) else EvenSum(digits[..i])) == OddSum(digits)
    {
      i := i - 1;
      assert digits[..i + 1][..i] == digits[..i] && text[i] == FirstPart(text)[i];
      if even {
        esum := esum + ValueOf(text[i]);
      } else {
        osum := osum + ValueOf(text[i]);
      }
      even := !even;
    }
    if mode == 0 {
      r := (10 - (3 * esum + osum) % 10) % 10;
    } else {
      r := (3 * esum + 9 * osum) % 10;
    }
  }

  // -------------------------------------------------------------------------
  // The checksum of Interleaved 2 of 5, by index

  /** The digits whose index has the given parity. */
  function IndexSum(s: seq<Digit>, parity: nat): nat {
    if s == [] then 0
    else IndexSum(s[..|s| - 1], parity) + (if (|s| - 1) % 2 == parity then s[|s| - 1] else 0)
  }

  /** A leading zero makes the number of digits, with or without the check digit, even. */
  function Padded(ascii: seq<Digit>, usesum: bool): (r: seq<Digit>)
    ensures (|r| + (if usesum then 1 else 0)) % 2 == 0
  {
    if (|ascii| + (if usesum then 1 else 0)) % 2 == 1 then [0] + ascii else ascii
  }

  function CheckDigit(padded: seq<Digit>): Digit {
    (10 - (3 * IndexSum(padded, 0) + IndexSum(padded, 1)) % 10) % 10
  }

  /** The text that is printed. */
  function Text(ascii: seq<Digit>, usesum: bool): (r: seq<Digit>)
    ensures |r| % 2 == 0
  {
    var padded := Padded(ascii, usesum);
    if usesum then padded + [CheckDigit(padded)] else padded
  }

  /** Index parity is distance parity, seen from the end. */
  lemma {:induction false} IndexFromRight(s: seq<Digit>)
    ensures EvenSum(s) == IndexSum(s, if |s| % 2 == 1 then 0 else 1)
    ensures OddSum(s) == IndexSum(s, if |s| % 2 == 1 then 1 else 0)
    decreases |s|
  {
    if s != [] {
      IndexFromRight(s[..|s| - 1]);
    }
  }

  lemma {:induction false} LeadingZero(s: seq<Digit>)
    ensures EvenSum([0] + s) == EvenSum(s) && OddSum([0] + s) == OddSum(s)
    decreases |s|
  {
    var z := [0] + s;
    if s == [] {
      assert z[..0] == [];
    } else {
      assert z[..|s|] == [0] + s[..|s| - 1];
      LeadingZero(s[..|s| - 1]);
    }
  }

  /** The two checksums agree: by index after padding, and from the right without padding. */
  lemma {:induction false} ChecksumsAgree(ascii: seq<Digit>)
    ensures CheckDigit(Padded(ascii, true)) == EanSum(ascii, 0)
  {
    SumsAgree(ascii, Padded(ascii, true));
  }

  lemma {:induction false} SumsAgree(ascii: seq<Digit>, padded: seq<Digit>)
    requires padded == Padded(ascii, true)
    ensures IndexSum(padded, 0) == EvenSum(ascii) && IndexSum(padded, 1) == OddSum(ascii)
  {
    OddLength(|padded|);
    IndexFromRight(padded);
    LeadingZero(ascii);
  }

  lemma OddLength(n: nat)
    ensures (n + 1) % 2 == 0 ==> n % 2 == 1
  {
  }

  // -------------------------------------------------------------------------
  // One wrong digit

  lemma {:induction false} EanReplaced(s: seq<Digit>, k: nat, d: Digit)
    requires k < |s|
    ensures
      var change := d - s[k];
      var even := (|s| - 1 - k) % 2 == 0;
      && EvenSum(s[k := d]) == EvenSum(s) + (if even then change else 0)
      && OddSum(s[k := d]) == OddSum(s) + (if even then 0 else change)
    decreases |s|
  {
    var n := |s| - 1;
    if k == n {
      assert s[k := d][..n] == s[..n];
    } else {
      assert s[k := d][..n] == s[..n][k := d];
      EanReplaced(s[..n], k, d);
      assert (n - k) % 2 == 0 <==> (n - 1 - k) % 2 != 0;
    }
  }

  lemma CheckDiffers(a: int, change: int)
    requires -10 < change < 10 && change != 0
    ensures (10 - (a + change) % 10) % 10 != (10 - a % 10) % 10
    ensures (10 - (a + 3 * change) % 10) % 10 != (10 - a % 10) % 10
  {
    Coprime(change);
    ModDiffers(a, change);
    ModDiffers(a, 3 * change);
    ComplementDiffers((a + change) % 10, a % 10);
    ComplementDiffers((a + 3 * change) % 10, a % 10);
  }

  lemma Coprime(c: int)
    requires -10 < c < 10 && c != 0
    ensures c % 10 != 0 && 3 * c % 10 != 0
  {
  }

  lemma ComplementDiffers(x: Digit, y: Digit)
    requires x != y
    ensures (10 - x) % 10 != (10 - y) % 10
  {
  }

  lemma ModDiffers(a: int, c: int)
    requires c % 10 != 0
    ensures (a + c) % 10 != a % 10
  {
    assert c == 10 * ((a + c) / 10 - a / 10) + ((a + c) % 10 - a % 10);
  }

  /** Any single wrong digit gives another check digit. */
  lemma ReplacementIsDetected(ascii: seq<Digit>, k: nat, d: Digit)
    requires k < |ascii| && d != ascii[k]
    ensures CheckDigit(Padded(ascii[k := d], true)) != CheckDigit(Padded(ascii, true))
  {
    ChecksumsAgree(ascii);
    ChecksumsAgree(ascii[k := d]);
    EanReplaced(ascii, k, d);
    CheckDiffers(3 * EvenSum(ascii) + OddSum(ascii), d - ascii[k]);
  }

  /** Swapping neighbours moves twice their difference between the two sums. */
  lemma {:induction false} EanSwapped(s: seq<Digit>, k: nat)
    requires k + 1 < |s|
    ensures
      var t := s[k := s[k + 1]][k + 1 := s[k]];
      var a: int, b: int := s[k], s[k + 1];
      var moved := if (|s| - 1 - k) % 2 == 0 then b - a else a - b;
      3 * EvenSum(t) + OddSum(t) == 3 * EvenSum(s) + OddSum(s) + 2 * moved
  {
    EanReplaced(s, k, s[k + 1]);
    EanReplaced(s[k := s[k + 1]], k + 1, s[k]);
    OtherParity(|s| - 1 - k);
  }

  lemma OtherParity(n: nat)
    requires n >= 1
    ensures (n - 1) % 2 == 0 <==> n % 2 != 0
  {
  }

  lemma SameComplement(a: int, c: int)
    ensures (10 - (a + c) % 10) % 10 == (10 - a % 10) % 10 <==> c % 10 == 0
  {
    if c % 10 == 0 {
      assert a + c == 10 * (a / 10 + c / 10) + a % 10;
    } else {
      ModDiffers(a, c);
      ComplementDiffers((a + c) % 10, a % 10);
    }
  }

  lemma TwiceDifference(a: int, b: int)
    requires 0 <= a < 10 && 0 <= b < 10
    ensures 2 * (a - b) % 10 == 0 <==> a == b || a == b + 5 || b == a + 5
  {
  }

  /** Swapping neighbours goes unnoticed exactly when they are equal or differ by five. */
  lemma {:induction false} SwapIsMissed(ascii: seq<Digit>, k: nat)
    requires k + 1 < |ascii|
    ensures
      var a: int, b: int := ascii[k], ascii[k + 1];
      CheckDigit(Padded(ascii[k := b][k + 1 := a], true)) == CheckDigit(Padded(ascii, true))
      <==> a == b || a == b + 5 || b == a + 5
  {
    var a: int, b: int := ascii[k], ascii[k + 1];
    ChecksumsAgree(ascii);
    ChecksumsAgree(ascii[k := b][k + 1 := a]);
    EanSwapped(ascii, k);
    TwiceDifference(a, b);
    TwiceDifference(b, a);
    SameComplement(3 * EvenSum(ascii) + OddSum(ascii), 2 * (if (|ascii| - 1 - k) % 2 == 0 then b - a else a - b));
  }

  // -------------------------------------------------------------------------
  // Bars and spaces

  /** Five bars for the one digit, five spaces for the other. */
  function Interleave(p: string, q: string): (r: string)
    requires |p| == |q|
    ensures |r| == 2 * |p|
  {
    seq(2 * |p|, k requires 0 <= k < 2 * |p| => if k % 2 == 0 then p[k / 2] else q[k / 2])
  }

  function Pair(a: Digit, b: Digit): (r: string)
    ensures |r| == 10
  {
    Interleave(CODES[a], CODES[b])
  }

  function Bars(text: seq<Digit>): (r: string)
    requires |text| % 2 == 0
    ensures |r| == 5 * |text|
    decreases |text|
  {
    if text == [] then "" else Bars(text[..|text| - 2]) + Pair(text[|text| - 2], text[|text| - 1])
  }

  /** Every second character, from the given one on. */
  function Track(r: string, from: nat): (p: string)
    requires from < 2 && |r| == 10
    ensures |p| == 5
  {
    [r[from], r[from + 2], r[from + 4], r[from + 6], r[from + 8]]
  }

  /** The digit with this code; 0 for anything that is no code. */
  function DigitOf(code: string): (d: Digit) {
    if code == CODES[1] then 1 else if code == CODES[2] then 2 else if code == CODES[3] then 3
    else if code == CODES[4] then 4 else if code == CODES[5] then 5 else if code == CODES[6] then 6
    else if code == CODES[7] then 7 else if code == CODES[8] then 8 else if code == CODES[9] then 9 else 0
  }

  /** The digits of n pairs. */
  function ReadBars(bars: string, n: nat): seq<Digit>
    requires |bars| == 10 * n
    decreases n
  {
    if n == 0 then [] else ReadBars(bars[..10 * n - 10], n - 1) + ReadPair(bars[10 * n - 10..])
  }

  function ReadPair(pair: string): (r: seq<Digit>)
    requires |pair| == 10
    ensures |r| == 2
  {
    [DigitOf(Track(pair, 0)), DigitOf(Track(pair, 1))]
  }

  lemma CodeAt(d: Digit)
    ensures |CODES[d]| == 5 && DigitOf(CODES[d]) == d
  {
  }

  lemma TracksBack(p: string, q: string)
    requires |p| == |q| == 5
    ensures Track(Interleave(p, q), 0) == p && Track(Interleave(p, q), 1) == q
  {
  }

  lemma PairBack(a: Digit, b: Digit)
    ensures ReadPair(Pair(a, b)) == [a, b]
  {
    CodeAt(a);
    CodeAt(b);
    TracksBack(CODES[a], CODES[b]);
  }

  lemma ReadLast(bars: string, pair: string, n: nat)
    requires |bars| == 10 * n && |pair| == 10
    ensures ReadBars(bars + pair, n + 1) == ReadBars(bars, n) + ReadPair(pair)
  {
    assert (bars + pair)[..10 * n] == bars && (bars + pair)[10 * n..] == pair;
  }

  lemma BarsLast(front: seq<Digit>, a: Digit, b: Digit)
    requires |front| % 2 == 0
    ensures Bars(front + [a, b]) == Bars(front) + Pair(a, b)
  {
    assert (front + [a, b])[..|front|] == front;
  }

  /** The digits can be read back from the bars and spaces. */
  lemma {:induction false} ReadBarsBack(text: seq<Digit>, bars: string, n: nat)
    requires |text| == 2 * n && bars == Bars(text)
    ensures ReadBars(bars, n) == text
    decreases n
  {
    if n == 0 {
      assert text == [];
    } else {
      var m, front, a, b := n - 1, text[..2 * n - 2], text[2 * n - 2], text[2 * n - 1];
      assert text == front + [a, b];
      BarsLast(front, a, b);
      ReadBarsBack(front, Bars(front), m);
      ReadNext(front, Bars(front), a, b, m);
      assert n == m + 1;
    }
  }

  lemma ReadNext(front: seq<Digit>, bars: string, a: Digit, b: Digit, n: nat)
    requires |bars| == 10 * n && ReadBars(bars, n) == front
    ensures ReadBars(bars + Pair(a, b), n + 1) == front + [a, b]
  {
    ReadLast(bars, Pair(a, b), n);
    PairBack(a, b);
  }

  // -------------------------------------------------------------------------
  // The encoder

  /** Two moving pointers into the codes, one into the output. */
  method InterleaveCodes(p: string, q: string) returns (pd: string)
    requires |p| == |q|
    ensures pd == Interleave(p, q)
  {
    pd := "";
    for k := 0 to |p|
      invariant |pd| == 2 * k
      invariant forall j :: 0 <= j < 2 * k ==> pd[j] == if j % 2 == 0 then p[j / 2] else q[j / 2]
    {
      pd := pd + [p[k]];
      pd := pd + [q[k]];
    }
  }

  /** The padded text with its check digit. */
  method MakeText(ascii: seq<Digit>, usesum: bool) returns (text: seq<Digit>)
    ensures text == Text(ascii, usesum)
  {
    text := if (|ascii| + (if usesum then 1 else 0)) % 2 == 1 then [0] + ascii else ascii;
    if usesum {
      var even, odd := IndexSums(text);
      text := text + [(10 - (even * 3 + odd) % 10) % 10];
    }
  }

  /** The two sums of the loop, by the parity of the index. */
  method IndexSums(text: seq<Digit>) returns (even: nat, odd: nat)
    ensures even == IndexSum(text, 0) && odd == IndexSum(text, 1)
  {
    even, odd := 0, 0;
    assert text[..0] == [] && text[..|text|] == text;
    for i := 0 to |text|
      invariant even == IndexSum(text[..i], 0) && odd == IndexSum(text[..i], 1)
    {
      IndexSumPush(text, i);
      if i % 2 == 0 {
        even := even + text[i];
      } else {
        odd := odd + text[i];
      }
    }
  }

  lemma {:induction false} IndexSumPush(text: seq<Digit>, i: nat)
    requires i < |text|
    ensures IndexSum(text[..i + 1], 0) == IndexSum(text[..i], 0) + (if i % 2 == 0 then text[i] else 0)
    ensures IndexSum(text[..i + 1], 1) == IndexSum(text[..i], 1) + (if i % 2 == 0 then 0 else text[i])
  {
    assert text[..i + 1][..i] == text[..i];
  }

  method Encode(ascii: seq<Digit>, usesum: bool) returns (partial: string)
    ensures partial == START + Bars(Text(ascii, usesum)) + STOP
  {
    var text := MakeText(ascii, usesum);
    var bars := "";
    var i := 0;
    assert text[..0] == [];
    while i < |text|
      invariant 0 <= i <= |text| && i % 2 == 0 && bars == Bars(text[..i])
    {
      CodeAt(text[i]);
      CodeAt(text[i + 1]);
      var pair := InterleaveCodes(CODES[text[i]], CODES[text[i + 1]]);
      assert text[..i + 2][..i] == text[..i];
      bars := bars + pair;
      i := i + 2;
    }
    assert text[..|text|] == text;
    partial := START + bars + STOP;
  }
}
