/**
 The automatic Code 128 encoder: it picks among the code sets A, B and C, latching from one
 to another or shifting for a single character. F1 to F4 are the characters 0xC1 to 0xC4
 and the NUL character is 0x80.
 */
module Code128 {
  import opened Bytes

  datatype CodeSet = A | B | C

  const START_A := 103
  const STOP := 106
  const SHIFT := 98
  const CODE_A := 101
  const CODE_B := 100
  const CODE_C := 99
  const FUNC_1 := 102
  const FUNC_2 := 97
  const FUNC_3 := 96

  // -------------------------------------------------------------------------
  // Characters

  predicate Encodable(c: Byte) {
    1 <= c <= 0x80 || 0xC1 <= c <= 0xC4
  }

  /** What the verifier accepts. */
  ghost predicate Accepted(text: seq<Byte>) {
    text != [] && forall i :: 0 <= i < |text| ==> Encodable(text[i])
  }

  method Verify(text: seq<Byte>) returns (ok: bool)
    ensures ok <==> Accepted(text)
  {
    if text == [] {
      return false;
    }
    var i := 0;
    while i < |text| && Encodable(text[i])
      invariant 0 <= i <= |text|
      invariant forall k :: 0 <= k < i ==> Encodable(text[k])
    {
      i := i + 1;
    }
    return i == |text|;
  }

  predicate IsDigit(c: Byte) {
    48 <= c <= 57
  }

  predicate NeedsA(c: Byte) {
    c < 32 || c == 0x80
  }

  predicate NeedsB(c: Byte) {
    96 <= c < 128
  }

  /** There is a digit at position i; past the end there is none. */
  predicate DigitAt(text: seq<Byte>, i: nat) {
    i < |text| && IsDigit(text[i])
  }

  /** The set needed by the first character from i on that cannot do with both A and B. */
  function FirstNeed(text: seq<Byte>, i: nat): (r: (bool, CodeSet))
    ensures r.1 != C
    decreases |text| - i
  {
    if i >= |text| then (false, B)
    else if NeedsA(text[i]) then (true, A)
    else if NeedsB(text[i]) then (true, B)
    else FirstNeed(text, i + 1)
  }

  /** `Barcode_a_or_b`: `found` is false when either set will do. */
  method AOrB(text: seq<Byte>, from: nat) returns (found: bool, set': CodeSet)
    ensures (found, set') == FirstNeed(text, from)
  {
    var i := from;
    while i < |text|
      invariant FirstNeed(text, i) == FirstNeed(text, from)
      decreases |text| - i
    {
      if NeedsA(text[i]) {
        return true, A;
      }
      if NeedsB(text[i]) {
        return true, B;
      }
      i := i + 1;
    }
    return false, B;
  }

  function DigitRun(text: seq<Byte>, i: nat): (n: nat)
    ensures i <= |text| ==> i + n <= |text|
    ensures forall k :: i <= k < i + n ==> DigitAt(text, k)
    ensures !DigitAt(text, i + n)
    decreases |text| - i
  {
    if DigitAt(text, i) then 1 + DigitRun(text, i + 1) else 0
  }

  /** The symbol for a character in set A or B. */
  function EncodeAs(set': CodeSet, c: Byte): int {
    if c == 0xC1 then FUNC_1
    else if c == 0xC2 then FUNC_2
    else if c == 0xC3 then FUNC_3
    else if c == 0xC4 then (if set' == A then CODE_A else CODE_B)
    else if 0x20 <= c <= 0x5F then c - 0x20
    else if c == 0x80 then 64
    else if c < 0x20 then c + 64
    else c - 0x20
  }

  // -------------------------------------------------------------------------
  // The encoder as a function

  /** One turn of the encoding loop: symbols written, characters consumed, set afterwards. */
  datatype Turn = Turn(out: seq<int>, used: nat, next: CodeSet)

  function TurnAt(text: seq<Byte>, i: nat, set': CodeSet): Turn
    requires i < |text|
  {
    var c := text[i];
    if set' == C then
      if c == 0xC1 then Turn([FUNC_1], 1, C)
      else if DigitAt(text, i) && DigitAt(text, i + 1) then Turn([(c - 48) * 10 + (text[i + 1] - 48)], 2, C)
      else
        var next := FirstNeed(text, i).1;
        Turn([if next == A then CODE_A else CODE_B], 0, next)
    else if DigitRun(text, i) >= 4 then
      if DigitRun(text, i) % 2 == 1 then Turn([c - 32, CODE_C], 1, C) else Turn([CODE_C], 0, C)
    else if set' == A && NeedsB(c) then
      if FirstNeed(text, i + 1) == (true, B) then Turn([CODE_B], 0, B) else Turn([SHIFT, EncodeAs(B, c)], 1, A)
    else if set' == B && NeedsA(c) then
      if FirstNeed(text, i + 1) == (true, A) then Turn([CODE_A], 0, A) else Turn([SHIFT, EncodeAs(A, c)], 1, B)
    else Turn([EncodeAs(set', c)], 1, set')
  }

  /** A turn that consumes nothing is followed by one that writes one symbol for what it consumes. */
  lemma NeverTwice(text: seq<Byte>, i: nat, set': CodeSet)
    requires i < |text| && TurnAt(text, i, set').used == 0
    ensures
      var next := TurnAt(text, i, TurnAt(text, i, set').next);
      next.used >= 1 && |next.out| == 1
  {
    if DigitRun(text, i) >= 2 {
      assert DigitAt(text, i) && DigitAt(text, i + 1);
    }
  }

  lemma TurnStays(text: seq<Byte>, i: nat, set': CodeSet)
    requires i < |text|
    ensures i + TurnAt(text, i, set').used <= |text|
  {
  }

  /** The data symbols for the text from position i on, starting in the given set. */
  function Symbols(text: seq<Byte>, i: nat, set': CodeSet): seq<int>
    requires i <= |text|
    decreases |text| - i, if i < |text| && TurnAt(text, i, set').used == 0 then 1 else 0
  {
    if i == |text| then []
    else
      var t := TurnAt(text, i, set');
      if t.used == 0 then
        NeverTwice(text, i, set');
        t.out + Symbols(text, i, t.next)
      else
        t.out + Symbols(text, i + t.used, t.next)
  }

  lemma {:induction false} SymbolsTurn(text: seq<Byte>, i: nat, set': CodeSet)
    requires i < |text|
    ensures
      var t := TurnAt(text, i, set');
      i + t.used <= |text| && Symbols(text, i, set') == t.out + Symbols(text, i + t.used, t.next)
  {
    TurnStays(text, i, set');
  }

  function StartSet(text: seq<Byte>): CodeSet {
    if |text| == 2 && DigitAt(text, 0) && DigitAt(text, 1) then C
    else if DigitAt(text, 0) && DigitAt(text, 1) && DigitAt(text, 2) && DigitAt(text, 3) then C
    else FirstNeed(text, 0).1
  }

  function StartSymbol(set': CodeSet): int {
    match set'
    case A => START_A
    case B => START_A + 1
    case C => START_A + 2
  }

  /** The weighted sum of a start symbol and data symbols, before reduction. */
  function Weigh(codes: seq<int>): int {
    if |codes| <= 1 then (if codes == [] then 0 else codes[0])
    else Weigh(codes[..|codes| - 1]) + (|codes| - 1) * codes[|codes| - 1]
  }

  function CheckSymbol(codes: seq<int>): int {
    Weigh(codes) % 103
  }

  /** The whole symbol sequence: start, data, check, stop. */
  function Encode(text: seq<Byte>): seq<int> {
    var codes := [StartSymbol(StartSet(text))] + Symbols(text, 0, StartSet(text));
    codes + [CheckSymbol(codes), STOP]
  }

  // -------------------------------------------------------------------------
  // The size of the result

  /** At most two symbols are written for every character. */
  lemma {:induction false} SymbolsBound(text: seq<Byte>, i: nat, set': CodeSet)
    requires i <= |text|
    ensures |Symbols(text, i, set')| <= 2 * (|text| - i)
    decreases |text| - i
  {
    if i < |text| {
      var j, next := SomeTurns(text, i, set');
      SymbolsBound(text, j, next);
    }
  }

  /** One turn, or two when the first one consumes nothing. */
  lemma {:induction false} SomeTurns(text: seq<Byte>, i: nat, set': CodeSet) returns (j: nat, next: CodeSet)
    requires i < |text|
    ensures i < j <= |text| && |Symbols(text, i, set')| <= 2 * (j - i) + |Symbols(text, j, next)|
  {
    var t := TurnAt(text, i, set');
    if t.used == 0 {
      j, next := AfterLatch(text, i, set', t);
    } else {
      TurnBound(text, i, set', t);
      j, next := i + t.used, t.next;
    }
  }

  lemma {:induction false} AfterLatch(text: seq<Byte>, i: nat, set': CodeSet, t: Turn) returns (j: nat, next: CodeSet)
    requires i < |text| && t == TurnAt(text, i, set') && t.used == 0
    ensures i < j <= |text| && |Symbols(text, i, set')| == 2 + |Symbols(text, j, next)|
  {
    var t' := TurnAt(text, i, t.next);
    NeverTwice(text, i, set');
    TwoTurns(text, i, set', t, t');
    j, next := i + t'.used, t'.next;
  }

  lemma {:induction false} TwoTurns(text: seq<Byte>, i: nat, set': CodeSet, t: Turn, t': Turn)
    requires i < |text| && t == TurnAt(text, i, set') && t.used == 0
    requires t' == TurnAt(text, i, t.next) && |t'.out| == 1
    ensures i + t'.used <= |text| && |Symbols(text, i, set')| == 2 + |Symbols(text, i + t'.used, t'.next)|
  {
    TurnBound(text, i, set', t);
    TurnBound(text, i, t.next, t');
  }

  lemma {:induction false} TurnBound(text: seq<Byte>, i: nat, set': CodeSet, t: Turn)
    requires i < |text| && t == TurnAt(text, i, set')
    ensures i + t.used <= |text| && |Symbols(text, i, set')| == |t.out| + |Symbols(text, i + t.used, t.next)|
    ensures |t.out| <= 2 && (t.used == 0 ==> |t.out| == 1)
  {
    SymbolsTurn(text, i, set');
    OutBound(text, i, set');
  }

  /** A turn writes at most two symbols. */
  lemma OutBound(text: seq<Byte>, i: nat, set': CodeSet)
    requires i < |text|
    ensures |TurnAt(text, i, set').out| <= 2 && (TurnAt(text, i, set').used == 0 ==> |TurnAt(text, i, set').out| == 1)
  {
  }

  /** The result never exceeds 2n + 3 symbols, so the allocation of 2n + 5 is enough. */
  lemma EncodeBound(text: seq<Byte>)
    ensures |Encode(text)| <= 2 * |text| + 3
  {
    SymbolsBound(text, 0, StartSet(text));
  }

  // -------------------------------------------------------------------------
  // The encoder as a loop over an array

  class Writer {
    var codes: array<int>
    var i: nat

    constructor (size: nat)
      ensures fresh(codes) && codes.Length == size && i == 0
    {
      codes, i := new int[size], 0;
    }

    method Put(symbol: int)
      requires i < codes.Length
      modifies this`i, codes
      ensures i == old(i) + 1 && codes[..i] == old(codes[..i]) + [symbol]
    {
      codes[i] := symbol;
      i := i + 1;
    }
  }

  /** Writes the symbols of one turn of the loop and says how far it got. */
  method DoTurn(w: Writer, text: seq<Byte>, s: nat, code: CodeSet) returns (s': nat, code': CodeSet)
    requires s < |text| && w.i + |TurnAt(text, s, code).out| <= w.codes.Length
    modifies w`i, w.codes
    ensures
      var t := TurnAt(text, s, code);
      s' == s + t.used && code' == t.next && w.i == old(w.i) + |t.out| && w.codes[..w.i] == old(w.codes[..w.i]) + t.out
  {
    s', code' := s, code;
    var c := text[s];
    if code == C {
      if c == 0xC1 {
        w.Put(FUNC_1);
        s' := s + 1;
      } else if DigitAt(text, s) && DigitAt(text, s + 1) {
        w.Put((c - 48) * 10 + text[s + 1] - 48);
        s' := s + 2;
      } else {
        var _, next := AOrB(text, s);
        code' := next;
        w.Put(if code' == A then CODE_A else CODE_B);
      }
    } else {
      var j := CountDigits(text, s);
      if j >= 4 {
        if j % 2 == 1 {
          w.Put(c - 32);
          s' := s + 1;
        }
        w.Put(CODE_C);
        code' := C;
      } else if code == A && NeedsB(c) {
        var found, need := AOrB(text, s + 1);
        if found && need == B {
          w.Put(CODE_B);
          code' := B;
        } else {
          w.Put(SHIFT);
          w.Put(EncodeAs(B, c));
          s' := s + 1;
        }
      } else if code == B && NeedsA(c) {
        var found, need := AOrB(text, s + 1);
        if found && need == A {
          w.Put(CODE_A);
          code' := A;
        } else {
          w.Put(SHIFT);
          w.Put(EncodeAs(A, c));
          s' := s + 1;
        }
      } else {
        w.Put(EncodeAs(code, c));
        s' := s + 1;
      }
    }
  }

  method CountDigits(text: seq<Byte>, from: nat) returns (j: nat)
    ensures j == DigitRun(text, from)
  {
    j := 0;
    while DigitAt(text, from + j)
      invariant DigitRun(text, from) == j + DigitRun(text, from + j)
      decreases |text| - from - j
    {
      j := j + 1;
    }
  }

  method ComputeCheck(codes: array<int>, n: nat) returns (checksum: int)
    requires 1 <= n <= codes.Length
    ensures checksum == CheckSymbol(codes[..n])
  {
    checksum := codes[0];
    for j := 1 to n
      invariant checksum == Weigh(codes[..j])
    {
      checksum := checksum + j * codes[j];
      assert codes[..j + 1][..j] == codes[..j];
    }
    checksum := checksum % 103;
  }

  /** What is written and what is still to come are the whole. */
  ghost predicate Underway(written: seq<int>, text: seq<Byte>, s: nat, code: CodeSet, all: seq<int>) {
    s <= |text| && written + Symbols(text, s, code) == all
  }

  lemma TurnGoesOn(written: seq<int>, text: seq<Byte>, s: nat, code: CodeSet, all: seq<int>)
    requires s < |text| && Underway(written, text, s, code, all)
    ensures
      var t := TurnAt(text, s, code);
      && |written| + |t.out| <= |all|
      && Underway(written + t.out, text, s + t.used, t.next, all)
      && (t.used == 0 ==> s + t.used < |text| && TurnAt(text, s + t.used, t.next).used != 0)
  {
    var t := TurnAt(text, s, code);
    TurnStays(text, s, code);
    if t.used == 0 {
      NeverTwice(text, s, code);
    }
    assert written + (t.out + Symbols(text, s + t.used, t.next)) == written + t.out + Symbols(text, s + t.used, t.next);
  }

  /** The loop: no two turns in a row leave the text where it was. */
  method WriteSymbols(w: Writer, text: seq<Byte>, set0: CodeSet)
    requires w.i + |Symbols(text, 0, set0)| <= w.codes.Length
    modifies w`i, w.codes
    ensures w.i <= w.codes.Length && w.codes[..w.i] == old(w.codes[..w.i]) + Symbols(text, 0, set0)
  {
    ghost var all := w.codes[..w.i] + Symbols(text, 0, set0);
    var s, code := 0, set0;
    while s < |text|
      invariant w.i <= w.codes.Length && Underway(w.codes[..w.i], text, s, code, all)
      decreases |text| - s, if s < |text| && TurnAt(text, s, code).used == 0 then 1 else 0
    {
      TurnGoesOn(w.codes[..w.i], text, s, code, all);
      s, code := DoTurn(w, text, s, code);
    }
    assert w.codes[..w.i] + [] == w.codes[..w.i];
  }

  /** `Barcode_128_make_array`: fills an array of 2n + 5 symbols, of which `len` are used. */
  method MakeArray(text: seq<Byte>) returns (codes: array<int>, len: nat)
    ensures len <= codes.Length && codes[..len] == Encode(text)
  {
    var w := new Writer(2 * |text| + 5);
    var code := StartSet(text);
    SymbolsBound(text, 0, code);
    w.Put(StartSymbol(code));
    assert w.codes[..w.i] == [StartSymbol(code)];
    WriteSymbols(w, text, code);
    var checksum := ComputeCheck(w.codes, w.i);
    w.Put(checksum);
    w.Put(STOP);
    return w.codes, w.i;
  }
}
