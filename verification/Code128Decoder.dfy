/** A reader of Code 128 symbols, and what the encoder's output means to it. */
module Code128Decoder {
  import opened Bytes
  import opened Common
  import opened Code128

  // -------------------------------------------------------------------------
  // Reading symbols

  /** The character that a symbol stands for in set A or B; the remaining values are set changes. */
  function CharOf(set': CodeSet, v: int): Option<Byte> {
    if v == FUNC_1 then Some(0xC1)
    else if v == FUNC_2 then Some(0xC2)
    else if v == FUNC_3 then Some(0xC3)
    else if v == (if set' == A then CODE_A else CODE_B) then Some(0xC4)
    else if 0 <= v < 64 then Some(v + 32)
    else if 64 <= v < 96 then
      if set' == B then Some(v + 32) else if v == 64 then Some(0x80) else Some(v - 64)
    else None
  }

  function Other(set': CodeSet): CodeSet {
    if set' == A then B else A
  }

  /** The set that a symbol latches to, if it does. */
  function Latch(set': CodeSet, v: int): Option<CodeSet> {
    if v == CODE_C && set' != C then Some(C)
    else if v == CODE_B && set' != B then Some(B)
    else if v == CODE_A && set' != A then Some(A)
    else None
  }

  function Prepend(chars: seq<Byte>, rest: Option<seq<Byte>>): Option<seq<Byte>> {
    if rest.None? then None else Some(chars + rest.value)
  }

  /** The text of a sequence of data symbols read from the given set on. */
  function Decode(codes: seq<int>, set': CodeSet): Option<seq<Byte>> {
    if codes == [] then Some([])
    else
      var v := codes[0];
      if Latch(set', v).Some? then Decode(codes[1..], Latch(set', v).value)
      else if set' == C then
        if 0 <= v <= 99 then Prepend([48 + v / 10, 48 + v % 10], Decode(codes[1..], C))
        else if v == FUNC_1 then Prepend([0xC1], Decode(codes[1..], C))
        else None
      else if v == SHIFT then
        if |codes| >= 2 && CharOf(Other(set'), codes[1]).Some?
        then Prepend([CharOf(Other(set'), codes[1]).value], Decode(codes[2..], set'))
        else None
      else if CharOf(set', v).Some? then Prepend([CharOf(set', v).value], Decode(codes[1..], set'))
      else None
  }

  function StartOf(v: int): Option<CodeSet> {
    if v == START_A then Some(A) else if v == START_A + 1 then Some(B) else if v == START_A + 2 then Some(C) else None
  }

  /** Reads a whole bar code: start, data, a matching check symbol, stop. */
  function Scan(codes: seq<int>): Option<seq<Byte>> {
    var n := |codes|;
    if n < 3 || StartOf(codes[0]).None? || codes[n - 1] != STOP || codes[n - 2] != CheckSymbol(codes[..n - 2]) then None
    else Decode(codes[1..n - 2], StartOf(codes[0]).value)
  }

  // -------------------------------------------------------------------------
  // Every turn can be read back

  /** A character that the set can show is recovered from its symbol. */
  lemma CharOfEncodeAs(set': CodeSet, c: Byte)
    requires Encodable(c) && set' != C
    requires set' == A ==> !NeedsB(c)
    requires set' == B ==> !NeedsA(c)
    ensures CharOf(set', EncodeAs(set', c)) == Some(c)
    ensures Latch(set', EncodeAs(set', c)).None? && EncodeAs(set', c) != SHIFT
  {
  }

  lemma PrependNothing(rest: Option<seq<Byte>>)
    ensures Prepend([], rest) == rest
  {
    if rest.Some? {
      assert [] + rest.value == rest.value;
    }
  }

  /** A reader that meets the symbols of a turn gets its characters and goes on in its set. */
  ghost predicate ReadsTurn(text: seq<Byte>, i: nat, t: Turn, set': CodeSet, rest: seq<int>) {
    i + t.used <= |text| && Decode(t.out + rest, set') == Prepend(text[i..i + t.used], Decode(rest, t.next))
  }

  lemma {:induction false} LatchReads(text: seq<Byte>, i: nat, next: CodeSet, rest: seq<int>)
    requires i < |text| && next != C
    ensures ReadsTurn(text, i, Turn([if next == A then CODE_A else CODE_B], 0, next), C, rest)
  {
    var v := if next == A then CODE_A else CODE_B;
    assert ([v] + rest)[1..] == rest && text[i..i] == [];
    PrependNothing(Decode(rest, next));
  }

  lemma {:induction false} PairReads(text: seq<Byte>, i: nat, rest: seq<int>)
    requires DigitAt(text, i) && DigitAt(text, i + 1)
    ensures ReadsTurn(text, i, Turn([(text[i] - 48) * 10 + (text[i + 1] - 48)], 2, C), C, rest)
  {
    var v := (text[i] - 48) * 10 + (text[i + 1] - 48);
    assert ([v] + rest)[1..] == rest;
    assert 0 <= v <= 99 && 48 + v / 10 == text[i] && 48 + v % 10 == text[i + 1];
    assert text[i..i + 2] == [48 + v / 10, 48 + v % 10];
  }

  lemma {:induction false} DecodeTurnC(text: seq<Byte>, i: nat, rest: seq<int>)
    requires i < |text|
    ensures ReadsTurn(text, i, TurnAt(text, i, C), C, rest)
  {
    var t := TurnAt(text, i, C);
    if t.used == 0 {
      LatchReads(text, i, FirstNeed(text, i).1, rest);
    } else if t.used == 1 {
      assert ([FUNC_1] + rest)[1..] == rest;
      assert text[i..i + 1] == [0xC1];
    } else {
      PairReads(text, i, rest);
    }
  }

  /** In set A or B: a latch without a character, which may lead to any other set. */
  lemma {:induction false} LatchABReads(text: seq<Byte>, i: nat, set': CodeSet, v: int, next: CodeSet, rest: seq<int>)
    requires i < |text| && set' != C && Latch(set', v) == Some(next)
    ensures ReadsTurn(text, i, Turn([v], 0, next), set', rest)
  {
    assert ([v] + rest)[1..] == rest && text[i..i] == [];
    PrependNothing(Decode(rest, next));
  }

  lemma {:induction false} CharReads(text: seq<Byte>, i: nat, set': CodeSet, rest: seq<int>)
    requires Accepted(text) && i < |text| && set' != C
    requires !(set' == A && NeedsB(text[i])) && !(set' == B && NeedsA(text[i]))
    ensures ReadsTurn(text, i, Turn([EncodeAs(set', text[i])], 1, set'), set', rest)
  {
    CharOfEncodeAs(set', text[i]);
    assert ([EncodeAs(set', text[i])] + rest)[1..] == rest && text[i..i + 1] == [text[i]];
  }

  lemma {:induction false} ShiftReads(text: seq<Byte>, i: nat, set': CodeSet, rest: seq<int>)
    requires Accepted(text) && i < |text| && set' != C
    requires (set' == A && NeedsB(text[i])) || (set' == B && NeedsA(text[i]))
    ensures ReadsTurn(text, i, Turn([SHIFT, EncodeAs(Other(set'), text[i])], 1, set'), set', rest)
  {
    CharOfEncodeAs(Other(set'), text[i]);
    assert ([SHIFT, EncodeAs(Other(set'), text[i])] + rest)[2..] == rest && text[i..i + 1] == [text[i]];
  }

  lemma {:induction false} DigitReads(text: seq<Byte>, i: nat, set': CodeSet, rest: seq<int>)
    requires DigitAt(text, i) && set' != C
    ensures ReadsTurn(text, i, Turn([text[i] - 32, CODE_C], 1, C), set', rest)
  {
    var codes := [text[i] - 32, CODE_C] + rest;
    assert codes[1..] == [CODE_C] + rest && ([CODE_C] + rest)[1..] == rest;
    assert text[i..i + 1] == [text[i]];
  }

  lemma {:induction false} DecodeTurnAB(text: seq<Byte>, i: nat, set': CodeSet, rest: seq<int>)
    requires Accepted(text) && i < |text| && set' != C
    ensures ReadsTurn(text, i, TurnAt(text, i, set'), set', rest)
  {
    var t := TurnAt(text, i, set');
    if t.used == 0 {
      LatchABReads(text, i, set', t.out[0], t.next, rest);
    } else if |t.out| == 1 {
      CharReads(text, i, set', rest);
    } else if t.out[0] == SHIFT {
      ShiftReads(text, i, set', rest);
    } else {
      DigitReads(text, i, set', rest);
    }
  }

  lemma DecodeTurn(text: seq<Byte>, i: nat, set': CodeSet, t: Turn, rest: seq<int>)
    requires Accepted(text) && i < |text| && t == TurnAt(text, i, set')
    ensures i + t.used <= |text| && Decode(t.out + rest, set') == Prepend(text[i..i + t.used], Decode(rest, t.next))
  {
    if set' == C { DecodeTurnC(text, i, rest); } else { DecodeTurnAB(text, i, set', rest); }
  }

  lemma DecodeMore(text: seq<Byte>, i: nat, set': CodeSet, t: Turn, rest: seq<int>, codes: seq<int>)
    requires Accepted(text) && i < |text| && t == TurnAt(text, i, set') && i + t.used <= |text|
    requires codes == t.out + rest && Decode(rest, t.next) == Some(text[i + t.used..])
    ensures Decode(codes, set') == Some(text[i..])
  {
    DecodeTurn(text, i, set', t, rest);
    assert text[i..i + t.used] + text[i + t.used..] == text[i..];
  }

  /** What decreases from turn to turn: a turn that consumes nothing is followed by one that does. */
  function Left(text: seq<Byte>, i: nat, set': CodeSet): nat
    requires i <= |text|
  {
    2 * (|text| - i) + (if i < |text| && TurnAt(text, i, set').used == 0 then 1 else 0)
  }

  ghost predicate Reads(text: seq<Byte>, i: nat, set': CodeSet) {
    i <= |text| && Decode(Symbols(text, i, set'), set') == Some(text[i..])
  }

  /** After the first turn there is less to read, and if the rest can be read so can the whole. */
  lemma {:induction false} FirstTurn(text: seq<Byte>, i: nat, set': CodeSet) returns (j: nat, next: CodeSet)
    requires Accepted(text) && i < |text|
    ensures j <= |text| && Left(text, j, next) < Left(text, i, set')
    ensures Reads(text, j, next) ==> Reads(text, i, set')
  {
    var t := TurnAt(text, i, set');
    SymbolsTurn(text, i, set');
    if t.used == 0 {
      NeverTwice(text, i, set');
    }
    j, next := i + t.used, t.next;
    if Reads(text, j, next) {
      DecodeMore(text, i, set', t, Symbols(text, j, next), Symbols(text, i, set'));
    }
  }

  lemma {:induction false} AllRead(text: seq<Byte>, i: nat, set': CodeSet, left: nat)
    requires Accepted(text) && i <= |text| && left == Left(text, i, set')
    ensures Reads(text, i, set')
    decreases left
  {
    if i < |text| {
      var j, next := FirstTurn(text, i, set');
      AllRead(text, j, next, Left(text, j, next));
    } else {
      assert text[i..] == [];
    }
  }

  /** The symbols of a text decode to the text. */
  lemma SymbolsDecode(text: seq<Byte>, i: nat, set': CodeSet, codes: seq<int>)
    requires Accepted(text) && i <= |text| && codes == Symbols(text, i, set')
    ensures Decode(codes, set') == Some(text[i..])
  {
    AllRead(text, i, set', Left(text, i, set'));
  }

  /** Scanning the bar code of an accepted text gives back exactly that text. */
  lemma ScanEncode(text: seq<Byte>)
    requires Accepted(text)
    ensures Scan(Encode(text)) == Some(text)
  {
    var codes := Encode(text);
    var n := |codes|;
    var set' := StartSet(text);
    assert codes[..n - 2] == [StartSymbol(set')] + Symbols(text, 0, set');
    assert codes[1..n - 2] == Symbols(text, 0, set');
    SymbolsDecode(text, 0, set', codes[1..n - 2]);
    assert text[0..] == text;
  }

  // -------------------------------------------------------------------------
  // Symbol values

  lemma TurnRange(text: seq<Byte>, i: nat, set': CodeSet)
    requires Accepted(text) && i < |text|
    ensures forall k :: 0 <= k < |TurnAt(text, i, set').out| ==> 0 <= TurnAt(text, i, set').out[k] <= 102
  {
    assert Encodable(text[i]);
    if DigitRun(text, i) >= 4 {
      assert DigitAt(text, i);
    }
  }

  /** Every data symbol is one of the 103 values that a check can protect. */
  lemma {:induction false} SymbolsRange(text: seq<Byte>, i: nat, set': CodeSet)
    requires Accepted(text) && i <= |text|
    ensures forall k :: 0 <= k < |Symbols(text, i, set')| ==> 0 <= Symbols(text, i, set')[k] <= 102
    decreases |text| - i, if i < |text| && TurnAt(text, i, set').used == 0 then 1 else 0
  {
    if i < |text| {
      var t := TurnAt(text, i, set');
      if t.used == 0 {
        NeverTwice(text, i, set');
      }
      TurnStays(text, i, set');
      TurnRange(text, i, set');
      SymbolsRange(text, i + t.used, t.next);
    }
  }

  // -------------------------------------------------------------------------
  // What the check symbol detects

  /** The contribution of position j. */
  function Weight(j: nat): nat {
    if j == 0 then 1 else j
  }

  /** Changing one symbol changes the sum by its weight times the change. */
  lemma {:induction false} WeighChange(codes: seq<int>, j: nat, v: int)
    requires j < |codes|
    ensures Weigh(codes[j := v]) == Weigh(codes) + Weight(j) * (v - codes[j])
  {
    var n := |codes| - 1;
    var changed := codes[j := v];
    if j < n {
      assert changed[..n] == codes[..n][j := v];
      WeighChange(codes[..n], j, v);
    } else if n > 0 {
      assert changed[..n] == codes[..n];
      assert n * v == n * codes[n] + n * (v - codes[n]);
    }
  }

  lemma NoSmallFactor(a: int)
    requires 2 <= a <= 102
    ensures 103 % a != 0
  {
  }

  /** 103 is prime: it divides no product of smaller positive numbers. */
  lemma {:induction false} Prime103(a: int, b: int)
    requires 1 <= a <= 102 && b % 103 != 0
    ensures (a * b) % 103 != 0
    decreases a
  {
    if a > 1 && (a * b) % 103 == 0 {
      var q, r, k := 103 / a, 103 % a, (a * b) / 103;
      NoSmallFactor(a);
      EuclidStep(a, b, q, r, k);
      Prime103(r, b);
    }
  }

  lemma EuclidStep(a: int, b: int, q: int, r: int, k: int)
    requires r == 103 - q * a && a * b == 103 * k
    ensures (r * b) % 103 == 0
  {
    Distribute(103, -(q * a), b);
    Regroup(q, a, b);
    Regroup(q, 103, k);
    assert r * b == 103 * (b - q * k);
    Multiple(b - q * k);
  }

  lemma Distribute(x: int, y: int, z: int)
    ensures (x + y) * z == x * z + y * z
  {
  }

  lemma Regroup(x: int, y: int, z: int)
    ensures (x * y) * z == x * (y * z) && -(x * y) * z == -(x * (y * z)) && x * (y * z) == y * (x * z)
  {
  }

  lemma Multiple(t: int)
    ensures (103 * t) % 103 == 0
  {
  }

  lemma ModDiffers(x: int, d: int)
    ensures (x + d) % 103 == x % 103 <==> d % 103 == 0
  {
  }

  /** A product with a factor that 103 does not divide, and a small change, is never 0 modulo 103. */
  lemma WeightedChange(w: nat, d: int)
    requires w % 103 != 0 && d != 0 && -102 <= d <= 102
    ensures (w * d) % 103 != 0
  {
    var h, e := w / 103, w % 103;
    assert w == 103 * h + e;
    Distribute(103 * h, e, d);
    Regroup(103, h, d);
    Prime103(e, d);
    ModDiffers(e * d, 103 * (h * d));
    Multiple(h * d);
  }

  lemma ReplacementShows(codes: seq<int>, j: nat, v: int)
    requires j < |codes| && Weight(j) % 103 != 0
    requires v != codes[j] && -102 <= v - codes[j] <= 102
    ensures CheckSymbol(codes[j := v]) != CheckSymbol(codes)
  {
    WeighChange(codes, j, v);
    WeightedChange(Weight(j), v - codes[j]);
    ModDiffers(Weigh(codes), Weight(j) * (v - codes[j]));
  }

  lemma {:induction false} ReplacementHides(codes: seq<int>, j: nat, v: int)
    requires 0 < j < |codes| && j % 103 == 0
    ensures CheckSymbol(codes[j := v]) == CheckSymbol(codes)
  {
    WeighChange(codes, j, v);
    MultipleTimes(j, v - codes[j]);
    ModDiffers(Weigh(codes), j * (v - codes[j]));
  }

  lemma {:induction false} MultipleTimes(j: nat, d: int)
    requires j % 103 == 0
    ensures (j * d) % 103 == 0
  {
    var h := j / 103;
    assert j == 103 * h;
    Regroup(103, h, d);
    Multiple(h * d);
  }

  /**
   Replacing one data symbol by another, or one start symbol by another, is detected exactly
   at the positions that 103 does not divide, and at the start symbol, which counts once.
   */
  lemma CheckDetectsReplacement(codes: seq<int>, j: nat, v: int)
    requires j < |codes| && v != codes[j] && -102 <= v - codes[j] <= 102
    ensures CheckSymbol(codes[j := v]) != CheckSymbol(codes) <==> j == 0 || j % 103 != 0
  {
    if j == 0 || j % 103 != 0 {
      ReplacementShows(codes, j, v);
    } else {
      ReplacementHides(codes, j, v);
    }
  }

  lemma SwapSum(j: nat, a: int, b: int)
    requires j >= 1
    ensures Weight(j) * (b - a) + Weight(j + 1) * (a - b) == a - b
  {
  }

  /** Swapping two different neighbours is always detected. */
  lemma {:induction false} CheckDetectsSwap(codes: seq<int>, j: nat)
    requires 1 <= j && j + 1 < |codes|
    requires 0 <= codes[j] <= 102 && 0 <= codes[j + 1] <= 102 && codes[j] != codes[j + 1]
    ensures CheckSymbol(codes[j := codes[j + 1]][j + 1 := codes[j]]) != CheckSymbol(codes)
  {
    var a, b := codes[j], codes[j + 1];
    WeighChange(codes, j, b);
    WeighChange(codes[j := b], j + 1, a);
    SwapSum(j, a, b);
    SmallDiffers(Weigh(codes), a - b);
  }

  lemma SmallDiffers(x: int, d: int)
    requires d != 0 && -102 <= d <= 102
    ensures (x + d) % 103 != x % 103
  {
    ModDiffers(x, d);
  }
}
