/**
 Plessey bar codes: four bits for every hexadecimal digit and a check of eight bits, which is
 the remainder of a polynomial division over the two-element field done in place. A bit is
 a `bool` and a sequence of bits a polynomial, the highest coefficient first.
 */
module Plessey {

  type Bits = seq<bool>

  /** The divisor: nine coefficients, the first and the last of them one. */
  const CHECK: Bits := [true, true, true, true, false, true, false, false, true]

  function Zeros(n: nat): (z: Bits)
    ensures |z| == n && forall i :: 0 <= i < n ==> !z[i]
  {
    seq(n, i => false)
  }

  /** Addition of polynomials, which is also subtraction. */
  function Add(a: Bits, b: Bits): (r: Bits)
    requires |a| == |b|
    ensures |r| == |a| && forall i :: 0 <= i < |r| ==> r[i] == (a[i] != b[i])
  {
    seq(|a|, i requires 0 <= i < |a| => a[i] != b[i])
  }

  // -------------------------------------------------------------------------
  // Division

  /** One step of long division: the leading term is cancelled and dropped. */
  function Step(s: Bits): (r: Bits)
    requires |s| >= 9
    ensures |r| == |s| - 1
  {
    if s[0] then Add(s[..9], CHECK)[1..] + s[9..] else s[1..]
  }

  /** The remainder, eight bits. */
  function Remainder(s: Bits): (r: Bits)
    requires |s| >= 8
    ensures |r| == 8
    decreases |s|
  {
    if |s| == 8 then s else Remainder(Step(s))
  }

  function Quotient(s: Bits): (q: Bits)
    requires |s| >= 8
    ensures |q| == |s| - 8
    decreases |s|
  {
    if |s| == 8 then [] else [s[0]] + Quotient(Step(s))
  }

  /** The multiples of the divisor, by schoolbook multiplication. */
  function Times(q: Bits): (r: Bits)
    ensures |r| == |q| + 8
  {
    if q == [] then Zeros(8)
    else if q[0] then Add(CHECK + Zeros(|q| - 1), [false] + Times(q[1..]))
    else [false] + Times(q[1..])
  }

  lemma AddStep(a: Bits, b: Bits)
    requires |a| == |b| >= 9
    ensures Step(Add(a, b)) == Add(Step(a), Step(b))
  {
  }

  /** The remainder is linear. */
  lemma {:induction false} RemainderOfSum(a: Bits, b: Bits)
    requires |a| == |b| >= 8
    ensures Remainder(Add(a, b)) == Add(Remainder(a), Remainder(b))
    decreases |a|
  {
    if |a| > 8 {
      AddStep(a, b);
      RemainderOfSum(Step(a), Step(b));
    }
  }

  lemma {:induction false} RemainderOfSmall(n: nat, r: Bits)
    requires |r| >= 8
    ensures Remainder(Zeros(n) + r) == Remainder(r)
    decreases n
  {
    if n == 0 {
      assert Zeros(0) + r == r;
    } else {
      assert (Zeros(n) + r)[1..] == Zeros(n - 1) + r;
      RemainderOfSmall(n - 1, r);
    }
  }

  lemma {:induction false} RemainderOfMultiple(q: Bits)
    ensures Remainder(Times(q)) == Zeros(8)
    decreases |q|
  {
    if q != [] {
      RemainderOfMultiple(q[1..]);
      StepOfMultiple(q);
    }
  }

  lemma {:induction false} StepOfMultiple(q: Bits)
    requires q != []
    ensures Step(Times(q)) == Times(q[1..])
  {
    if q[0] {
      CancelLeading(Times(q[1..]));
    } else {
      assert ([false] + Times(q[1..]))[1..] == Times(q[1..]);
    }
  }

  lemma {:induction false} CancelLeading(p: Bits)
    requires |p| >= 8
    ensures Step(Add(CHECK + Zeros(|p| - 8), [false] + p)) == p
  {
  }

  /** Division with remainder: the dividend is a multiple of the divisor plus the remainder. */
  lemma {:induction false} DivisionIsExact(s: Bits)
    requires |s| >= 8
    ensures IsDivision(s, Quotient(s), Remainder(s))
    decreases |s|
  {
    if |s| == 8 {
      assert Add(Zeros(8), Zeros(0) + s) == s;
    } else {
      DivisionIsExact(Step(s));
      DivisionStep(s, Quotient(Step(s)), Remainder(s));
    }
  }

  ghost predicate IsDivision(s: Bits, q: Bits, r: Bits) {
    |s| == |q| + 8 && |r| == 8 && s == Add(Times(q), Zeros(|q|) + r)
  }

  lemma DivisionStep(s: Bits, q: Bits, r: Bits)
    requires |s| >= 9 && IsDivision(Step(s), q, r)
    ensures IsDivision(s, [s[0]] + q, r)
  {
    UnstepSum(s, Times(q), Zeros(|q|) + r);
    TimesNext(s[0], q);
    ZerosNext(|q|, r);
    assert |[s[0]] + q| == |q| + 1;
  }

  lemma ZerosNext(n: nat, r: Bits)
    ensures Zeros(n + 1) + r == [false] + (Zeros(n) + r)
  {
  }

  lemma TimesNext(bit: bool, q: Bits)
    ensures Times([bit] + q) == if bit then Add(CHECK + Zeros(|q|), [false] + Times(q)) else [false] + Times(q)
  {
    assert ([bit] + q)[1..] == q;
  }

  lemma UnstepSum(s: Bits, p: Bits, r: Bits)
    requires |s| >= 9 && |p| == |r| == |s| - 1 && Step(s) == Add(p, r)
    ensures s == Add(if s[0] then Add(CHECK + Zeros(|s| - 9), [false] + p) else [false] + p, [false] + r)
  {
    Unstep(s);
    assert [false] + Add(p, r) == Add([false] + p, [false] + r);
    if s[0] {
      AddAssoc(CHECK + Zeros(|s| - 9), [false] + p, [false] + r);
    }
  }

  lemma Unstep(s: Bits)
    requires |s| >= 9
    ensures s == if s[0] then Add(CHECK + Zeros(|s| - 9), [false] + Step(s)) else [false] + Step(s)
  {
  }

  lemma AddAssoc(a: Bits, b: Bits, c: Bits)
    requires |a| == |b| == |c|
    ensures Add(Add(a, b), c) == Add(a, Add(b, c))
  {
  }

  /** The remainder is zero exactly for the multiples of the divisor. */
  lemma ZeroRemainder(s: Bits)
    requires |s| >= 8
    ensures Remainder(s) == Zeros(8) <==> exists q :: Times(q) == s
  {
    if Remainder(s) == Zeros(8) {
      DivisionIsExact(s);
      assert Times(Quotient(s)) == s;
    }
    if q :| Times(q) == s {
      RemainderOfMultiple(q);
    }
  }

  // -------------------------------------------------------------------------
  // Code words

  /** A message and its check bits. */
  function Protect(message: Bits): (r: Bits)
    ensures |r| == |message| + 8
  {
    message + Remainder(message + Zeros(8))
  }

  lemma RemainderOfWord(message: Bits, tail: Bits)
    requires |tail| == 8
    ensures Remainder(message + tail) == Add(Remainder(message + Zeros(8)), tail)
  {
    assert message + tail == Add(message + Zeros(8), Zeros(|message|) + tail);
    RemainderOfSum(message + Zeros(8), Zeros(|message|) + tail);
    RemainderOfSmall(|message|, tail);
  }

  /** The eight check bits are the only ones that make the message divisible. */
  lemma DividesIffProtected(message: Bits, tail: Bits)
    requires |tail| == 8
    ensures Remainder(message + tail) == Zeros(8) <==> message + tail == Protect(message)
  {
    var check := Remainder(message + Zeros(8));
    RemainderOfWord(message, tail);
    if Add(check, tail) == Zeros(8) {
      forall i | 0 <= i < 8 ensures check[i] == tail[i] {
        assert Add(check, tail)[i] == Zeros(8)[i];
      }
      assert check == tail;
    }
    if message + tail == Protect(message) {
      assert tail == (message + tail)[|message|..];
      assert check == tail;
    }
  }

  /** Eight bits followed by one zero: the divisor's last term keeps anything from vanishing. */
  lemma StepKeepsNonZero(r: Bits)
    requires |r| == 8 && r != Zeros(8)
    ensures Step(r + [false]) != Zeros(8)
  {
    var s := Step(r + [false]);
    if r[0] {
      assert s[7];
    } else {
      var k :| 0 <= k < 8 && r[k] != Zeros(8)[k];
      assert s[k - 1];
    }
  }

  lemma {:induction false} BurstRemains(burst: Bits, n: nat)
    requires |burst| == 8 && burst != Zeros(8)
    ensures Remainder(burst + Zeros(n)) != Zeros(8)
    decreases n
  {
    if n == 0 {
      assert burst + Zeros(0) == burst;
    } else {
      StepKeepsNonZero(burst);
      var s := burst + Zeros(n);
      assert s[..9] == burst + [false] && s[9..] == Zeros(n - 1);
      assert (burst + [false])[..9] == burst + [false];
      assert Step(s) == Step(burst + [false]) + Zeros(n - 1);
      BurstRemains(Step(burst + [false]), n - 1);
    }
  }

  /** An error pattern that touches at most eight consecutive bits, from p on. */
  ghost predicate IsBurst(error: Bits, p: nat) {
    && p + 8 <= |error|
    && (forall i :: 0 <= i < |error| && error[i] ==> p <= i < p + 8)
    && exists i :: 0 <= i < |error| && error[i]
  }

  lemma BurstShape(error: Bits, p: nat)
    requires IsBurst(error, p)
    ensures error == Zeros(p) + (error[p..p + 8] + Zeros(|error| - p - 8)) && error[p..p + 8] != Zeros(8)
  {
    var i :| 0 <= i < |error| && error[i];
    assert error[p..p + 8][i - p];
  }

  /** Every error confined to eight consecutive bits of a code word shows in the remainder. */
  lemma BurstIsDetected(message: Bits, error: Bits, p: nat)
    requires |error| == |message| + 8 && IsBurst(error, p)
    ensures Remainder(Add(Protect(message), error)) != Zeros(8)
  {
    var burst, n := error[p..p + 8], |error| - p - 8;
    DividesIffProtected(message, Remainder(message + Zeros(8)));
    RemainderOfSum(Protect(message), error);
    BurstShape(error, p);
    RemainderOfSmall(p, burst + Zeros(n));
    BurstRemains(burst, n);
    assert Add(Zeros(8), Remainder(error)) == Remainder(error);
  }

  // -------------------------------------------------------------------------
  // The text

  function Upper(c: char): char {
    if 'a' <= c <= 'z' then c - 'a' + 'A' else c
  }

  /** The position in the alphabet "0123456789ABCDEF" after conversion to upper case, or -1. */
  function Code(c: char): (r: int)
    ensures -1 <= r < 16
  {
    if '0' <= c <= '9' then (c - '0') as int
    else if 'A' <= Upper(c) <= 'F' then (Upper(c) - 'A') as int + 10
    else -1
  }

  /** The four bits of a digit, the lowest first. */
  function Nibble(code: int): (r: Bits)
    requires 0 <= code < 16
    ensures |r| == 4
  {
    [code % 2 == 1, code / 2 % 2 == 1, code / 4 % 2 == 1, code / 8 % 2 == 1]
  }

  predicate Encodable(text: string) {
    forall i :: 0 <= i < |text| ==> Code(text[i]) >= 0
  }

  function TextBits(text: string): (r: Bits)
    requires Encodable(text)
    ensures |r| == 4 * |text|
  {
    if text == [] then [] else TextBits(text[..|text| - 1]) + Nibble(Code(text[|text| - 1]))
  }

  function Bar(bit: bool): string {
    if bit then "31" else "13"
  }

  function Bars(bits: Bits): (r: string)
    ensures |r| == 2 * |bits|
  {
    seq(2 * |bits|, k requires 0 <= k < 2 * |bits| => Bar(bits[k / 2])[k % 2])
  }

  const START := "031311331"
  const STOP := "331311313"

  /** Reading bars back: a wide bar before a narrow space is a one. */
  function ReadBars(bars: string): Bits {
    seq(|bars| / 2, k requires 0 <= k < |bars| / 2 => bars[2 * k] == '3')
  }

  lemma ReadBarsBack(bits: Bits)
    ensures ReadBars(Bars(bits)) == bits
  {
    forall k | 0 <= k < |bits| ensures ReadBars(Bars(bits))[k] == bits[k] {
      assert Bars(bits)[2 * k] == Bar(bits[k])[0];
      assert Bar(true)[0] == '3' && Bar(false)[0] == '1';
    }
  }

  lemma BarsConcat(a: Bits, b: Bits)
    ensures Bars(a + b) == Bars(a) + Bars(b)
  {
  }

  // -------------------------------------------------------------------------
  // The loops

  /** Adds the divisor to the nine bits from position i on. */
  method AddCheck(a: array<bool>, i: nat)
    requires i + 9 <= a.Length
    modifies a
    ensures a[..] == old(a[..i]) + Add(old(a[i..i + 9]), CHECK) + old(a[i + 9..])
  {
    for j := 0 to 9
      invariant forall k :: 0 <= k < a.Length ==>
                  a[k] == if i <= k < i + j then old(a[k]) != CHECK[k - i] else old(a[k])
    {
      a[i + j] := a[i + j] != CHECK[j];
    }
  }

  /** The division in place: the quotient's positions become zero, the remainder is left behind them. */
  method Divide(a: array<bool>, n: nat)
    requires a.Length == n + 8
    modifies a
    ensures a[..] == Zeros(n) + Remainder(old(a[..]))
  {
    ghost var whole := a[..];
    assert whole[0..] == whole;
    for i := 0 to n
      invariant a[..][..i] == Zeros(i)
      invariant Remainder(a[..][i..]) == Remainder(whole)
    {
      ghost var before := a[..];
      if a[i] {
        AddCheck(a, i);
      }
      StepInPlace(before, a[..], i);
    }
    assert a[..] == a[..][..n] + a[..][n..];
  }

  lemma StepInPlace(before: Bits, after: Bits, i: nat)
    requires i + 9 <= |before| && before[..i] == Zeros(i)
    requires after == if before[i] then before[..i] + Add(before[i..i + 9], CHECK) + before[i + 9..] else before
    ensures |after| == |before| && after[..i + 1] == Zeros(i + 1) && after[i + 1..] == Step(before[i..])
  {
    var s := before[i..];
    assert s[..9] == before[i..i + 9] && s[9..] == before[i + 9..] && s[0] == before[i];
    if before[i] {
      var sum := Add(s[..9], CHECK);
      assert after[i] == sum[0];
      assert after[i + 1..] == sum[1..] + s[9..];
    }
    assert after[..i] == Zeros(i);
  }

  datatype Symbol = Symbol(partial: string) | Invalid

  /** The first i characters are expanded, and the rest of the bits is zero. */
  ghost predicate Expanded(bits: Bits, bars: string, text: string, i: nat) {
    && i <= |text| && |bits| == 4 * |text| + 8 && Encodable(text[..i])
    && bits == TextBits(text[..i]) + Zeros(|bits| - 4 * i) && bars == Bars(TextBits(text[..i]))
  }

  lemma {:induction false} ExpandedMore(bits: Bits, bars: string, text: string, i: nat)
    requires i < |text| && Expanded(bits, bars, text, i) && Code(text[i]) >= 0
    ensures
      var n := Nibble(Code(text[i]));
      Expanded(bits[..4 * i] + n + bits[4 * i + 4..], bars + Bars(n), text, i + 1)
  {
    var front := text[..i + 1];
    assert front[..i] == text[..i] && front[i] == text[i];
    BarsConcat(TextBits(text[..i]), Nibble(Code(text[i])));
    assert bits[..4 * i] == TextBits(text[..i]);
    assert bits[4 * i + 4..] == Zeros(|bits| - 4 * (i + 1));
  }

  lemma NothingExpanded(bits: Bits, text: string)
    requires |bits| == 4 * |text| + 8 && forall k :: 0 <= k < |bits| ==> !bits[k]
    ensures Expanded(bits, "", text, 0)
  {
    assert text[..0] == "" && TextBits("") == [];
    assert bits == [] + Zeros(|bits|);
  }

  /** Digits to bits, bits to bars: the message part. */
  method Expand(text: string, bits: array<bool>) returns (ok: bool, bars: string)
    requires bits.Length == 4 * |text| + 8 && forall k :: 0 <= k < bits.Length ==> !bits[k]
    modifies bits
    ensures ok == Encodable(text)
    ensures ok ==> bits[..] == TextBits(text) + Zeros(8) && bars == Bars(TextBits(text))
  {
    bars := "";
    NothingExpanded(bits[..], text);
    for i := 0 to |text|
      invariant Expanded(bits[..], bars, text, i)
    {
      var code := Code(text[i]);
      if code < 0 {
        return false, "";
      }
      var one := PutDigit(bits, bars, text, i, code);
      bars := bars + one;
    }
    ok := true;
    assert text[..|text|] == text;
  }

  /** One character: four bits, and the bars for them. */
  method PutDigit(bits: array<bool>, ghost bars: string, text: string, i: nat, code: int) returns (one: string)
    requires i < |text| && Expanded(bits[..], bars, text, i) && code == Code(text[i]) >= 0
    modifies bits
    ensures Expanded(bits[..], bars + one, text, i + 1)
  {
    ExpandedMore(bits[..], bars, text, i);
    PutNibble(bits, 4 * i, code);
    one := AddOne(code);
  }

  method PutNibble(bits: array<bool>, at: nat, code: int)
    requires at + 4 <= bits.Length && 0 <= code < 16
    modifies bits
    ensures bits[..] == old(bits[..])[..at] + Nibble(code) + old(bits[..])[at + 4..]
  {
    bits[at] := code % 2 == 1;
    bits[at + 1] := code / 2 % 2 == 1;
    bits[at + 2] := code / 4 % 2 == 1;
    bits[at + 3] := code / 8 % 2 == 1;
  }

  /** The four bars of a digit. */
  method AddOne(code: int) returns (bars: string)
    requires 0 <= code < 16
    ensures bars == Bars(Nibble(code))
  {
    NibbleBars(Nibble(code));
    bars := Bar(code % 2 == 1) + Bar(code / 2 % 2 == 1) + Bar(code / 4 % 2 == 1) + Bar(code / 8 % 2 == 1);
  }

  lemma NibbleBars(b: Bits)
    requires |b| == 4
    ensures Bars(b) == Bar(b[0]) + Bar(b[1]) + Bar(b[2]) + Bar(b[3])
  {
  }

  /**
   The whole encoder: between start and stop, the bars of the text's bits and of the eight
   bits that make them divisible.
   */
  method Encode(text: string) returns (r: Symbol)
    ensures r.Symbol? <==> Encodable(text)
    ensures r.Symbol? ==> r.partial == START + Bars(Protect(TextBits(text))) + STOP
  {
    var n := 4 * |text|;
    var bits := new bool[n + 8](_ => false);
    var ok, bars := Expand(text, bits);
    if !ok {
      return Invalid;
    }
    ghost var message := TextBits(text);
    Divide(bits, n);
    ghost var check := Remainder(message + Zeros(8));
    var tail := CheckBars(bits, n);
    assert bits[n..] == check;
    BarsConcat(message, check);
    r := Symbol(START + (bars + tail) + STOP);
  }

  method CheckBars(bits: array<bool>, n: nat) returns (bars: string)
    requires bits.Length == n + 8
    ensures bars == Bars(bits[n..])
  {
    bars := "";
    for i := 0 to 8
      invariant bars == Bars(bits[n..n + i])
    {
      BarsConcat(bits[n..n + i], [bits[n + i]]);
      assert bits[n..n + i] + [bits[n + i]] == bits[n..n + i + 1];
      bars := bars + Bar(bits[n + i]);
    }
    assert bits[n..n + 8] == bits[n..];
  }
}
