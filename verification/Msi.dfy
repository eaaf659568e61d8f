/**
 MSI bar codes: digits as four bits, and a check digit for which every second digit from the
 end is doubled.
 */
module Msi {
  import opened Common

  const START := "031"
  const STOP := "131"

  // -------------------------------------------------------------------------
  // The sum as the program computes it

  /** A doubled digit with its carry. */
  function Doubled(d: Digit): nat {
    2 * d + 2 * d / 10
  }

  /** What one digit contributes. */
  function Weighted(d: Digit, double: bool): (r: nat) {
    if double then Doubled(d) else d
  }

  /** The digits at distance 0, 2, 4, ... from the end are doubled. */
  function Sum(digits: seq<Digit>): (r: nat) {
    if digits == [] then 0 else Weighted(digits[0], |digits| % 2 == 1) + Sum(digits[1..])
  }

  /** The complement to the next multiple of ten. */
  function CheckDigit(sum: nat): (r: Digit)
    ensures (sum + r) % 10 == 0
  {
    (sum + 9) / 10 * 10 - sum
  }

  // -------------------------------------------------------------------------
  // The sum as it is explained: twice the number read from every second digit

  function DigitSum(n: nat): nat {
    if n == 0 then 0 else n % 10 + DigitSum(n / 10)
  }

  function Number(digits: seq<Digit>): nat {
    if digits == [] then 0 else 10 * Number(digits[..|digits| - 1]) + digits[|digits| - 1]
  }

  /** The digits ...ECA at even distance from the end, in order. */
  function Ends(digits: seq<Digit>): seq<Digit> {
    if digits == [] then [] else (if |digits| % 2 == 1 then [digits[0]] else []) + Ends(digits[1..])
  }

  /** The other ones, ...FDB. */
  function Others(digits: seq<Digit>): seq<Digit> {
    if digits == [] then [] else (if |digits| % 2 == 1 then [] else [digits[0]]) + Others(digits[1..])
  }

  function Total(digits: seq<Digit>): nat {
    if digits == [] then 0 else digits[0] + Total(digits[1..])
  }

  function TotalDoubled(digits: seq<Digit>): nat {
    if digits == [] then 0 else TotalDoubled(digits[..|digits| - 1]) + Doubled(digits[|digits| - 1])
  }

  /** An even number ends in an even digit, so adding one gives no carry. */
  lemma {:induction false} DigitSumSucc(m: nat)
    ensures DigitSum(2 * m + 1) == DigitSum(2 * m) + 1
  {
    EvenDigit(m);
    if m == 0 {
      assert DigitSum(1) == 1 + DigitSum(0);
    }
  }

  lemma EvenDigit(m: nat)
    ensures (2 * m + 1) % 10 == 2 * m % 10 + 1 && (2 * m + 1) / 10 == 2 * m / 10
  {
    var q, r := m / 5, m % 5;
    assert 2 * m == 10 * q + 2 * r;
    LastDigit(q, 2 * r);
    LastDigit(q, 2 * r + 1);
  }

  lemma LastDigit(q: nat, d: nat)
    requires d < 10
    ensures (10 * q + d) % 10 == d && (10 * q + d) / 10 == q
  {
  }

  lemma DigitSumShift(x: nat, d: nat)
    requires d < 10
    ensures DigitSum(10 * x + d) == d + DigitSum(x)
  {
  }

  /** How many digits give a carry when doubled. */
  function Big(digits: seq<Digit>): nat {
    if digits == [] then 0 else Big(digits[..|digits| - 1]) + (if digits[|digits| - 1] >= 5 then 1 else 0)
  }

  /**
   Doubling every digit with its own carry, compared with doubling the number with all its
   carries: each carry is counted as ten too much.
   */
  lemma {:induction false} DoublingByDigits(digits: seq<Digit>)
    ensures TotalDoubled(digits) == DigitSum(2 * Number(digits)) + 10 * Big(digits)
    decreases |digits|
  {
    if digits != [] {
      DoublingByDigits(digits[..|digits| - 1]);
      DoublingStep(Number(digits[..|digits| - 1]), digits[|digits| - 1]);
    }
  }

  lemma {:induction false} DoublingStep(m: nat, d: Digit)
    ensures DigitSum(2 * (10 * m + d)) + (if d >= 5 then 10 else 0) == DigitSum(2 * m) + Doubled(d)
  {
    if d >= 5 {
      assert 2 * (10 * m + d) == 10 * (2 * m + 1) + (2 * d - 10);
      DigitSumShift(2 * m + 1, 2 * d - 10);
      DigitSumSucc(m);
    } else {
      assert 2 * (10 * m + d) == 10 * (2 * m) + 2 * d;
      DigitSumShift(2 * m, 2 * d);
    }
  }

  lemma {:induction false} NoneBig(digits: seq<Digit>)
    ensures Big(digits) == 0 <==> forall i :: 0 <= i < |digits| ==> digits[i] < 5
    decreases |digits|
  {
    if digits != [] {
      var front := digits[..|digits| - 1];
      NoneBig(front);
      assert forall i :: 0 <= i < |front| ==> front[i] == digits[i];
    }
  }

  lemma {:induction false} TotalDoubledPush(d: Digit, digits: seq<Digit>)
    ensures TotalDoubled([d] + digits) == Doubled(d) + TotalDoubled(digits)
    decreases |digits|
  {
    if digits == [] {
      assert [d] + digits == [d] && [d][..0] == [];
    } else {
      assert ([d] + digits)[..|digits|] == [d] + digits[..|digits| - 1];
      TotalDoubledPush(d, digits[..|digits| - 1]);
    }
  }

  lemma {:induction false} SumSplits(digits: seq<Digit>)
    ensures Sum(digits) == TotalDoubled(Ends(digits)) + Total(Others(digits))
    decreases |digits|
  {
    if digits != [] {
      SumSplits(digits[1..]);
      if |digits| % 2 == 1 {
        TotalDoubledPush(digits[0], Ends(digits[1..]));
        assert Others(digits) == Others(digits[1..]);
      } else {
        assert Ends(digits) == Ends(digits[1..]);
        assert Others(digits)[1..] == Others(digits[1..]);
      }
    }
  }

  /** The sum that the comment explains: digit sums of the number ...FDB and of twice the number ...ECA. */
  function Explained(digits: seq<Digit>): nat {
    DigitSum(Number(Others(digits))) + DigitSum(2 * Number(Ends(digits)))
  }

  /** The program's sum exceeds the explained one by ten for every carry. */
  lemma SumExceeds(digits: seq<Digit>)
    ensures Sum(digits) == Explained(digits) + 10 * Big(Ends(digits))
  {
    SumSplits(digits);
    DoublingByDigits(Ends(digits));
    TotalIsDigitSum(Others(digits));
  }

  /** So they always agree modulo ten, which is all that the check digit needs. */
  lemma {:induction false} SumIsDoubledNumber(digits: seq<Digit>)
    ensures Sum(digits) % 10 == Explained(digits) % 10
  {
    SumExceeds(digits);
    TensDoNotMatter(Explained(digits), Big(Ends(digits)));
  }

  lemma TensDoNotMatter(x: nat, tens: nat)
    ensures (x + 10 * tens) % 10 == x % 10
  {
  }

  /** They are the same number exactly when no doubled digit gives a carry. */
  lemma SumsEqualWithoutCarry(digits: seq<Digit>)
    ensures Sum(digits) == Explained(digits) <==> forall i :: 0 <= i < |Ends(digits)| ==> Ends(digits)[i] < 5
  {
    SumExceeds(digits);
    NoneBig(Ends(digits));
  }

  /** The digits that count here, by position: the doubled ones are those at even distance from the end. */
  lemma {:induction false} EndsAre(digits: seq<Digit>, i: nat)
    requires i < |Ends(digits)|
    ensures |Ends(digits)| == (|digits| + 1) / 2
    ensures Ends(digits)[i] == digits[2 * i + 1 - |digits| % 2]
    decreases |digits|
  {
    var rest := Ends(digits[1..]);
    if |digits| % 2 == 0 {
      assert Ends(digits) == rest;
      EndsAre(digits[1..], i);
    } else if i > 0 {
      EndsAre(digits[1..], i - 1);
    } else {
      EndsLength(digits);
    }
  }

  lemma {:induction false} EndsLength(digits: seq<Digit>)
    ensures |Ends(digits)| == (|digits| + 1) / 2
    decreases |digits|
  {
    if digits != [] {
      EndsLength(digits[1..]);
    }
  }

  /** As numbers the two differ for the text "5": they are 11 and 1. */
  lemma SumsDifferAsNumbers()
    ensures Sum([5]) == 11 && Explained([5]) == 1
  {
    var digits: seq<Digit> := [5];
    assert digits[1..] == [] && digits[..0] == [] && [] + digits[1..] == [];
    assert Ends(digits) == digits && Others(digits) == [];
    assert Sum(digits) == 11;
    SumExceeds(digits);
    assert Big(digits) == 1;
  }

  lemma {:induction false} TotalIsDigitSum(digits: seq<Digit>)
    ensures Total(digits) == DigitSum(Number(digits))
    decreases |digits|
  {
    if digits != [] {
      var front, d := digits[..|digits| - 1], digits[|digits| - 1];
      TotalIsDigitSum(front);
      DigitSumShift(Number(front), d);
      TotalPush(front, d);
      assert digits == front + [d];
    }
  }

  lemma {:induction false} TotalPush(digits: seq<Digit>, d: Digit)
    ensures Total(digits + [d]) == Total(digits) + d
    decreases |digits|
  {
    if digits == [] {
      assert [] + [d] == [d] && [d][1..] == [];
    } else {
      assert (digits + [d])[1..] == digits[1..] + [d];
      TotalPush(digits[1..], d);
    }
  }

  /** The check digit is the one that completes the explained sum to a multiple of ten. */
  lemma CheckDigitIs(digits: seq<Digit>)
    ensures (Explained(digits) + CheckDigit(Sum(digits))) % 10 == 0
  {
    SumExceeds(digits);
    TensDoNotMatter(Explained(digits) + CheckDigit(Sum(digits)), Big(Ends(digits)));
  }

  /** The rest of the text contributes the same. */
  lemma {:induction false} ReplacedRest(digits: seq<Digit>, k: nat, d: Digit)
    requires k < |digits|
    ensures Sum(digits[k := d]) - Weighted(d, (|digits| - k) % 2 == 1)
            == Sum(digits) - Weighted(digits[k], (|digits| - k) % 2 == 1)
    decreases |digits|
  {
    if k == 0 {
      assert digits[k := d][1..] == digits[1..];
    } else {
      assert digits[k := d][1..] == digits[1..][k - 1 := d];
      ReplacedRest(digits[1..], k - 1, d);
    }
  }

  /** Replacing one digit by another shows in the sum modulo ten. */
  lemma {:induction false} ReplacementChangesSum(digits: seq<Digit>, k: nat, d: Digit)
    requires k < |digits| && d != digits[k]
    ensures Sum(digits[k := d]) % 10 != Sum(digits) % 10
  {
    var double := (|digits| - k) % 2 == 1;
    ReplacedRest(digits, k, d);
    WeightedDiffers(d, digits[k], double);
    DiffersMod(Weighted(d, double), Weighted(digits[k], double), Sum(digits) - Weighted(digits[k], double));
  }

  lemma WeightedDiffers(d: Digit, e: Digit, double: bool)
    requires d != e
    ensures Weighted(d, double) % 10 != Weighted(e, double) % 10
  {
    if double {
      DoubledDiffers(d, e);
    }
  }

  lemma DoubledDiffers(d: Digit, e: Digit)
    requires d != e
    ensures Doubled(d) % 10 != Doubled(e) % 10
  {
  }

  lemma DiffersMod(a: int, b: int, x: int)
    requires a % 10 != b % 10
    ensures (x + a) % 10 != (x + b) % 10
  {
    assert a - b == 10 * ((x + a) / 10 - (x + b) / 10) + ((x + a) % 10 - (x + b) % 10);
  }

  lemma SameCheckSameSum(a: nat, b: nat)
    requires CheckDigit(a) == CheckDigit(b)
    ensures a % 10 == b % 10
  {
    var x, y := (a + 9) / 10, (b + 9) / 10;
    assert a - b == 10 * (x - y);
    if x >= y {
      TensDoNotMatter(b, x - y);
    } else {
      TensDoNotMatter(a, y - x);
    }
  }

  lemma ReplacementIsDetected(digits: seq<Digit>, k: nat, d: Digit)
    requires k < |digits| && d != digits[k]
    ensures CheckDigit(Sum(digits[k := d])) != CheckDigit(Sum(digits))
  {
    ReplacementChangesSum(digits, k, d);
    if CheckDigit(Sum(digits[k := d])) == CheckDigit(Sum(digits)) {
      SameCheckSameSum(Sum(digits[k := d]), Sum(digits));
    }
  }

  // -------------------------------------------------------------------------
  // Two neighbours swapped

  function Swapped(digits: seq<Digit>, k: nat): (r: seq<Digit>)
    requires k + 1 < |digits|
    ensures |r| == |digits|
  {
    digits[k := digits[k + 1]][k + 1 := digits[k]]
  }

  /** The contribution of a doubled digit followed by a plain one, or the other way round. */
  function PairSum(a: Digit, b: Digit, double: bool): nat {
    Weighted(a, double) + Weighted(b, !double)
  }

  lemma {:induction false} SwapRest(digits: seq<Digit>, k: nat)
    requires k + 1 < |digits|
    ensures
      var double := (|digits| - k) % 2 == 1;
      Sum(Swapped(digits, k)) - PairSum(digits[k + 1], digits[k], double)
      == Sum(digits) - PairSum(digits[k], digits[k + 1], double)
  {
    var once := digits[k := digits[k + 1]];
    ReplacedRest(digits, k, digits[k + 1]);
    ReplacedRest(once, k + 1, digits[k]);
    NextParity(|digits| - k);
  }

  lemma NextParity(n: nat)
    requires n >= 1
    ensures (n - 1) % 2 == 1 <==> n % 2 != 1
  {
  }

  lemma DoubledIs(d: Digit)
    ensures Doubled(d) == 2 * d + if d >= 5 then 1 else 0
  {
  }

  /** Only 0 and 9 contribute the same in either order. */
  lemma PairsAlike(a: Digit, b: Digit, double: bool)
    ensures PairSum(a, b, double) % 10 == PairSum(b, a, double) % 10
            <==> a == b || (a == 0 && b == 9) || (a == 9 && b == 0)
  {
    DoubledIs(a);
    DoubledIs(b);
    var x: int, y: int := PairSum(a, b, double), PairSum(b, a, double);
    assert -10 <= x - y <= 10;
    SmallDifference(x, y);
  }

  lemma SmallDifference(x: nat, y: nat)
    requires -10 <= x - y <= 10
    ensures x % 10 == y % 10 <==> x - y == 0 || x - y == 10 || x - y == -10
  {
    assert x - y == 10 * (x / 10 - y / 10) + (x % 10 - y % 10);
  }

  /** Swapping neighbours goes unnoticed exactly when they are equal or 0 and 9. */
  lemma {:induction false} SwapIsMissed(digits: seq<Digit>, k: nat)
    requires k + 1 < |digits|
    ensures
      var a, b := digits[k], digits[k + 1];
      CheckDigit(Sum(Swapped(digits, k))) == CheckDigit(Sum(digits))
      <==> a == b || (a == 0 && b == 9) || (a == 9 && b == 0)
  {
    var a, b, double := digits[k], digits[k + 1], (|digits| - k) % 2 == 1;
    var rest := Sum(digits) - PairSum(a, b, double);
    SwapRest(digits, k);
    PairsAlike(a, b, double);
    SameModIff(PairSum(b, a, double), PairSum(a, b, double), rest);
    SameCheckIff(Sum(Swapped(digits, k)), Sum(digits));
  }

  lemma SameModIff(a: int, b: int, x: int)
    ensures (x + a) % 10 == (x + b) % 10 <==> a % 10 == b % 10
  {
    assert a - b == 10 * ((x + a) / 10 - (x + b) / 10) + ((x + a) % 10 - (x + b) % 10);
    assert a - b == 10 * (a / 10 - b / 10) + (a % 10 - b % 10);
  }

  lemma SameCheckIff(a: nat, b: nat)
    ensures CheckDigit(a) == CheckDigit(b) <==> a % 10 == b % 10
  {
    if CheckDigit(a) == CheckDigit(b) {
      SameCheckSameSum(a, b);
    }
    CheckDigitByMod(a);
    CheckDigitByMod(b);
  }

  lemma CheckDigitByMod(a: nat)
    ensures CheckDigit(a) == (10 - a % 10) % 10
  {
  }

  // -------------------------------------------------------------------------
  // The bars

  function Pattern(bit: int): string {
    if bit == 1 then "31" else "13"
  }

  function AddOne(code: Digit): string {
    Pattern(code / 8 % 2) + Pattern(code / 4 % 2) + Pattern(code / 2 % 2) + Pattern(code % 2)
  }

  function Bars(digits: seq<Digit>): string {
    if digits == [] then "" else Bars(digits[..|digits| - 1]) + AddOne(digits[|digits| - 1])
  }

  lemma {:induction false} BarsPush(digits: seq<Digit>, d: Digit)
    ensures Bars(digits + [d]) == Bars(digits) + AddOne(d)
  {
    assert (digits + [d])[..|digits|] == digits;
  }

  function Checked(digits: seq<Digit>): seq<Digit> {
    digits + [CheckDigit(Sum(digits))]
  }

  /** The loop over the text. */
  method EncodeDigits(digits: seq<Digit>, usesum: bool) returns (partial: string, checksum: int)
    ensures partial == START + Bars(digits)
    ensures checksum == if usesum then Sum(digits) else 0
  {
    partial, checksum := START, 0;
    assert digits[..0] == [] && digits[0..] == digits && START + "" == START;
    for i := 0 to |digits|
      invariant partial == START + Bars(digits[..i])
      invariant if usesum then checksum + Sum(digits[i..]) == Sum(digits) else checksum == 0
    {
      Push(START, digits[..i], digits[i]);
      Next(digits, i);
      partial := partial + AddOne(digits[i]);
      if usesum {
        checksum := checksum + Weighted(digits[i], (i % 2 == 1) != (|digits| % 2 == 1));
      }
    }
    assert digits[..|digits|] == digits && digits[|digits|..] == [];
  }

  method Encode(digits: seq<Digit>, usesum: bool) returns (partial: string)
    ensures partial == START + Bars(if usesum then Checked(digits) else digits) + STOP
  {
    var checksum;
    partial, checksum := EncodeDigits(digits, usesum);
    if usesum {
      var check: Digit := (checksum + 9) / 10 * 10 - checksum;
      assert check == CheckDigit(Sum(digits));
      Push(START, digits, check);
      partial := partial + AddOne(check);
    }
    partial := partial + STOP;
  }

  lemma {:induction false} Push(start: string, digits: seq<Digit>, d: Digit)
    ensures start + Bars(digits) + AddOne(d) == start + Bars(digits + [d])
  {
    BarsPush(digits, d);
    Assoc(start, Bars(digits), AddOne(d));
  }

  lemma Next(digits: seq<Digit>, i: nat)
    requires i < |digits|
    ensures digits[..i] + [digits[i]] == digits[..i + 1]
    ensures Sum(digits[i..]) == Weighted(digits[i], (i % 2 == 1) != (|digits| % 2 == 1)) + Sum(digits[i + 1..])
  {
    assert digits[i..][1..] == digits[i + 1..];
  }
}
