/** What the modified UTF-7 encoder writes, and that the decoder undoes it. */
module ImapUtf7Proofs {
  import opened Bytes
  import opened Common
  import opened ImapUtf7

  // -------------------------------------------------------------------------
  // A run of UTF-16 units in arithmetic terms

  /** The bits of the last unit that have not been written: the number `v` of `k` bits. */
  datatype Tail = Tail(v: nat, k: nat)

  predicate IsTail(t: Tail) {
    (t.k == 0 && t.v == 0) || (t.k == 2 && t.v < 4) || (t.k == 4 && t.v < 16)
  }

  /** The digits completed by one more unit. */
  function UnitDigits(t: Tail, u: nat): (r: seq<int>)
    requires IsTail(t) && u < 65536
    ensures forall i :: 0 <= i < |r| ==> 0 <= r[i] < 64
  {
    if t.k == 0 then [u / 1024, u / 16 % 64]
    else if t.k == 4 then [t.v * 4 + u / 16384, u / 256 % 64, u / 4 % 64]
    else [t.v * 16 + u / 4096, u / 64 % 64, u % 64]
  }

  function AfterUnit(t: Tail, u: nat): (r: Tail)
    requires IsTail(t) && u < 65536
    ensures IsTail(r)
  {
    if t.k == 0 then Tail(u % 16, 4) else if t.k == 4 then Tail(u % 4, 2) else Tail(0, 0)
  }

  /** The last digit, filled up with zero bits. */
  function LastDigit(t: Tail): (r: seq<int>)
    requires IsTail(t)
    ensures forall i :: 0 <= i < |r| ==> 0 <= r[i] < 64
  {
    if t.k == 0 then [] else if t.k == 2 then [t.v * 16] else [t.v * 4]
  }

  ghost predicate AreUnits(units: seq<nat>) {
    forall i :: 0 <= i < |units| ==> units[i] < 65536
  }

  /** All digits of a run whose units are still to come. */
  function RunDigits(t: Tail, units: seq<nat>): (r: seq<int>)
    requires IsTail(t) && AreUnits(units)
    ensures forall i :: 0 <= i < |r| ==> 0 <= r[i] < 64
    decreases |units|
  {
    if units == [] then LastDigit(t)
    else UnitDigits(t, units[0]) + RunDigits(AfterUnit(t, units[0]), units[1..])
  }

  /** The number that digits denote, the most significant one first. */
  function Value(digits: seq<int>, base: int, start: int): int {
    if digits == [] then start else Value(digits[1..], base, start * base + digits[0])
  }

  lemma {:induction false} ValueConcat(a: seq<int>, b: seq<int>, base: int, start: int)
    ensures Value(a + b, base, start) == Value(b, base, Value(a, base, start))
    decreases |a|
  {
    if a == [] {
      assert a + b == b;
    } else {
      assert (a + b)[1..] == a[1..] + b;
      ValueConcat(a[1..], b, base, start * base + a[0]);
    }
  }

  lemma ValueTwo(a: int, b: int, base: int, start: int)
    ensures Value([a, b], base, start) == (start * base + a) * base + b
  {
    assert [a, b][1..] == [b];
    ValueOne(b, base, start * base + a);
  }

  lemma ValueOne(a: int, base: int, start: int)
    ensures Value([a], base, start) == start * base + a
  {
    assert [a][1..] == [];
  }

  lemma ValueThree(a: int, b: int, c: int, base: int, start: int)
    ensures Value([a, b, c], base, start) == ((start * base + a) * base + b) * base + c
  {
    assert [a, b, c][1..] == [b, c];
    ValueTwo(b, c, base, start * base + a);
  }

  /** How many zero bits fill up the last digit when the run has `n` more units. */
  function Padding(t: Tail, n: nat): nat
    requires IsTail(t)
    decreases n
  {
    if n > 0 then Padding(Tail(0, (t.k + 16) % 6), n - 1) else if t.k == 0 then 0 else 6 - t.k
  }

  lemma UnitValue(t: Tail, u: nat, start: nat)
    requires IsTail(t) && u < 65536
    ensures Value(UnitDigits(t, u), 64, start) * Pow2(AfterUnit(t, u).k) + AfterUnit(t, u).v
            == (start * Pow2(t.k) + t.v) * 65536 + u
  {
    SmallPowers();
    if t.k == 0 {
      ValueTwo(u / 1024, u / 16 % 64, 64, start);
      Regroup0(start, u);
    } else if t.k == 4 {
      ValueThree(t.v * 4 + u / 16384, u / 256 % 64, u / 4 % 64, 64, start);
      Regroup4(start, t.v, u);
    } else {
      ValueThree(t.v * 16 + u / 4096, u / 64 % 64, u % 64, 64, start);
      Regroup2(start, t.v, u);
    }
  }

  lemma Regroup0(start: nat, u: nat)
    ensures ((start * 64 + u / 1024) * 64 + u / 16 % 64) * 16 + u % 16 == start * 65536 + u
  {
    assert u / 16 == (u / 1024) * 64 + u / 16 % 64;
  }

  lemma Regroup4(start: nat, v: nat, u: nat)
    ensures (((start * 64 + (v * 4 + u / 16384)) * 64 + u / 256 % 64) * 64 + u / 4 % 64) * 4 + u % 4
            == (start * 16 + v) * 65536 + u
  {
    assert u / 256 == (u / 16384) * 64 + u / 256 % 64;
    assert u / 4 == (u / 256) * 64 + u / 4 % 64;
  }

  lemma Regroup2(start: nat, v: nat, u: nat)
    ensures ((start * 64 + (v * 16 + u / 4096)) * 64 + u / 64 % 64) * 64 + u % 64 == (start * 4 + v) * 65536 + u
  {
    assert u / 64 == (u / 4096) * 64 + u / 64 % 64;
  }

  lemma SmallPowers()
    ensures Pow2(0) == 1 && Pow2(1) == 2 && Pow2(2) == 4 && Pow2(4) == 16 && Pow2(6) == 64 && Pow2(8) == 256
    ensures Pow2(10) == 1024 && Pow2(12) == 4096 && Pow2(14) == 16384
  {
    assert Pow2(3) == 8 && Pow2(5) == 32 && Pow2(7) == 128 && Pow2(9) == 512 && Pow2(11) == 2048 && Pow2(13) == 8192;
  }

  lemma LastValue(t: Tail, start: nat)
    requires IsTail(t)
    ensures Value(LastDigit(t), 64, start) == (start * Pow2(t.k) + t.v) * Pow2(Padding(t, 0))
  {
    SmallPowers();
    if t.k == 2 {
      ValueOne(t.v * 16, 64, start);
    } else if t.k == 4 {
      ValueOne(t.v * 4, 64, start);
    }
  }

  /**
   A run is the base64 form of its units: read in base 64 its digits denote the number that
   the units denote in base 65536, shifted left by the padding.
   */
  lemma {:induction false} RunValue(t: Tail, units: seq<nat>, start: nat)
    requires IsTail(t) && AreUnits(units)
    ensures Value(RunDigits(t, units), 64, start)
            == Value(units, 65536, start * Pow2(t.k) + t.v) * Pow2(Padding(t, |units|))
    decreases |units|
  {
    if units == [] {
      LastValue(t, start);
    } else {
      var u, t' := units[0], AfterUnit(t, units[0]);
      var start' := Value(UnitDigits(t, u), 64, start);
      ValueConcat(UnitDigits(t, u), RunDigits(t', units[1..]), 64, start);
      UnitValue(t, u, start);
      ValuePositive(UnitDigits(t, u), start);
      RunValue(t', units[1..], start');
      PaddingAfter(t, u, |units| - 1);
    }
  }

  lemma {:induction false} ValuePositive(digits: seq<int>, start: nat)
    requires forall i :: 0 <= i < |digits| ==> 0 <= digits[i]
    ensures Value(digits, 64, start) >= 0
    decreases |digits|
  {
    if digits != [] {
      ValuePositive(digits[1..], start * 64 + digits[0]);
    }
  }

  lemma PaddingAfter(t: Tail, u: nat, n: nat)
    requires IsTail(t) && u < 65536
    ensures Padding(t, n + 1) == Padding(AfterUnit(t, u), n)
  {
    var t' := AfterUnit(t, u);
    assert Tail(0, (t.k + 16) % 6).k == t'.k;
    assert n > 0 ==> Tail(0, (t'.k + 16) % 6) == Tail(0, (Tail(0, t'.k).k + 16) % 6);
  }

  /** A run has as many digits as its bits need, and no more. */
  lemma {:induction false} RunLength(t: Tail, units: seq<nat>)
    requires IsTail(t) && AreUnits(units)
    ensures 6 * |RunDigits(t, units)| == t.k + 16 * |units| + Padding(t, |units|)
    ensures Padding(t, |units|) < 6
    decreases |units|
  {
    if units != [] {
      RunLength(AfterUnit(t, units[0]), units[1..]);
      PaddingAfter(t, units[0], |units| - 1);
    }
  }

  // -------------------------------------------------------------------------
  // The text that a string of code points is to be encoded as

  /** What the encoder's mask for the first byte of a long form leaves of a code point. */
  function Kept(cp: nat): (r: nat)
    requires cp < 0x110000
    ensures r < 0x100000
  {
    if cp < 0x100000 then cp else cp - 0x100000
  }

  /** The UTF-16 units of a code point, or, unless it is taken in full, of what the encoder keeps of it. */
  function UnitsOf(cp: nat, full: bool): (r: seq<nat>)
    requires cp < 0x110000
    ensures AreUnits(r)
  {
    var c := if full then cp else Kept(cp);
    if c < UTF16BASE then [c]
    else [(c - UTF16BASE) / 1024 + UTF16HIGHSTART, (c - UTF16BASE) % 1024 + UTF16LOSTART]
  }

  /** The UTF-16 units of the code points up to the next printable character, and what follows them. */
  function RunUnits(cps: seq<nat>, full: bool): (r: seq<nat>)
    requires CodePoints(cps, 0x110000)
    ensures AreUnits(r)
  {
    if cps == [] || Printable(cps[0]) then [] else UnitsOf(cps[0], full) + RunUnits(cps[1..], full)
  }

  function AfterRun(cps: seq<nat>): (r: seq<nat>)
    requires CodePoints(cps, 0x110000)
    ensures CodePoints(r, 0x110000) && |r| <= |cps|
    ensures r != [] ==> Printable(r[0])
    ensures cps != [] && !Printable(cps[0]) ==> |r| < |cps|
  {
    if cps == [] || Printable(cps[0]) then cps else AfterRun(cps[1..])
  }

  /**
   Modified UTF-7: printable characters as they are, everything else in whole runs. With
   `full` off, the runs hold what the encoder keeps of each code point.
   */
  function Reference(cps: seq<nat>, full: bool): seq<Byte>
    requires CodePoints(cps, 0x110000)
    decreases |cps|
  {
    if cps == [] then []
    else if cps[0] == AMP then [AMP, DASH] + Reference(cps[1..], full)
    else if Printable(cps[0]) then [cps[0]] + Reference(cps[1..], full)
    else [AMP] + Chars(RunDigits(Tail(0, 0), RunUnits(cps, full))) + [DASH] + Reference(AfterRun(cps), full)
  }

  /** The rest of the text when the encoder is inside a run. */
  function Remaining(t: Tail, cps: seq<nat>, full: bool): seq<Byte>
    requires IsTail(t) && CodePoints(cps, 0x110000)
  {
    Chars(RunDigits(t, RunUnits(cps, full))) + [DASH] + Reference(AfterRun(cps), full)
  }

  // -------------------------------------------------------------------------
  // The encoder follows it

  lemma CharsConcat(a: seq<int>, b: seq<int>)
    requires forall i :: 0 <= i < |a| ==> 0 <= a[i] < 64
    requires forall i :: 0 <= i < |b| ==> 0 <= b[i] < 64
    ensures Chars(a + b) == Chars(a) + Chars(b)
  {
  }

  function TailOf(e: Encoder): Tail {
    Tail(e.bitbuf % Pow2(e.bitstogo), e.bitstogo)
  }

  /** Between code points: nothing half read, and no bits held outside a run. */
  ghost predicate AtBoundary(e: Encoder) {
    e.utf8total == 0 && (e.bitstogo == 0 || (e.utf7mode && (e.bitstogo == 2 || e.bitstogo == 4)))
  }

  lemma TailIsTail(e: Encoder)
    requires e.bitstogo == 0 || e.bitstogo == 2 || e.bitstogo == 4
    ensures IsTail(TailOf(e))
  {
    SmallPowers();
  }

  /** Shifting a word left by 16 bits keeps its low half. */
  lemma ShiftIn(bitbuf: nat, u: nat)
    requires u < 65536
    ensures (bitbuf * 65536 + u) % WORD == (bitbuf % 65536) * 65536 + u
  {
    var h, l := bitbuf / 65536, bitbuf % 65536;
    assert bitbuf * 65536 + u == h * WORD + (l * 65536 + u);
  }

  lemma SpewIs(b: nat, bits: nat)
    requires bits == 16 || bits == 18 || bits == 20
    ensures Spew(b, bits) ==
            if bits == 16 then [b / 1024 % 64, b / 16 % 64]
            else if bits == 18 then [b / 4096 % 64, b / 64 % 64, b % 64]
            else [b / 16384 % 64, b / 256 % 64, b / 4 % 64]
  {
    SmallPowers();
    assert Spew(b, bits) == [b / Pow2(bits - 6) % 64] + Spew(b, bits - 6);
    assert Spew(b, bits - 6) == [b / Pow2(bits - 12) % 64] + Spew(b, bits - 12);
    if bits > 16 {
      assert Spew(b, bits - 12) == [b / Pow2(bits - 18) % 64] + Spew(b, bits - 18);
    }
  }

  lemma SpewUnit(e: Encoder, u: nat)
    requires u < 65536 && (e.bitstogo == 0 || e.bitstogo == 2 || e.bitstogo == 4)
    ensures IsTail(TailOf(e))
    ensures Spew((e.bitbuf * 65536 + u) % WORD, e.bitstogo + 16) == UnitDigits(TailOf(e), u)
  {
    TailIsTail(e);
    ShiftIn(e.bitbuf, u);
    LowBits(e.bitbuf);
    SpewDigits(e.bitbuf % 65536, e.bitstogo, u);
    SmallPowers();
  }

  lemma LowBits(b: nat)
    ensures b % 65536 % 16 == b % 16 && b % 65536 % 4 == b % 4
  {
    var h, l := b / 65536, b % 65536;
    assert b == 16 * (4096 * h) + l && b == 4 * (16384 * h) + l;
    Mod16(4096 * h, l);
    Mod4(16384 * h, l);
  }

  lemma Mod16(h: nat, x: nat)
    ensures (16 * h + x) % 16 == x % 16
  {
  }

  lemma Mod4(h: nat, x: nat)
    ensures (4 * h + x) % 4 == x % 4
  {
  }

  lemma SpewDigits(l: nat, k: nat, u: nat)
    requires u < 65536 && (k == 0 || k == 2 || k == 4)
    ensures Spew(l * 65536 + u, k + 16)
            == UnitDigits(if k == 0 then Tail(0, 0) else if k == 2 then Tail(l % 4, 2) else Tail(l % 16, 4), u)
  {
    SpewIs(l * 65536 + u, k + 16);
    if k == 0 {
      Bits0(l, u);
    } else if k == 4 {
      Bits4(l, u);
    } else {
      Bits2(l, u);
    }
  }

  lemma TailAfter(e: Encoder, u: nat)
    requires u < 65536 && (e.bitstogo == 0 || e.bitstogo == 2 || e.bitstogo == 4)
    ensures IsTail(TailOf(e)) && TailOf(PutUnit(e, u)) == AfterUnit(TailOf(e), u)
  {
    TailIsTail(e);
    SmallPowers();
    ShiftIn(e.bitbuf, u);
    LowOfShift(e.bitbuf % 65536, u);
  }

  lemma LowOfShift(l: nat, u: nat)
    ensures (l * 65536 + u) % 16 == u % 16 && (l * 65536 + u) % 4 == u % 4
  {
    Mod16(l * 4096, u);
    Mod4(l * 16384, u);
  }

  lemma Bits0(l: nat, u: nat)
    requires u < 65536
    ensures (l * 65536 + u) / 1024 % 64 == u / 1024 && (l * 65536 + u) / 16 % 64 == u / 16 % 64
  {
    DropHigh(l * 64, 1024, u);
    DropHigh(l * 4096, 16, u);
    Mod64(l, u / 1024);
    Mod64(l * 64, u / 16);
  }

  /** Dividing by a power of two that the high part is a multiple of. */
  lemma DropHigh(h: nat, d: nat, u: nat)
    requires d == 4 || d == 16 || d == 64 || d == 256 || d == 1024 || d == 4096 || d == 16384
    ensures (h * d + u) / d == h + u / d
  {
    if d == 4 {
      assert (h * 4 + u) / 4 == h + u / 4;
    } else if d == 16 {
      assert (h * 16 + u) / 16 == h + u / 16;
    } else if d == 64 {
      assert (h * 64 + u) / 64 == h + u / 64;
    } else if d == 256 {
      assert (h * 256 + u) / 256 == h + u / 256;
    } else if d == 1024 {
      assert (h * 1024 + u) / 1024 == h + u / 1024;
    } else if d == 4096 {
      assert (h * 4096 + u) / 4096 == h + u / 4096;
    } else {
      assert (h * 16384 + u) / 16384 == h + u / 16384;
    }
  }

  lemma Mod64(h: nat, x: nat)
    ensures (h * 64 + x) % 64 == x % 64
  {
  }

  lemma Bits4(l: nat, u: nat)
    requires u < 65536
    ensures (l * 65536 + u) / 16384 % 64 == (l % 16) * 4 + u / 16384
    ensures (l * 65536 + u) / 256 % 64 == u / 256 % 64 && (l * 65536 + u) / 4 % 64 == u / 4 % 64
  {
    DropHigh(l * 4, 16384, u);
    DropHigh(l * 256, 256, u);
    DropHigh(l * 16384, 4, u);
    Mod64(l / 16, (l % 16) * 4 + u / 16384);
    Mod64(l * 4, u / 256);
    Mod64(l * 256, u / 4);
  }

  lemma Bits2(l: nat, u: nat)
    requires u < 65536
    ensures (l * 65536 + u) / 4096 % 64 == (l % 4) * 16 + u / 4096
    ensures (l * 65536 + u) / 64 % 64 == u / 64 % 64 && (l * 65536 + u) % 64 == u % 64
  {
    DropHigh(l * 16, 4096, u);
    DropHigh(l * 1024, 64, u);
    Mod64(l / 4, (l % 4) * 16 + u / 4096);
    Mod64(l * 16, u / 64);
    Mod64(l * 1024, u);
  }

  // -------------------------------------------------------------------------
  // One code point

  function CpDigits(t: Tail, cp: nat, full: bool): (r: seq<int>)
    requires IsTail(t) && cp < 0x110000
    ensures forall i :: 0 <= i < |r| ==> 0 <= r[i] < 64
  {
    var units := UnitsOf(cp, full);
    if |units| == 1 then UnitDigits(t, units[0])
    else UnitDigits(t, units[0]) + UnitDigits(AfterUnit(t, units[0]), units[1])
  }

  function CpAfter(t: Tail, cp: nat, full: bool): (r: Tail)
    requires IsTail(t) && cp < 0x110000
    ensures IsTail(r)
  {
    var units := UnitsOf(cp, full);
    if |units| == 1 then AfterUnit(t, units[0]) else AfterUnit(AfterUnit(t, units[0]), units[1])
  }

  lemma {:induction false} RunDigitsOne(t: Tail, u: nat, more: seq<nat>)
    requires IsTail(t) && u < 65536 && AreUnits(more)
    ensures RunDigits(t, [u] + more) == UnitDigits(t, u) + RunDigits(AfterUnit(t, u), more)
  {
    assert ([u] + more)[1..] == more;
  }

  lemma {:induction false} RunDigitsCp(t: Tail, cp: nat, more: seq<nat>, full: bool)
    requires IsTail(t) && cp < 0x110000 && AreUnits(more)
    ensures RunDigits(t, UnitsOf(cp, full) + more) == CpDigits(t, cp, full) + RunDigits(CpAfter(t, cp, full), more)
  {
    var units := UnitsOf(cp, full);
    if |units| == 1 {
      RunDigitsOne(t, units[0], more);
    } else {
      var t' := AfterUnit(t, units[0]);
      assert units + more == [units[0]] + ([units[1]] + more);
      RunDigitsOne(t, units[0], [units[1]] + more);
      RunDigitsOne(t', units[1], more);
      Assoc(UnitDigits(t, units[0]), UnitDigits(t', units[1]), RunDigits(AfterUnit(t', units[1]), more));
    }
  }

  predicate Aligned(e: Encoder) {
    e.bitstogo == 0 || e.bitstogo == 2 || e.bitstogo == 4
  }

  lemma PutUnitFollows(e: Encoder, u: nat)
    requires Aligned(e) && u < 65536
    ensures
      var r := PutUnit(e, u);
      && IsTail(TailOf(e)) && Aligned(r)
      && r == e.(bitbuf := r.bitbuf, bitstogo := r.bitstogo, out := e.out + Chars(UnitDigits(TailOf(e), u)))
      && TailOf(r) == AfterUnit(TailOf(e), u)
  {
    SpewUnit(e, u);
    TailAfter(e, u);
  }

  ghost predicate Put(e: Encoder, r: Encoder, digits: seq<int>, t: Tail)
    requires forall i :: 0 <= i < |digits| ==> 0 <= digits[i] < 64
  {
    Aligned(r) && r.utf8total == 0 && r.utf7mode == e.utf7mode && r.out == e.out + Chars(digits) && TailOf(r) == t
  }

  lemma PutTwoUnits(e: Encoder, u: nat, w: nat)
    requires Aligned(e) && e.utf8total == 0 && u < 65536 && w < 65536
    ensures IsTail(TailOf(e))
    ensures
      var t := TailOf(e);
      PutUnit(e, u).bitstogo <= 5 &&
      Put(e, PutUnit(PutUnit(e, u), w),
          UnitDigits(t, u) + UnitDigits(AfterUnit(t, u), w), AfterUnit(AfterUnit(t, u), w))
  {
    var e', t := PutUnit(e, u), TailOf(e);
    PutUnitFollows(e, u);
    PutUnitFollows(e', w);
    CharsConcat(UnitDigits(t, u), UnitDigits(AfterUnit(t, u), w));
    assert e.out + Chars(UnitDigits(t, u)) + Chars(UnitDigits(AfterUnit(t, u), w))
        == e.out + (Chars(UnitDigits(t, u)) + Chars(UnitDigits(AfterUnit(t, u), w)));
  }

  lemma PutCodePointFollows(e: Encoder, cp: nat)
    requires Aligned(e) && cp < 0x110000
    ensures IsTail(TailOf(e))
    ensures Put(e, PutCodePoint(e, Kept(cp)), CpDigits(TailOf(e), cp, false), CpAfter(TailOf(e), cp, false))
  {
    var e' := e.(utf8total := 0);
    TailIsTail(e);
    assert TailOf(e') == TailOf(e);
    if Kept(cp) < UTF16BASE {
      PutUnitFollows(e', Kept(cp));
    } else {
      PutTwoUnits(e', UnitsOf(cp, false)[0], UnitsOf(cp, false)[1]);
    }
  }

  /** The encoder inside a run, entered if necessary. */
  function Entered(e: Encoder): Encoder {
    if e.utf7mode then e else e.(out := e.out + [AMP], utf7mode := true)
  }

  lemma EncodeTwo(e: Encoder, a: Byte, b: Byte)
    requires e.bitstogo <= 5
    ensures EncodeBytes(e, [a, b]) == EncodeByte(EncodeByte(e, a), b)
  {
    assert [a, b][1..] == [b];
    EncodeOne(EncodeByte(e, a), b);
  }

  lemma EncodeOne(e: Encoder, a: Byte)
    requires e.bitstogo <= 5
    ensures EncodeBytes(e, [a]) == EncodeByte(e, a)
  {
    assert [a][1..] == [];
  }

  lemma EncodeThree(e: Encoder, a: Byte, b: Byte, c: Byte)
    requires e.bitstogo <= 5
    ensures EncodeBytes(e, [a, b, c]) == EncodeByte(EncodeByte(EncodeByte(e, a), b), c)
  {
    assert [a, b, c][1..] == [b, c];
    EncodeTwo(EncodeByte(e, a), b, c);
  }

  lemma Lead(e: Encoder, c: Byte)
    requires AtBoundary(e) && 0x80 <= c
    ensures EncodeByte(e, c) ==
            if c < 0xE0 then Entered(e).(utf8pos := 1, utf8total := 2, ucs4 := c % 32)
            else if c < 0xF0 then Entered(e).(utf8pos := 1, utf8total := 3, ucs4 := c % 16)
            else Entered(e).(utf8pos := 1, utf8total := 4, ucs4 := c % 4)
  {
  }

  lemma Follow(e: Encoder, c: Byte)
    requires e.bitstogo <= 5 && e.utf7mode && e.utf8total != 0 && 0x80 <= c
    ensures
      var more := e.(ucs4 := e.ucs4 * 64 + c % 64, utf8pos := e.utf8pos + 1);
      EncodeByte(e, c) == if more.utf8pos < more.utf8total then more else PutCodePoint(more, more.ucs4)
  {
  }

  lemma TwoBytes(e: Encoder, a: Byte, b: Byte, cp: nat)
    requires AtBoundary(e) && 0xC0 <= a < 0xE0 && 0x80 <= b && cp == a % 32 * 64 + b % 64
    ensures EncodeBytes(e, [a, b]) == PutCodePoint(Entered(e).(utf8pos := 2, utf8total := 2, ucs4 := cp), cp)
  {
    EncodeTwo(e, a, b);
    Lead(e, a);
    Follow(Entered(e).(utf8pos := 1, utf8total := 2, ucs4 := a % 32), b);
  }

  lemma ThreeBytes(e: Encoder, a: Byte, b: Byte, c: Byte, cp: nat)
    requires AtBoundary(e) && 0xE0 <= a < 0xF0 && 0x80 <= b && 0x80 <= c && cp == (a % 16 * 64 + b % 64) * 64 + c % 64
    ensures EncodeBytes(e, [a, b, c]) == PutCodePoint(Entered(e).(utf8pos := 3, utf8total := 3, ucs4 := cp), cp)
  {
    EncodeThree(e, a, b, c);
    Lead(e, a);
    var run := Entered(e).(utf8total := 3);
    Follow(run.(utf8pos := 1, ucs4 := a % 16), b);
    Follow(run.(utf8pos := 2, ucs4 := a % 16 * 64 + b % 64), c);
  }

  lemma ThreeMore(r: Encoder, b: Byte, c: Byte, d: Byte, cp: nat)
    requires r.bitstogo <= 5 && r.utf7mode && r.utf8pos == 1 && r.utf8total == 4 && 0x80 <= b && 0x80 <= c && 0x80 <= d
    requires cp == ((r.ucs4 * 64 + b % 64) * 64 + c % 64) * 64 + d % 64
    ensures EncodeBytes(r, [b, c, d]) == PutCodePoint(r.(utf8pos := 4, ucs4 := cp), cp)
  {
    EncodeThree(r, b, c, d);
    Follow(r, b);
    Follow(r.(utf8pos := 2, ucs4 := r.ucs4 * 64 + b % 64), c);
    Follow(r.(utf8pos := 3, ucs4 := (r.ucs4 * 64 + b % 64) * 64 + c % 64), d);
  }

  lemma FourBytes(e: Encoder, a: Byte, b: Byte, c: Byte, d: Byte, cp: nat)
    requires AtBoundary(e) && 0xF0 <= a && 0x80 <= b && 0x80 <= c && 0x80 <= d
    requires cp == ((a % 4 * 64 + b % 64) * 64 + c % 64) * 64 + d % 64
    ensures EncodeBytes(e, [a, b, c, d]) == PutCodePoint(Entered(e).(utf8pos := 4, utf8total := 4, ucs4 := cp), cp)
  {
    assert [a, b, c, d][1..] == [b, c, d];
    Lead(e, a);
    ThreeMore(Entered(e).(utf8pos := 1, utf8total := 4, ucs4 := a % 4), b, c, d, cp);
  }

  lemma TwoParts(cp: nat)
    requires cp < 0x800
    ensures (0xC0 + cp / 64) % 32 * 64 + (0x80 + cp % 64) % 64 == cp
  {
  }

  lemma ThreeParts(cp: nat)
    requires cp < 0x10000
    ensures ((0xE0 + cp / 4096) % 16 * 64 + (0x80 + cp / 64 % 64) % 64) * 64 + (0x80 + cp % 64) % 64 == cp
  {
    assert (0xE0 + cp / 4096) % 16 == cp / 4096;
    assert (0x80 + cp / 64 % 64) % 64 == cp / 64 % 64;
    assert cp / 64 == cp / 4096 * 64 + cp / 64 % 64;
  }

  /** Two bits of the first byte are enough up to U+FFFFF, and lose the top bit beyond. */
  lemma FourParts(cp: nat)
    requires 0x10000 <= cp < 0x110000
    ensures (((0xF0 + cp / 262144) % 4 * 64 + (0x80 + cp / 4096 % 64) % 64) * 64 + (0x80 + cp / 64 % 64) % 64) * 64
            + (0x80 + cp % 64) % 64 == Kept(cp)
  {
    TopBits(cp);
    FourDigits(cp);
    assert (0x80 + cp / 4096 % 64) % 64 == cp / 4096 % 64;
    assert (0x80 + cp / 64 % 64) % 64 == cp / 64 % 64;
    assert (0x80 + cp % 64) % 64 == cp % 64;
  }

  lemma TopBits(cp: nat)
    requires cp < 0x110000
    ensures (0xF0 + cp / 262144) % 4 == if cp < 0x100000 then cp / 262144 else cp / 262144 - 4
  {
  }

  lemma DivDiv(x: nat)
    ensures x / 64 / 64 == x / 4096 && x / 4096 / 64 == x / 262144
  {
  }

  lemma Split64(x: nat)
    ensures x / 64 * 64 + x % 64 == x
  {
  }

  lemma FourDigits(cp: nat)
    ensures ((cp / 262144 * 64 + cp / 4096 % 64) * 64 + cp / 64 % 64) * 64 + cp % 64 == cp
  {
    DivDiv(cp);
    Split64(cp / 4096);
    Split64(cp / 64);
    Split64(cp);
  }

  /** Everything that matters about the encoder after a code point outside the printable range. */
  ghost predicate Follows(e: Encoder, r: Encoder, cp: nat)
    requires cp < 0x110000
  {
    && IsTail(TailOf(e)) && AtBoundary(r) && r.utf7mode
    && r.out == Entered(e).out + Chars(CpDigits(TailOf(e), cp, false))
    && TailOf(r) == CpAfter(TailOf(e), cp, false)
  }

  lemma PutFollows(e: Encoder, x: Encoder, cp: nat)
    requires AtBoundary(e) && cp < 0x110000
    requires x == Entered(e).(utf8pos := x.utf8pos, utf8total := x.utf8total, ucs4 := x.ucs4)
    ensures Follows(e, PutCodePoint(x, Kept(cp)), cp)
  {
    PutCodePointFollows(x, cp);
  }

  lemma EncodeCodePoint(e: Encoder, cp: nat)
    requires AtBoundary(e) && cp < 0x110000 && !Printable(cp)
    ensures Follows(e, EncodeBytes(e, Utf8(cp)), cp)
  {
    if cp < 0x80 {
      EncodeOne(e, cp);
      PutFollows(e, Entered(e), cp);
    } else if cp < 0x800 {
      TwoParts(cp);
      TwoBytes(e, 0xC0 + cp / 64, 0x80 + cp % 64, cp);
      PutFollows(e, Entered(e).(utf8pos := 2, utf8total := 2, ucs4 := cp), cp);
    } else {
      EncodeLong(e, cp);
    }
  }

  lemma EncodeLong(e: Encoder, cp: nat)
    requires AtBoundary(e) && 0x800 <= cp < 0x110000
    ensures Follows(e, EncodeBytes(e, Utf8(cp)), cp)
  {
    if cp < 0x10000 {
      EncodeThreeBytes(e, cp);
    } else {
      EncodeFourBytes(e, cp);
    }
  }

  lemma {:induction false} EncodeThreeBytes(e: Encoder, cp: nat)
    requires AtBoundary(e) && 0x800 <= cp < 0x10000
    ensures Follows(e, EncodeBytes(e, Utf8(cp)), cp)
  {
    ThreeParts(cp);
    ThreeBytes(e, 0xE0 + cp / 4096, 0x80 + cp / 64 % 64, 0x80 + cp % 64, cp);
    PutFollows(e, Entered(e).(utf8pos := 3, utf8total := 3, ucs4 := cp), cp);
  }

  lemma {:induction false} EncodeFourBytes(e: Encoder, cp: nat)
    requires AtBoundary(e) && 0x10000 <= cp < 0x110000
    ensures Follows(e, EncodeBytes(e, Utf8(cp)), cp)
  {
    FourParts(cp);
    EncodeFour(e, 0xF0 + cp / 262144, 0x80 + cp / 4096 % 64, 0x80 + cp / 64 % 64, 0x80 + cp % 64, cp);
  }

  lemma {:induction false} EncodeFour(e: Encoder, a: Byte, b: Byte, c: Byte, d: Byte, cp: nat)
    requires AtBoundary(e) && 0xF0 <= a && 0x80 <= b && 0x80 <= c && 0x80 <= d && cp < 0x110000
    requires Kept(cp) == ((a % 4 * 64 + b % 64) * 64 + c % 64) * 64 + d % 64
    ensures Follows(e, EncodeBytes(e, [a, b, c, d]), cp)
  {
    FourBytes(e, a, b, c, d, Kept(cp));
    PutFollows(e, Entered(e).(utf8pos := 4, utf8total := 4, ucs4 := Kept(cp)), cp);
  }

  // -------------------------------------------------------------------------
  // Whole strings

  lemma {:induction false} EncodeBytesConcat(e: Encoder, a: seq<Byte>, b: seq<Byte>)
    requires e.bitstogo <= 5
    ensures EncodeBytes(e, a + b) == EncodeBytes(EncodeBytes(e, a), b)
    decreases |a|
  {
    if a == [] {
      assert a + b == b;
    } else {
      assert (a + b)[1..] == a[1..] + b;
      EncodeBytesConcat(EncodeByte(e, a[0]), a[1..], b);
    }
  }

  /** What is still to be written for `cps` from this state of the encoder. */
  function ToCome(e: Encoder, cps: seq<nat>): seq<Byte>
    requires CodePoints(cps, 0x110000) && Aligned(e)
  {
    TailIsTail(e);
    if e.utf7mode then Remaining(TailOf(e), cps, false) else Reference(cps, false)
  }

  lemma FlushedIs(e: Encoder)
    requires Aligned(e)
    ensures IsTail(TailOf(e)) && Flushed(e) == Chars(LastDigit(TailOf(e)))
  {
    TailIsTail(e);
    SmallPowers();
    FlushBits(e.bitbuf);
    assert e.bitstogo == 2 ==> Flushed(e) == [Char64(e.bitbuf % 4 * 16)];
    assert e.bitstogo == 4 ==> Flushed(e) == [Char64(e.bitbuf % 16 * 4)];
  }

  lemma FlushBits(b: nat)
    ensures b * 16 % 64 == b % 4 * 16 && b * 4 % 64 == b % 16 * 4
  {
    Mod64(b / 4, b % 4 * 16);
    Mod64(b / 16, b % 16 * 4);
  }

  lemma RemainingAtRunEnd(t: Tail, cps: seq<nat>, full: bool)
    requires IsTail(t) && CodePoints(cps, 0x110000) && (cps == [] || Printable(cps[0]))
    ensures Remaining(t, cps, full) == (Chars(LastDigit(t)) + [DASH]) + Reference(cps, full)
  {
  }

  lemma ToComeAtRunEnd(e: Encoder, cps: seq<nat>)
    requires CodePoints(cps, 0x110000) && AtBoundary(e) && (cps == [] || Printable(cps[0]))
    ensures e.out + ToCome(e, cps) == Finished(e) + Reference(cps, false)
  {
    FlushedIs(e);
    if e.utf7mode {
      RemainingAtRunEnd(TailOf(e), cps, false);
      Assoc(e.out, Flushed(e) + [DASH], Reference(cps, false));
      Assoc(e.out, Flushed(e), [DASH]);
    }
  }

  /** The digits of the next code point come first. */
  lemma RemainingSplit(t: Tail, cps: seq<nat>, full: bool)
    requires IsTail(t) && CodePoints(cps, 0x110000) && cps != [] && !Printable(cps[0])
    ensures Remaining(t, cps, full)
            == Chars(CpDigits(t, cps[0], full)) + Remaining(CpAfter(t, cps[0], full), cps[1..], full)
  {
    var now, later := CpDigits(t, cps[0], full), RunDigits(CpAfter(t, cps[0], full), RunUnits(cps[1..], full));
    RunDigitsCp(t, cps[0], RunUnits(cps[1..], full), full);
    CharsConcat(now, later);
    Assoc(Chars(now), Chars(later), [DASH]);
    Assoc(Chars(now), Chars(later) + [DASH], Reference(AfterRun(cps[1..]), full));
  }

  lemma ReferenceRun(cps: seq<nat>, full: bool)
    requires CodePoints(cps, 0x110000) && cps != [] && !Printable(cps[0])
    ensures Reference(cps, full) == [AMP] + Remaining(Tail(0, 0), cps, full)
  {
    var digits, rest := Chars(RunDigits(Tail(0, 0), RunUnits(cps, full))), Reference(AfterRun(cps), full);
    assert [AMP] + digits + [DASH] + rest == [AMP] + (digits + [DASH] + rest);
  }

  /** A code point outside the printable range moves its digits from what is to come into the output. */
  lemma ToComeInRun(e: Encoder, r: Encoder, cps: seq<nat>)
    requires CodePoints(cps, 0x110000) && cps != [] && !Printable(cps[0]) && AtBoundary(e) && Follows(e, r, cps[0])
    ensures r.out + ToCome(r, cps[1..]) == e.out + ToCome(e, cps)
  {
    var t, rest := TailOf(e), Remaining(TailOf(r), cps[1..], false);
    RemainingSplit(t, cps, false);
    Assoc(Entered(e).out, Chars(CpDigits(t, cps[0], false)), rest);
    if !e.utf7mode {
      SmallPowers();
      ReferenceRun(cps, false);
      Assoc(e.out, [AMP], Chars(CpDigits(t, cps[0], false)) + rest);
    }
  }

  function Literal(c: nat): seq<Byte>
    requires Printable(c)
  {
    if c == AMP then [AMP, DASH] else [c]
  }

  lemma EncodeLiteral(e: Encoder, c: Byte)
    requires AtBoundary(e) && Printable(c)
    ensures
      var r := EncodeByte(e, c);
      AtBoundary(r) && !r.utf7mode && r.out == Finished(e) + Literal(c)
  {
  }

  lemma EncodePrintable(e: Encoder, cps: seq<nat>)
    requires CodePoints(cps, 0x110000) && cps != [] && Printable(cps[0]) && AtBoundary(e)
    ensures
      var r := EncodeByte(e, cps[0]);
      AtBoundary(r) && !r.utf7mode && r.out + Reference(cps[1..], false) == e.out + ToCome(e, cps)
  {
    ToComeAtRunEnd(e, cps);
    EncodeLiteral(e, cps[0]);
    assert Reference(cps, false) == Literal(cps[0]) + Reference(cps[1..], false);
    Assoc(Finished(e), Literal(cps[0]), Reference(cps[1..], false));
  }

  lemma {:induction false} EncodeAll(e: Encoder, cps: seq<nat>)
    requires CodePoints(cps, 0x110000) && AtBoundary(e)
    ensures Finished(EncodeBytes(e, Utf8All(cps))) == e.out + ToCome(e, cps)
    decreases |cps|
  {
    if cps == [] {
      ToComeAtRunEnd(e, cps);
      assert Finished(e) + [] == Finished(e);
    } else {
      var r := EncodeBytes(e, Utf8(cps[0]));
      EncodeBytesConcat(e, Utf8(cps[0]), Utf8All(cps[1..]));
      if Printable(cps[0]) {
        EncodeOne(e, cps[0]);
        EncodePrintable(e, cps);
      } else {
        EncodeCodePoint(e, cps[0]);
        ToComeInRun(e, r, cps);
      }
      EncodeAll(r, cps[1..]);
    }
  }

  /** The code points before U+0000, which ends the text. */
  function UpToNul(cps: seq<nat>): (r: seq<nat>)
    ensures r <= cps && 0 !in r && (r == cps || cps[|r|] == 0)
  {
    if cps == [] || cps[0] == 0 then [] else [cps[0]] + UpToNul(cps[1..])
  }

  lemma Utf8HasNoNul(cp: nat)
    requires 0 < cp < 0x110000
    ensures NUL !in Utf8(cp)
  {
  }

  lemma {:induction false} TextUpToNul(cps: seq<nat>)
    requires CodePoints(cps, 0x110000)
    ensures CString(Utf8All(cps)) == Utf8All(UpToNul(cps))
    decreases |cps|
  {
    if cps != [] {
      if cps[0] == 0 {
        assert Utf8All(cps)[0] == NUL;
      } else {
        Utf8HasNoNul(cps[0]);
        CStringConcat(Utf8(cps[0]), Utf8All(cps[1..]));
        TextUpToNul(cps[1..]);
        assert UpToNul(cps)[1..] == UpToNul(cps[1..]);
      }
    }
  }

  /**
   On every well-formed UTF-8 text the encoder writes modified UTF-7 of what it keeps of the
   code points before the first U+0000.
   */
  lemma {:induction false} EncodeIsKept(cps: seq<nat>)
    requires CodePoints(cps, 0x110000)
    ensures Encode(Utf8All(cps)) == Reference(UpToNul(cps), false)
  {
    TextUpToNul(cps);
    EncodeAll(ENCODER, UpToNul(cps));
    PlusEmpty(Reference(UpToNul(cps), false));
  }

  // -------------------------------------------------------------------------
  // For which texts that is modified UTF-7

  lemma {:induction false} SameUnits(cps: seq<nat>)
    requires CodePoints(cps, 0x100000)
    ensures RunUnits(cps, false) == RunUnits(cps, true)
    decreases |cps|
  {
    if cps != [] {
      SameUnits(cps[1..]);
    }
  }

  lemma {:induction false} AfterRunBelow(cps: seq<nat>)
    requires CodePoints(cps, 0x100000)
    ensures CodePoints(AfterRun(cps), 0x100000)
    decreases |cps|
  {
    if cps != [] && !Printable(cps[0]) {
      AfterRunBelow(cps[1..]);
    }
  }

  lemma {:induction false} SameReference(cps: seq<nat>)
    requires CodePoints(cps, 0x100000)
    ensures Reference(cps, false) == Reference(cps, true)
    decreases |cps|
  {
    if cps != [] {
      if Printable(cps[0]) {
        SameReference(cps[1..]);
      } else {
        SameUnits(cps);
        AfterRunBelow(cps);
        SameReference(AfterRun(cps));
      }
    }
  }

  /** A code point of plane 16 has two units and sends one. */
  lemma {:induction false} FewerUnits(cps: seq<nat>)
    requires CodePoints(cps, 0x110000)
    ensures |RunUnits(cps, false)| <= |RunUnits(cps, true)|
    ensures |RunUnits(cps, false)| == |RunUnits(cps, true)| && CodePoints(AfterRun(cps), 0x100000) ==>
              CodePoints(cps, 0x100000)
    decreases |cps|
  {
    if cps != [] && !Printable(cps[0]) {
      FewerUnits(cps[1..]);
      assert cps == [cps[0]] + cps[1..];
    }
  }

  /** Fewer units need fewer digits. */
  lemma FewerDigits(a: seq<nat>, b: seq<nat>)
    requires AreUnits(a) && AreUnits(b) && |a| <= |b|
    ensures |RunDigits(Tail(0, 0), a)| <= |RunDigits(Tail(0, 0), b)|
    ensures |RunDigits(Tail(0, 0), a)| == |RunDigits(Tail(0, 0), b)| ==> |a| == |b|
  {
    RunLength(Tail(0, 0), a);
    RunLength(Tail(0, 0), b);
  }

  lemma RunReferenceLength(cps: seq<nat>, full: bool)
    requires CodePoints(cps, 0x110000) && cps != [] && !Printable(cps[0])
    ensures |Reference(cps, full)| == 2 + |RunDigits(Tail(0, 0), RunUnits(cps, full))|
            + |Reference(AfterRun(cps), full)|
  {
  }

  /** What the encoder writes is never longer than modified UTF-7, and shorter if anything was lost. */
  lemma {:induction false} ShorterReference(cps: seq<nat>)
    requires CodePoints(cps, 0x110000)
    ensures |Reference(cps, false)| <= |Reference(cps, true)|
    ensures |Reference(cps, false)| == |Reference(cps, true)| ==> CodePoints(cps, 0x100000)
    decreases |cps|
  {
    if cps != [] {
      if Printable(cps[0]) {
        ShorterReference(cps[1..]);
        assert cps == [cps[0]] + cps[1..];
      } else {
        ShorterReference(AfterRun(cps));
        FewerUnits(cps);
        FewerDigits(RunUnits(cps, false), RunUnits(cps, true));
        RunReferenceLength(cps, false);
        RunReferenceLength(cps, true);
      }
    }
  }

  // Longer texts have longer encodings.

  lemma {:induction false} ReferenceNotEmpty(cps: seq<nat>)
    requires CodePoints(cps, 0x110000) && cps != []
    ensures Reference(cps, true) != []
  {
  }

  lemma {:induction false} RunUnitsNotEmpty(cps: seq<nat>)
    requires CodePoints(cps, 0x110000) && cps != [] && !Printable(cps[0])
    ensures RunUnits(cps, true) != []
  {
  }

  lemma {:induction false} AfterRunConcat(a: seq<nat>, b: seq<nat>)
    requires CodePoints(a, 0x110000) && CodePoints(b, 0x110000)
    ensures CodePoints(a + b, 0x110000)
    ensures AfterRun(a) != [] ==> AfterRun(a + b) == AfterRun(a) + b && RunUnits(a + b, true) == RunUnits(a, true)
    ensures AfterRun(a) == [] ==>
              AfterRun(a + b) == AfterRun(b) && RunUnits(a + b, true) == RunUnits(a, true) + RunUnits(b, true)
    decreases |a|
  {
    if a == [] {
      PlusEmpty(b);
      PlusEmpty(RunUnits(b, true));
    } else {
      assert (a + b)[1..] == a[1..] + b;
      if !Printable(a[0]) {
        AfterRunConcat(a[1..], b);
        Assoc(UnitsOf(a[0], true), RunUnits(a[1..], true), RunUnits(b, true));
      }
    }
  }

  /** The whole of `a` is one run, which goes on into b or is followed by a printable character. */
  lemma {:induction false} LongerRun(a: seq<nat>, b: seq<nat>)
    requires CodePoints(a, 0x110000) && CodePoints(b, 0x110000) && b != []
    requires a != [] && !Printable(a[0]) && AfterRun(a) == []
    ensures CodePoints(a + b, 0x110000) && |Reference(a, true)| < |Reference(a + b, true)|
  {
    AfterRunConcat(a, b);
    RunReferenceLength(a, true);
    RunReferenceLength(a + b, true);
    FewerDigits(RunUnits(a, true), RunUnits(a + b, true));
    if Printable(b[0]) {
      ReferenceNotEmpty(b);
    } else {
      RunUnitsNotEmpty(b);
    }
  }

  lemma {:induction false} LongerText(a: seq<nat>, b: seq<nat>)
    requires CodePoints(a, 0x110000) && CodePoints(b, 0x110000) && b != []
    ensures CodePoints(a + b, 0x110000) && |Reference(a, true)| < |Reference(a + b, true)|
    decreases |a|
  {
    if a == [] {
      PlusEmpty(b);
      ReferenceNotEmpty(b);
    } else if Printable(a[0]) {
      assert (a + b)[1..] == a[1..] + b;
      LongerText(a[1..], b);
    } else if AfterRun(a) == [] {
      LongerRun(a, b);
    } else {
      AfterRunConcat(a, b);
      LongerText(AfterRun(a), b);
      RunReferenceLength(a, true);
      RunReferenceLength(a + b, true);
    }
  }

  /**
   The encoder writes modified UTF-7, that is printable characters as they are and every
   other stretch as one run over its UTF-16 units, exactly when the text contains neither
   U+0000, which ends it, nor a code point above U+FFFFF.
   */
  lemma {:induction false} EncodeIsReference(cps: seq<nat>)
    requires CodePoints(cps, 0x110000)
    ensures Encode(Utf8All(cps)) == Reference(cps, true) <==> CodePoints(cps, 0x100000) && 0 !in cps
  {
    EncodeIsKept(cps);
    if 0 in cps {
      CutTextIsShorter(cps);
    } else {
      assert UpToNul(cps) == cps;
      KeptIsReference(cps);
    }
  }

  lemma {:induction false} KeptIsReference(cps: seq<nat>)
    requires CodePoints(cps, 0x110000)
    ensures Reference(cps, false) == Reference(cps, true) <==> CodePoints(cps, 0x100000)
  {
    ShorterReference(cps);
    if CodePoints(cps, 0x100000) {
      SameReference(cps);
    }
  }

  /** What is written for a text cut at U+0000 is too short. */
  lemma {:induction false} CutTextIsShorter(cps: seq<nat>)
    requires CodePoints(cps, 0x110000) && 0 in cps
    ensures |Reference(UpToNul(cps), false)| < |Reference(cps, true)|
  {
    var front := UpToNul(cps);
    ShorterReference(front);
    LongerText(front, cps[|front|..]);
    assert cps == front + cps[|front|..];
  }

  /** The empty text and U+0000 are encoded alike. */
  lemma NulIsLost()
    ensures Encode(Utf8All([0])) == [] != Reference([0], true)
  {
    var cps := [0];
    EncodeIsKept(cps);
    EncodeIsReference(cps);
    assert UpToNul(cps) == [] && cps[0] in cps;
  }

  /** A single code point of plane 16 goes out as one unit without its top bit, where a surrogate pair is due. */
  lemma PlaneSixteenIsLost(cp: nat)
    requires 0x100000 <= cp < 0x110000
    ensures Encode(Utf8(cp)) == [AMP] + Chars(RunDigits(Tail(0, 0), [cp - 0x100000])) + [DASH]
    ensures Encode(Utf8(cp)) != Reference([cp], true)
  {
    var cps := [cp];
    SingleText(cp, cps);
    EncodeIsKept(cps);
    EncodeIsReference(cps);
    assert cps[0] >= 0x100000;
    SingleRun(cp, cps);
  }

  lemma SingleText(cp: nat, cps: seq<nat>)
    requires cp < 0x110000 && cps == [cp]
    ensures Utf8All(cps) == Utf8(cp)
  {
    assert cps[1..] == [];
    assert Utf8(cp) + [] == Utf8(cp);
  }

  lemma SingleRun(cp: nat, cps: seq<nat>)
    requires 0x100000 <= cp < 0x110000 && cps == [cp]
    ensures Reference(cps, false) == [AMP] + Chars(RunDigits(Tail(0, 0), [cp - 0x100000])) + [DASH]
  {
    assert cps[1..] == [] && AfterRun(cps) == [];
    assert RunUnits(cps, false) == [cp - 0x100000] + [] == [cp - 0x100000];
    var run := [AMP] + Chars(RunDigits(Tail(0, 0), [cp - 0x100000])) + [DASH];
    assert run + [] == run;
  }
}
