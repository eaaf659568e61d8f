/** Decoding modified UTF-7 undoes encoding it. */
module ImapUtf7RoundTrip {
  import opened Bytes
  import opened Common
  import opened ImapUtf7
  import opened ImapUtf7Proofs

  /** Code points of the basic plane that are characters: no NUL, no surrogates. */
  ghost predicate Plain(cps: seq<nat>) {
    forall i :: 0 <= i < |cps| ==> IsPlain(cps[i])
  }

  predicate IsPlain(cp: nat) {
    0 < cp < 0x10000 && !(UTF16HIGHSTART <= cp <= UTF16LOEND)
  }

  // -------------------------------------------------------------------------
  // The decoder's buffer

  predicate IsWidth(m: nat) {
    m == 1 || m == 4 || m == 16 || m == 64 || m == 256 || m == 1024 || m == 4096 || m == 16384
  }

  /** The word size does not disturb the low bits. */
  lemma Low64(x: nat)
    ensures x % WORD % 64 == x % 64
  {
    Multiple64(67108864 * (x / WORD), x % WORD);
  }

  lemma Multiple64(h: nat, r: nat)
    ensures (64 * h + r) % 64 == r % 64
  {
  }

  lemma Low256(x: nat)
    ensures x % WORD % 256 == x % 256
  {
    Multiple256(16777216 * (x / WORD), x % WORD);
  }

  lemma Multiple256(h: nat, r: nat)
    ensures (256 * h + r) % 256 == r % 256
  {
  }

  lemma Low1024(x: nat)
    ensures x % WORD % 1024 == x % 1024
  {
    Multiple1024(4194304 * (x / WORD), x % WORD);
  }

  lemma Multiple1024(h: nat, r: nat)
    ensures (1024 * h + r) % 1024 == r % 1024
  {
  }

  lemma Low4096(x: nat)
    ensures x % WORD % 4096 == x % 4096
  {
    Multiple4096(1048576 * (x / WORD), x % WORD);
  }

  lemma Multiple4096(h: nat, r: nat)
    ensures (4096 * h + r) % 4096 == r % 4096
  {
  }

  lemma Low16384(x: nat)
    ensures x % WORD % 16384 == x % 16384
  {
    Multiple16384(262144 * (x / WORD), x % WORD);
  }

  lemma Multiple16384(h: nat, r: nat)
    ensures (16384 * h + r) % 16384 == r % 16384
  {
  }

  lemma Low65536(x: nat)
    ensures x % WORD % 65536 == x % 65536
  {
    Multiple65536(65536 * (x / WORD), x % WORD);
  }

  lemma Multiple65536(h: nat, r: nat)
    ensures (65536 * h + r) % 65536 == r % 65536
  {
  }

  lemma Low262144(x: nat)
    ensures x % WORD % 262144 == x % 262144
  {
    Multiple262144(16384 * (x / WORD), x % WORD);
  }

  lemma Multiple262144(h: nat, r: nat)
    ensures (262144 * h + r) % 262144 == r % 262144
  {
  }

  lemma Low1048576(x: nat)
    ensures x % WORD % 1048576 == x % 1048576
  {
    Multiple1048576(4096 * (x / WORD), x % WORD);
  }

  lemma Multiple1048576(h: nat, r: nat)
    ensures (1048576 * h + r) % 1048576 == r % 1048576
  {
  }

  lemma LowOfWord(x: nat, m: nat)
    requires IsWidth(m)
    ensures x % WORD % (m * 64) == x % (m * 64)
  {
    if m == 1 {
      Low64(x);
    } else if m == 4 {
      Low256(x);
    } else if m == 16 {
      Low1024(x);
    } else if m == 64 {
      Low4096(x);
    } else if m == 256 {
      Low16384(x);
    } else if m == 1024 {
      Low65536(x);
    } else if m == 4096 {
      Low262144(x);
    } else {
      Low1048576(x);
    }
  }

  lemma Shift1(b: nat, d: nat)
    requires d < 64
    ensures (b * 64 + d) % 64 == b % 1 * 64 + d
  {
  }

  lemma Shift4(b: nat, d: nat)
    requires d < 64
    ensures (b * 64 + d) % 256 == b % 4 * 64 + d
  {
  }

  lemma Shift16(b: nat, d: nat)
    requires d < 64
    ensures (b * 64 + d) % 1024 == b % 16 * 64 + d
  {
  }

  lemma Shift64(b: nat, d: nat)
    requires d < 64
    ensures (b * 64 + d) % 4096 == b % 64 * 64 + d
  {
    assert b * 64 + d == 4096 * (b / 64) + (b % 64 * 64 + d);
  }

  lemma Shift256(b: nat, d: nat)
    requires d < 64
    ensures (b * 64 + d) % 16384 == b % 256 * 64 + d
  {
  }

  lemma Shift1024(b: nat, d: nat)
    requires d < 64
    ensures (b * 64 + d) % 65536 == b % 1024 * 64 + d
  {
  }

  lemma Shift4096(b: nat, d: nat)
    requires d < 64
    ensures (b * 64 + d) % 262144 == b % 4096 * 64 + d
  {
  }

  lemma Shift16384(b: nat, d: nat)
    requires d < 64
    ensures (b * 64 + d) % 1048576 == b % 16384 * 64 + d
  {
  }

  /** Shifting a digit in: the low bits are the old low bits and the digit. */
  lemma ShiftDigit(b: nat, d: nat, m: nat)
    requires d < 64 && IsWidth(m)
    ensures (b * 64 + d) % WORD % (m * 64) == b % m * 64 + d
  {
    LowOfWord(b * 64 + d, m);
    if m == 1 {
      Shift1(b, d);
    } else if m == 4 {
      Shift4(b, d);
    } else if m == 16 {
      Shift16(b, d);
    } else if m == 64 {
      Shift64(b, d);
    } else if m == 256 {
      Shift256(b, d);
    } else if m == 1024 {
      Shift1024(b, d);
    } else if m == 4096 {
      Shift4096(b, d);
    } else {
      Shift16384(b, d);
    }
  }

  /** Taking 16 bits out above `left` unused ones. */
  lemma TakeUnit(w: nat, left: nat)
    requires left == 1 || left == 4 || left == 16
    ensures w / left % 65536 == w % (left * 65536) / left
  {
    var h, l := w / (left * 65536), w % (left * 65536);
    if left == 4 {
      assert w == h * 262144 + l;
      assert w / 4 == h * 65536 + l / 4;
    } else if left == 16 {
      assert w == h * 1048576 + l;
      assert w / 16 == h * 65536 + l / 16;
    }
  }

  // -------------------------------------------------------------------------
  // One unit

  function Shifted(b: nat, d: nat): nat {
    (b * 64 + d) % WORD
  }

  ghost predicate At(src: seq<Byte>, i: nat, d: int) {
    i < |src| && 0 <= d < 64 && src[i] == Char64(d)
  }

  lemma FewBits(src: seq<Byte>, i: nat, b: nat, bits: nat, ucs4: nat, stale: Byte, d: int)
    requires At(src, i, d) && bits < 10
    ensures DecodeRun(src, i, b, bits, ucs4, stale) == DecodeRun(src, i + 1, Shifted(b, d), bits + 6, ucs4, stale)
  {
    AlphabetInverse(d);
  }

  /** A digit that completes the unit u. */
  lemma FullUnit(src: seq<Byte>, i: nat, b: nat, bits: nat, ucs4: nat, stale: Byte, d: int, u: nat)
    requires At(src, i, d) && 10 <= bits < 16 && IsPlain(u)
    requires Shifted(b, d) / Pow2(bits - 10) % 65536 == u
    ensures DecodeRun(src, i, b, bits, ucs4, stale)
            == Utf8(u) + DecodeRun(src, i + 1, Shifted(b, d), bits - 10, u, stale)
  {
    AlphabetInverse(d);
    Utf8HasNoNul(u);
    CStringKeeps(Utf8(u));
  }

  /** What the buffer holds when the tail of the unit u has not arrived yet. */
  ghost predicate Lags(t: Tail, u: nat, b: nat, bits: nat) {
    if t.k == 0 then bits == 0
    else if t.k == 4 then bits == 12 && IsPlain(u) && t.v == u % 16 && b % 4096 == u / 16
    else bits == 14 && IsPlain(u) && t.v == u % 4 && b % 16384 == u / 4
  }

  /** The unit u is still to be written out. */
  function Owed(t: Tail, u: nat): seq<Byte>
    requires u < 0x10000
  {
    if t.k == 0 then [] else Utf8(u)
  }

  /** The digit with the last four bits of u. */
  lemma Complete4(b: nat, u: nat, top: nat)
    requires u < 65536 && b % 4096 == u / 16 && top < 4
    ensures Shifted(b, u % 16 * 4 + top) / Pow2(2) % 65536 == u
    ensures Shifted(b, u % 16 * 4 + top) % 4 == top
  {
    SmallPowers();
    var w := Shifted(b, u % 16 * 4 + top);
    ShiftDigit(b, u % 16 * 4 + top, 4096);
    TakeUnit(w, 4);
    assert w % 262144 == u * 4 + top;
    LowOfFour(w, u, top);
  }

  lemma Complete2(b: nat, u: nat, top: nat)
    requires u < 65536 && b % 16384 == u / 4 && top < 16
    ensures Shifted(b, u % 4 * 16 + top) / Pow2(4) % 65536 == u
    ensures Shifted(b, u % 4 * 16 + top) % 16 == top
  {
    SmallPowers();
    var w := Shifted(b, u % 4 * 16 + top);
    ShiftDigit(b, u % 4 * 16 + top, 16384);
    TakeUnit(w, 16);
    assert w % 1048576 == u * 16 + top;
    LowOfSixteen(w, u, top);
  }

  lemma LowOfFour(w: nat, u: nat, top: nat)
    requires w % 262144 == u * 4 + top && top < 4
    ensures w % 262144 / 4 == u && w % 4 == top
  {
    Mod4(65536 * (w / 262144) + u, top);
  }

  lemma LowOfSixteen(w: nat, u: nat, top: nat)
    requires w % 1048576 == u * 16 + top && top < 16
    ensures w % 1048576 / 16 == u && w % 16 == top
  {
    Mod16(65536 * (w / 1048576) + u, top);
  }

  lemma Whole(b: nat, u: nat)
    requires u < 65536 && b % 1024 == u / 64
    ensures Shifted(b, u % 64) / Pow2(0) % 65536 == u
  {
    ShiftDigit(b, u % 64, 1024);
  }

  ghost predicate Digits(src: seq<Byte>, i: nat, digits: seq<int>)
    requires forall j :: 0 <= j < |digits| ==> 0 <= digits[j] < 64
  {
    i + |digits| <= |src| && src[i..i + |digits|] == Chars(digits)
  }

  lemma DigitsAt(src: seq<Byte>, i: nat, digits: seq<int>, j: nat)
    requires forall j :: 0 <= j < |digits| ==> 0 <= digits[j] < 64
    requires Digits(src, i, digits) && j < |digits|
    ensures At(src, i + j, digits[j])
  {
    assert src[i..i + |digits|][j] == src[i + j];
  }

  lemma Unit0(src: seq<Byte>, i: nat, b: nat, ucs4: nat, stale: Byte, w: nat) returns (b': nat)
    requires IsPlain(w) && Digits(src, i, UnitDigits(Tail(0, 0), w))
    ensures Lags(Tail(w % 16, 4), w, b', 12)
    ensures DecodeRun(src, i, b, 0, ucs4, stale) == DecodeRun(src, i + 2, b', 12, ucs4, stale)
  {
    var digits := UnitDigits(Tail(0, 0), w);
    DigitsAt(src, i, digits, 0);
    DigitsAt(src, i, digits, 1);
    var b1 := Shifted(b, w / 1024);
    b' := Shifted(b1, w / 16 % 64);
    FewBits(src, i, b, 0, ucs4, stale, w / 1024);
    FewBits(src, i + 1, b1, 6, ucs4, stale, w / 16 % 64);
    Fill0(b, w);
  }

  lemma Fill0(b: nat, w: nat)
    requires w < 65536
    ensures Shifted(Shifted(b, w / 1024), w / 16 % 64) % 4096 == w / 16
  {
    ShiftDigit(b, w / 1024, 1);
    ShiftDigit(Shifted(b, w / 1024), w / 16 % 64, 64);
    Regroup0(0, w);
  }

  lemma ThreeDigits(src: seq<Byte>, i: nat, digits: seq<int>)
    requires |digits| == 3 && (forall j :: 0 <= j < 3 ==> 0 <= digits[j] < 64) && Digits(src, i, digits)
    ensures At(src, i, digits[0]) && At(src, i + 1, digits[1]) && At(src, i + 2, digits[2])
  {
    DigitsAt(src, i, digits, 0);
    DigitsAt(src, i, digits, 1);
    DigitsAt(src, i, digits, 2);
  }

  /** Two digits that complete no unit. */
  lemma {:induction false} TwoFew(src: seq<Byte>, i: nat, b: nat, bits: nat, ucs4: nat, stale: Byte, d: int, e: int)
    requires At(src, i, d) && At(src, i + 1, e) && bits < 4
    ensures DecodeRun(src, i, b, bits, ucs4, stale)
            == DecodeRun(src, i + 2, Shifted(Shifted(b, d), e), bits + 12, ucs4, stale)
  {
    FewBits(src, i, b, bits, ucs4, stale, d);
    FewBits(src, i + 1, Shifted(b, d), bits + 6, ucs4, stale, e);
  }

  lemma {:induction false} Unit4(src: seq<Byte>, i: nat, b: nat, ucs4: nat, stale: Byte, u: nat, w: nat)
    returns (b': nat)
    requires IsPlain(w) && Lags(Tail(u % 16, 4), u, b, 12) && Digits(src, i, UnitDigits(Tail(u % 16, 4), w))
    ensures Lags(Tail(w % 4, 2), w, b', 14)
    ensures DecodeRun(src, i, b, 12, ucs4, stale) == Utf8(u) + DecodeRun(src, i + 3, b', 14, u, stale)
  {
    var d, e, f := u % 16 * 4 + w / 16384, w / 256 % 64, w / 4 % 64;
    ThreeDigits(src, i, UnitDigits(Tail(u % 16, 4), w));
    var b1 := Shifted(b, d);
    b' := Shifted(Shifted(b1, e), f);
    Complete4(b, u, w / 16384);
    Fill4(b1, w);
    FullUnit(src, i, b, 12, ucs4, stale, d, u);
    TwoFew(src, i + 1, b1, 2, u, stale, e, f);
  }

  lemma Fill4(b: nat, w: nat)
    requires w < 65536 && b % 4 == w / 16384
    ensures Shifted(Shifted(b, w / 256 % 64), w / 4 % 64) % 16384 == w / 4
  {
    ShiftDigit(b, w / 256 % 64, 4);
    ShiftDigit(Shifted(b, w / 256 % 64), w / 4 % 64, 256);
    Regroup4(0, 0, w);
  }

  lemma Unit2(src: seq<Byte>, i: nat, b: nat, ucs4: nat, stale: Byte, u: nat, w: nat) returns (b': nat)
    requires IsPlain(w) && Lags(Tail(u % 4, 2), u, b, 14) && Digits(src, i, UnitDigits(Tail(u % 4, 2), w))
    ensures DecodeRun(src, i, b, 14, ucs4, stale) == Utf8(u) + (Utf8(w) + DecodeRun(src, i + 3, b', 0, w, stale))
  {
    var digits := UnitDigits(Tail(u % 4, 2), w);
    DigitsAt(src, i, digits, 0);
    DigitsAt(src, i, digits, 1);
    DigitsAt(src, i, digits, 2);
    var b1 := Shifted(b, digits[0]);
    var b2 := Shifted(b1, digits[1]);
    b' := Shifted(b2, digits[2]);
    Complete2(b, u, w / 4096);
    FullUnit(src, i, b, 14, ucs4, stale, digits[0], u);
    FewBits(src, i + 1, b1, 4, u, stale, digits[1]);
    Fill2(b1, w);
    FullUnit(src, i + 2, b2, 10, u, stale, digits[2], w);
  }

  lemma Fill2(b: nat, w: nat)
    requires w < 65536 && b % 16 == w / 4096
    ensures Shifted(Shifted(b, w / 64 % 64), w % 64) / Pow2(0) % 65536 == w
  {
    ShiftDigit(b, w / 64 % 64, 16);
    assert w / 64 == w / 4096 * 64 + w / 64 % 64;
    Whole(Shifted(b, w / 64 % 64), w);
  }

  /** One unit of a run: what was owed is written, and at most the new unit is owed. */
  lemma {:induction false} DecodeUnit(src: seq<Byte>, i: nat, b: nat, bits: nat, ucs4: nat, stale: Byte, t: Tail,
                                      u: nat, w: nat)
    returns (b': nat, bits': nat, ucs4': nat, out: seq<Byte>)
    requires IsTail(t) && u < 0x10000 && IsPlain(w) && Lags(t, u, b, bits) && Digits(src, i, UnitDigits(t, w))
    ensures Lags(AfterUnit(t, w), w, b', bits') && bits < 16 && bits' < 16
    ensures DecodeRun(src, i, b, bits, ucs4, stale)
            == out + DecodeRun(src, i + |UnitDigits(t, w)|, b', bits', ucs4', stale)
    ensures out + Owed(AfterUnit(t, w), w) == Owed(t, u) + Utf8(w)
  {
    if t.k == 0 {
      b' := Unit0(src, i, b, ucs4, stale, w);
      bits', ucs4', out := 12, ucs4, [];
    } else if t.k == 4 {
      b' := Unit4(src, i, b, ucs4, stale, u, w);
      bits', ucs4', out := 14, u, Utf8(u);
    } else {
      b' := Unit2(src, i, b, ucs4, stale, u, w);
      bits', ucs4', out := 0, w, Utf8(u) + Utf8(w);
      Assoc(Utf8(u), Utf8(w), DecodeRun(src, i + 3, b', 0, w, stale));
    }
  }

  // -------------------------------------------------------------------------
  // Whole texts

  /** The run ends with its padded digit at i, if there is one, and the dash at j. */
  ghost predicate Ends(src: seq<Byte>, i: nat, t: Tail, j: nat) {
    && IsTail(t) && Digits(src, i, LastDigit(t))
    && j == i + |LastDigit(t)| && j < |src| && src[j] == DASH
  }

  /** The end of a run: the padded digit completes the last unit, and the dash is skipped. */
  lemma {:induction false} DecodeEnd(src: seq<Byte>, i: nat, b: nat, bits: nat, ucs4: nat, stale: Byte, t: Tail, u: nat,
                                     j: nat)
    requires u < 0x10000 && Lags(t, u, b, bits) && bits < 16 && Ends(src, i, t, j)
    ensures DecodeRun(src, i, b, bits, ucs4, stale) == Owed(t, u) + DecodeText(src, j + 1, stale)
  {
    if t.k != 0 {
      DigitsAt(src, i, LastDigit(t), 0);
      if t.k == 4 {
        Complete4(b, u, 0);
      } else {
        Complete2(b, u, 0);
      }
      FullUnit(src, i, b, bits, ucs4, stale, LastDigit(t)[0], u);
    }
  }

  lemma Front(src: seq<Byte>, i: nat, a: seq<Byte>, b: seq<Byte>)
    requires i <= |src| && src[i..] == a + b
    ensures i + |a| <= |src| && src[i..i + |a|] == a && src[i + |a|..] == b
  {
    assert src[i..][..|a|] == a && src[i..][|a|..] == b;
  }

  predicate StartsRun(cps: seq<nat>) {
    cps != [] && !Printable(cps[0])
  }

  lemma {:induction false} NextUnit(src: seq<Byte>, i: nat, t: Tail, cps: seq<nat>)
    requires IsTail(t) && Plain(cps) && i <= |src| && CodePoints(cps, 0x110000) && src[i..] == Remaining(t, cps, true)
             && StartsRun(cps)
    ensures IsPlain(cps[0]) && Digits(src, i, UnitDigits(t, cps[0])) && IsTail(AfterUnit(t, cps[0]))
    ensures i + |UnitDigits(t, cps[0])| <= |src|
    ensures src[i + |UnitDigits(t, cps[0])|..] == Remaining(AfterUnit(t, cps[0]), cps[1..], true)
  {
    RemainingSplit(t, cps, true);
    Front(src, i, Chars(UnitDigits(t, cps[0])), Remaining(AfterUnit(t, cps[0]), cps[1..], true));
  }

  lemma {:induction false} RunEnd(src: seq<Byte>, i: nat, t: Tail, cps: seq<nat>) returns (j: nat)
    requires IsTail(t) && i <= |src| && CodePoints(cps, 0x110000) && src[i..] == Remaining(t, cps, true)
             && !StartsRun(cps)
    ensures Ends(src, i, t, j) && j < |src| && src[j + 1..] == Reference(cps, true)
  {
    j := i + |LastDigit(t)|;
    RemainingAtRunEnd(t, cps, true);
    CutAtDash(src, i, Chars(LastDigit(t)), Reference(cps, true));
  }

  lemma CutAtDash(src: seq<Byte>, i: nat, chars: seq<Byte>, rest: seq<Byte>)
    requires i <= |src| && src[i..] == (chars + [DASH]) + rest
    ensures i + |chars| < |src| && src[i..i + |chars|] == chars
    ensures src[i + |chars|] == DASH && src[i + |chars| + 1..] == rest
  {
    Assoc(chars, [DASH], rest);
    Front(src, i, chars, [DASH] + rest);
    Front(src, i + |chars|, [DASH], rest);
  }

  lemma PlainRest(cps: seq<nat>)
    requires cps != [] && Plain(cps) && CodePoints(cps, 0x110000)
    ensures Plain(cps[1..]) && CodePoints(cps[1..], 0x110000) && IsPlain(cps[0]) && cps[0] < 0x10000
    ensures Utf8All(cps) == Utf8(cps[0]) + Utf8All(cps[1..])
  {
  }

  lemma {:induction false} InRun(src: seq<Byte>, i: nat, b: nat, bits: nat, ucs4: nat, stale: Byte, t: Tail, u: nat,
                                 cps: seq<nat>)
    requires IsTail(t) && u < 0x10000 && Lags(t, u, b, bits) && bits < 16 && Plain(cps) && i <= |src|
    requires CodePoints(cps, 0x110000) && src[i..] == Remaining(t, cps, true)
    ensures DecodeRun(src, i, b, bits, ucs4, stale) == Owed(t, u) + Utf8All(cps)
    decreases |cps|, if StartsRun(cps) then 0 else 1
  {
    if StartsRun(cps) {
      var w, k := cps[0], i + |UnitDigits(t, cps[0])|;
      NextUnit(src, i, t, cps);
      PlainRest(cps);
      var b', bits', ucs4', out := DecodeUnit(src, i, b, bits, ucs4, stale, t, u, w);
      InRun(src, k, b', bits', ucs4', stale, AfterUnit(t, w), w, cps[1..]);
      SameFront(out, Owed(AfterUnit(t, w), w), Owed(t, u), Utf8(w), Utf8All(cps[1..]));
    } else {
      var k := EndOfRun(src, i, b, bits, ucs4, stale, t, u, cps);
      InText(src, k, stale, cps);
    }
  }

  lemma {:induction false} EndOfRun(src: seq<Byte>, i: nat, b: nat, bits: nat, ucs4: nat, stale: Byte, t: Tail,
                                    u: nat, cps: seq<nat>)
    returns (k: nat)
    requires IsTail(t) && u < 0x10000 && Lags(t, u, b, bits) && bits < 16 && i <= |src|
    requires CodePoints(cps, 0x110000) && src[i..] == Remaining(t, cps, true) && !StartsRun(cps)
    ensures k <= |src| && src[k..] == Reference(cps, true)
    ensures DecodeRun(src, i, b, bits, ucs4, stale) == Owed(t, u) + DecodeText(src, k, stale)
  {
    k := RunEnd(src, i, t, cps);
    DecodeEnd(src, i, b, bits, ucs4, stale, t, u, k);
    k := k + 1;
  }

  lemma RunStart(src: seq<Byte>, i: nat, stale: Byte, cps: seq<nat>)
    requires Plain(cps) && i <= |src| && CodePoints(cps, 0x110000) && src[i..] == Reference(cps, true) && StartsRun(cps)
    ensures i < |src| && src[i + 1..] == Remaining(Tail(0, 0), cps, true)
    ensures DecodeText(src, i, stale) == DecodeRun(src, i + 1, 0, 0, 0, stale)
  {
    ReferenceRun(cps, true);
    Front(src, i, [AMP], Remaining(Tail(0, 0), cps, true));
    FirstDigit(cps);
    assert src[i] == src[i..][0] && src[i + 1] == src[i + 1..][0];
  }

  lemma NextLiteral(src: seq<Byte>, i: nat, stale: Byte, cps: seq<nat>)
    requires i <= |src| && CodePoints(cps, 0x110000) && src[i..] == Reference(cps, true) && cps != []
             && Printable(cps[0])
    ensures i + |Literal(cps[0])| <= |src| && src[i + |Literal(cps[0])|..] == Reference(cps[1..], true)
    ensures DecodeText(src, i, stale) == [cps[0]] + DecodeText(src, i + |Literal(cps[0])|, stale)
  {
    assert Reference(cps, true) == Literal(cps[0]) + Reference(cps[1..], true);
    Front(src, i, Literal(cps[0]), Reference(cps[1..], true));
    assert src[i] == src[i..][0];
    assert cps[0] == AMP ==> src[i + 1] == src[i..][1];
  }

  lemma {:induction false} InText(src: seq<Byte>, i: nat, stale: Byte, cps: seq<nat>)
    requires Plain(cps) && i <= |src| && CodePoints(cps, 0x110000) && src[i..] == Reference(cps, true)
    ensures DecodeText(src, i, stale) == Utf8All(cps)
    decreases |cps|, if StartsRun(cps) then 1 else 0
  {
    if StartsRun(cps) {
      RunStart(src, i, stale, cps);
      InRun(src, i + 1, 0, 0, 0, stale, Tail(0, 0), 0, cps);
    } else if cps != [] {
      var k := i + |Literal(cps[0])|;
      NextLiteral(src, i, stale, cps);
      InText(src, k, stale, cps[1..]);
      LiteralFirst(cps);
    }
  }

  lemma {:induction false} LiteralFirst(cps: seq<nat>)
    requires CodePoints(cps, 0x110000) && cps != [] && Printable(cps[0])
    ensures Utf8All(cps) == [cps[0]] + Utf8All(cps[1..])
  {
  }

  /** A run cannot be taken for the escape of "&". */
  lemma FirstDigit(cps: seq<nat>)
    requires CodePoints(cps, 0x110000) && StartsRun(cps) && Plain(cps)
    ensures Remaining(Tail(0, 0), cps, true) != [] && Remaining(Tail(0, 0), cps, true)[0] != DASH
  {
    RemainingSplit(Tail(0, 0), cps, true);
    AlphabetInverse(cps[0] / 1024);
  }

  /** Decoding undoes encoding, for every string of non-zero characters of the basic plane. */
  lemma RoundTrip(cps: seq<nat>, stale: Byte)
    requires Plain(cps)
    ensures CodePoints(cps, 0x110000) && Decode(Encode(Utf8All(cps)), stale) == Utf8All(cps)
  {
    var wire := Reference(cps, true);
    EncodeIsReference(cps);
    ReferenceHasNoNul(cps);
    CStringKeeps(wire);
    assert wire[0..] == wire;
    InText(wire, 0, stale, cps);
  }

  lemma CharsHaveNoNul(digits: seq<int>)
    requires forall i :: 0 <= i < |digits| ==> 0 <= digits[i] < 64
    ensures NUL !in Chars(digits)
  {
    forall i | 0 <= i < |digits| ensures Chars(digits)[i] != NUL {
      AlphabetInverse(digits[i]);
    }
  }

  lemma {:induction false} ReferenceHasNoNul(cps: seq<nat>)
    requires CodePoints(cps, 0x110000)
    ensures NUL !in Reference(cps, true)
    decreases |cps|
  {
    if cps != [] {
      if Printable(cps[0]) {
        ReferenceHasNoNul(cps[1..]);
      } else {
        CharsHaveNoNul(RunDigits(Tail(0, 0), RunUnits(cps, true)));
        ReferenceHasNoNul(AfterRun(cps));
      }
    }
  }

  /** A text of the basic plane without surrogates, in which U+0000 may occur. */
  ghost predicate Basic(cps: seq<nat>) {
    forall i :: 0 <= i < |cps| ==> cps[i] == 0 || IsPlain(cps[i])
  }

  /** What comes back is the part before U+0000, so it is the text exactly when there is none. */
  lemma {:induction false} RoundTripUpToNul(cps: seq<nat>, stale: Byte)
    requires Basic(cps)
    ensures CodePoints(cps, 0x110000)
    ensures Decode(Encode(Utf8All(cps)), stale) == Utf8All(UpToNul(cps))
    ensures Decode(Encode(Utf8All(cps)), stale) == Utf8All(cps) <==> 0 !in cps
  {
    EncodeCut(cps);
    RoundTrip(UpToNul(cps), stale);
    TextUpToNul(cps);
    CStringKeeps(Utf8All(cps));
    if 0 in cps {
      NulInText(cps);
    }
  }

  /** The text and its part before U+0000 are encoded alike. */
  lemma {:induction false} EncodeCut(cps: seq<nat>)
    requires Basic(cps)
    ensures Plain(UpToNul(cps)) && CodePoints(cps, 0x110000)
    ensures Encode(Utf8All(cps)) == Encode(Utf8All(UpToNul(cps)))
  {
    var front := UpToNul(cps);
    assert UpToNul(front) == front;
    EncodeIsKept(cps);
    EncodeIsKept(front);
  }

  lemma {:induction false} NulInText(cps: seq<nat>)
    requires CodePoints(cps, 0x110000) && 0 in cps
    ensures NUL in Utf8All(cps)
    decreases |cps|
  {
    if cps[0] == 0 {
      assert Utf8All(cps)[0] == NUL;
    } else {
      NulInText(cps[1..]);
    }
  }
}
