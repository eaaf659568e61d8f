/**
 The streaming shell of MD5: `md5_init`, `md5_append` and `md5_finish`. The compression of one
 block is a parameter; the model is about the bookkeeping around it, namely the two words of
 the bit count, the buffer for a block that is not complete yet, and the padding of sections
 3.1 and 3.2 of RFC 1321.
 */
module Md5 {
  import opened Bytes
  import opened Common

  const WORD := 0x1_0000_0000
  const LONG := 0x1_0000_0000_0000_0000
  type Word = w: int | 0 <= w < WORD

  datatype Words = Words(a: Word, b: Word, c: Word, d: Word)

  const INIT := Words(0x67452301, 0xefcdab89, 0x98badcfe, 0x10325476)

  type Process = (Words, seq<Byte>) -> Words

  // -------------------------------------------------------------------------
  // The definition

  /** All complete blocks of the data, one after the other. */
  function Blocks(process: Process, s: Words, data: seq<Byte>): Words
    decreases |data|
  {
    if |data| < 64 then s else Blocks(process, process(s, data[..64]), data[64..])
  }

  /** The incomplete block at the end. */
  function Tail(data: seq<Byte>): (r: seq<Byte>)
    ensures |r| == |data| % 64
  {
    data[|data| / 64 * 64..]
  }

  function Zeros(n: nat): (r: seq<Byte>)
    ensures |r| == n && forall i :: 0 <= i < n ==> r[i] == 0
  {
    seq(n, i => 0)
  }

  /** The k lowest bytes of n, the lowest first. */
  function LittleEndian(n: nat, k: nat): (r: seq<Byte>)
    ensures |r| == k
  {
    if k == 0 then [] else [n % 256] + LittleEndian(n / 256, k - 1)
  }

  /** How many zero bytes follow the byte 0x80. */
  function PadLength(n: nat): (k: nat)
    ensures k < 64 && (n + 1 + k) % 64 == 56
  {
    (55 - n) % 64
  }

  function Padded(message: seq<Byte>): (r: seq<Byte>)
    ensures |r| == |message| + 1 + PadLength(|message|) + 8
  {
    message + ([0x80] + Zeros(PadLength(|message|))) + LittleEndian(8 * |message| % LONG, 8)
  }

  /** The padded message consists of whole blocks. */
  lemma PaddedLength(message: seq<Byte>)
    ensures |Padded(message)| % 64 == 0
  {
    WholeBlock(|message| + 1 + PadLength(|message|));
  }

  lemma WholeBlock(n: nat)
    requires n % 64 == 56
    ensures (n + 8) % 64 == 0
  {
  }

  function DigestOf(s: Words): seq<Byte> {
    LittleEndian(s.a, 4) + LittleEndian(s.b, 4) + LittleEndian(s.c, 4) + LittleEndian(s.d, 4)
  }

  function Digest(process: Process, message: seq<Byte>): seq<Byte> {
    DigestOf(Blocks(process, INIT, Padded(message)))
  }

  // -------------------------------------------------------------------------
  // Blocks and tails

  /** Data that follows other data is processed together with what that left over. */
  lemma {:induction false} BlocksAppend(process: Process, s: Words, a: seq<Byte>, b: seq<Byte>)
    ensures Blocks(process, s, a + b) == Blocks(process, Blocks(process, s, a), Tail(a) + b)
    ensures Tail(a + b) == Tail(Tail(a) + b)
    decreases |a|
  {
    if |a| < 64 {
      assert Tail(a) == a;
    } else {
      assert (a + b)[..64] == a[..64] && (a + b)[64..] == a[64..] + b;
      BlocksAppend(process, process(s, a[..64]), a[64..], b);
      TailDrop(a);
      TailDrop(a + b);
    }
  }

  lemma TailDrop(a: seq<Byte>)
    requires |a| >= 64
    ensures Tail(a[64..]) == Tail(a)
  {
    assert (|a| - 64) / 64 == |a| / 64 - 1;
  }

  /** The buffered tail and new data together bring the state to that of the longer message. */
  lemma {:induction false} Absorbs(process: Process, message: seq<Byte>, data: seq<Byte>)
    ensures
      var whole := Tail(message) + data;
      && Blocks(process, Blocks(process, INIT, message), whole) == Blocks(process, INIT, message + data)
      && Tail(whole) == Tail(message + data)
      && (|message| % 64 + |data|) % 64 == |message + data| % 64
  {
    BlocksAppend(process, INIT, message, data);
    LengthMod(|message|, |data|);
  }

  lemma LengthMod(n: nat, k: nat)
    ensures (n % 64 + k) % 64 == (n + k) % 64
  {
    Mod64(n % 64 + k, n / 64);
  }

  /** A partial block that the new data fills up. */
  lemma FillBlock(process: Process, s: Words, t: seq<Byte>, data: seq<Byte>, copy: nat)
    requires |t| + copy == 64 && copy <= |data|
    ensures Blocks(process, s, t + data) == Blocks(process, process(s, t + data[..copy]), data[copy..])
    ensures Tail(t + data) == Tail(data[copy..])
  {
    var whole := t + data;
    assert whole[..64] == t + data[..copy] && whole[64..] == data[copy..];
    TailDrop(whole);
  }

  // -------------------------------------------------------------------------
  // The count

  function CountOf(n: nat): (c: nat)
    ensures c < LONG
  {
    8 * n % LONG
  }

  lemma CountSplits(n: nat) returns (q: nat)
    ensures 8 * n == q * LONG + CountOf(n)
  {
    q := 8 * n / LONG;
  }

  lemma CountIs(n: nat, q: nat, r: nat)
    requires 8 * n == q * LONG + r && r < LONG
    ensures CountOf(n) == r
  {
  }

  /** The position in the buffer is recovered from the low word of the count. */
  lemma OffsetOf(n: nat, low: Word, high: Word)
    requires high * WORD + low == CountOf(n)
    ensures low / 8 % 64 == n % 64
  {
    var q := CountSplits(n);
    var m := q * 0x80_0000_0000_0000 + high * 0x80_0000;
    var x := n - 64 * m;
    assert low == 8 * x;
    assert low / 8 == x;
    Mod64(x, m);
  }

  lemma Mod64(x: int, m: int)
    ensures (x + 64 * m) % 64 == x % 64
  {
  }

  /** The low word: its carry shows in the sum being smaller than what was added. */
  lemma AddLow(low: Word, nbits: Word)
    ensures
      var sum := (low + nbits) % WORD;
      low + nbits == (if sum < nbits then 1 else 0) * WORD + sum
  {
  }

  lemma SplitBits(nbytes: nat)
    ensures 8 * nbytes == nbytes / 0x2000_0000 * WORD + nbytes * 8 % WORD
  {
    var t, r := nbytes / 0x2000_0000, nbytes % 0x2000_0000;
    assert nbytes * 8 == t * WORD + 8 * r;
  }

  /** Adding the bits of `nbytes` bytes to the two words, with carry. */
  lemma CountAdds(n: nat, nbytes: nat, low: Word, high: Word)
    requires high * WORD + low == CountOf(n)
    ensures
      var nbits := nbytes * 8 % WORD;
      var low' := (low + nbits) % WORD;
      var high' := (high + nbytes / 0x2000_0000 + (if low' < nbits then 1 else 0)) % WORD;
      high' * WORD + low' == CountOf(n + nbytes)
  {
    var nbits, top := nbytes * 8 % WORD, nbytes / 0x2000_0000;
    SplitBits(nbytes);
    AddLow(low, nbits);
    var low' := (low + nbits) % WORD;
    var q := CountSplits(n);
    AddHigh(n, nbytes, q, low, high, top, nbits, if low' < nbits then 1 else 0, low');
  }

  lemma AddHigh(n: nat, nbytes: nat, q: nat, low: Word, high: Word, top: nat, nbits: Word, carry: nat, low': Word)
    requires 8 * n == q * LONG + high * WORD + low && 8 * nbytes == top * WORD + nbits
             && low + nbits == carry * WORD + low'
    ensures (high + top + carry) % WORD * WORD + low' == CountOf(n + nbytes)
  {
    var sum := high + top + carry;
    var w, h := sum / WORD, sum % WORD;
    assert sum == w * WORD + h;
    assert 8 * (n + nbytes) == q * LONG + sum * WORD + low';
    assert 8 * (n + nbytes) == (q + w) * LONG + (h * WORD + low');
    CountIs(n + nbytes, q + w, h * WORD + low');
  }

  lemma {:induction false} LittleEndianWords(low: Word, high: Word)
    ensures LittleEndian(high * WORD + low, 8) == LittleEndian(low, 4) + LittleEndian(high, 4)
  {
    var a, b, c := low / 256, low / 256 / 256, low / 256 / 256 / 256;
    assert c < 256;
    PlusEmpty(LittleEndian(high, 4));
    OneByteMore(high, c, 1, LittleEndian(high, 4));
    OneByteMore(256 * high, b, 2, LittleEndian(high, 4));
    OneByteMore(65536 * high, a, 3, LittleEndian(high, 4));
    OneByteMore(16777216 * high, low, 4, LittleEndian(high, 4));
  }

  lemma DivMod256(h: nat, low: nat)
    ensures (256 * h + low) % 256 == low % 256 && (256 * h + low) / 256 == h + low / 256
  {
  }

  /** The lowest byte comes first. */
  lemma {:induction false} LowestByte(h: nat, low: nat, k: nat)
    requires k > 0
    ensures LittleEndian(256 * h + low, k) == [low % 256] + LittleEndian(h + low / 256, k - 1)
  {
    DivMod256(h, low);
  }

  lemma {:induction false} OneByteMore(h: nat, low: nat, k: nat, rest: seq<Byte>)
    requires k > 0 && LittleEndian(h + low / 256, k + 3) == LittleEndian(low / 256, k - 1) + rest
    ensures LittleEndian(256 * h + low, k + 4) == LittleEndian(low, k) + rest
  {
    LowestByte(h, low, k + 4);
    LowestByte(0, low, k);
    Assoc([low % 256], LittleEndian(low / 256, k - 1), rest);
  }

  // -------------------------------------------------------------------------
  // The state and its operations

  class State {
    const process: Process
    const buf: array<Byte>
    var low: Word
    var high: Word
    var abcd: Words
    ghost var message: seq<Byte>

    /** The two count words hold the bit length of n bytes, modulo 2^64. */
    ghost predicate Counts(n: nat)
      reads this
    {
      high * WORD + low == CountOf(n)
    }

    /** The count is the bit length, complete blocks are processed and the rest is buffered. */
    ghost predicate Valid()
      reads this, buf
    {
      && buf.Length == 64
      && Counts(|message|)
      && abcd == Blocks(process, INIT, message)
      && buf[..|message| % 64] == Tail(message)
    }

    constructor (process: Process)
      ensures Valid() && fresh(buf) && message == [] && this.process == process
    {
      this.process, buf := process, new Byte[64](_ => 0);
      low, high, abcd := 0, 0, INIT;
      message := [];
    }

    /** `memcpy` into the buffer. */
    method CopyIn(offset: nat, data: seq<Byte>)
      requires buf.Length == 64 && offset + |data| <= 64
      modifies buf
      ensures buf[..offset + |data|] == old(buf[..offset]) + data
    {
      for i := 0 to |data|
        invariant buf[..offset] == old(buf[..offset])
        invariant forall j :: 0 <= j < i ==> buf[offset + j] == data[j]
      {
        buf[offset + i] := data[i];
      }
      assert buf[offset..offset + |data|] == data;
    }

    method UpdateCount(nbytes: nat)
      modifies this`low, this`high
      ensures
        var nbits := nbytes * 8 % WORD;
        && low == (old(low) + nbits) % WORD
        && high == (old(high) + nbytes / 0x2000_0000 + (if low < nbits then 1 else 0)) % WORD
    {
      var nbits := nbytes * 8 % WORD;
      high := (high + nbytes / 0x2000_0000) % WORD;
      low := (low + nbits) % WORD;
      if low < nbits {
        high := (high + 1) % WORD;
      }
    }

    method AddToCount(ghost n: nat, nbytes: nat)
      requires Counts(n)
      modifies this`low, this`high
      ensures Counts(n + nbytes)
    {
      CountAdds(n, nbytes, low, high);
      UpdateCount(nbytes);
    }

    /** Complete blocks straight from the data, the rest into the buffer. */
    method ProcessFull(data: seq<Byte>, from: nat)
      requires buf.Length == 64 && from <= |data|
      modifies this`abcd, buf
      ensures abcd == Blocks(process, old(abcd), data[from..])
      ensures buf[..(|data| - from) % 64] == Tail(data[from..])
    {
      var p, left := from, |data| - from;
      while left >= 64
        invariant from <= p <= |data| && left == |data| - p && (|data| - from) % 64 == left % 64
        invariant Blocks(process, abcd, data[p..]) == Blocks(process, old(abcd), data[from..])
        invariant Tail(data[p..]) == Tail(data[from..])
      {
        assert data[p..][..64] == data[p..p + 64] && data[p..][64..] == data[p + 64..];
        TailDrop(data[p..]);
        abcd := process(abcd, data[p..p + 64]);
        p, left := p + 64, left - 64;
      }
      assert Tail(data[p..]) == data[p..];
      CopyIn(0, data[p..]);
    }

    /** `md5_append` after the count: the buffer is completed first. */
    method Absorb(offset: nat, data: seq<Byte>)
      requires buf.Length == 64 && offset < 64
      modifies this`abcd, buf
      ensures abcd == Blocks(process, old(abcd), old(buf[..offset]) + data)
      ensures buf[..(offset + |data|) % 64] == Tail(old(buf[..offset]) + data)
    {
      ghost var t := buf[..offset];
      if offset != 0 {
        var copy := if offset + |data| > 64 then 64 - offset else |data|;
        CopyIn(offset, data[..copy]);
        if offset + copy < 64 {
          assert data[..copy] == data;
          return;
        }
        FillBlock(process, abcd, t, data, copy);
        assert buf[..64] == buf[..];
        abcd := process(abcd, buf[..]);
        ProcessFull(data, copy);
      } else {
        assert t + data == data[0..];
        ProcessFull(data, 0);
      }
    }

    /** Any data after any other: the invariant holds for the longer message. */
    method Append(data: seq<Byte>)
      requires Valid() && |data| < 0x8000_0000
      modifies this`low, this`high, this`abcd, this`message, buf
      ensures Valid() && message == old(message) + data
    {
      var offset := low / 8 % 64;
      OffsetOf(|message|, low, high);
      if data == [] {
        assert message + data == message;
        return;
      }
      Absorbs(process, message, data);
      ghost var m, s := message, abcd;
      assert buf[..offset] == Tail(m) && s == Blocks(process, INIT, m);
      AddToCount(|m|, |data|);
      Absorb(offset, data);
      assert abcd == Blocks(process, s, Tail(m) + data);
      assert buf[..(offset + |data|) % 64] == Tail(Tail(m) + data);
      message := m + data;
    }

    /** Appends the padding and the length, which is taken before; nothing is left in the buffer. */
    method Pad()
      requires Valid()
      modifies this`low, this`high, this`abcd, this`message, buf
      ensures Valid() && message == Padded(old(message)) && Tail(message) == []
    {
      var data := LittleEndian(low, 4) + LittleEndian(high, 4);
      var pad := [0x80] + Zeros((55 - low / 8) % 64);
      PaddingIs(message, low, high);
      PaddedLength(message);
      Append(pad);
      Append(data);
    }

    /** Pads and returns the digest. */
    method Finish() returns (digest: seq<Byte>)
      requires Valid()
      modifies this`low, this`high, this`abcd, this`message, buf
      ensures digest == Digest(process, old(message))
    {
      Pad();
      digest := DigestOf(abcd);
    }
  }

  /** The padding computed from the count words is that of the definition. */
  lemma PaddingIs(message: seq<Byte>, low: Word, high: Word)
    requires high * WORD + low == CountOf(|message|)
    ensures Padded(message) == message + ([0x80] + Zeros((55 - low / 8) % 64))
            + (LittleEndian(low, 4) + LittleEndian(high, 4))
  {
    LittleEndianWords(low, high);
    OffsetOf(|message|, low, high);
    PadIs(|message|, low);
    assert LittleEndian(CountOf(|message|), 8) == LittleEndian(low, 4) + LittleEndian(high, 4);
    assert Zeros((55 - low / 8) % 64) == Zeros(PadLength(|message|));
  }

  lemma PadIs(n: nat, low: Word)
    requires low / 8 % 64 == n % 64
    ensures (55 - low / 8) % 64 == PadLength(n)
  {
  }

  /** No shorter padding brings the length to 56 modulo 64. */
  lemma PadIsShortest(n: nat, k: nat)
    requires (n + 1 + k) % 64 == 56
    ensures PadLength(n) <= k
  {
    var a, b := (n + 1 + k) / 64, (n + 1 + PadLength(n)) / 64;
    assert k - PadLength(n) == 64 * (a - b);
  }

  /** However a message is cut into pieces, its digest is the fold over the padded message. */
  method HashPieces(process: Process, pieces: seq<seq<Byte>>) returns (digest: seq<Byte>)
    requires forall i :: 0 <= i < |pieces| ==> |pieces[i]| < 0x8000_0000
    ensures digest == Digest(process, Concat(pieces))
  {
    var s := new State(process);
    assert pieces[0..] == pieces;
    for i := 0 to |pieces|
      invariant s.Valid() && s.process == process && fresh(s) && fresh(s.buf)
      invariant s.message + Concat(pieces[i..]) == Concat(pieces)
    {
      assert pieces[i..][1..] == pieces[i + 1..];
      assert s.message + (pieces[i] + Concat(pieces[i + 1..])) == (s.message + pieces[i]) + Concat(pieces[i + 1..]);
      s.Append(pieces[i]);
    }
    assert pieces[|pieces|..] == [];
    assert s.message + [] == s.message;
    digest := s.Finish();
  }
}
