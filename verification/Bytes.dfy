/** Bytes and the few control characters that the mail protocols look at. */
module Bytes {
  type Byte = b: int | 0 <= b < 256

  const NUL: Byte := 0
  const LF: Byte := 10
  const CR: Byte := 13
  const DOT: Byte := 46

  /** The concatenation of a list of blocks, in order. */
  function Concat<T>(blocks: seq<seq<T>>): seq<T> {
    if blocks == [] then [] else blocks[0] + Concat(blocks[1..])
  }

  lemma {:induction false} ConcatSplit<T>(blocks: seq<seq<T>>, k: nat)
    requires k <= |blocks|
    ensures Concat(blocks) == Concat(blocks[..k]) + Concat(blocks[k..])
  {
    if k == 0 {
      assert blocks[k..] == blocks;
    } else {
      ConcatSplit(blocks[1..], k - 1);
      assert blocks[..k][1..] == blocks[1..][..k - 1];
      assert blocks[k..] == blocks[1..][k - 1..];
    }
  }

  /** Text that the program builds as a C string: there is no NUL in it. */
  type CText = s: seq<Byte> | NUL !in s

  /** What a byte array is as a C string: everything before the first NUL. */
  function CString(bytes: seq<Byte>): (r: seq<Byte>)
    ensures r <= bytes && NUL !in r
    ensures r == bytes || bytes[|r|] == NUL
  {
    if bytes == [] || bytes[0] == NUL then [] else [bytes[0]] + CString(bytes[1..])
  }

  /** Bytes survive as a C string exactly when there is no NUL among them. */
  lemma CStringKeeps(bytes: seq<Byte>)
    ensures CString(bytes) == bytes <==> NUL !in bytes
  {
  }

  lemma {:induction false} CStringCons(x: Byte, bytes: seq<Byte>)
    requires x != NUL
    ensures CString([x] + bytes) == [x] + CString(bytes)
  {
    assert ([x] + bytes)[1..] == bytes;
  }

  lemma ConsSum(a: seq<Byte>, b: seq<Byte>)
    requires a != []
    ensures [a[0]] + (a[1..] + b) == a + b
  {
  }

  lemma {:induction false} CStringConcat(a: seq<Byte>, b: seq<Byte>)
    requires NUL !in a
    ensures CString(a + b) == a + CString(b)
    decreases |a|
  {
    if a == [] {
      assert a + b == b;
    } else {
      CStringConcat(a[1..], b);
      CStringCons(a[0], a[1..] + b);
      ConsSum(a, b);
      ConsSum(a, CString(b));
    }
  }
}
