/** Types and facts about sequences that several components use. */
module Common {
  datatype Option<+T> = None | Some(value: T)

  /** A decimal digit. */
  type Digit = d: int | 0 <= d < 10

  lemma Assoc<T>(a: seq<T>, b: seq<T>, c: seq<T>)
    ensures (a + b) + c == a + (b + c)
  {
  }

  lemma AssocFour<T>(a: seq<T>, b: seq<T>, c: seq<T>, d: seq<T>)
    ensures a + (b + (c + d)) == ((a + b) + c) + d
  {
    Assoc(a, b, c + d);
    Assoc(a + b, c, d);
  }

  /** Two ways of splitting the same front. */
  lemma SameFront<T>(a: seq<T>, b: seq<T>, c: seq<T>, d: seq<T>, rest: seq<T>)
    requires a + b == c + d
    ensures a + (b + rest) == c + (d + rest)
  {
    Assoc(a, b, rest);
    Assoc(c, d, rest);
  }

  lemma PlusEmpty<T>(a: seq<T>)
    ensures a + [] == a && [] + a == a
  {
  }

  lemma PrefixOfSum<T>(a: seq<T>, b: seq<T>)
    ensures a <= a + b
  {
  }

  /** Cutting a sum behind its first part. */
  lemma CutSum<T>(a: seq<T>, b: seq<T>, k: nat)
    requires k <= |b|
    ensures (a + b)[..|a| + k] == a + b[..k] && (a + b)[|a| + k..] == b[k..]
  {
  }
}
