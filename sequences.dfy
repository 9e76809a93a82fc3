/**
 * Regrouping facts about sequence concatenation, used to follow a transcript
 * as it grows one byte at a time.
 */
module Sequences {
  /** One more element at the end regroups with the part before it. */
  lemma Snoc<T>(s: seq<T>, b: seq<T>, x: T)
    ensures s + b + [x] == s + (b + [x])
  {
  }

  /** Two single elements appended one after the other. */
  lemma Appended2<T>(s: seq<T>, a: T, b: T)
    ensures s + [a] + [b] == s + [a, b]
  {
  }

  /** Six single elements appended one after the other. */
  lemma Appended6<T>(s: seq<T>, a: T, b: T, c: T, d: T, e: T, f: T)
    ensures s + [a] + [b] + [c] + [d] + [e] + [f] == s + [a, b, c, d, e, f]
  {
  }

  /** Three parts appended to s regroup as one. */
  lemma Assembled<T>(s: seq<T>, h: seq<T>, b: seq<T>, t: seq<T>)
    ensures s + h + b + t == s + (h + b + t)
  {
  }

  /** A prefix followed by the next element is the longer prefix. */
  lemma TakeOneMore<T>(s: seq<T>, k: nat)
    requires k < |s|
    ensures s[..k] + [s[k]] == s[..k + 1]
  {
  }

  /** A prefix followed by a prefix of the rest is the longer prefix. */
  lemma TakeJoin<T>(s: seq<T>, i: nat, j: nat)
    requires i <= j <= |s|
    ensures s[..i] + s[i..][..j - i] == s[..j]
  {
  }

  /** Four parts appended to s one after the other regroup as one. */
  lemma Regrouped4<T>(s: seq<T>, a: seq<T>, b: seq<T>, c: seq<T>, d: seq<T>)
    ensures s + a + b + c + d == s + (a + b + c + d)
  {
  }
}
