/**
 Small facts about numbers and multisets that several parts share.
 */
module Basics {

  function Min(a: int, b: int): int {
    if a <= b then a else b
  }

  function Max(a: int, b: int): int {
    if a <= b then b else a
  }

  /** Two parts of a sum of multisets change places. */
  lemma Exchange<T>(a: multiset<T>, b: multiset<T>, c: multiset<T>)
    ensures (a + b) + c == (a + c) + b
  {
  }

  lemma Assoc<T>(a: multiset<T>, b: multiset<T>, c: multiset<T>)
    ensures (a + b) + c == a + (b + c)
  {
  }

  /** The same part added to both sides. */
  lemma Regroup<T>(a: multiset<T>, b: multiset<T>, tail: multiset<T>, was: multiset<T>, now: multiset<T>)
    requires a + was == b + now
    ensures (a + tail) + was == (b + tail) + now
  {
    Exchange(a, tail, was);
    Exchange(b, tail, now);
  }

  /** The same part taken away from both sides. */
  lemma Cancel<T>(a: multiset<T>, b: multiset<T>, c: multiset<T>)
    requires a + c == b + c
    ensures a == b
  {
    assert (a + c) - c == a && (b + c) - c == b;
  }

  lemma BagAppend<T>(s: seq<T>, x: T)
    ensures multiset(s + [x]) == multiset{x} + multiset(s)
  {
  }

  /** A sequence and its last element, as multisets. */
  lemma BagSnoc<T>(s: seq<T>)
    requires s != []
    ensures multiset(s) == multiset(s[..|s| - 1]) + multiset{s[|s| - 1]}
  {
    assert s == s[..|s| - 1] + [s[|s| - 1]];
  }
}
