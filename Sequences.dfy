/** Generic facts about sequences, stated once for every element type. */
module Sequences {
  /** Appending a non-empty sequence is appending its front, then its last element. */
  lemma AppendLast<T>(a: seq<T>, t: seq<T>)
    requires |t| != 0
    ensures a + t == (a + t[..|t| - 1]) + [t[|t| - 1]]
  {
  }

  /** A non-empty sequence is its front followed by its last element. */
  lemma LastSplit<T>(xs: seq<T>)
    requires |xs| != 0
    ensures xs == xs[..|xs| - 1] + [xs[|xs| - 1]]
  {
  }

  /** The number of occurrences of x in s. */
  function Count<T(==)>(s: seq<T>, x: T): nat
    decreases |s|
  {
    if |s| == 0 then 0 else Count(s[..|s| - 1], x) + (if s[|s| - 1] == x then 1 else 0)
  }

  /** Appending one element adds one occurrence of it and no other. */
  lemma CountSnoc<T>(s: seq<T>, y: T, x: T)
    ensures Count(s + [y], x) == Count(s, x) + (if y == x then 1 else 0)
  {
    assert (s + [y])[..|s|] == s;
  }

  /** Moving the first element of the right operand across a concatenation. */
  lemma ShiftFirst<T>(a: seq<T>, t: seq<T>)
    requires |t| != 0
    ensures a + t == (a + [t[0]]) + t[1..]
  {
  }

  /** Appending nothing changes nothing. */
  lemma AppendEmpty<T>(a: seq<T>, t: seq<T>)
    requires |t| == 0
    ensures a + t == a
  {
  }

  /** A prefix one longer is the shorter prefix followed by the next element. */
  lemma PrefixSnoc<T>(s: seq<T>, i: nat)
    requires 0 < i <= |s|
    ensures s[..i] == s[..i - 1] + [s[i - 1]]
  {
  }

  /** A sequence listing a set once each, extended by a new element, lists the set with that element. */
  lemma MultisetSnoc<T>(order: seq<T>, done: set<T>, m: T)
    requires multiset(order) == multiset(done) && m !in done
    ensures multiset(order + [m]) == multiset(done + {m})
  {
  }
}
