/**
 * The logic variables of a formula: the distinct letters of the origin string in
 * alphabetical order. This order fixes the columns of the truth table and the order
 * of the literals in every minterm.
 */
module Extraction {
  import opened Wrappers
  import opened Alphabet

  /** Sorted and free of duplicates. */
  predicate StrictlySorted(s: seq<char>) {
    forall i, j :: 0 <= i < j < |s| ==> s[i] < s[j]
  }

  /** The k-th letter of the alphabet, counting from 0 for `a`. */
  function LetterAt(k: nat): (c: char)
    requires k < 26
    ensures IsLetter(c) && c as int == 'a' as int + k
  {
    (('a' as int) + k) as char
  }

  /** The letters from the k-th one on that occur in `s`, in alphabetical order. */
  function LettersFrom(k: nat, s: string): seq<char>
    decreases 26 - k
  {
    if k >= 26 then []
    else (if LetterAt(k) in s then [LetterAt(k)] else []) + LettersFrom(k + 1, s)
  }

  /** Reference definition of the variable list: the alphabet filtered by occurrence in `s`. */
  function Variables(s: string): seq<char> {
    LettersFrom(0, s)
  }

  lemma {:induction false} LettersFromSpec(k: nat, s: string)
    ensures StrictlySorted(LettersFrom(k, s))
    ensures forall c :: c in LettersFrom(k, s) <==> IsLetter(c) && c as int >= 'a' as int + k && c in s
    decreases 26 - k
  {
    if k < 26 {
      LettersFromSpec(k + 1, s);
      var c := LetterAt(k);
      var rest := LettersFrom(k + 1, s);
      assert forall j :: 0 <= j < |rest| ==> c < rest[j] by {
        forall j | 0 <= j < |rest|
          ensures c < rest[j]
        {
          assert rest[j] in rest;
        }
      }
      forall d | IsLetter(d) && d as int >= 'a' as int + k
        ensures d == c || d as int >= 'a' as int + k + 1
      {
      }
    }
  }

  /** The variable list is strictly sorted and holds exactly the letters of the formula. */
  lemma VariablesSpec(s: string)
    ensures StrictlySorted(Variables(s))
    ensures forall c :: c in Variables(s) <==> IsLetter(c) && c in s
  {
    LettersFromSpec(0, s);
  }

  /** Two strictly sorted sequences with the same elements are equal. */
  lemma {:induction false} SortedUnique(a: seq<char>, b: seq<char>)
    requires StrictlySorted(a) && StrictlySorted(b)
    requires forall c :: c in a <==> c in b
    ensures a == b
    decreases |a|
  {
    assert |a| != 0 ==> a[0] in b;
    assert |b| != 0 ==> b[0] in a;
    if |a| != 0 {
      assert a[0] == b[0] by {
        var i :| 0 <= i < |b| && b[i] == a[0];
        var j :| 0 <= j < |a| && a[j] == b[0];
        assert b[0] <= b[i] && a[0] <= a[j];
      }
      forall c
        ensures c in a[1..] <==> c in b[1..]
      {
        if c in a[1..] {
          var i :| 1 <= i < |a| && a[i] == c;
          assert c in b && c != b[0];
        }
        if c in b[1..] {
          var i :| 1 <= i < |b| && b[i] == c;
          assert c in a && c != a[0];
        }
      }
      SortedUnique(a[1..], b[1..]);
      assert a == [a[0]] + a[1..];
      assert b == [b[0]] + b[1..];
    }
  }

  /**
   * What the variable extraction yields for an origin string: a failure for the empty
   * string or an illegal character, otherwise the sorted distinct letters.
   */
  function ExtractVariables(origin: string): (r: Result<seq<char>>)
    ensures r.Failure? <==> origin == "" || exists i :: 0 <= i < |origin| && !IsLegalChar(origin[i])
    ensures r.Success? ==> StrictlySorted(r.value) && forall c :: c in r.value <==> IsLetter(c) && c in origin
  {
    if origin == "" then Failure(EmptyFormula)
    else if !IsLegal(origin) then Failure(IllegalCharacter)
    else
      VariablesSpec(origin);
      Success(Variables(origin))
  }

  /** Sorts a duplicate-free list of characters by insertion, as the variable list is sorted. */
  method SortLetters(a: seq<char>) returns (r: seq<char>)
    requires forall i, j :: 0 <= i < j < |a| ==> a[i] != a[j]
    ensures StrictlySorted(r)
    ensures |r| == |a|
    ensures forall c :: c in r <==> c in a
  {
    r := [];
    for i := 0 to |a|
      invariant StrictlySorted(r)
      invariant |r| == i
      invariant forall c :: c in r <==> c in a[..i]
    {
      var x := a[i];
      assert x !in r by {
        assert forall j :: 0 <= j < i ==> a[..i][j] != x;
      }
      var k := 0;
      while k < |r| && r[k] < x
        invariant 0 <= k <= |r|
        invariant forall j :: 0 <= j < k ==> r[j] < x
      {
        k := k + 1;
      }
      assert forall j :: k <= j < |r| ==> x < r[j] by {
        if k < |r| {
          assert r[k] != x;
        }
      }
      r := r[..k] + [x] + r[k..];
      assert a[..i + 1] == a[..i] + [x];
    }
    assert a[..|a|] == a;
  }
}
