/**
 * Preprocessing of the origin string in one left-to-right pass over all characters but
 * the last: spaces are skipped, a pair of NOTs at the end of the buffer cancels, and an
 * AND is inserted after a variable or `)` when the next raw character is a variable,
 * `(` or `!`. The last character is appended as it is.
 */
module Preprocessing {
  import opened Wrappers
  import opened Alphabet
  import opened Sequences
  import opened Extraction

  /** A variable list as extraction produces it: letters only. */
  predicate PlainVars(vars: seq<char>) {
    forall c :: c in vars ==> IsLetter(c)
  }

  /** An implicit AND belongs between positions i and i + 1 of the raw string. */
  predicate Juxtaposed(origin: string, vars: seq<char>, i: nat)
    requires i + 1 < |origin|
  {
    (origin[i] in vars || origin[i] == ')')
    && (origin[i + 1] in vars || origin[i + 1] == '(' || origin[i + 1] == '!')
  }

  /** Drops the last two characters of the buffer when both are NOT. */
  function CancelDoubleNot(buf: string): string {
    if |buf| >= 2 && buf[|buf| - 1] == '!' && buf[|buf| - 2] == '!' then buf[..|buf| - 2] else buf
  }

  /** One iteration of the pass, at position i of the origin, on buffer `buf`. */
  function Step(origin: string, vars: seq<char>, i: nat, buf: string): string
    requires i + 1 < |origin|
  {
    if origin[i] == ' ' then buf
    else
      var b := CancelDoubleNot(buf + [origin[i]]);
      if Juxtaposed(origin, vars, i) then b + ['*'] else b
  }

  /** The buffer after the iterations at positions 0 .. i - 1. */
  function Buffer(origin: string, vars: seq<char>, i: nat): string
    requires i < |origin|
  {
    if i == 0 then [] else Step(origin, vars, i - 1, Buffer(origin, vars, i - 1))
  }

  /** The preprocessed string: the buffer after the pass, then the last character of the origin. */
  function Process(origin: string, vars: seq<char>): string
    requires |origin| >= 1
  {
    Buffer(origin, vars, |origin| - 1) + [origin[|origin| - 1]]
  }

  /** The preprocessing stage, which first extracts the variables (and fails as extraction does). */
  function Preprocess(origin: string): Result<string> {
    var vars :- ExtractVariables(origin);
    Success(Process(origin, vars))
  }

  /** Number of positions j < i where an implicit AND is inserted. */
  function AndSites(origin: string, vars: seq<char>, i: nat): nat
    requires i < |origin|
  {
    if i == 0 then 0
    else AndSites(origin, vars, i - 1) + (if Juxtaposed(origin, vars, i - 1) then 1 else 0)
  }

  /** The step at position k cancels a pair of NOTs at the end of the buffer. */
  predicate Cancels(origin: string, k: nat, buf: string)
    requires k < |origin|
  {
    origin[k] != ' ' && CancelDoubleNot(buf + [origin[k]]) != buf + [origin[k]]
  }

  /** Number of positions j < i whose step cancels a pair of NOTs. */
  function Cancellations(origin: string, vars: seq<char>, i: nat): nat
    requires i < |origin|
  {
    if i == 0 then 0
    else Cancellations(origin, vars, i - 1) + (if Cancels(origin, i - 1, Buffer(origin, vars, i - 1)) then 1 else 0)
  }

  /** No two adjacent NOTs. */
  predicate NoDoubleNot(s: string) {
    forall j :: 0 <= j < |s| - 1 ==> !(s[j] == '!' && s[j + 1] == '!')
  }

  predicate AllLegal(s: string) {
    forall j :: 0 <= j < |s| ==> IsLegalChar(s[j])
  }

  lemma CancelSkeleton(b: string)
    ensures Skeleton(CancelDoubleNot(b)) == Skeleton(b)
  {
    if CancelDoubleNot(b) != b {
      var n := |b|;
      assert b == b[..n - 2] + ['!', '!'];
      SkeletonAppend(b[..n - 2], ['!', '!']);
      assert Skeleton(['!', '!']) == [] by {
        assert ['!', '!'][..1] == ['!'];
        assert Skeleton(['!']) == Skeleton([]) by { assert ['!'][..0] == []; }
      }
    }
  }

  lemma CancelCounts(b: string)
    ensures Count(CancelDoubleNot(b), '*') == Count(b, '*')
    ensures Count(CancelDoubleNot(b), '!') + (if CancelDoubleNot(b) != b then 2 else 0) == Count(b, '!')
  {
    if CancelDoubleNot(b) != b {
      var n := |b|;
      var front := b[..n - 2];
      assert b == (front + ['!']) + ['!'];
      CountSnoc(front + ['!'], '!', '!');
      CountSnoc(front, '!', '!');
      CountSnoc(front + ['!'], '!', '*');
      CountSnoc(front, '!', '*');
    }
  }

  lemma StepSkeleton(origin: string, vars: seq<char>, k: nat, buf: string)
    requires k + 1 < |origin|
    ensures Skeleton(Step(origin, vars, k, buf)) == Skeleton(buf + [origin[k]])
  {
    var c := origin[k];
    assert (buf + [c])[..|buf|] == buf;
    if c != ' ' {
      var b2 := CancelDoubleNot(buf + [c]);
      CancelSkeleton(buf + [c]);
      if Juxtaposed(origin, vars, k) {
        assert (b2 + ['*'])[..|b2|] == b2;
      }
    }
  }

  lemma StepCounts(origin: string, vars: seq<char>, k: nat, buf: string)
    requires k + 1 < |origin|
    requires PlainVars(vars)
    ensures var st := Step(origin, vars, k, buf);
      && Count(st, '*') == Count(buf + [origin[k]], '*') + (if Juxtaposed(origin, vars, k) then 1 else 0)
      && Count(st, '!') + (if Cancels(origin, k, buf) then 2 else 0) == Count(buf + [origin[k]], '!')
  {
    if origin[k] != ' ' {
      CancelCounts(buf + [origin[k]]);
    } else {
      assert !Juxtaposed(origin, vars, k);
    }
  }

  lemma StepNoDoubleNot(origin: string, vars: seq<char>, k: nat, buf: string)
    requires k + 1 < |origin|
    requires NoDoubleNot(buf)
    ensures NoDoubleNot(Step(origin, vars, k, buf))
  {
    var c := origin[k];
    if c != ' ' {
      var b1 := buf + [c];
      var b2 := CancelDoubleNot(b1);
      assert NoDoubleNot(b2) by {
        if b2 == b1 {
          forall j | 0 <= j < |b2| - 1
            ensures !(b2[j] == '!' && b2[j + 1] == '!')
          {
            if j < |buf| - 1 {
              assert b2[j] == buf[j] && b2[j + 1] == buf[j + 1];
            }
          }
        } else {
          assert b2 == buf[..|buf| - 1];
        }
      }
      if Juxtaposed(origin, vars, k) {
        var b3 := b2 + ['*'];
        forall j | 0 <= j < |b3| - 1
          ensures !(b3[j] == '!' && b3[j + 1] == '!')
        {
          if j < |b2| - 1 {
            assert b3[j] == b2[j] && b3[j + 1] == b2[j + 1];
          }
        }
      }
    }
  }

  lemma StepLegal(origin: string, vars: seq<char>, k: nat, buf: string)
    requires k + 1 < |origin|
    requires AllLegal(buf) && IsLegalChar(origin[k])
    ensures AllLegal(Step(origin, vars, k, buf))
  {
  }

  lemma {:induction false} BufferSkeleton(origin: string, vars: seq<char>, i: nat)
    requires i < |origin|
    ensures Skeleton(Buffer(origin, vars, i)) == Skeleton(origin[..i])
  {
    if i > 0 {
      var buf := Buffer(origin, vars, i - 1);
      BufferSkeleton(origin, vars, i - 1);
      StepSkeleton(origin, vars, i - 1, buf);
      PrefixSnoc(origin, i);
      SkeletonAppend(buf, [origin[i - 1]]);
      SkeletonAppend(origin[..i - 1], [origin[i - 1]]);
    }
  }

  lemma {:induction false} BufferAnds(origin: string, vars: seq<char>, i: nat)
    requires i < |origin|
    requires PlainVars(vars)
    ensures Count(Buffer(origin, vars, i), '*') == Count(origin[..i], '*') + AndSites(origin, vars, i)
  {
    if i > 0 {
      BufferAnds(origin, vars, i - 1);
      BufferAndsStep(origin, vars, i);
    }
  }

  lemma BufferAndsStep(origin: string, vars: seq<char>, i: nat)
    requires 0 < i < |origin|
    requires PlainVars(vars)
    requires Count(Buffer(origin, vars, i - 1), '*') == Count(origin[..i - 1], '*') + AndSites(origin, vars, i - 1)
    ensures Count(Buffer(origin, vars, i), '*') == Count(origin[..i], '*') + AndSites(origin, vars, i)
  {
    var buf := Buffer(origin, vars, i - 1);
    var c := origin[i - 1];
    assert Count(Buffer(origin, vars, i), '*') ==
        Count(buf, '*') + (if c == '*' then 1 else 0) + (if Juxtaposed(origin, vars, i - 1) then 1 else 0) by {
      StepCounts(origin, vars, i - 1, buf);
      CountSnoc(buf, c, '*');
    }
    assert Count(origin[..i], '*') == Count(origin[..i - 1], '*') + (if c == '*' then 1 else 0) by {
      PrefixSnoc(origin, i);
      CountSnoc(origin[..i - 1], c, '*');
    }
  }

  lemma {:induction false} BufferNots(origin: string, vars: seq<char>, i: nat)
    requires i < |origin|
    requires PlainVars(vars)
    ensures Count(Buffer(origin, vars, i), '!') + 2 * Cancellations(origin, vars, i) == Count(origin[..i], '!')
  {
    if i > 0 {
      BufferNots(origin, vars, i - 1);
      BufferNotsStep(origin, vars, i);
    }
  }

  lemma BufferNotsStep(origin: string, vars: seq<char>, i: nat)
    requires 0 < i < |origin|
    requires PlainVars(vars)
    requires Count(Buffer(origin, vars, i - 1), '!') + 2 * Cancellations(origin, vars, i - 1) == Count(origin[..i - 1], '!')
    ensures Count(Buffer(origin, vars, i), '!') + 2 * Cancellations(origin, vars, i) == Count(origin[..i], '!')
  {
    var buf := Buffer(origin, vars, i - 1);
    var c := origin[i - 1];
    assert Count(Buffer(origin, vars, i), '!') + (if Cancels(origin, i - 1, buf) then 2 else 0) ==
        Count(buf, '!') + (if c == '!' then 1 else 0) by {
      StepCounts(origin, vars, i - 1, buf);
      CountSnoc(buf, c, '!');
    }
    assert Count(origin[..i], '!') == Count(origin[..i - 1], '!') + (if c == '!' then 1 else 0) by {
      PrefixSnoc(origin, i);
      CountSnoc(origin[..i - 1], c, '!');
    }
  }

  lemma {:induction false} BufferNoDoubleNot(origin: string, vars: seq<char>, i: nat)
    requires i < |origin|
    ensures NoDoubleNot(Buffer(origin, vars, i))
  {
    if i > 0 {
      BufferNoDoubleNot(origin, vars, i - 1);
      StepNoDoubleNot(origin, vars, i - 1, Buffer(origin, vars, i - 1));
    }
  }

  lemma {:induction false} BufferLegal(origin: string, vars: seq<char>, i: nat)
    requires i < |origin|
    requires AllLegal(origin)
    ensures AllLegal(Buffer(origin, vars, i))
  {
    if i > 0 {
      BufferLegal(origin, vars, i - 1);
      StepLegal(origin, vars, i - 1, Buffer(origin, vars, i - 1));
    }
  }

  /** Everything other than NOT, AND and space survives preprocessing, in its original order. */
  lemma ProcessSkeleton(origin: string, vars: seq<char>)
    requires |origin| >= 1
    ensures Skeleton(Process(origin, vars)) == Skeleton(origin)
  {
    var n := |origin|;
    var buf := Buffer(origin, vars, n - 1);
    BufferSkeleton(origin, vars, n - 1);
    PrefixSnoc(origin, n);
    assert origin[..n] == origin;
    SkeletonAppend(buf, [origin[n - 1]]);
    SkeletonAppend(origin[..n - 1], [origin[n - 1]]);
  }

  /** Preprocessing adds exactly one AND per juxtaposition site of the raw string. */
  lemma ProcessAnds(origin: string, vars: seq<char>)
    requires |origin| >= 1
    requires PlainVars(vars)
    ensures Count(Process(origin, vars), '*') == Count(origin, '*') + AndSites(origin, vars, |origin| - 1)
  {
    var n := |origin|;
    var buf := Buffer(origin, vars, n - 1);
    var last := origin[n - 1];
    BufferAnds(origin, vars, n - 1);
    assert Count(Process(origin, vars), '*') == Count(buf, '*') + (if last == '*' then 1 else 0) by {
      CountSnoc(buf, last, '*');
    }
    assert Count(origin, '*') == Count(origin[..n - 1], '*') + (if last == '*' then 1 else 0) by {
      LastSplit(origin);
      CountSnoc(origin[..n - 1], last, '*');
    }
  }

  /** NOTs are only ever removed, and only in pairs. */
  lemma ProcessNots(origin: string, vars: seq<char>)
    requires |origin| >= 1
    requires PlainVars(vars)
    ensures Count(Process(origin, vars), '!') + 2 * Cancellations(origin, vars, |origin| - 1) == Count(origin, '!')
  {
    var n := |origin|;
    var buf := Buffer(origin, vars, n - 1);
    var last := origin[n - 1];
    BufferNots(origin, vars, n - 1);
    assert Count(Process(origin, vars), '!') == Count(buf, '!') + (if last == '!' then 1 else 0) by {
      CountSnoc(buf, last, '!');
    }
    assert Count(origin, '!') == Count(origin[..n - 1], '!') + (if last == '!' then 1 else 0) by {
      LastSplit(origin);
      CountSnoc(origin[..n - 1], last, '!');
    }
  }

  /** No two adjacent NOTs remain, except a pair completed by the unconditionally appended last character. */
  lemma ProcessNoDoubleNot(origin: string, vars: seq<char>)
    requires |origin| >= 1
    ensures var p := Process(origin, vars); NoDoubleNot(p[..|p| - 1])
  {
    var p := Process(origin, vars);
    BufferNoDoubleNot(origin, vars, |origin| - 1);
    assert p[..|p| - 1] == Buffer(origin, vars, |origin| - 1);
  }

  /** Preprocessing a legal string gives a legal string: it only ever adds AND. */
  lemma ProcessLegal(origin: string, vars: seq<char>)
    requires |origin| >= 1
    requires AllLegal(origin)
    ensures AllLegal(Process(origin, vars))
  {
    BufferLegal(origin, vars, |origin| - 1);
  }

  /** A successful preprocessing yields a legal string with the origin's skeleton. */
  lemma PreprocessLegal(origin: string)
    requires Preprocess(origin).Success?
    ensures IsLegal(Preprocess(origin).value)
    ensures Skeleton(Preprocess(origin).value) == Skeleton(origin)
  {
    ProcessSkeleton(origin, Variables(origin));
    ProcessLegal(origin, Variables(origin));
  }

  lemma StepNoSpace(origin: string, vars: seq<char>, k: nat, buf: string)
    requires k + 1 < |origin|
    requires ' ' !in buf
    ensures ' ' !in Step(origin, vars, k, buf)
  {
    if origin[k] != ' ' {
      var b := buf + [origin[k]];
      assert ' ' !in b;
      assert CancelDoubleNot(b) == b || CancelDoubleNot(b) == b[..|b| - 2];
    }
  }

  lemma {:induction false} BufferNoSpace(origin: string, vars: seq<char>, i: nat)
    requires i < |origin|
    ensures ' ' !in Buffer(origin, vars, i)
  {
    if i > 0 {
      BufferNoSpace(origin, vars, i - 1);
      StepNoSpace(origin, vars, i - 1, Buffer(origin, vars, i - 1));
    }
  }

  /** Spaces are dropped everywhere but in the last position, whose character is kept as it is. */
  lemma ProcessSpaces(origin: string, vars: seq<char>)
    requires |origin| >= 1
    ensures var p := Process(origin, vars);
      ' ' !in p[..|p| - 1] && p[|p| - 1] == origin[|origin| - 1]
  {
    var p := Process(origin, vars);
    BufferNoSpace(origin, vars, |origin| - 1);
    assert p[..|p| - 1] == Buffer(origin, vars, |origin| - 1);
  }

  /**
   * Worked cases, each over the variables of its own string: an implicit AND between two
   * variables, between a variable and `(`, and between a variable and `!`.
   */
  lemma ProcessJuxtaposed()
    ensures Process("ab", "ab") == "a*b"
    ensures Process("a(b+c)", "abc") == "a*(b+c)"
    ensures Process("a!b", "ab") == "a*!b"
  {
    assert Process("ab", "ab") == "a*" + "b";
    assert Buffer("a(b+c)", "abc", 2) == "a*(";
    assert Buffer("a(b+c)", "abc", 4) == "a*(b+";
    assert Process("a(b+c)", "abc") == "a*(b+c" + ")";
    assert Process("a!b", "ab") == "a*!" + "b";
  }

  /** Worked case: NOT pairs cancel in the buffer, so four NOTs leave none. */
  lemma ProcessFourNots()
    ensures Process("!!!!a", "a") == "a"
  {
    assert Buffer("!!!!a", "a", 2) == [];
    assert Buffer("!!!!a", "a", 4) == [];
  }

  /** Worked case: a space between two variables keeps out the AND that juxtaposition gives. */
  lemma ProcessSpaceBlocksAnd()
    ensures Process("a b", "ab") == "ab"
  {
    assert Buffer("a b", "ab", 1) == "a";
    assert Buffer("a b", "ab", 2) == "a";
    assert Process("a b", "ab") == "a" + "b";
  }

  /** A leading `!!` changes nothing in the buffer once both NOTs have been read. */
  lemma {:induction false} BufferDoubleNot(s: string, vars: seq<char>, i: nat)
    requires i < |s|
    requires '!' !in vars
    ensures Buffer("!!" + s, vars, i + 2) == Buffer(s, vars, i)
  {
    var o := "!!" + s;
    if i == 0 {
      assert Buffer(o, vars, 1) == "!";
      assert Buffer(o, vars, 2) == CancelDoubleNot("!!");
    } else {
      BufferDoubleNot(s, vars, i - 1);
      assert o[i + 1] == s[i - 1] && o[i + 2] == s[i];
    }
  }

  /** Double negation at the front of the origin is removed completely. */
  lemma ProcessDoubleNot(s: string, vars: seq<char>)
    requires |s| >= 1
    requires '!' !in vars
    ensures Process("!!" + s, vars) == Process(s, vars)
  {
    BufferDoubleNot(s, vars, |s| - 1);
  }

  lemma DoubleNotVariables(s: string)
    ensures Variables("!!" + s) == Variables(s)
  {
    var o := "!!" + s;
    VariablesSpec(o);
    VariablesSpec(s);
    assert forall c :: c in o <==> c == '!' || c in s;
    SortedUnique(Variables(o), Variables(s));
  }

  lemma DoubleNotLegal(s: string)
    ensures IsLegal("!!" + s) == IsLegal(s)
  {
    var o := "!!" + s;
    assert forall j :: 0 <= j < |s| ==> o[j + 2] == s[j];
    if IsLegal(s) {
      forall j | 0 <= j < |o| ensures IsLegalChar(o[j]) {
        if j >= 2 {
          assert o[j] == s[j - 2];
        }
      }
    }
  }

  /** Preprocessing `!!s` and `s` gives the same result, for any non-empty `s`. */
  lemma PreprocessDoubleNot(s: string)
    requires |s| >= 1
    ensures Preprocess("!!" + s) == Preprocess(s)
  {
    var o := "!!" + s;
    DoubleNotLegal(s);
    if IsLegal(s) {
      var vars := Variables(s);
      DoubleNotVariables(s);
      VariablesSpec(s);
      assert ExtractVariables(o) == Success(vars);
      assert ExtractVariables(s) == Success(vars);
      ProcessDoubleNot(s, vars);
    } else {
      assert ExtractVariables(o) == Failure(IllegalCharacter);
      assert ExtractVariables(s) == Failure(IllegalCharacter);
    }
  }
}
