/**
  The order in which undefined steps are listed before their snippets are generated:
  by keyword, and by name where the keywords are equal, each compared as Java's
  `String.compareTo` compares (here on `char`, see README).
*/
module StepOrder {
  import opened Gherkin

  /**
    `String.compareTo`: the difference of the first pair of characters that differ, or,
    when one string is a prefix of the other, the difference of the lengths.
  */
  function CompareStrings(a: string, b: string): int
  {
    if a == [] || b == [] then |a| - |b|
    else if a[0] != b[0] then a[0] as int - b[0] as int
    else CompareStrings(a[1..], b[1..])
  }

  /** Lexicographic order on strings, stated without `CompareStrings`: a proper prefix, or a smaller character after a common prefix. */
  ghost predicate LexLess(a: string, b: string)
  {
    (|a| < |b| && a == b[..|a|]) ||
    exists k :: 0 <= k < |a| && k < |b| && a[..k] == b[..k] && a[k] < b[k]
  }

  /** The comparator that `getSnippets` passes to `Collections.sort`. */
  function CompareSteps(a: Step, b: Step): int
  {
    var keyword := CompareStrings(a.keyword, b.keyword);
    if keyword == 0 then CompareStrings(a.name, b.name) else keyword
  }

  /** Every step comes no later, by the comparator, than every step after it. */
  ghost predicate Sorted(s: seq<Step>)
  {
    forall i, j :: 0 <= i < j < |s| ==> CompareSteps(s[i], s[j]) <= 0
  }

  /** Places `x` before the first step of the sorted `s` that it does not come after. */
  function Insert(x: Step, s: seq<Step>): seq<Step>
  {
    if s == [] then [x]
    else if CompareSteps(x, s[0]) <= 0 then [x] + s
    else [s[0]] + Insert(x, s[1..])
  }

  /** The list `Collections.sort` leaves behind (a stable sort, here by insertion). */
  function SortSteps(s: seq<Step>): seq<Step>
  {
    if s == [] then [] else Insert(s[0], SortSteps(s[1..]))
  }

  lemma {:induction false} CompareStringsAntisymmetric(a: string, b: string)
    ensures CompareStrings(a, b) == -CompareStrings(b, a)
  {
    if a != [] && b != [] && a[0] == b[0] {
      CompareStringsAntisymmetric(a[1..], b[1..]);
    }
  }

  lemma {:induction false} CompareStringsZero(a: string, b: string)
    ensures CompareStrings(a, b) == 0 <==> a == b
  {
    if a != [] && b != [] && a[0] == b[0] {
      CompareStringsZero(a[1..], b[1..]);
      assert a == [a[0]] + a[1..] && b == [b[0]] + b[1..];
    }
  }

  lemma {:induction false} CompareStringsTransitive(a: string, b: string, c: string)
    requires CompareStrings(a, b) <= 0 && CompareStrings(b, c) <= 0
    ensures CompareStrings(a, c) <= 0
  {
    if a != [] && b != [] && c != [] && a[0] == b[0] == c[0] {
      CompareStringsTransitive(a[1..], b[1..], c[1..]);
    }
  }

  /** `CompareStrings` is negative exactly when the first string is lexicographically smaller. */
  lemma {:induction false} CompareStringsLexicographic(a: string, b: string)
    ensures CompareStrings(a, b) < 0 <==> LexLess(a, b)
  {
    if a == [] || b == [] {
    } else if a[0] != b[0] {
      forall k | 0 < k <= |a| && k <= |b|
        ensures a[..k] != b[..k]
      {
        assert a[..k][0] == a[0] && b[..k][0] == b[0];
      }
      assert a[..0] == b[..0];
    } else {
      CompareStringsLexicographic(a[1..], b[1..]);
      LexLessTail(a, b);
    }
  }

  /** Strings with the same first character compare as their tails do. */
  lemma LexLessTail(a: string, b: string)
    requires a != [] && b != [] && a[0] == b[0]
    ensures LexLess(a, b) <==> LexLess(a[1..], b[1..])
  {
    var a', b' := a[1..], b[1..];
    if |a| < |b| && a == b[..|a|] {
      assert a' == b'[..|a'|];
    }
    if |a'| < |b'| && a' == b'[..|a'|] {
      assert a == [a[0]] + a' && b[..|a|] == [b[0]] + b'[..|a'|];
    }
    if k :| 0 <= k < |a| && k < |b| && a[..k] == b[..k] && a[k] < b[k] {
      assert k > 0;
      assert a'[..k - 1] == a[..k][1..] && b'[..k - 1] == b[..k][1..];
      assert a'[k - 1] == a[k] && b'[k - 1] == b[k];
    }
    if k :| 0 <= k < |a'| && k < |b'| && a'[..k] == b'[..k] && a'[k] < b'[k] {
      assert a[..k + 1] == [a[0]] + a'[..k] && b[..k + 1] == [b[0]] + b'[..k];
      assert a[k + 1] == a'[k] && b[k + 1] == b'[k];
    }
  }

  lemma CompareStepsAntisymmetric(a: Step, b: Step)
    ensures CompareSteps(a, b) == -CompareSteps(b, a)
  {
    CompareStringsAntisymmetric(a.keyword, b.keyword);
    CompareStringsAntisymmetric(a.name, b.name);
  }

  /**
    The comparator orders by keyword first, and by name only among equal keywords,
    both lexicographically.
  */
  lemma CompareStepsLexicographic(a: Step, b: Step)
    ensures CompareSteps(a, b) < 0 <==>
              LexLess(a.keyword, b.keyword) || (a.keyword == b.keyword && LexLess(a.name, b.name))
    ensures CompareSteps(a, b) == 0 <==> a.keyword == b.keyword && a.name == b.name
  {
    CompareStringsZero(a.keyword, b.keyword);
    CompareStringsZero(a.name, b.name);
    CompareStringsLexicographic(a.keyword, b.keyword);
    CompareStringsLexicographic(a.name, b.name);
  }

  lemma CompareStepsTransitive(a: Step, b: Step, c: Step)
    requires CompareSteps(a, b) <= 0 && CompareSteps(b, c) <= 0
    ensures CompareSteps(a, c) <= 0
  {
    CompareStringsZero(a.keyword, b.keyword);
    CompareStringsZero(b.keyword, c.keyword);
    CompareStringsZero(a.keyword, c.keyword);
    CompareStringsAntisymmetric(a.keyword, c.keyword);
    CompareStringsAntisymmetric(a.keyword, b.keyword);
    if a.keyword == b.keyword == c.keyword {
      CompareStringsTransitive(a.name, b.name, c.name);
    } else {
      CompareStringsTransitive(a.keyword, b.keyword, c.keyword);
    }
  }

  lemma {:induction false} InsertElements(x: Step, s: seq<Step>)
    ensures multiset(Insert(x, s)) == multiset(s) + multiset{x}
  {
    if s != [] && CompareSteps(x, s[0]) > 0 {
      InsertElements(x, s[1..]);
      assert s == [s[0]] + s[1..];
    }
  }

  lemma {:induction false} InsertSorted(x: Step, s: seq<Step>)
    requires Sorted(s)
    ensures Sorted(Insert(x, s))
  {
    if s == [] {
    } else if CompareSteps(x, s[0]) <= 0 {
      forall j | 0 < j < |s|
        ensures CompareSteps(x, s[j]) <= 0
      {
        CompareStepsTransitive(x, s[0], s[j]);
      }
      var r := Insert(x, s);
      assert r == [x] + s;
      forall i, j | 0 <= i < j < |r|
        ensures CompareSteps(r[i], r[j]) <= 0
      {
        if i > 0 {
          assert r[i] == s[i - 1] && r[j] == s[j - 1];
        } else {
          assert r[j] == s[j - 1];
        }
      }
    } else {
      var rest := Insert(x, s[1..]);
      InsertSorted(x, s[1..]);
      InsertElements(x, s[1..]);
      CompareStepsAntisymmetric(x, s[0]);
      forall j | 0 <= j < |rest|
        ensures CompareSteps(s[0], rest[j]) <= 0
      {
        assert rest[j] in multiset(rest);
        if rest[j] != x {
          assert rest[j] in multiset(s[1..]);
          var k :| 0 <= k < |s[1..]| && s[1..][k] == rest[j];
          assert s[k + 1] == rest[j];
        }
      }
    }
  }

  /** `Collections.sort` leaves the undefined steps in comparator order. */
  lemma {:induction false} SortStepsSorted(s: seq<Step>)
    ensures Sorted(SortSteps(s))
  {
    if s != [] {
      SortStepsSorted(s[1..]);
      InsertSorted(s[0], SortSteps(s[1..]));
    }
  }

  /** ... and neither loses nor adds a step. */
  lemma {:induction false} SortStepsPermutation(s: seq<Step>)
    ensures multiset(SortSteps(s)) == multiset(s)
  {
    if s != [] {
      SortStepsPermutation(s[1..]);
      InsertElements(s[0], SortSteps(s[1..]));
      assert s == [s[0]] + s[1..];
    }
  }
}
