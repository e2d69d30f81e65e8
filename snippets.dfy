/**
  What `getSnippets` returns: every backend's snippet for every undefined step, step by
  step and backend by backend, with a snippet dropped when the same text is already listed.
*/
module Snippets {
  import opened Gherkin
  import opened Backends

  /** The snippet of each backend for one step, in backend order. */
  function StepSnippets(step: Step, backends: seq<Backend>): seq<string>
  {
    seq(|backends|, j requires 0 <= j < |backends| => backends[j].getSnippet(step))
  }

  /** The snippets of all backends for all the steps, before de-duplication. */
  function AllSnippets(steps: seq<Step>, backends: seq<Backend>): seq<string>
    decreases |steps|
  {
    if steps == [] then []
    else
      var n := |steps| - 1;
      AllSnippets(steps[..n], backends) + StepSnippets(steps[n], backends)
  }

  /** Keeps the first occurrence of each string, in the order the strings first occur. */
  function Dedup(xs: seq<string>): seq<string>
    decreases |xs|
  {
    if xs == [] then []
    else
      var kept := Dedup(xs[..|xs| - 1]);
      if xs[|xs| - 1] in kept then kept else kept + [xs[|xs| - 1]]
  }

  ghost predicate NoDuplicates(xs: seq<string>)
  {
    forall i, j :: 0 <= i < j < |xs| ==> xs[i] != xs[j]
  }

  /** The position of the first occurrence of `x` in `xs`. */
  function FirstIndex(xs: seq<string>, x: string): (k: nat)
    requires x in xs
    ensures k < |xs| && xs[k] == x && x !in xs[..k]
    decreases |xs|
  {
    var n := |xs| - 1;
    if x in xs[..n] then
      var k := FirstIndex(xs[..n], x);
      assert xs[..n][..k] == xs[..k];
      k
    else n
  }

  /** Adding one string to the input adds it to the output exactly when it was not already there. */
  lemma DedupSnoc(xs: seq<string>, x: string)
    ensures Dedup(xs + [x]) == if x in Dedup(xs) then Dedup(xs) else Dedup(xs) + [x]
  {
    assert (xs + [x])[..|xs|] == xs;
  }

  /** The result holds the same strings as the input. */
  lemma {:induction false} DedupElements(xs: seq<string>)
    ensures forall x :: x in Dedup(xs) <==> x in xs
    decreases |xs|
  {
    if xs != [] {
      var n := |xs| - 1;
      DedupElements(xs[..n]);
      assert xs == xs[..n] + [xs[n]];
    }
  }

  /** The result never lists a string twice. */
  lemma {:induction false} DedupNoDuplicates(xs: seq<string>)
    ensures NoDuplicates(Dedup(xs))
    decreases |xs|
  {
    if xs != [] {
      DedupNoDuplicates(xs[..|xs| - 1]);
    }
  }

  /** The result lists the strings in the order of their first occurrences in the input. */
  lemma {:induction false} DedupFirstOccurrenceOrder(xs: seq<string>)
    ensures forall x :: x in Dedup(xs) ==> x in xs
    ensures forall i, j :: 0 <= i < j < |Dedup(xs)| ==>
              FirstIndex(xs, Dedup(xs)[i]) < FirstIndex(xs, Dedup(xs)[j])
    decreases |xs|
  {
    DedupElements(xs);
    if xs != [] {
      var n := |xs| - 1;
      var p := xs[..n];
      var kept := Dedup(p);
      DedupFirstOccurrenceOrder(p);
      DedupElements(p);
      forall y | y in kept
        ensures FirstIndex(xs, y) == FirstIndex(p, y)
      {
        assert y in p;
      }
      var r := Dedup(xs);
      forall i, j | 0 <= i < j < |r|
        ensures FirstIndex(xs, r[i]) < FirstIndex(xs, r[j])
      {
        if j < |kept| {
          assert r[i] == kept[i] && r[j] == kept[j];
        } else {
          assert r[i] == kept[i] && r[i] in p && r[j] == xs[n] && xs[n] !in p;
          assert FirstIndex(xs, r[j]) == n;
        }
      }
    }
  }

  /** A de-duplication of `xs`: no repeats, the same strings, in order of first occurrence. */
  ghost predicate IsDedupOf(r: seq<string>, xs: seq<string>)
  {
    && NoDuplicates(r)
    && (forall x :: x in r <==> x in xs)
    && (forall i, j :: 0 <= i < j < |r| ==> FirstIndex(xs, r[i]) < FirstIndex(xs, r[j]))
  }

  /** `Dedup` meets its reference definition, and it is the only list that does. */
  lemma DedupIsDedupOf(xs: seq<string>)
    ensures IsDedupOf(Dedup(xs), xs)
  {
    DedupNoDuplicates(xs);
    DedupElements(xs);
    DedupFirstOccurrenceOrder(xs);
  }

  /** The input determines its de-duplication: any list that meets the reference definition is `Dedup(xs)`. */
  lemma {:induction false} DedupUnique(xs: seq<string>, r: seq<string>)
    requires IsDedupOf(r, xs)
    ensures r == Dedup(xs)
    decreases |xs|
  {
    if xs == [] {
      NonEmptyHasElement(r);
    } else {
      var n := |xs| - 1;
      var p := xs[..n];
      DedupElements(p);
      if xs[n] in p {
        UniqueRepeatedLast(xs, r);
        DedupUnique(p, r);
      } else {
        UniqueNewLast(xs, r);
        DedupUnique(p, r[..|r| - 1]);
      }
    }
  }

  /**
    A non-empty list has an element. `DedupUnique` calls this rather than asserting it in
    place: there `r` is in fact empty, and indexing `r[0]` in that context would be checked
    under assumptions that contradict each other.
  */
  lemma NonEmptyHasElement(r: seq<string>)
    ensures r != [] ==> r[0] in r
  {
  }

  /** When the last string of `xs` occurs earlier, a de-duplication of `xs` is one of the rest. */
  lemma UniqueRepeatedLast(xs: seq<string>, r: seq<string>)
    requires xs != [] && xs[|xs| - 1] in xs[..|xs| - 1]
    requires IsDedupOf(r, xs)
    ensures IsDedupOf(r, xs[..|xs| - 1])
  {
    var p := xs[..|xs| - 1];
    assert xs == p + [xs[|xs| - 1]];
    forall y | y in r ensures y in p && FirstIndex(xs, y) == FirstIndex(p, y) { assert y in xs; }
  }

  /** Before the last position, first occurrences are those of the shorter list. */
  lemma FirstIndexInit(xs: seq<string>, y: string)
    requires xs != [] && y in xs[..|xs| - 1]
    ensures FirstIndex(xs, y) == FirstIndex(xs[..|xs| - 1], y)
  {
  }

  lemma FirstIndexNewLast(xs: seq<string>)
    requires xs != [] && xs[|xs| - 1] !in xs[..|xs| - 1]
    ensures FirstIndex(xs, xs[|xs| - 1]) == |xs| - 1
  {
  }

  /** When the last string of `xs` is new, a de-duplication of `xs` ends with it, after one of the rest. */
  lemma UniqueNewLast(xs: seq<string>, r: seq<string>)
    requires xs != [] && xs[|xs| - 1] !in xs[..|xs| - 1]
    requires IsDedupOf(r, xs)
    ensures r != [] && r[|r| - 1] == xs[|xs| - 1]
    ensures IsDedupOf(r[..|r| - 1], xs[..|xs| - 1])
  {
    var x := xs[|xs| - 1];
    assert x in xs;
    var m :| 0 <= m < |r| && r[m] == x;
    FirstIndexNewLast(xs);
    assert FirstIndex(xs, r[|r| - 1]) < |xs|;
    assert m == |r| - 1;
    UniqueNewLastRest(xs, r);
  }

  lemma UniqueNewLastRest(xs: seq<string>, r: seq<string>)
    requires xs != [] && xs[|xs| - 1] !in xs[..|xs| - 1]
    requires IsDedupOf(r, xs)
    requires r != [] && r[|r| - 1] == xs[|xs| - 1]
    ensures IsDedupOf(r[..|r| - 1], xs[..|xs| - 1])
  {
    var p := xs[..|xs| - 1];
    var x := xs[|xs| - 1];
    var q := r[..|r| - 1];
    assert xs == p + [x];
    forall y | y in q
      ensures y in p
    {
      var i :| 0 <= i < |q| && q[i] == y;
      assert r[i] == y && r[i] != r[|r| - 1];
    }
    forall y | y in p
      ensures y in q
    {
      assert y in r && y != x;
      var i :| 0 <= i < |r| && r[i] == y;
      assert i < |r| - 1 && q[i] == y;
    }
    forall i, j | 0 <= i < j < |q|
      ensures FirstIndex(p, q[i]) < FirstIndex(p, q[j])
    {
      assert q[i] == r[i] && q[j] == r[j];
      FirstIndexInit(xs, q[i]);
      FirstIndexInit(xs, q[j]);
    }
  }

  /** Taking one more step adds that step's snippets at the end. */
  lemma AllSnippetsPrefix(steps: seq<Step>, backends: seq<Backend>, i: nat)
    requires i < |steps|
    ensures AllSnippets(steps[..i + 1], backends) == AllSnippets(steps[..i], backends) + StepSnippets(steps[i], backends)
  {
    assert steps[..i + 1][..i] == steps[..i];
  }

  /** Offering backend `j`'s snippet after those of the backends before it keeps it only if it is new. */
  lemma DedupNextSnippet(done: seq<string>, step: Step, backends: seq<Backend>, j: nat)
    requires j < |backends|
    ensures var kept := Dedup(done + StepSnippets(step, backends)[..j]);
      var x := backends[j].getSnippet(step);
      Dedup(done + StepSnippets(step, backends)[..j + 1]) == if x in kept then kept else kept + [x]
  {
    var ss := StepSnippets(step, backends);
    assert done + ss[..j + 1] == (done + ss[..j]) + [ss[j]];
    DedupSnoc(done + ss[..j], ss[j]);
  }

  lemma {:induction false} AllSnippetsLength(steps: seq<Step>, backends: seq<Backend>)
    ensures |AllSnippets(steps, backends)| == |steps| * |backends|
    decreases |steps|
  {
    if steps != [] {
      var n := |steps| - 1;
      AllSnippetsLength(steps[..n], backends);
      assert |steps| * |backends| == n * |backends| + |backends|;
    }
  }

  /** Position `i * |backends| + j` holds backend `j`'s snippet for step `i`. */
  lemma {:induction false} AllSnippetsAt(steps: seq<Step>, backends: seq<Backend>, i: nat, j: nat)
    requires i < |steps| && j < |backends|
    ensures i * |backends| + j < |AllSnippets(steps, backends)|
    ensures AllSnippets(steps, backends)[i * |backends| + j] == backends[j].getSnippet(steps[i])
    decreases |steps|
  {
    var n := |steps| - 1;
    var p := steps[..n];
    var front := AllSnippets(p, backends);
    assert AllSnippets(steps, backends) == front + StepSnippets(steps[n], backends);
    if i < n {
      AllSnippetsAt(p, backends, i, j);
      assert p[i] == steps[i];
    } else {
      AllSnippetsLength(p, backends);
      assert i * |backends| == |front|;
    }
  }

  /** A string is among all the snippets exactly when some backend proposes it for some step. */
  lemma {:induction false} AllSnippetsElements(steps: seq<Step>, backends: seq<Backend>, x: string)
    ensures x in AllSnippets(steps, backends) <==>
              exists i, j :: 0 <= i < |steps| && 0 <= j < |backends| && x == backends[j].getSnippet(steps[i])
  {
    if x in AllSnippets(steps, backends) {
      AllSnippetsSource(steps, backends, x);
    }
    if exists i, j :: 0 <= i < |steps| && 0 <= j < |backends| && x == backends[j].getSnippet(steps[i]) {
      var i, j :| 0 <= i < |steps| && 0 <= j < |backends| && x == backends[j].getSnippet(steps[i]);
      AllSnippetsAt(steps, backends, i, j);
    }
  }

  /** Every listed snippet is some backend's snippet for some step. */
  lemma {:induction false} AllSnippetsSource(steps: seq<Step>, backends: seq<Backend>, x: string)
    requires x in AllSnippets(steps, backends)
    ensures exists i, j :: 0 <= i < |steps| && 0 <= j < |backends| && x == backends[j].getSnippet(steps[i])
    decreases |steps|
  {
    var n := |steps| - 1;
    var p := steps[..n];
    if x in AllSnippets(p, backends) {
      AllSnippetsSource(p, backends, x);
      var i, j :| 0 <= i < |p| && 0 <= j < |backends| && x == backends[j].getSnippet(p[i]);
      assert steps[i] == p[i];
    } else {
      var ss := StepSnippets(steps[n], backends);
      assert x in ss;
      var j :| 0 <= j < |ss| && ss[j] == x;
    }
  }
}
