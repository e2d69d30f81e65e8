/**
  Which (backend, step definition) pairs match a step, in the order `stepDefinitionMatches`
  visits them: backend by backend, and within a backend definition by definition.
*/
module Matching {
  import opened Wrappers
  import opened Gherkin
  import opened Backends

  /** A definition that matched: where it is registered and what it captured. */
  datatype Hit = Hit(backendIndex: nat, definitionIndex: nat, definition: StepDefinition, arguments: seq<Argument>)

  /** The hits among `defs`, the definitions of backend number `b`, in definition order. */
  function DefinitionHits(b: nat, defs: seq<StepDefinition>, step: Step): seq<Hit>
    decreases |defs|
  {
    if defs == [] then []
    else
      var j := |defs| - 1;
      DefinitionHits(b, defs[..j], step) +
      match defs[j].matchedArguments(step)
      case None => []
      case Some(args) => [Hit(b, j, defs[j], args)]
  }

  /** The hits among all definitions of all backends, in the order they are visited. */
  function Hits(backends: seq<Backend>, step: Step): seq<Hit>
    decreases |backends|
  {
    if backends == [] then []
    else
      var i := |backends| - 1;
      Hits(backends[..i], step) + DefinitionHits(i, backends[i].stepDefinitions, step)
  }

  /** Definition `d` of backend `b` exists and matches the step. */
  ghost predicate Matches(backends: seq<Backend>, step: Step, b: nat, d: nat)
  {
    b < |backends| && d < |backends[b].stepDefinitions| &&
    backends[b].stepDefinitions[d].matchedArguments(step).Some?
  }

  /** The hit records a registered definition that matched, with what it captured. */
  ghost predicate Genuine(backends: seq<Backend>, step: Step, h: Hit)
  {
    Matches(backends, step, h.backendIndex, h.definitionIndex) &&
    h.definition == backends[h.backendIndex].stepDefinitions[h.definitionIndex] &&
    h.definition.matchedArguments(step) == Some(h.arguments)
  }

  /** `h` is visited before `k`: an earlier backend, or the same backend and an earlier definition. */
  ghost predicate Before(h: Hit, k: Hit)
  {
    h.backendIndex < k.backendIndex ||
    (h.backendIndex == k.backendIndex && h.definitionIndex < k.definitionIndex)
  }

  /** What visiting definition `j` adds to the hits of the definitions before it. */
  lemma DefinitionHitsNext(b: nat, defs: seq<StepDefinition>, j: nat, step: Step)
    requires j < |defs|
    ensures DefinitionHits(b, defs[..j + 1], step) ==
              DefinitionHits(b, defs[..j], step) +
              match defs[j].matchedArguments(step)
              case None => []
              case Some(args) => [Hit(b, j, defs[j], args)]
  {
    assert defs[..j + 1][..j] == defs[..j];
  }

  /** What visiting backend `i` adds to the hits of the backends before it. */
  lemma HitsNext(backends: seq<Backend>, i: nat, step: Step)
    requires i < |backends|
    ensures Hits(backends[..i + 1], step) == Hits(backends[..i], step) + DefinitionHits(i, backends[i].stepDefinitions, step)
  {
    assert backends[..i + 1][..i] == backends[..i];
  }

  lemma {:induction false} DefinitionHitsSound(b: nat, defs: seq<StepDefinition>, step: Step)
    ensures forall k :: 0 <= k < |DefinitionHits(b, defs, step)| ==>
              var h := DefinitionHits(b, defs, step)[k];
              h.backendIndex == b && h.definitionIndex < |defs| &&
              h.definition == defs[h.definitionIndex] && h.definition.matchedArguments(step) == Some(h.arguments)
    ensures forall k, l :: 0 <= k < l < |DefinitionHits(b, defs, step)| ==>
              DefinitionHits(b, defs, step)[k].definitionIndex < DefinitionHits(b, defs, step)[l].definitionIndex
    decreases |defs|
  {
    if defs != [] {
      DefinitionHitsSound(b, defs[..|defs| - 1], step);
    }
  }

  lemma {:induction false} DefinitionHitsComplete(b: nat, defs: seq<StepDefinition>, step: Step, d: nat)
    requires d < |defs| && defs[d].matchedArguments(step).Some?
    ensures exists k :: 0 <= k < |DefinitionHits(b, defs, step)| &&
              DefinitionHits(b, defs, step)[k].backendIndex == b && DefinitionHits(b, defs, step)[k].definitionIndex == d
    decreases |defs|
  {
    var j := |defs| - 1;
    var prefix := DefinitionHits(b, defs[..j], step);
    if d < j {
      DefinitionHitsComplete(b, defs[..j], step, d);
      var k :| 0 <= k < |prefix| && prefix[k].backendIndex == b && prefix[k].definitionIndex == d;
      assert DefinitionHits(b, defs, step)[k] == prefix[k];
    } else {
      assert DefinitionHits(b, defs, step)[|prefix|] == Hit(b, d, defs[d], defs[d].matchedArguments(step).value);
    }
  }

  /** Every candidate comes from a registered definition that matched, and carries its arguments. */
  lemma {:induction false} HitsSound(backends: seq<Backend>, step: Step)
    ensures forall k :: 0 <= k < |Hits(backends, step)| ==> Genuine(backends, step, Hits(backends, step)[k])
    decreases |backends|
  {
    if backends != [] {
      var i := |backends| - 1;
      var prefix := backends[..i];
      HitsSound(prefix, step);
      DefinitionHitsSound(i, backends[i].stepDefinitions, step);
      var hits := Hits(backends, step);
      forall k | 0 <= k < |hits|
        ensures Genuine(backends, step, hits[k])
      {
        if k < |Hits(prefix, step)| {
          assert hits[k] == Hits(prefix, step)[k];
          assert backends[hits[k].backendIndex] == prefix[hits[k].backendIndex];
        } else {
          assert hits[k] == DefinitionHits(i, backends[i].stepDefinitions, step)[k - |Hits(prefix, step)|];
        }
      }
    }
  }

  /** Candidates are in backend order, then in definition order, so no pair is listed twice. */
  lemma {:induction false} HitsOrdered(backends: seq<Backend>, step: Step)
    ensures forall k, l :: 0 <= k < l < |Hits(backends, step)| ==>
              Before(Hits(backends, step)[k], Hits(backends, step)[l])
    decreases |backends|
  {
    if backends != [] {
      var i := |backends| - 1;
      var prefix := backends[..i];
      var front := Hits(prefix, step);
      var back := DefinitionHits(i, backends[i].stepDefinitions, step);
      HitsOrdered(prefix, step);
      HitsSound(prefix, step);
      DefinitionHitsSound(i, backends[i].stepDefinitions, step);
      var hits := Hits(backends, step);
      forall k, l | 0 <= k < l < |hits|
        ensures Before(hits[k], hits[l])
      {
        if l < |front| {
          assert hits[k] == front[k] && hits[l] == front[l];
        } else if k < |front| {
          assert hits[k] == front[k] && Genuine(prefix, step, front[k]);
          assert hits[l] == back[l - |front|];
        } else {
          assert hits[k] == back[k - |front|] && hits[l] == back[l - |front|];
        }
      }
    }
  }

  /** Every registered definition that matches the step yields a candidate. */
  lemma {:induction false} HitsComplete(backends: seq<Backend>, step: Step, b: nat, d: nat)
    requires Matches(backends, step, b, d)
    ensures exists k :: 0 <= k < |Hits(backends, step)| &&
              Hits(backends, step)[k].backendIndex == b && Hits(backends, step)[k].definitionIndex == d
    decreases |backends|
  {
    var i := |backends| - 1;
    var prefix := backends[..i];
    var front := Hits(prefix, step);
    var hits := Hits(backends, step);
    if b < i {
      assert prefix[b] == backends[b];
      HitsComplete(prefix, step, b, d);
      var k :| 0 <= k < |front| && front[k].backendIndex == b && front[k].definitionIndex == d;
      assert hits[k] == front[k];
    } else {
      var back := DefinitionHits(i, backends[i].stepDefinitions, step);
      DefinitionHitsComplete(i, backends[i].stepDefinitions, step, d);
      var k :| 0 <= k < |back| && back[k].backendIndex == i && back[k].definitionIndex == d;
      assert hits[|front| + k] == back[k];
    }
  }

  /**
    The candidates are exactly the matching (backend, definition) pairs, one each: a pair
    matches if and only if some candidate records it, and then exactly one does.
  */
  lemma HitsExactlyTheMatches(backends: seq<Backend>, step: Step, b: nat, d: nat)
    ensures Matches(backends, step, b, d) <==>
              exists k :: 0 <= k < |Hits(backends, step)| &&
                Hits(backends, step)[k].backendIndex == b && Hits(backends, step)[k].definitionIndex == d
    ensures forall k, l :: 0 <= k < l < |Hits(backends, step)| ==>
              !(Hits(backends, step)[k].backendIndex == Hits(backends, step)[l].backendIndex &&
                Hits(backends, step)[k].definitionIndex == Hits(backends, step)[l].definitionIndex)
  {
    HitsSound(backends, step);
    HitsOrdered(backends, step);
    if Matches(backends, step, b, d) {
      HitsComplete(backends, step, b, d);
    }
  }
}
