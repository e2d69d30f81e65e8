/**
  The runtime: it resolves a step to the one step definition that matches it, records the
  steps that nothing matches, reports the steps that several definitions match, and turns
  the recorded steps into snippets.
*/
module CucumberRuntime {
  import opened Wrappers
  import opened Gherkin
  import opened Backends
  import opened Matching
  import opened StepOrder
  import opened Snippets

  /** The registry that converts captured arguments to typed values; only its identity matters here. */
  class Transformers {
    constructor ()
    {
    }
  }

  /** One step bound to one definition that matched it, with the registry used to invoke it. */
  datatype StepDefinitionMatch = StepDefinitionMatch(
    arguments: seq<Argument>,
    stepDefinition: StepDefinition,
    step: Step,
    transformers: Transformers)

  /**
    The three outcomes of resolving a step: the one match, no match at all (Java returns
    null), or an `AmbiguousStepDefinitionsException` with every candidate.
  */
  datatype Resolution =
    | Found(m: StepDefinitionMatch)
    | Undefined
    | Ambiguous(stackTracePath: string, step: Step, matches: seq<StepDefinitionMatch>)

  /** The candidates built for the hits of a step, all holding the registry `t`. */
  ghost function Candidates(hits: seq<Hit>, step: Step, t: Transformers): seq<StepDefinitionMatch>
  {
    seq(|hits|, k requires 0 <= k < |hits| => StepDefinitionMatch(hits[k].arguments, hits[k].definition, step, t))
  }

  /** `built` pairs off with `hits`, every entry holding the registry `t`. */
  ghost predicate BuiltFrom(built: seq<StepDefinitionMatch>, hits: seq<Hit>, step: Step, t: Transformers?)
  {
    |built| == |hits| &&
    forall k :: 0 <= k < |built| ==>
      built[k].arguments == hits[k].arguments && built[k].stepDefinition == hits[k].definition &&
      built[k].step == step && built[k].transformers == t
  }

  /**
    How building candidates treats the registry: an existing one is kept, and one exists
    once a candidate has been built.
  */
  ghost predicate RegistryKept(built: seq<StepDefinitionMatch>, initial: Transformers?, current: Transformers?)
  {
    (built == [] ==> current == initial) &&
    (built != [] ==> current != null) &&
    (initial != null ==> current == initial)
  }

  /** One more candidate, built from one more hit with the same registry, keeps the pairing. */
  lemma BuiltFromNext(built: seq<StepDefinitionMatch>, hits: seq<Hit>, step: Step, t: Transformers?,
                      m: StepDefinitionMatch, h: Hit)
    requires BuiltFrom(built, hits, step, t) && (built == [] || built[0].transformers == m.transformers)
    requires m.arguments == h.arguments && m.stepDefinition == h.definition && m.step == step
    ensures BuiltFrom(built + [m], hits + [h], step, m.transformers)
  {
  }

  /** A pairing with a registry that exists is the candidate list for that registry. */
  lemma BuiltFromCandidates(built: seq<StepDefinitionMatch>, hits: seq<Hit>, step: Step, t: Transformers)
    requires BuiltFrom(built, hits, step, t)
    ensures built == Candidates(hits, step, t)
  {
  }

  /** A per-scenario context: the runtime's backends and the runtime itself. */
  class World {
    const backends: seq<Backend>
    const runtime: Runtime

    constructor (backends: seq<Backend>, runtime: Runtime)
      ensures this.backends == backends && this.runtime == runtime
    {
      this.backends := backends;
      this.runtime := runtime;
    }
  }

  class Runtime {
    const backends: seq<Backend>
    var undefinedSteps: seq<Step>
    var transformers: Transformers?

    /** The backends come from the caller, in the order given. */
    constructor (backends: seq<Backend>)
      ensures this.backends == backends
      ensures undefinedSteps == [] && transformers == null
    {
      this.backends := backends;
      undefinedSteps := [];
      transformers := null;
    }

    /**
      `stepDefinitionMatch`: the one candidate, or no match (and the step is recorded as
      undefined), or an ambiguity carrying every candidate. Only the zero-candidate outcome
      changes `undefinedSteps`; only building a candidate can create the registry.
    */
    method ResolveStep(stackTracePath: string, step: Step) returns (r: Resolution)
      modifies this`undefinedSteps, this`transformers
      ensures var hits := Hits(backends, step);
        if hits == [] then
          r == Undefined && undefinedSteps == old(undefinedSteps) + [step] &&
          transformers == old(transformers)
        else
          undefinedSteps == old(undefinedSteps) &&
          transformers != null &&
          (old(transformers) != null ==> transformers == old(transformers)) &&
          (old(transformers) == null ==> fresh(transformers)) &&
          if |hits| == 1 then
            r == Found(StepDefinitionMatch(hits[0].arguments, hits[0].definition, step, transformers))
          else
            r == Ambiguous(stackTracePath, step, Candidates(hits, step, transformers))
    {
      var matches := StepDefinitionMatches(step);
      if |matches| == 0 {
        undefinedSteps := undefinedSteps + [step];
        return Undefined;
      }
      if |matches| == 1 {
        r := Found(matches[0]);
      } else {
        r := Ambiguous(stackTracePath, step, matches);
      }
    }

    /**
      `stepDefinitionMatches`: one candidate per matching (backend, definition) pair, in
      visiting order, each carrying that definition's arguments, the step and the registry.
    */
    method StepDefinitionMatches(step: Step) returns (result: seq<StepDefinitionMatch>)
      modifies this`transformers
      ensures var hits := Hits(backends, step);
        |result| == |hits| &&
        (hits == [] ==> transformers == old(transformers)) &&
        (hits != [] ==>
          transformers != null && result == Candidates(hits, step, transformers) &&
          (old(transformers) != null ==> transformers == old(transformers)) &&
          (old(transformers) == null ==> fresh(transformers)))
    {
      ghost var initial := transformers;
      ghost var hits: seq<Hit> := [];
      result := [];
      var i := 0;
      while i < |backends|
        invariant 0 <= i <= |backends|
        invariant hits == Hits(backends[..i], step)
        invariant BuiltFrom(result, hits, step, transformers)
        invariant RegistryKept(result, initial, transformers)
        invariant transformers != initial ==> fresh(transformers)
      {
        result, hits := BackendMatches(i, step, result, hits);
        HitsNext(backends, i, step);
        i := i + 1;
      }
      assert backends[..|backends|] == backends;
      if result != [] {
        BuiltFromCandidates(result, hits, step, transformers);
      }
    }

    /** The inner loop of `stepDefinitionMatches`: appends the candidates from the definitions of backend `i`. */
    method BackendMatches(i: nat, step: Step, result0: seq<StepDefinitionMatch>, ghost hits0: seq<Hit>)
      returns (result: seq<StepDefinitionMatch>, ghost hits: seq<Hit>)
      requires i < |backends|
      requires BuiltFrom(result0, hits0, step, transformers)
      requires result0 != [] ==> transformers != null
      modifies this`transformers
      ensures hits == hits0 + DefinitionHits(i, backends[i].stepDefinitions, step)
      ensures BuiltFrom(result, hits, step, transformers)
      ensures RegistryKept(result, old(transformers), transformers) && (result0 != [] ==> result != [])
      ensures transformers != old(transformers) ==> fresh(transformers)
    {
      var definitions := backends[i].stepDefinitions;
      result, hits := result0, hits0;
      var j := 0;
      while j < |definitions|
        invariant 0 <= j <= |definitions|
        invariant hits == hits0 + DefinitionHits(i, definitions[..j], step)
        invariant BuiltFrom(result, hits, step, transformers)
        invariant |result| >= |result0|
        invariant result != [] ==> transformers != null
        invariant |result| == |result0| ==> transformers == old(transformers)
        invariant old(transformers) != null ==> transformers == old(transformers)
        invariant transformers != old(transformers) ==> fresh(transformers)
      {
        var arguments := definitions[j].matchedArguments(step);
        DefinitionHitsNext(i, definitions, j, step);
        if arguments.Some? {
          var t := GetTransformers();
          var m := StepDefinitionMatch(arguments.value, definitions[j], step, t);
          ghost var h := Hit(i, j, definitions[j], arguments.value);
          BuiltFromNext(result, hits, step, t, m, h);
          hits := hits + [h];
          result := result + [m];
        }
        j := j + 1;
      }
      assert definitions[..|definitions|] == definitions;
    }

    /**
      `getSnippets`: sorts the recorded steps in place, then lists every backend's snippet
      for every step in that order, each distinct text once, at its first occurrence.
    */
    method GetSnippets() returns (snippets: seq<string>)
      modifies this`undefinedSteps
      ensures undefinedSteps == SortSteps(old(undefinedSteps))
      ensures Sorted(undefinedSteps) && multiset(undefinedSteps) == multiset(old(undefinedSteps))
      ensures snippets == Dedup(AllSnippets(undefinedSteps, backends))
      ensures NoDuplicates(snippets)
      ensures forall s :: s in snippets <==> s in AllSnippets(undefinedSteps, backends)
    {
      undefinedSteps := SortSteps(undefinedSteps);
      SortStepsSorted(old(undefinedSteps));
      SortStepsPermutation(old(undefinedSteps));
      snippets := [];
      var i := 0;
      while i < |undefinedSteps|
        invariant 0 <= i <= |undefinedSteps|
        invariant undefinedSteps == SortSteps(old(undefinedSteps))
        invariant snippets == Dedup(AllSnippets(undefinedSteps[..i], backends))
      {
        var step := undefinedSteps[i];
        ghost var done := AllSnippets(undefinedSteps[..i], backends);
        assert done + StepSnippets(step, backends)[..0] == done;
        var j := 0;
        while j < |backends|
          invariant 0 <= j <= |backends|
          invariant undefinedSteps == SortSteps(old(undefinedSteps))
          invariant snippets == Dedup(done + StepSnippets(step, backends)[..j])
        {
          var snippet := backends[j].getSnippet(step);
          DedupNextSnippet(done, step, backends, j);
          if snippet !in snippets {
            snippets := snippets + [snippet];
          }
          j := j + 1;
        }
        assert StepSnippets(step, backends)[..|backends|] == StepSnippets(step, backends);
        AllSnippetsPrefix(undefinedSteps, backends, i);
        i := i + 1;
      }
      assert undefinedSteps[..|undefinedSteps|] == undefinedSteps;
      DedupNoDuplicates(AllSnippets(undefinedSteps, backends));
      DedupElements(AllSnippets(undefinedSteps, backends));
    }

    /** `newWorld`: a new World over this runtime's backends and this runtime; nothing here changes. */
    method NewWorld() returns (w: World)
      ensures fresh(w) && w.backends == backends && w.runtime == this
    {
      w := new World(backends, this);
    }

    /** `getTransformers`: the registry, created and kept on first use. */
    method GetTransformers() returns (t: Transformers)
      modifies this`transformers
      ensures transformers == t
      ensures old(transformers) != null ==> t == old(transformers)
      ensures old(transformers) == null ==> fresh(t)
    {
      if transformers == null {
        transformers := new Transformers();
      }
      t := transformers;
    }

    /** `setTransformers`: replaces the registry, with no check of the new value. */
    method SetTransformers(transformers: Transformers?)
      modifies this`transformers
      ensures this.transformers == transformers
    {
      this.transformers := transformers;
    }
  }
}
