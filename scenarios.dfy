/**
  Clients of the runtime that fix concrete backends and steps, and what the contracts of
  the runtime alone let them conclude.
*/
module Scenarios {
  import opened Wrappers
  import opened Gherkin
  import opened Backends
  import opened Matching
  import opened StepOrder
  import opened Snippets
  import opened CucumberRuntime

  /** A definition for the pattern "I have (\d+) cucumbers", as it behaves on the one text it matches here. */
  function CucumbersDefinition(): StepDefinition
  {
    StepDefinition((s: Step) => if s.name == "I have 3 cucumbers" then Some([Argument("3", 7)]) else None)
  }

  /**
    One backend with that definition: "I have 3 cucumbers" resolves to it with the one
    argument "3"; "the cucumber is green" matches nothing and is the one recorded step.
  */
  method OneBackend() returns (found: Resolution, missing: Resolution, recorded: seq<Step>)
    ensures found.Found? && found.m.arguments == [Argument("3", 7)]
    ensures missing == Undefined
    ensures |recorded| == 1 && recorded[0].name == "the cucumber is green"
  {
    var backend := Backend([CucumbersDefinition()], (s: Step) => "snippet");
    var runtime := new Runtime([backend]);
    var have := Step("Given ", "I have 3 cucumbers", 3);
    var green := Step("Then ", "the cucumber is green", 4);
    assert Hits([backend], have) == [Hit(0, 0, CucumbersDefinition(), [Argument("3", 7)])];
    assert Hits([backend], green) == [];
    found := runtime.ResolveStep("cukes.feature:3", have);
    missing := runtime.ResolveStep("cukes.feature:4", green);
    recorded := runtime.undefinedSteps;
  }

  /** Two backends that both define the pattern: the step is ambiguous, with one candidate per backend. */
  method TwoBackends() returns (outcome: Resolution)
    ensures outcome.Ambiguous? && outcome.stackTracePath == "cukes.feature:3"
    ensures outcome.step == Step("Given ", "I have 3 cucumbers", 3)
    ensures |outcome.matches| == 2
    ensures outcome.matches[0].arguments == outcome.matches[1].arguments == [Argument("3", 7)]
  {
    var backend := Backend([CucumbersDefinition()], (s: Step) => "snippet");
    var runtime := new Runtime([backend, backend]);
    var have := Step("Given ", "I have 3 cucumbers", 3);
    var hit := Hit(0, 0, CucumbersDefinition(), [Argument("3", 7)]);
    assert Hits([backend, backend][..1], have) == [hit];
    assert Hits([backend, backend], have) == [hit, hit.(backendIndex := 1)];
    outcome := runtime.ResolveStep("cukes.feature:3", have);
  }

  /** One undefined step and two backends with snippets "A" and "B": both are listed, in backend order. */
  method DistinctSnippets() returns (snippets: seq<string>)
    ensures snippets == ["A", "B"]
  {
    var step := Step("Given ", "I have 3 cucumbers", 3);
    var a, b := Backend([], (s: Step) => "A"), Backend([], (s: Step) => "B");
    snippets := SnippetsOfOneUndefinedStep(a, b, step);
    assert AllSnippets([step], [a, b]) == ["A", "B"];
    assert Dedup(["A", "B"][..1]) == ["A"];
  }

  /** One undefined step and two backends that both propose "A": it is listed once. */
  method SameSnippets() returns (snippets: seq<string>)
    ensures snippets == ["A"]
  {
    var step := Step("Given ", "I have 3 cucumbers", 3);
    var a := Backend([], (s: Step) => "A");
    snippets := SnippetsOfOneUndefinedStep(a, a, step);
    assert AllSnippets([step], [a, a]) == ["A", "A"];
    assert Dedup(["A", "A"][..1]) == ["A"];
  }

  /** Two backends without definitions: the step is recorded as undefined, and the snippets are generated. */
  method SnippetsOfOneUndefinedStep(a: Backend, b: Backend, step: Step) returns (snippets: seq<string>)
    requires a.stepDefinitions == [] && b.stepDefinitions == []
    ensures snippets == Dedup(AllSnippets([step], [a, b]))
  {
    var runtime := new Runtime([a, b]);
    assert Hits([a, b][..1], step) == [];
    assert Hits([a, b], step) == [];
    var r := runtime.ResolveStep("cukes.feature:3", step);
    assert runtime.undefinedSteps == [step];
    assert SortSteps([step]) == [step];
    snippets := runtime.GetSnippets();
  }

  /**
    The registry is created once and then kept: two reads give the same instance, and a
    read after a replacement gives the replacement.
  */
  method RegistryReads(runtime: Runtime, replacement: Transformers) returns (first: Transformers, second: Transformers, third: Transformers)
    modifies runtime
    ensures first == second
    ensures old(runtime.transformers) != null ==> first == old(runtime.transformers)
    ensures third == replacement && runtime.transformers == replacement
    ensures runtime.undefinedSteps == old(runtime.undefinedSteps)
  {
    first := runtime.GetTransformers();
    second := runtime.GetTransformers();
    runtime.SetTransformers(replacement);
    third := runtime.GetTransformers();
  }

  /** A new world sees the backends of its runtime and the runtime; the runtime does not change. */
  method WorldOfRuntime(runtime: Runtime) returns (w: World)
    ensures w.backends == runtime.backends && w.runtime == runtime
    ensures runtime.undefinedSteps == old(runtime.undefinedSteps) && runtime.transformers == old(runtime.transformers)
  {
    w := runtime.NewWorld();
  }
}
