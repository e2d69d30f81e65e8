/**
  The two capabilities the runtime consumes from a glue provider. Both are kept as values:
  the pattern matching and the code templating a provider does are total functions supplied
  with the value, and the runtime only calls them.
*/
module Backends {
  import opened Wrappers
  import opened Gherkin

  /**
    One registered binding of a pattern to glue code. `matchedArguments` is the provider's
    match of one step: `None` where the Java interface returns null (the definition does not
    apply), otherwise the arguments it captured, in order.
  */
  datatype StepDefinition = StepDefinition(matchedArguments: Step -> Option<seq<Argument>>)

  /**
    One provider of glue code: its step definitions, in registration order, and its snippet
    generator for a step that nothing matched.
  */
  datatype Backend = Backend(stepDefinitions: seq<StepDefinition>, getSnippet: Step -> string)
}
