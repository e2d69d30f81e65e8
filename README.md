# Step dispatch in the cucumber-jvm runtime

This project models the core of `cucumber.runtime.Runtime`, the class that decides which
step definition runs a Gherkin step. For one step it asks every step definition of every
backend whether it matches, and resolves the step to one of three outcomes:

- exactly one match, which it returns;
- no match, and the step is recorded as undefined;
- several matches, an ambiguity failure that lists every candidate.

It also has three smaller jobs:

- It turns the recorded undefined steps into code snippets. It sorts the steps by
  keyword and name, asks every backend for a snippet for every step, and drops repeated
  texts.
- It creates the argument-transformer registry lazily, and lets it be replaced.
- It builds a new `World` for each scenario.

Modules, leaves first:

- `Wrappers` holds `Option`, which stands for a Java reference that may be null.
- `Gherkin` holds the parser's values, `Step` and `Argument`.
- `Backends` holds `StepDefinition` and `Backend` as datatypes. Each carries the provider's
  own matching (`matchedArguments`) or templating (`getSnippet`) as a total function.
- `StepOrder` holds Java's `String.compareTo`, the `(keyword, name)` comparator of
  `getSnippets`, and the sort standing for `Collections.sort`.
- `Matching` holds `Hits`, which lists the (backend, definition) pairs that match a step,
  in visiting order.
- `Snippets` holds `AllSnippets` (every backend's snippet for every step) and `Dedup`
  (order-preserving de-duplication), with a definition of de-duplication that does not
  use `Dedup`.
- `CucumberRuntime` holds the classes `Runtime`, `World` and `Transformers`, and the
  datatypes `StepDefinitionMatch` and `Resolution`.
- `Scenarios` holds clients that run the runtime on concrete backends and steps.

`Runtime` is a class. `undefinedSteps` is a `seq<Step>` field: resolving appends to it,
and `GetSnippets` replaces it with its sorted value. `transformers` is a nullable field.
The two nested `for` loops of `stepDefinitionMatches` are `while` loops. The outer one is
in `StepDefinitionMatches`. The inner one, over one backend's definitions, is in its own
method, `BackendMatches`. The nested loops of `getSnippets` are both in `GetSnippets`.

Each loop method is proved against a specification function (`Hits`, or
`Dedup(AllSnippets(..))`). The lemmas of `Matching`, `StepOrder` and `Snippets` prove
what the source promises about those functions.

The thrown `AmbiguousStepDefinitionsException` is the `Ambiguous` case of `Resolution`.
The `null` that `stepDefinitionMatch` returns for an undefined step is the `Undefined`
case.

`getSnippets` sorts the `undefinedSteps` field itself, in place (Runtime.java line 60),
so the order persists after the call. `GetSnippets` does the same and leaves
`undefinedSteps` sorted.

## Model

| member | source | states |
|---|---|---|
| `CucumberRuntime.Runtime.constructor` | core/src/main/java/cucumber/runtime/Runtime.java:20-22 | the runtime keeps the given backends, in order; no step is recorded yet and there is no registry yet |
| `CucumberRuntime.Runtime.ResolveStep` | core/src/main/java/cucumber/runtime/Runtime.java:28-39 | zero candidates: `Undefined`, the step appended once to `undefinedSteps`, registry untouched; one candidate: that candidate, `undefinedSteps` unchanged; two or more: `Ambiguous` with the given stack-trace path, the step and the full candidate list in visiting order, `undefinedSteps` unchanged; the registry is created only if a candidate is built and an existing one is kept |
| `CucumberRuntime.Runtime.StepDefinitionMatches` | core/src/main/java/cucumber/runtime/Runtime.java:41-52 | the result has one candidate per hit of `Hits`, in the same order, each holding the definition's arguments, the definition, the step and one and the same registry; the registry is untouched when nothing matches |
| `CucumberRuntime.Runtime.BackendMatches` | core/src/main/java/cucumber/runtime/Runtime.java:44-49 | the inner loop appends exactly one candidate for each of the backend's definitions that returns arguments, in definition order, and keeps a registry once it exists |
| `CucumberRuntime.Runtime.GetSnippets` | core/src/main/java/cucumber/runtime/Runtime.java:58-81 | `undefinedSteps` becomes its sorted permutation; the result is the de-duplication of every backend's snippet for every step in sorted order, has no repeats, and holds exactly the snippets some backend proposes for some recorded step |
| `CucumberRuntime.Runtime.NewWorld` | core/src/main/java/cucumber/runtime/Runtime.java:83-85 | a new `World` holding the runtime's backends and the runtime; the runtime does not change |
| `CucumberRuntime.World.constructor` | core/src/main/java/cucumber/runtime/Runtime.java:84 | the world holds the backends and the runtime it is given |
| `CucumberRuntime.Runtime.GetTransformers` | core/src/main/java/cucumber/runtime/Runtime.java:87-92 | returns the stored registry when there is one, otherwise a new one that is stored |
| `CucumberRuntime.Runtime.SetTransformers` | core/src/main/java/cucumber/runtime/Runtime.java:94-96 | the registry becomes the given value, null included |
| `CucumberRuntime.BuiltFromNext` | core/src/main/java/cucumber/runtime/Runtime.java:46-48 | appending a candidate built from one more hit, with the registry the earlier candidates hold, keeps candidates and hits paired |
| `CucumberRuntime.BuiltFromCandidates` | core/src/main/java/cucumber/runtime/Runtime.java:47 | candidates paired with the hits, all holding one registry, are the candidate list for that registry |
| `Matching.DefinitionHitsNext` | core/src/main/java/cucumber/runtime/Runtime.java:44-49 | unfolds `DefinitionHits` by one step at a prefix, as the inner loop visits definition `j`: one more definition adds a hit exactly when it returns arguments, carrying them |
| `Matching.HitsNext` | core/src/main/java/cucumber/runtime/Runtime.java:43-50 | unfolds `Hits` by one step at a prefix, as the outer loop visits backend `i`: that backend's hits follow those of the earlier backends |
| `Matching.DefinitionHitsSound` | core/src/main/java/cucumber/runtime/Runtime.java:44-49 | within one backend, every hit names that backend, an existing definition that returned exactly the hit's arguments, and hits are in increasing definition order |
| `Matching.DefinitionHitsComplete` | core/src/main/java/cucumber/runtime/Runtime.java:44-49 | every definition of the backend that returns arguments yields a hit |
| `Matching.HitsSound` | core/src/main/java/cucumber/runtime/Runtime.java:41-52 | every candidate comes from an existing (backend, definition) pair that matched, with that definition and its arguments |
| `Matching.HitsOrdered` | core/src/main/java/cucumber/runtime/Runtime.java:43-44 | candidates appear in backend order, then in definition order, strictly |
| `Matching.HitsComplete` | core/src/main/java/cucumber/runtime/Runtime.java:41-52 | every (backend, definition) pair whose definition returns arguments yields a candidate |
| `Matching.HitsExactlyTheMatches` | core/src/main/java/cucumber/runtime/Runtime.java:41-52 | a pair matches if and only if a candidate records it, and no two candidates record the same pair |
| `StepOrder.CompareStringsAntisymmetric` | core/src/main/java/cucumber/runtime/Runtime.java:62 | `String.compareTo` with its arguments swapped gives the negated value |
| `StepOrder.CompareStringsZero` | core/src/main/java/cucumber/runtime/Runtime.java:63 | `String.compareTo` is zero if and only if the strings are equal |
| `StepOrder.CompareStringsTransitive` | core/src/main/java/cucumber/runtime/Runtime.java:62-64 | `String.compareTo` is transitive as a "not greater" relation |
| `StepOrder.CompareStringsLexicographic` | core/src/main/java/cucumber/runtime/Runtime.java:62-64 | `String.compareTo` is negative if and only if the first string is lexicographically smaller (a proper prefix, or a smaller character after a common prefix) |
| `StepOrder.LexLessTail` | core/src/main/java/cucumber/runtime/Runtime.java:62-64 | strings with the same first character are ordered as their tails are |
| `StepOrder.CompareStepsAntisymmetric` | core/src/main/java/cucumber/runtime/Runtime.java:61-68 | the step comparator with its arguments swapped gives the negated value |
| `StepOrder.CompareStepsLexicographic` | core/src/main/java/cucumber/runtime/Runtime.java:61-68 | the comparator is negative if and only if the keyword is smaller, or the keywords are equal and the name is smaller; it is zero if and only if keyword and name are both equal |
| `StepOrder.CompareStepsTransitive` | core/src/main/java/cucumber/runtime/Runtime.java:61-68 | the comparator is transitive, so it is a total preorder a sort can use |
| `StepOrder.InsertElements` | core/src/main/java/cucumber/runtime/Runtime.java:60 | inserting a step adds exactly that step |
| `StepOrder.InsertSorted` | core/src/main/java/cucumber/runtime/Runtime.java:60 | inserting into a sorted list keeps it sorted |
| `StepOrder.SortStepsSorted` | core/src/main/java/cucumber/runtime/Runtime.java:60-69 | after the sort every step comes no later, by the comparator, than every step after it |
| `StepOrder.SortStepsPermutation` | core/src/main/java/cucumber/runtime/Runtime.java:60 | the sort neither loses nor adds a step (equal multisets) |
| `Snippets.FirstIndex` | core/src/main/java/cucumber/runtime/Runtime.java:75 | the position of a string's first occurrence: it holds the string and no earlier position does |
| `Snippets.DedupSnoc` | core/src/main/java/cucumber/runtime/Runtime.java:75-77 | unfolds `Dedup` by one step: offering one more snippet adds it at the end exactly when it is not already listed |
| `Snippets.DedupNextSnippet` | core/src/main/java/cucumber/runtime/Runtime.java:73-77 | unfolds `Dedup` by one step at the inner loop's prefix: offering backend `j`'s snippet after those of the earlier backends keeps it only if it is new |
| `Snippets.DedupElements` | core/src/main/java/cucumber/runtime/Runtime.java:71-80 | the de-duplication holds exactly the strings of its input |
| `Snippets.DedupNoDuplicates` | core/src/main/java/cucumber/runtime/Runtime.java:75-76 | the de-duplication never lists a string twice |
| `Snippets.DedupFirstOccurrenceOrder` | core/src/main/java/cucumber/runtime/Runtime.java:71-80 | the de-duplication lists strings in the order of their first occurrences in the input |
| `Snippets.DedupIsDedupOf` | core/src/main/java/cucumber/runtime/Runtime.java:71-80 | `Dedup` meets the reference definition of an order-preserving de-duplication |
| `Snippets.DedupUnique` | core/src/main/java/cucumber/runtime/Runtime.java:71-80 | any list that meets the reference definition is `Dedup` of the input, so the two definitions agree |
| `Snippets.UniqueRepeatedLast` | core/src/main/java/cucumber/runtime/Runtime.java:75 | a repeated last snippet changes nothing in a de-duplication |
| `Snippets.UniqueNewLast` | core/src/main/java/cucumber/runtime/Runtime.java:75-76 | a new last snippet ends a de-duplication, after a de-duplication of the rest |
| `Snippets.AllSnippetsPrefix` | core/src/main/java/cucumber/runtime/Runtime.java:72-78 | unfolds `AllSnippets` by one step at a prefix, as the outer loop moves to step `i`: that step's snippets, in backend order, go at the end |
| `Snippets.AllSnippetsLength` | core/src/main/java/cucumber/runtime/Runtime.java:72-74 | there is one snippet per (step, backend) pair before de-duplication |
| `Snippets.AllSnippetsAt` | core/src/main/java/cucumber/runtime/Runtime.java:72-74 | with n backends, position `i * n + j` holds backend `j`'s snippet for step `i`: step order first, then backend order |
| `Snippets.AllSnippetsSource` | core/src/main/java/cucumber/runtime/Runtime.java:72-74 | every listed snippet is some backend's snippet for some step |
| `Snippets.AllSnippetsElements` | core/src/main/java/cucumber/runtime/Runtime.java:72-74 | a string is listed if and only if some backend proposes it for some step |
| `Scenarios.OneBackend` | core/src/main/java/cucumber/runtime/Runtime.java:28-35 | with one matching definition, "I have 3 cucumbers" resolves to it with the one argument "3"; "the cucumber is green" is undefined and is the one recorded step |
| `Scenarios.TwoBackends` | core/src/main/java/cucumber/runtime/Runtime.java:36-38 | two backends that match the same step give an ambiguity with two candidates and the given path |
| `Scenarios.SnippetsOfOneUndefinedStep` | core/src/main/java/cucumber/runtime/Runtime.java:28-33 | a step nothing matches is recorded, and its snippets are the de-duplication of the two backends' snippets |
| `Scenarios.DistinctSnippets` | core/src/main/java/cucumber/runtime/Runtime.java:72-79 | backends proposing "A" and "B" give `["A", "B"]` |
| `Scenarios.SameSnippets` | core/src/main/java/cucumber/runtime/Runtime.java:75-77 | two backends both proposing "A" give `["A"]` |
| `Scenarios.RegistryReads` | core/src/main/java/cucumber/runtime/Runtime.java:87-96 | two reads give the same registry, the stored one if there was one; a read after a replacement gives the replacement |
| `Scenarios.WorldOfRuntime` | core/src/main/java/cucumber/runtime/Runtime.java:83-85 | a new world sees its runtime's backends and the runtime, and the runtime's fields do not change |

## Left out

- The `Runtime(String packageName)` constructor (Runtime.java lines 24-26) is not modelled. It finds backends by scanning the classpath. The model takes the backend list as a constructor argument, as lines 20-22 do.
- How a step definition matches text and how a backend writes a snippet are not modelled. Both belong to the providers. Each is a total function carried by the `StepDefinition` or `Backend` value.
- A provider that throws is not modelled, since those functions are total. So an exception thrown out of `matchedArguments` or `getSnippet` is not modelled either.
- `Transformers`, `World`, `StepDefinitionMatch` and `AmbiguousStepDefinitionsException` are classes that are not part of this model. `Transformers` is modelled as an empty class. `Runtime` only creates, stores and passes on the instance, so only its identity matters here. `World` holds only what `newWorld` passes in. The exception is the `Ambiguous` case of `Resolution`, and its message text is not modelled.
- The TODO about turning "And"/"But" into the keyword above (line 59) is not behaviour, so it is left out.
- `StepOrder.CompareStrings` works on Dafny `char` values, which are Unicode scalar values. Java's `compareTo` works on UTF-16 code units. The two orders differ only for strings that hold characters outside the Basic Multilingual Plane.
- `StepOrder.SortSteps` is an insertion sort standing for `Collections.sort`. Only sortedness and permutation are proved. That it orders equal-comparing steps as Java's stable sort does is not proved. Such steps differ only in line number.
- Unsynchronised access to `undefinedSteps` and `transformers` from several threads is not modelled. Concurrency is out of scope.
- A `null` step or a `null` backend passed by a caller is not modelled. Steps and backends are values.
