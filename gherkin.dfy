/** The values the Gherkin parser hands to the runtime. The runtime never changes them. */
module Gherkin {

  /** A substring that a step definition captured from a step's text, with its offset in that text. */
  datatype Argument = Argument(val: string, offset: int)

  /** One line of a scenario: its keyword ("Given ", "When ", ...), its text, and its line number. */
  datatype Step = Step(keyword: string, name: string, line: int)
}
