/**
 * Regular expressions are foreign code for this model: the path compiler
 * validates patterns with the regexp2 library, the navigator and the engine
 * use Go's `regexp` package. Each engine is a parameter of the operations
 * that use it, given by three total functions, and nothing is assumed about
 * how the two dialects relate.
 */
module Regex {

  datatype Dialect = Dialect(
    /** the pattern compiles */
    valid: string -> bool,
    /** `matches(pattern, s)`: the pattern matches somewhere in s */
    matches: (string, string) -> bool,
    /** `replaceAll(pattern, s, replacement)`: every match in s replaced, with group expansion */
    replaceAll: (string, string, string) -> string
  )

  /** Go's `regexp.MatchString`: a pattern that does not compile reports an error, read as no match. */
  predicate MatchString(d: Dialect, pattern: string, s: string)
  {
    d.valid(pattern) && d.matches(pattern, s)
  }
}
