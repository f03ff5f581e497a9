/**
 * The compiled form of a path expression such as
 * `spec.containers[name=nginx].image`.
 */
module PathTypes {

  /**
   * Comparison of a condition selector. The Go declaration lists only
   * Equal and NotEqual, but the parser emits a regex operator as well,
   * so Regex is added here as the third operator.
   */
  datatype Operator = Equal | NotEqual | Regex

  /** `field op value`, where value is the literal text or the regex pattern. */
  datatype Condition = Condition(field: string, op: Operator, value: string)

  /** How an array segment chooses among the elements of a sequence. */
  datatype Selector =
    | Wildcard
    | Index(index: int)
    | Cond(cond: Condition)

  /**
   * One step of a path: plain member access, or member access that must
   * reach a sequence, followed by a selector. A field segment has no
   * selector at all.
   */
  datatype Segment =
    | Field(field: string)
    | Array(field: string, selector: Selector)

  /** The compiled path: its segments in order. */
  type Path = seq<Segment>
}
