/**
 * The rule a user writes, as the rule file decodes it: an action name, a
 * path expression, a value of any YAML shape, a regex pattern, the
 * delete-only where-clause and the continue-on-not-found flag.
 */
module EngineTypes {
  import opened Wrappers
  import opened Strconv
  import opened Navigator

  /** The action names the engine dispatches on. */
  const ActionReplace: string := "replace"
  const ActionSet: string := "set"
  const ActionDelete: string := "delete"
  const ActionRegexReplace: string := "regex_replace"

  /**
   * A decoded YAML value, the dynamic `interface{}` of a rule's `value`:
   * `Null` is Go's nil (an absent or null value), a float keeps its text,
   * and a mapping keeps its entries in the order given.
   */
  datatype Value =
    | Null
    | Bool(b: bool)
    | Int(i: Int64)
    | Float(text: string)
    | Str(s: string)
    | Map(entries: seq<Entry>)
    | List(items: seq<Value>)

  datatype Entry = Entry(key: string, value: Value)

  /**
   * One editing rule. The Go declaration has no `Where` member although
   * the delete action reads one; it is modelled here as the field the
   * engine expects.
   */
  datatype Rule = Rule(
    action: string,
    path: string,
    value: Value,
    pattern: string,
    where: Option<WhereCondition>,
    continueOnNotFound: bool)
}
