/**
 * The rule file's checks. Reading the file and decoding its YAML are I/O
 * and foreign code; what remains is the validation of each decoded rule,
 * in file order, stopping at the first invalid one.
 */
module RuleLoader {
  import opened Wrappers
  import opened EngineTypes
  import Engine
  import Regex

  /** Why a rule is rejected, one per message of `Validate`. */
  datatype RuleError =
    | MissingPath
    | MissingValue(action: string)
    | MissingPattern
    | MissingReplacement
    | ReplacementNotText
    | UnknownRuleAction(action: string)

  /** A rule rejected while loading, with its position in the file. */
  datatype LoadError = InvalidRule(index: nat, cause: RuleError)

  /**
   * `Validate`: a path is required; replace needs a value, regex_replace a
   * pattern and a string value, delete nothing more; every other action
   * name, set included, is unknown.
   */
  function Validate(rule: Rule): (r: Outcome<RuleError>)
    ensures r.Pass? <==> (rule.path != "" &&
      ((rule.action == ActionReplace && !rule.value.Null?) ||
       (rule.action == ActionRegexReplace && rule.pattern != "" && rule.value.Str?) ||
       rule.action == ActionDelete))
    ensures rule.path == "" ==> r == Fail(MissingPath)
    ensures rule.path != "" && rule.action == ActionReplace && rule.value.Null? ==>
      r == Fail(MissingValue(ActionReplace))
    ensures rule.path != "" && rule.action == ActionRegexReplace && rule.pattern == "" ==>
      r == Fail(MissingPattern)
    ensures rule.path != "" && rule.action == ActionRegexReplace && rule.pattern != "" && rule.value.Null? ==>
      r == Fail(MissingReplacement)
    ensures (rule.path != "" && rule.action == ActionRegexReplace && rule.pattern != "" &&
             !rule.value.Null? && !rule.value.Str?) ==> r == Fail(ReplacementNotText)
    ensures rule.path != "" && rule.action !in {ActionReplace, ActionRegexReplace, ActionDelete} ==>
      r == Fail(UnknownRuleAction(rule.action))
  {
    if rule.path == "" then Fail(MissingPath)
    else if rule.action == ActionReplace then
      if rule.value.Null? then Fail(MissingValue(rule.action)) else Pass
    else if rule.action == ActionRegexReplace then
      if rule.pattern == "" then Fail(MissingPattern)
      else if rule.value.Null? then Fail(MissingReplacement)
      else if !rule.value.Str? then Fail(ReplacementNotText)
      else Pass
    else if rule.action == ActionDelete then Pass
    else Fail(UnknownRuleAction(rule.action))
  }

  /**
   * The validation loop of `LoadFromFile`: the rules unchanged when all
   * are valid, otherwise the first invalid one and its error.
   */
  method ValidateRules(rules: seq<Rule>) returns (r: Result<seq<Rule>, LoadError>)
    ensures r.Ok? <==> forall i | 0 <= i < |rules| :: Validate(rules[i]).Pass?
    ensures r.Ok? ==> r.value == rules
    ensures r.Err? ==>
      r.error.index < |rules| &&
      Validate(rules[r.error.index]) == Fail(r.error.cause) &&
      forall j | 0 <= j < r.error.index :: Validate(rules[j]).Pass?
  {
    for i := 0 to |rules|
      invariant forall j | 0 <= j < i :: Validate(rules[j]).Pass?
    {
      var check := Validate(rules[i]);
      if check.Fail? {
        return Err(InvalidRule(i, check.error));
      }
    }
    return Ok(rules);
  }

  /** The loader rejects every set rule: set is not one of the actions it accepts. */
  lemma SetRejected(rule: Rule)
    requires rule.action == ActionSet && rule.path != ""
    ensures Validate(rule) == Fail(UnknownRuleAction(ActionSet))
  {
  }

  /**
   * A rule the loader accepts never reaches the engine's unknown-action
   * error, and a regex_replace rule it accepts can fail the engine's
   * pattern checks only by a pattern that does not compile.
   */
  lemma ValidatedRuleChecks(rule: Rule, std: Regex.Dialect)
    requires Validate(rule).Pass?
    ensures rule.action in {ActionReplace, ActionRegexReplace, ActionDelete}
    ensures rule.action == ActionRegexReplace ==>
      Engine.RegexCheck(rule, std) == (if std.valid(rule.pattern) then None else Some(Engine.CompileRegex(rule.pattern)))
  {
  }
}
