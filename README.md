# yamleditor core, modelled in Dafny

yamleditor edits YAML documents in place by applying rules. A rule has:

- an action: `replace`, `set`, `delete` or `regex_replace`;
- a path, for example `spec.containers[name=nginx].image`;
- a value;
- for `regex_replace`, a pattern;
- for `delete`, an optional where-clause that filters the found nodes by
  their `name`.

The core has four parts:

- **The path compiler.** It turns a path string into segments. Segments
  are fields and array selectors. A selector is a wildcard, an index, or a
  `field=value` / `field=@regex@` condition.
- **The navigator.** It resolves a compiled path against the node tree of
  a parsed document.
- **The engine.** It applies one rule to the nodes the navigator finds.
- **Rule validation.** The loader runs it on each rule of a rule file.

The model follows the Go code member by member:

- The compiler, the selector parser and the validator are pure functions.
- The navigator and the engine are methods that walk a heap of mutable
  `Node` objects. `YamlTree.Node` has yaml.v3's `Kind`, `Value`, `Tag`,
  `Content` and `Alias` fields.
- Every such method is proved equal to a pure specification over a
  snapshot of the heap. The snapshot is a map from node to cell.
- The properties are proved about those specifications.

Well-formedness of the tree is `YamlTree.Wf`. It is expressed through a
rank on nodes: every child and every alias target has a smaller rank. This
excludes alias cycles, so every walk terminates.

The rest of the project:

- `Strconv` models Go's `strconv.Atoi` and `Itoa` on 64-bit `int`.
- `Encoding` models how yaml.v3 turns a rule value into fresh nodes. It
  gives a decoding of those nodes back to the value, as the partner of
  encoding.
- `Deletion` models the recursive delete as a strip of the target from
  every node the walk visits.
- `Regex.Dialect` stands for a regular-expression engine. It is a
  validity test, a match and a replace-all. The path compiler uses one
  dialect (`re2`, the regexp2 package). The navigator's where-clause and
  the engine use another (`std`, Go's `regexp`). Neither engine is
  modelled beyond these three functions.

## Model

| member | source | states |
|---|---|---|
| Strconv.Atoi | pkg/path/parser.go:153-162 | a parsed index is within Go's 64-bit int range and its text is an optional sign followed by digits only |
| Strconv.AtoiItoa | pkg/engine/engine.go:90-93 | for every 64-bit int, the decimal text `set` writes parses back to the same int |
| PathParser.SplitPath | pkg/path/parser.go:39-71 | the loop computes the specification `Split`: the path cut at dots outside brackets, with empty parts dropped; no part is empty |
| PathParser.SplitConcat | pkg/path/parser.go:39-71 | concatenating the parts gives back the path with exactly its top-level dots removed, so splitting loses no text inside brackets |
| PathParser.SplitLoneDot | pkg/path/parser.go:39-71 | the path "." splits into no parts at all |
| PathParser.FindClosingBracket | pkg/path/parser.go:117-133 | the result is the first `]` after the opening bracket that lies outside `@…@` regex spans, or -1 when there is none |
| PathParser.ParseSelector | pkg/path/parser.go:141-213 | a wildcard exactly for "*" and "?"; an index only when Atoi accepts the text; text with an '=' is split at its first '=': a leading '=' is the empty-field error; a value wrapped in '@' gives a regex condition on the value with its '@'s trimmed, failing with the empty-pattern or invalid-pattern error when that is empty or does not compile; any other value gives an equality condition on the value as written; a condition never uses the not-equal operator; other text is an unknown selector |
| PathParser.ParseArraySegment | pkg/path/parser.go:88-114 | an array segment's field is exactly the text before the first '[' and its selector is the parse of the text between that '[' and its closing bracket; a part without '[' is rejected, a missing closing bracket is its own error, and a selector error is passed on unchanged |
| PathParser.ParseSegment | pkg/path/parser.go:74-85 | a part without '[' is a plain field with that name; any other part is parsed as an array segment |
| PathParser.TrailingTextIgnored | pkg/path/parser.go:97-113 | text after the closing bracket does not change the parsed segment |
| PathParser.ParsePartsSpec | pkg/path/parser.go:26-32 | compiling the parts succeeds iff every part parses; the segments are those of the parts, in order; a failure reports the first part that does not parse, with its error |
| PathParser.Parse | pkg/path/parser.go:18-35 | `Parse` computes the specification `Compile`, and it fails with the empty-path error exactly for the empty string |
| PathParser.CompileLoneDot | pkg/path/parser.go:18-35 | the path "." compiles to the empty path, which selects the root itself |
| Navigator.Find | pkg/path/navigator.go:15-17 | the navigator's result equals the specification `ResolvePath` on the current tree |
| Navigator.FindRecursive | pkg/path/navigator.go:20-48 | one step of the walk equals `Resolve`: the node itself at the end of the path; documents and aliases are looked through; each segment dispatches to the field or array step |
| Navigator.FindKey | pkg/path/navigator.go:57-64 | the key scan returns the first key position with the wanted name, or -1 exactly when no key has that name |
| Navigator.FindField | pkg/path/navigator.go:51-67 | the field step equals `ResolveField`: a non-mapping is an error, a missing key is an error, otherwise the walk continues at the first matching key's value |
| Navigator.FindArray | pkg/path/navigator.go:70-137 | the array step equals `ResolveArray`, error by error; a condition step that succeeds has a non-empty result |
| Navigator.WildcardResults | pkg/path/navigator.go:97-107 | the wildcard loop collects, in element order, the results of every element whose remaining walk succeeds |
| Navigator.ConditionResults | pkg/path/navigator.go:117-128 | the condition loop collects, in element order, the results of every element that matches the condition and whose remaining walk succeeds |
| Navigator.MatchCondition | pkg/path/navigator.go:140-161 | the condition test equals `MatchesCondition`: a mapping whose field exists, compared as text by `=` or `!=` |
| Navigator.FindWithWhere | pkg/path/navigator.go:165-185 | the result equals `ResolveWhere`: the navigator's result, filtered by the where-clause when one is given |
| Navigator.MatchWhere | pkg/path/navigator.go:195-248 | the where test equals `WhereAccepts`: a mapping with a non-empty name that matches the pattern when there is one, is not excluded, and is listed when there is an inclusion list |
| Navigator.CollectMembers | pkg/path/navigator.go:100-106 | a node is in a collected result iff some earlier element is admitted and its remaining walk succeeds and reaches that node |
| Navigator.CollectAtEnd | pkg/path/navigator.go:22-24 | a wildcard with nothing left to walk collects the elements themselves |
| Navigator.WildcardAtEnd | pkg/path/navigator.go:97-107 | a path ending in `field[*]` resolves to exactly the elements of that array, in order |
| Navigator.SingleValued | pkg/path/navigator.go:51-67 | a walk made only of field and index steps, when it succeeds, finds exactly one node |
| Navigator.WildcardBound | pkg/path/navigator.go:97-107 | a wildcard followed only by field and index steps finds no more nodes than the array has elements |
| Navigator.ConditionResultsMatch | pkg/path/navigator.go:117-132 | every node a condition step finds comes from an element of the array that matches the condition |
| Navigator.RegexConditionNeverResolves | pkg/path/navigator.go:140-161 | a step with a regex condition always fails with "no elements match", because the condition test has no regex branch |
| Navigator.FilterWhereSubsequence | pkg/path/navigator.go:175-184 | the where-clause keeps, in their original order, exactly the found nodes it accepts |
| Encoding.Encode | pkg/engine/engine.go:55-58 | encoding a value builds fresh, well-formed nodes whose top node mirrors the value |
| Encoding.MirrorDecodes | pkg/engine/engine.go:55-58 | nodes that mirror a value decode back to that value, which gives the encode/decode round trip |
| Deletion.DeleteNodeRecursive | pkg/engine/engine.go:145-199 | the recursive delete strips the target from every mapping and sequence its walk visits and changes nothing else |
| Deletion.DeleteInDocument | pkg/engine/engine.go:146-153 | a document recurses into each of its children in turn |
| Deletion.DeleteInMapping | pkg/engine/engine.go:155-176 | a mapping keeps the pairs whose value is not the target, and recurses into the values it keeps |
| Deletion.DeletePairs | pkg/engine/engine.go:158-173 | the pair loop returns the mapping's content without the pairs whose value is the target |
| Deletion.DeleteInSequence | pkg/engine/engine.go:178-196 | a sequence keeps the elements other than the target, and recurses into the elements it keeps |
| Deletion.DeleteElements | pkg/engine/engine.go:181-193 | the element loop returns the sequence's content without the target |
| Deletion.DeleteNode | pkg/engine/engine.go:140-142 | deleting one node from the root gives `DeleteOne`, a well-formed tree over the same nodes |
| Deletion.DeleteNodes | pkg/engine/engine.go:130-134 | deleting the found nodes one by one gives the fold of `DeleteOne` over them, in order |
| Deletion.WalkedStable | pkg/engine/engine.go:145-199 | stripping the target does not change which nodes the walk visits, so the recursion into kept children visits what the original walk did |
| Deletion.StripPairsMembers | pkg/engine/engine.go:158-173 | a mapping keeps exactly the pairs whose value is not the target |
| Deletion.FilterOutMembers | pkg/engine/engine.go:181-193 | a sequence keeps exactly the elements other than the target |
| Deletion.StripPairsOrder | pkg/engine/engine.go:158-173 | the kept pairs stay in their original order |
| Deletion.FilterOutOrder | pkg/engine/engine.go:181-193 | the kept elements stay in their original order |
| Deletion.DeleteDetaches | pkg/engine/engine.go:145-199 | after a delete, every visited mapping holds exactly its old pairs minus those pointing at the target, in order, and every visited sequence holds exactly its old elements minus the target, in order |
| Deletion.DeleteIdempotent | pkg/engine/engine.go:140-142 | deleting the same node twice is the same as deleting it once |
| Engine.FindTargets | pkg/engine/engine.go:40-53 | compile, then navigate; a path error, a navigation error and an empty result each give their own error; a success is non-empty |
| Engine.CopyInto | pkg/engine/engine.go:55-63 | every target takes the encoded value's cell, non-targets are unchanged, and the tree stays well-formed |
| Engine.Replace | pkg/engine/engine.go:39-66 | when no targets are found, the tree is unchanged and the lookup error is reported; otherwise every target mirrors the rule's value and nothing else changes |
| Engine.SetScalar | pkg/engine/engine.go:86-98 | the value is written as a scalar exactly when it is a string, an int or a bool |
| Engine.WriteScalar | pkg/engine/engine.go:86-98 | a scalar write sets the node's kind, text and tag and keeps its other fields |
| Engine.SetNode | pkg/engine/engine.go:85-107 | one target is set: a scalar gets the value's text and tag; any other value replaces the node by its encoding |
| Engine.SetAll | pkg/engine/engine.go:85-107 | every target is set in order, and the tree stays well-formed |
| Engine.Set | pkg/engine/engine.go:69-110 | the same error handling as `replace`; on success every target holds the value |
| Engine.RegexCheck | pkg/engine/engine.go:217-229 | a rule passes the pattern checks iff the pattern is non-empty and compiles and the value is a string; otherwise the error is, in that order, pattern required, the compile error, or replacement not a string |
| Engine.RegexFoldEffect | pkg/engine/engine.go:232-237 | only the text of scalar targets changes; when the targets are distinct, each scalar's text becomes its old text with every match of the pattern replaced |
| Engine.RegexReplaceAll | pkg/engine/engine.go:232-237 | the loop leaves non-scalar targets alone and rewrites each scalar target in turn |
| Engine.RegexReplace | pkg/engine/engine.go:202-240 | lookup errors come first, then the pattern checks; each leaves the tree unchanged; on success the tree is the regex fold over the targets |
| Engine.Delete | pkg/engine/engine.go:113-137 | compile and navigate with the where-clause; an error leaves the tree unchanged; finding no nodes succeeds without changes; otherwise the tree is the deletion fold over the found nodes |
| Engine.Apply | pkg/engine/engine.go:23-36 | each action has the effect of its operation; an unknown action, set excluded, fails; every failure leaves the tree unchanged |
| Engine.ReplaceReadsBack | pkg/engine/engine.go:39-66 | after `replace`, every target decodes to the rule's value |
| Engine.SetReadsBack | pkg/engine/engine.go:69-110 | after `set`, every target decodes to the rule's value, whether it was written as a scalar or encoded |
| RuleLoader.Validate | pkg/rule/loader.go:39-69 | a rule is accepted iff it has a path and is a replace with a value, a regex_replace with a pattern and a string value, or a delete; a missing path is reported first; then a replace without a value, a regex_replace without a pattern, without a value or with a non-string value, and any other action each get their own error, in the source's order |
| RuleLoader.ValidateRules | pkg/rule/loader.go:29-35 | the rules are returned unchanged iff every rule is valid; otherwise the error names the first invalid rule's position and cause |
| RuleLoader.SetRejected | pkg/rule/loader.go:64-65 | the loader rejects every `set` rule as an unknown action |
| RuleLoader.ValidatedRuleChecks | pkg/rule/loader.go:45-62 | an accepted rule never reaches the engine's unknown-action error, and an accepted regex_replace can fail the engine's pattern checks only because its pattern does not compile |

## Left out

- **Outside the core.** The command-line front end, the processor and its
  file I/O are not part of this model.
- **`LoadFromFile` I/O.** Reading the file and unmarshalling it
  (pkg/rule/loader.go:18-26) are I/O and foreign code. The model starts
  from the decoded rule list.
- **yaml.v3 parsing and printing.** These are foreign code. A document is
  a heap of nodes. Line, column, style and comment fields are not
  modelled.
- Encoding.Encode is a model of yaml.v3's `Encode` on a node, not of that
  library itself, and is weaker than it in four ways:
  - a rule value's mapping keeps its entry order, but yaml.v3 sorts the
    keys of a Go map;
  - floats keep their text;
  - scalar style is not modelled;
  - encoding never fails, while the source returns the encoder's error
    (pkg/engine/engine.go:56-58).
- **Rule values** are a tagged union (`EngineTypes.Value`) in place of
  Go's `interface{}`.
- **Integers.** A Go `int` is taken as 64 bits wide.
- **Regular expressions.** Both regex engines are parameters (a validity
  test, a match, a replace-all). Their syntax and semantics are not
  modelled.
- **Strings** are sequences of characters, where Go indexes bytes. The
  parser only looks for ASCII delimiters, so the positions differ only in
  what they count.
- **`continue_on_not_found`.** It is carried in `Rule` but never read by
  the engine or the loader, so it has no effect in the model.
- **Alias cycles** are excluded by the rank in `YamlTree.Wf`. The Go walk
  would not terminate on a cyclic alias graph.
- **Unreachable branches.** The navigator's "unknown segment type" and
  "unknown selector type" defaults are left out, because every segment
  and selector the parser can build is handled before them. So is the
  parser's "invalid condition syntax" error (pkg/path/parser.go:167-169):
  splitting a text that contains '=' at its first '=' always gives two
  parts.
- Deletion.DeleteNodeRecursive returns no error. The Go function's error
  result is always nil (pkg/engine/engine.go:145-199).
- **Differences between the Go code and its documentation:**
  - The regex condition operator is used by the parser but is not
    declared in pkg/path/types.go; the model adds it as
    `PathTypes.Operator.Regex`.
  - `ActionSet` and `Rule.Where` are used by the engine but missing from
    pkg/engine/types.go; the model adds them.
  - The documented regex match of conditions is not there: `matchCondition`
    has no regex branch, so a regex condition never matches. The model
    follows the code (`Navigator.RegexConditionNeverResolves`).
  - The not-equal operator is declared, and the navigator evaluates it,
    but the parser never produces it: `name!=x` parses as an equality
    test on a field called `name!` (`PathParser.ParseSelector`).
  - The engine implements `set`, but `Validate` rejects it
    (`RuleLoader.SetRejected`). The model follows the code.
- Navigator.WildcardBound is stated only when every later step is a field
  or an index step. A later wildcard can find more nodes than the array
  has elements.
- Engine.RegexFoldEffect states the per-node replacement only when the
  found nodes are distinct. A node found twice, for example through an
  alias, is rewritten twice, which is what the Go loop does.
