# Pattern compilation engine, modelled in Dafny

This project models the core of the grammar builder in `source/rewrite/pattern.rb`. A grammar author builds a
chain of `Pattern` nodes. Each node holds:

- a payload: a String, which is escaped; a Regexp, whose source text is used; or a nested `Pattern`;
- an attribute hash: `tag_as`, `reference`, `includes`, `at_least`, `at_most`, `how_many_times?`,
  `dont_back_track?`;
- a successor, `@next_pattern`.

The engine compiles a chain into two things:

1. One regex source string. `evaluate` renders every node and concatenates the renderings along the chain. Each
   node's regex is quantified (`simple_quantifier` and `add_quantifier_options_to`) and then wrapped in a
   capturing group (`add_capture_group_if_needed`). After that, the `[:backreference:name:]` and
   `[:subroutine:name:]` placeholders are resolved to group numbers (`fixupRegexReferences`).
2. A TextMate rule `{match, captures, name?}` (`to_tag`). Its groups are numbered in pre-order by
   `collect_group_attributes`. Its capture names have `$match` and `$reference(name)` replaced
   (`convert_group_attributes_to_captures`).

The modules follow the source's structure:

- `RegexText`: decimal rendering of group numbers, `Regexp.escape`, and a prefix test.
- `RegexScan`: `is_string_single_entity?`, the static test for capturing groups in a Regexp payload, and the
  facts about balanced regex text.
- `Patterns`: the node as a value, covering `initialize` (payload dispatch), `needs_to_capture?`,
  `optimize_outer_group?`, `process_quantifiers_from_arguments`, `insert`, `then` and `__deep_clone__`.
- `Quantifiers`: `simple_quantifier` and the wrapping done by `add_quantifier_options_to`.
- `Groups`: `collect_group_attributes` and `groupless?`.
- `References`: `fixupRegexReferences`, as the loop that fills the hash and a `gsub!` loop per placeholder kind.
- `Synthesis`: `add_capture_group_if_needed`, `do_evaluate_self`, `integrate_pattern` and `evaluate`.
- `CaptureConversion`: `convert_group_attributes_to_captures` and its name rewriting.
- `Rules`: `to_tag`.
- `Strip`: `groupless!` and `groupless`.
- `Chains`: the objects the source mutates in place. `PatternNode` is a class whose `Insert` walks to the tail
  and links the new chain (`insert!`), and whose `GrouplessBang` deletes the capturing keys node by node
  (`groupless!`). Both are proved to agree with the value functions.

Errors the source raises are `Err` values of one `Error` datatype:

- a payload of an unsupported type;
- a Regexp payload with a capturing group (the source raises while it builds the error message, because
  `to_s` reads `@arguments` before `initialize` has assigned it);
- an unknown back-reference or subroutine name;
- a captured group with no `tag_as`, which raises because `nil.gsub!` is undefined;
- an unknown `$reference(name)`;
- `groupless!` on a nested node that has no successor.

Some behaviours of the code are modelled as written, and lemmas state each one:

- `simple_quantifier` compares `@at_least` with `@most`, which is never assigned. So its "exactly N" branch runs
  only when the lower bound is absent: an exact count renders as `{n,n}`, and an upper bound alone renders as
  `{}`. The design intent is `{n}` for an exact count, and a default lower bound of 1 when only an upper bound is
  given. The model follows the code.
- `initialize` never calls `process_quantifiers_from_arguments`. A node built by `Pattern.new` therefore has no
  bounds until that method is called.
- `__deep_clone__` rebuilds nodes through `initialize`, so a clone loses its bounds.
- A nested Pattern payload is evaluated as a top-level pattern of its own. It has its own group numbering and its
  own placeholder pass.
- In `convert_group_attributes_to_captures` the `reject` block never matches, since it tests a key or a
  key-value pair for emptiness, and its result is discarded anyway. `collect_group_attributes` numbers the elided
  outer node 0 and every collected group is converted, so group 0 stays in `captures` when the outer group is
  elided.
- Names are resolved differently in two places:
  - `fixupRegexReferences`: when several groups carry the same `reference` name, the last of them wins.
  - `$reference(name)` in a capture name is greedy up to the last `)` on the line, and there the first group with
    that name wins.
- `groupless!` recurses into the successor only when the payload is a Pattern. A nested node without a successor
  raises.

## Model

| member | source | states |
|---|---|---|
| RegexText.NatToString | source/rewrite/pattern.rb:495-503 | a group number interpolated into `\N` or `\g<N>` (and likewise into a `captures` key and `$N`) is a non-empty run of decimal digits |
| RegexText.ParseNatToString | source/rewrite/pattern.rb:522 | reading the digits of `$N` back gives the group number: the rendering loses nothing |
| RegexText.NatToStringInjective | source/rewrite/pattern.rb:515 | distinct group numbers give distinct `captures` keys |
| RegexText.EscapeChar | source/rewrite/pattern.rb:241 | a metacharacter becomes a backslash pair; any other character is kept as it is |
| RegexText.UnescapeEscape | source/rewrite/pattern.rb:241 | escaping a String payload can be undone: unescaping the escaped text gives the original text |
| RegexText.EscapePlain | source/rewrite/pattern.rb:241 | a String without metacharacters is used verbatim |
| RegexScan.ScanAsWritten | source/rewrite/pattern.rb:16-58 | wherever the source answers, its answer equals the conservative verdict `IsSingleEntity`; where the diagnostic raises, that verdict is false |
| RegexScan.IsStringSingleEntity | source/rewrite/pattern.rb:16-58 | the depth, escape and class-tracking loop computes `ScanAsWritten`; when it does not raise, it returns the single-entity verdict |
| RegexScan.IsSingleEntity | source/rewrite/pattern.rb:16-58 | the corrected verdict: a two-character escape, or a scan that never returns to depth 0 before the last character and ends settled; its behaviour is stated by `SingleCharacter`, `TopLevelSequenceIsNotSingleEntity`, `UnsettledEndIsNotSingleEntity` and `WrappedBalancedIsSingleEntity` |
| RegexScan.EscapePairIsSingleEntity | source/rewrite/pattern.rb:17 | a backslash followed by any character is one entity |
| RegexScan.SingleCharacter | source/rewrite/pattern.rb:21-24 | one character is one entity if and only if it is none of `\`, `(`, `)` and `[` |
| RegexScan.UnsettledEndIsNotSingleEntity | source/rewrite/pattern.rb:50-55 | a scan ending at non-zero depth, after a pending escape or inside a class gives false |
| RegexScan.CommentWithBracketRaises | source/rewrite/pattern.rb:50-54 | the regex comment `(?#[)` passes the capturing-group probe, then its scan ends inside a class and reaches the diagnostic, which raises; the corrected verdict is false |
| RegexScan.TopLevelSequenceIsNotSingleEntity | source/rewrite/pattern.rb:24 | a settled non-empty prefix followed by more text is not one entity |
| RegexScan.TwoLettersAreNotSingleEntity | source/rewrite/pattern.rb:24 | `ab` is not one entity |
| RegexScan.TwoGroupsAreNotSingleEntity | source/rewrite/pattern.rb:24 | `(a)(b)` is not one entity |
| RegexScan.WrappedBalancedIsSingleEntity | source/rewrite/pattern.rb:209 | `(?:`, `(?>` or `(` around balanced text followed by `)` is one entity |
| RegexScan.BalancedConcat | source/rewrite/pattern.rb:408 | concatenating balanced renderings stays balanced |
| RegexScan.EscapeBalanced | source/rewrite/pattern.rb:241 | escaped text is balanced |
| RegexScan.CapturingGroupExample | source/rewrite/pattern.rb:534-547 | the capturing-group probe finds a group in `(a)`, which `Pattern.new` then rejects, and none in `(?:a)` |
| RegexScan.BracketInCommentHidesGroup | source/rewrite/pattern.rb:534-547 | the static probe finds no group in `(?#[)(a)`, where the source's compile probe finds `(a)`: a payload the replacement lets through where the source raises |
| RegexScan.HasCapturingGroup | source/rewrite/pattern.rb:534-547 | the static replacement of the `\1` compile probe: an unescaped `(` outside a class and not followed by `?`; `CapturingGroupExample` shows both outcomes and `Patterns.New` rejects exactly the payloads it flags; it departs from Ruby's probe in both directions, listed under Left out |
| Patterns.New | source/rewrite/pattern.rb:232-258 | String payloads are escaped, Regexp payloads are kept unless they capture, Pattern payloads are nested, anything else raises; arguments are kept and bounds start unset |
| Patterns.NeedsToCapture | source/rewrite/pattern.rb:91-101 | holds exactly when `tag_as`, `reference` or `includes` is present; `Synthesis.AddCaptureGroupIfNeeded` and `Groups.CollectGroupsIsPreOrder` state its effect on the rendering and the groups |
| Patterns.OptimizeOuterGroup | source/rewrite/pattern.rb:103-105 | a capturing node without successor; `Groups.DefaultStart` and `Rules.ElidedGroupIsZero` state that exactly then numbering starts at 0 with the node as group 0 |
| Patterns.QuantityBounds | source/rewrite/pattern.rb:132-139 | `how_many_times?` sets both bounds; otherwise `at_least` and `at_most` are used as given |
| Patterns.ProcessQuantifiersFromArguments | source/rewrite/pattern.rb:119-161 | sets exactly `@at_least` and `@at_most` to the derived bounds and leaves the rest of the node alone |
| Patterns.Last | source/rewrite/pattern.rb:108-109 | the walk ends at the last node of the chain, which has no successor |
| Patterns.Append | source/rewrite/pattern.rb:107-112 | the nodes of the result are those of the receiver followed by those of the inserted chain |
| Patterns.Clone | source/rewrite/pattern.rb:527-532 | payload and arguments are copied, successor presence is kept, and no node keeps its bounds |
| Patterns.CloneWithoutBounds | source/rewrite/pattern.rb:527-532 | on a tree built by `Pattern.new`, which has no bounds, cloning returns the same tree |
| Patterns.CloneIdempotent | source/rewrite/pattern.rb:527-532 | cloning a clone changes nothing |
| Patterns.CloneForgetsBounds | source/rewrite/pattern.rb:236-257 | bounds set by `process_quantifiers_from_arguments` do not survive a clone |
| Patterns.Insert | source/rewrite/pattern.rb:114-117 | the result's nodes are the receiver's cloned nodes followed by the inserted chain; the receiver is a value and is unchanged |
| Patterns.Then | source/rewrite/pattern.rb:381-384 | a Pattern is inserted as it is; any other argument goes through `Pattern.new`, and `then` fails exactly when that fails |
| Patterns.ThenLength | source/rewrite/pattern.rb:114-117 | the chain length after `insert` is the receiver's length plus the inserted chain's length |
| Quantifiers.SimpleQuantifier | source/rewrite/pattern.rb:164-198 | the quantifier is empty if and only if both bounds are absent; it ends in `+` if and only if it is possessive or is `+` itself |
| Quantifiers.QuantifierTable | source/rewrite/pattern.rb:170-186 | (0,1), (0,none) and (1,none) render as `?`, `*` and `+`, with the possessive suffix when asked |
| Quantifiers.QuantifierRange | source/rewrite/pattern.rb:191-192 | any other pair with both bounds renders as `{lo,hi}` |
| Quantifiers.ExactCountRendersAsRange | source/rewrite/pattern.rb:188 | an exact count renders as `{n,n}`, because the comparison is with the never-assigned `@most` |
| Quantifiers.UpperBoundAloneRendersEmptyBraces | source/rewrite/pattern.rb:174-189 | an upper bound alone renders as `{}`; the default lower bound goes to a dead local |
| Quantifiers.LowerBoundAloneRendersOpenRange | source/rewrite/pattern.rb:191-192 | a lower bound of 2 or more alone renders as `{n,}` |
| Quantifiers.Quantify | source/rewrite/pattern.rb:202-219 | a non-empty quantifier is applied to the match itself or to `(?:match)`, and never wraps a match that is already one entity; the quantifier ends the result |
| Quantifiers.QuantifiedOperandIsSingleEntity | source/rewrite/pattern.rb:206-213 | for balanced regex text, what the quantifier is appended to is one entity, and it is the match itself or `(?:match)` |
| Quantifiers.UnquantifiedRendering | source/rewrite/pattern.rb:214-218 | without a quantifier, a possessive node becomes `(?>match)` and any other match is left alone |
| Quantifiers.SequenceGetsWrapped | source/rewrite/pattern.rb:206-212 | `ab` with `*` becomes `(?:ab)*` |
| Groups.DefaultStart | source/rewrite/pattern.rb:463 | numbering starts at 0 if and only if the outer group is elided, and at 1 otherwise |
| Groups.CollectGroups | source/rewrite/pattern.rb:463-480 | own entry, then the nested payload's entries, then the successor's, with the counter advanced past each; `CollectGroupsNumbered` and `CollectGroupsIsPreOrder` prove it numbers the capturing nodes consecutively in pre-order |
| Groups.TopLevelGroups | source/rewrite/pattern.rb:463 | the collection started from the default number; `Rules.ElidedGroupIsZero` and `CaptureConversion.TopLevelGroupsDistinct` state what it yields |
| Groups.CollectGroupsNumbered | source/rewrite/pattern.rb:463-480 | the collected groups are numbered consecutively from the start value, and each of them captures |
| Groups.CollectGroupAttributes | source/rewrite/pattern.rb:463-480 | the accumulating method with its running counter returns the collected groups |
| Groups.CollectGroupsIsPreOrder | source/rewrite/pattern.rb:465-478 | the groups' attributes are the capturing nodes in pre-order: self, then payload, then successor |
| Groups.CollectGroupsCount | source/rewrite/pattern.rb:463-480 | there is one group per capturing node |
| Groups.CollectGroupsShift | source/rewrite/pattern.rb:463-480 | the start value changes only the numbers, not which groups are collected |
| Groups.GrouplessIff | source/rewrite/pattern.rb:442-444 | `groupless?` holds if and only if no node of the tree captures |
| Groups.IsGroupless | source/rewrite/pattern.rb:442-444 | the top-level collection is empty; `GrouplessIff` proves this holds exactly when no node captures |
| Groups.PreOrderAppend | source/rewrite/pattern.rb:107-112 | after `insert!` the pre-order is the receiver's followed by the inserted chain's |
| Groups.PreOrderClone | source/rewrite/pattern.rb:527-532 | cloning keeps the pre-order of attributes |
| Groups.ThreeCapturingNodes | source/rewrite/pattern.rb:463-480 | three chained capturing nodes are groups 1, 2 and 3 |
| Groups.SoleCapturingNode | source/rewrite/pattern.rb:103-105 | a lone capturing node is group 0 |
| References.ReferenceMapLookup | source/rewrite/pattern.rb:483-489 | a name is in the table if and only if some group carries it, and it maps to the last such group's number |
| References.ReferenceMap | source/rewrite/pattern.rb:483-489 | the table filled group by group, a later entry overwriting an earlier one; `ReferenceMapLookup` states its domain and the last-wins lookup |
| References.BuildReferences | source/rewrite/pattern.rb:483-489 | the loop over the groups builds that table |
| References.LazyEndUnique | source/rewrite/pattern.rb:490 | the lazy name match ends at one place only |
| References.NameEndSpec | source/rewrite/pattern.rb:490 | the name scan finds the first `:]` that has no backslash before it, or reports that there is none |
| References.PlaceholderAtMatches | source/rewrite/pattern.rb:490-498 | a placeholder found at the front of the text starts with its opener and ends at the lazy name end |
| References.Gsub | source/rewrite/pattern.rb:490-505 | the `gsub!` loop computes the single-pass replacement of every placeholder of one kind |
| References.ReplaceAll | source/rewrite/pattern.rb:490-505 | one pass over the text, leftmost placeholder first, replacements not rescanned, an unknown name raising; `ResolvePlaceholder`, `CopiesPlainCharacter`, `ReplaceAllWithoutPlaceholders` and `ReplaceAllAppendChar` state its behaviour and `Gsub` is proved equal to it |
| References.FixupRegexReferences | source/rewrite/pattern.rb:482-507 | the method runs the back-reference pass, then the subroutine pass, with the reference table |
| References.Fixup | source/rewrite/pattern.rb:482-507 | the back-reference pass, then the subroutine pass, over the reference table; `FixupWithoutPlaceholders`, `FixupInParens` and `FixupRegexReferences` state its behaviour |
| References.ReplaceAllWithoutPlaceholders | source/rewrite/pattern.rb:490-505 | text where no placeholder starts is returned unchanged |
| References.NoCloserNoPlaceholder | source/rewrite/pattern.rb:490-498 | text without `:]` holds no placeholder |
| References.FixupWithoutCloser | source/rewrite/pattern.rb:482-507 | the whole pass leaves text without `:]` unchanged |
| References.FixupWithoutPlaceholders | source/rewrite/pattern.rb:482-507 | the whole pass leaves text without placeholders unchanged |
| References.EscapeNoCloser | source/rewrite/pattern.rb:241 | escaped text never holds `:]`, so an escaped String payload never creates a placeholder |
| References.WellFormedPlaceholder | source/rewrite/pattern.rb:490-498 | an opener, a name without backslash or `:]`, then `:]` is recognised with exactly that name |
| References.ResolvePlaceholder | source/rewrite/pattern.rb:490-505 | a recognised placeholder becomes `\N` or `\g<N>` for a known name, and raises for an unknown name |
| References.CopiesPlainCharacter | source/rewrite/pattern.rb:490-505 | a character that starts no placeholder is copied |
| References.ReplaceAllAppendChar | source/rewrite/pattern.rb:490-505 | a character other than `]` added at the end is copied at the end |
| References.ReplaceAllInParens | source/rewrite/pattern.rb:490-505 | the pass commutes with the capture parentheses |
| References.FixupInParens | source/rewrite/pattern.rb:482-507 | the whole fixup commutes with the capture parentheses |
| References.CopiesBracketFreeText | source/rewrite/pattern.rb:490-505 | text without `[` is copied verbatim before the rest is processed |
| References.BracketFreeUnchanged | source/rewrite/pattern.rb:490-505 | text without `[` is unchanged |
| References.RenderBracketFree | source/rewrite/pattern.rb:495-503 | a resolved `\N` or `\g<N>` holds no `[`, so it is not processed again |
| Synthesis.AddCaptureGroupIfNeeded | source/rewrite/pattern.rb:221-226 | a capturing node gets exactly one pair of parentheses around its regex; any other regex is unchanged |
| Synthesis.PayloadRegex | source/rewrite/pattern.rb:203 | a source payload gives its text; a nested Pattern is evaluated with no groups, as a top level of its own (`NestedPatternIsTopLevel`) |
| Synthesis.AddQuantifierOptionsTo | source/rewrite/pattern.rb:202-219 | fails exactly as the payload's evaluation fails; otherwise a non-empty quantifier is applied to the payload's regex itself or to that regex in `(?:...)`, unwrapped when it is one entity; `Quantifiers.UnquantifiedRendering` covers the empty quantifier |
| Synthesis.DoEvaluateSelf | source/rewrite/pattern.rb:400-402 | quantify, then capture; `OwnRenderingIgnoresSuccessor` and `UnquantifiedSourceSynth` state the result |
| Synthesis.Synth | source/rewrite/pattern.rb:290-297 | evaluation with groups given: the node's own rendering followed by the successor's, with no fixup; `SynthIsConcatenation` proves it is the concatenation of every node's own rendering |
| Synthesis.Evaluate | source/rewrite/pattern.rb:290-300 | evaluation at the top level: the chain's rendering, then the placeholder pass with the tree's groups; `OuterGroupEvaluation`, `LiteralEvaluation` and `PlaceholderResolvesAtTopLevel` state the result |
| Synthesis.OwnRenderingIgnoresSuccessor | source/rewrite/pattern.rb:400-402 | a node's own rendering does not depend on its successor |
| Synthesis.SynthIsConcatenation | source/rewrite/pattern.rb:290-297 | evaluating with groups is the concatenation of the nodes' own renderings, and the first failure wins |
| Synthesis.SynthNodesConcat | source/rewrite/pattern.rb:406-409 | rendering two node lists one after the other is concatenation |
| Synthesis.SynthAppend | source/rewrite/pattern.rb:406-409 | the rendering of an inserted chain is the receiver's rendering followed by the inserted chain's |
| Synthesis.UnquantifiedSourceSynth | source/rewrite/pattern.rb:400-402 | an unquantified source node renders as its regex, in parentheses when it captures |
| Synthesis.OuterGroupEvaluation | source/rewrite/pattern.rb:290-300 | a lone capturing node evaluates to its fixed-up quantified regex inside one pair of parentheses |
| Synthesis.LiteralEvaluation | source/rewrite/pattern.rb:290-300 | a String pattern evaluates to its escaped text, parenthesized when it captures |
| Synthesis.PlainLiteralEvaluation | source/rewrite/pattern.rb:290-300 | a String without metacharacters evaluates to itself |
| Synthesis.PlaceholderResolvesAtTopLevel | source/rewrite/pattern.rb:290-300 | a placeholder stays in the rendering with groups, and the top level resolves it to the referenced group 1 |
| Synthesis.CaptureThenPlaceholderSynth | source/rewrite/pattern.rb:290-297 | a capturing node followed by a plain node renders as the group followed by the text |
| Synthesis.PlaceholderPasses | source/rewrite/pattern.rb:490-505 | each pass resolves only its own kind, and its output survives the subroutine pass |
| Synthesis.SubroutineSurvivesBackreferencePass | source/rewrite/pattern.rb:490 | the back-reference pass leaves a subroutine placeholder alone |
| Synthesis.CapturingThenPlainGroups | source/rewrite/pattern.rb:463-480 | a capturing node followed by a plain one gives only group 1 |
| Synthesis.SingleReference | source/rewrite/pattern.rb:483-489 | a group with a reference name gives a table with only that name |
| Synthesis.NestedPatternIsTopLevel | source/rewrite/pattern.rb:203 | a placeholder inside a nested Pattern payload is resolved against the nested pattern alone, and raises even though the outer chain defines the name |
| Synthesis.LonePlaceholderRaises | source/rewrite/pattern.rb:491-500 | evaluating a placeholder whose name is not defined raises |
| Synthesis.CloneDropsQuantifier | source/rewrite/pattern.rb:527-532 | a quantified node renders as `a*`, and its clone renders as `a` |
| CaptureConversion.LineEnd | source/rewrite/pattern.rb:520 | finds the end of the line, so `.` does not cross a newline |
| CaptureConversion.LastClose | source/rewrite/pattern.rb:520 | finds the last `)` before a bound |
| CaptureConversion.ReferenceCloseIsLastOnLine | source/rewrite/pattern.rb:520 | `$reference(.+)` closes at the last `)` on the line, with at least one character of name |
| CaptureConversion.TokenAt | source/rewrite/pattern.rb:520 | what the `$match` / `$reference(...)` pattern matches at the front of a name: `$match`, a greedy `$reference(...)` ending after the last `)` on the line, or nothing; a reference token ends within the text |
| CaptureConversion.FirstReferenceLookup | source/rewrite/pattern.rb:522 | `detect` finds a group if and only if one carries the name, and it returns the first such group's number |
| CaptureConversion.FirstReference | source/rewrite/pattern.rb:522 | `detect` over the groups; `FirstReferenceLookup` proves it returns the first group carrying the name, or none |
| CaptureConversion.TopLevelGroupsDistinct | source/rewrite/pattern.rb:463-480 | collected groups have distinct numbers, so none overwrites another in `captures` |
| CaptureConversion.GsubName | source/rewrite/pattern.rb:520-523 | the `gsub!` loop over a capture name computes the name rewriting |
| CaptureConversion.RewriteName | source/rewrite/pattern.rb:520-523 | the rewriting of one capture name; `MatchTokenRewrite`, `ReferenceRewrite`, `NameWithoutDollar` and `TwoReferencesOnOneLine` state its behaviour and `GsubName` is proved equal to it |
| CaptureConversion.ConvertGroupAttributesToCaptures | source/rewrite/pattern.rb:509-525 | the method builds the `captures` hash, then rewrites each name |
| CaptureConversion.Captures | source/rewrite/pattern.rb:509-525 | the groups processed in order, a missing `tag_as` or an unresolved reference raising; `CapturesKeys`, `CapturesValues` and `CapturesSucceed` state the result and `ConvertGroupAttributesToCaptures` is proved equal to it |
| CaptureConversion.NameTableLookup | source/rewrite/pattern.rb:511-516 | each group's key maps to that group's `tag_as` |
| CaptureConversion.CapturesStopAtError | source/rewrite/pattern.rb:519-524 | the first failing name ends the conversion |
| CaptureConversion.CapturesSucceed | source/rewrite/pattern.rb:509-525 | conversion succeeds if and only if every group has a `tag_as` whose references resolve |
| CaptureConversion.CapturesKeys | source/rewrite/pattern.rb:511-517 | the keys of `captures` are exactly the groups' numbers; `reject` removes none |
| CaptureConversion.CapturesValues | source/rewrite/pattern.rb:509-525 | each group's entry is its `tag_as` with its tokens rewritten |
| CaptureConversion.NameWithoutDollar | source/rewrite/pattern.rb:520 | a name without `$` is unchanged |
| CaptureConversion.TokenOfPlainCharacter | source/rewrite/pattern.rb:520 | a character other than `$` starts no token |
| CaptureConversion.MatchTokenRewrite | source/rewrite/pattern.rb:521 | `$match` becomes `$` followed by the capture's own key |
| CaptureConversion.ReferenceRewrite | source/rewrite/pattern.rb:522 | `$reference(name)` becomes `$N` for the first group with that name, and raises when there is none |
| CaptureConversion.TwoReferencesOnOneLine | source/rewrite/pattern.rb:520-522 | two references on one line are read as one greedy name and raise |
| CaptureConversion.RepeatedReferenceResolvesDifferently | source/rewrite/pattern.rb:487-522 | with a repeated reference name, a capture name resolves to the first group and a regex placeholder to the last |
| Rules.ElidedGroupIsZero | source/rewrite/pattern.rb:463 | when the outer group is elided, the node itself is group 0 |
| Rules.ToTag | source/rewrite/pattern.rb:271-284 | evaluate, strip the outer parentheses when the outer group is elided, then convert the groups; `ToTagFails`, `ElidedRule`, `CapturedRule` and `RuleCaptureKeys` state the rule it returns |
| Rules.ToTagFails | source/rewrite/pattern.rb:271-284 | `to_tag` raises exactly when evaluation or the capture conversion raises, and evaluation comes first |
| Rules.ElidedRule | source/rewrite/pattern.rb:276-280 | with the outer group elided, `match` is the evaluation without its outer parentheses, and `name` is the node's tag with its tokens rewritten |
| Rules.CapturedRule | source/rewrite/pattern.rb:272-275 | otherwise `match` is the evaluation itself and the rule has no `name` |
| Rules.RuleCaptureKeys | source/rewrite/pattern.rb:509-517 | `captures` has one key per collected group, and holds key `0` if and only if the outer group is elided |
| Rules.TaggedLiteralRule | source/rewrite/pattern.rb:271-284 | a tagged String pattern compiles to its escaped text, its tag as `name`, and capture 0 |
| Strip.StripCaptureAttributes | source/rewrite/pattern.rb:447-450 | exactly `tag_as`, `reference` and `includes` are removed, so the node no longer captures |
| Strip.GrouplessBang | source/rewrite/pattern.rb:446-454 | strip this node, then the nested payload and, behind the same test, the successor; `GrouplessBangSucceeds`, `GrouplessBangClearsGroups` and `CapturingSuccessorSurvives` state the result |
| Strip.Groupless | source/rewrite/pattern.rb:456-458 | `groupless!` on a clone; `GrouplessDropsBounds` states that the result has no bounds |
| Strip.GrouplessBangSucceeds | source/rewrite/pattern.rb:446-454 | `groupless!` succeeds if and only if every nested node it reaches has a successor; otherwise it raises on the nil successor |
| Strip.GrouplessBangClearsGroups | source/rewrite/pattern.rb:442-454 | when every source node ends its chain, no node captures afterwards and `groupless?` holds |
| Strip.NoneCaptureHasNoGroups | source/rewrite/pattern.rb:463-480 | a tree where no node captures yields no groups |
| Strip.SourceNodeKeepsSuccessor | source/rewrite/pattern.rb:451-452 | on a source node, `groupless!` does not reach the successor |
| Strip.CapturingSuccessorSurvives | source/rewrite/pattern.rb:452 | a capturing successor of a source node keeps its group, so `groupless?` is false afterwards |
| Strip.NestedLastNodeRaises | source/rewrite/pattern.rb:452 | a nested node without successor raises |
| Strip.GrouplessBangKeepsNoBounds | source/rewrite/pattern.rb:446-454 | `groupless!` does not set bounds |
| Strip.GrouplessDropsBounds | source/rewrite/pattern.rb:456-458 | `groupless` works on a clone, so its result has no bounds |
| Chains.PatternNode.constructor | source/rewrite/pattern.rb:232-258 | a new node has the given payload and arguments, no successor and no bounds |
| Chains.PatternNode.Insert | source/rewrite/pattern.rb:107-112 | the tail walk links the inserted chain after the last node; the linked chain is the value-level append, and the receiver is returned |
| Chains.PatternNode.GrouplessBang | source/rewrite/pattern.rb:446-454 | the in-place stripping succeeds exactly when the value-level `groupless!` does, and leaves the chain equal to its result |
| Chains.ChainValueConcat | source/rewrite/pattern.rb:110 | linking two chains of objects gives the value-level append |

## Left out

- `runTests`, `Regexp#to_r_s`, `Regexp#inspect`, `to_s`, `name`, `String#remove_indent` and the `puts`
  diagnostics are left out. They run Ruby's regex engine or only format text. A Regexp payload is represented by
  its source text.
- RegexScan.HasCapturingGroup: `raise_if_regex_has_capture_group` compiles the payload with a `\1`
  back-reference and relies on Ruby's regex compiler raising. The model replaces it with a static scan: an
  unescaped `(` outside a class and not followed by `?`. The scan flags some payloads that Ruby's probe accepts,
  so `Patterns.New` rejects them where the source does not: a comment holding `(` such as `(?#()`; a class whose
  leading `]` is literal, such as `[](]`; and a `(` inside an extended-mode `#` comment. Ruby's probe also
  accepts `(?<n>a)(b)`, because the compiler refuses a numbered back-reference once named groups exist and that
  error is rescued; the scan flags `(b)`. In the other direction the scan misses groups the source finds: a `[`
  inside a comment or an extended-mode `#` comment leaves the scan in a class, so the capturing `(` that follows
  is hidden. For `(?#[)(a)` (`BracketInCommentHidesGroup`) `Patterns.New` accepts the payload, where the source
  raises its capturing-group error.
- `Regexp.escape` is modelled on the escape set of Ruby's `rb_reg_quote`: the metacharacters
  `[]{}()|-*.\?+^$#`, space, and the control characters tab, newline, carriage return, form feed and vertical tab.
  Other characters are kept.
- The conversion of `Enumerator` bounds to their sizes is left out; bounds are natural numbers.
- Subclasses whose `quantifing_allowed?` is false, and the raise they trigger, are left out. Only the base
  `Pattern` is modelled.
- Patterns.NeedsToCapture: an attribute key present with a nil value is modelled as absent everywhere, including
  `needs_to_capture?`, which in the source tests key presence. So a node given `tag_as: nil` neither captures nor
  raises `MissingCaptureName`, where the source makes it a group and then raises on `nil.gsub!`.
- `convert_group_attributes_to_captures` rewrites the `tag_as` strings in place. These strings are shared with
  `@arguments`, so the same tag seen again later already shows the rewritten text. The model rewrites copies,
  and the aliasing between tags is not captured. The elided rule's `name` is taken to be the rewritten tag of
  group 0, which is what the shared string holds.
- When a `gsub!` or `groupless!` raises partway, the source has already changed some state. The model returns
  only the error.
- `Chains.PatternNode` holds a nested payload as a value, not as linked objects. So `GrouplessBang` updates the
  nested pattern by assignment rather than in place.
- `Chains.PatternNode.Insert` requires the inserted chain not to share nodes with the receiver's chain. The
  source would build a cycle there, and a later walk would not terminate.
- `CaptureConversion.ConvertGroupAttributesToCaptures` requires the groups to have distinct numbers. Every list
  `collect_group_attributes` returns meets this (`CaptureConversion.TopLevelGroupsDistinct`).
- How the placeholders come to be in a payload is not part of this model: the helpers that write them live
  outside `pattern.rb`. The pass recognises placeholder text wherever it occurs in the synthesized regex,
  including inside a Regexp payload, and so does the model. An escaped String payload never forms one
  (`References.EscapeNoCloser`).
- The design intent for an exact count is `{n}`, and for an upper bound alone it is a default lower bound of 1.
  The code renders `{n,n}` and `{}`, and the model follows the code (see above).
- Quantifiers.Quantify: uses the conservative single-entity verdict where `add_quantifier_options_to` calls the
  scanner, so `Synthesis.AddQuantifierOptionsTo`, `Synthesis.Evaluate` and `Rules.ToTag` give a result for a
  quantified payload such as `(?#[)` where the source raises `NoMethodError` (see Findings). The verdict that
  `evaluate` computes before `integrate_pattern` is ignored by `integrate_pattern`, and `Synthesis.Synth` leaves
  it out, so the raise on that path is not reproduced either.
- `scripts/publish.rb` is packaging glue and is not part of this model.

## Findings

| source | as written | input that shows it | evidently intended | confidence | as-written member | corrected member |
|---|---|---|---|---|---|---|
| source/rewrite/pattern.rb:50-55 | when the scan ends at non-zero depth, after a pending escape or inside a class, the diagnostic line interpolates `escaped?` and `in_set?`; no such methods exist, so the call raises NoMethodError before `return false` | the Regexp payload `(?#[)`, a regex comment holding `[`, quantified or followed by another node | show the diagnostic and answer false, since the comment says the grammar is not affected | high; not executed | RegexScan.ScanAsWritten, RegexScan.IsStringSingleEntity, RegexScan.CommentWithBracketRaises | RegexScan.IsSingleEntity, RegexScan.UnsettledEndIsNotSingleEntity |
