# ktlint rule engine dispatch and three formatting rules, in Dafny

This project models a small core of ktlint, the Kotlin linter and formatter:

- **Visitor provider** (`VisitorProvider`): builds, from the enabled rule
  providers, the visitor that runs the rules over one file. The providers are
  sorted once, at construction. A run creates one new rule instance per
  provider, in sorted order.
- **Parameter list spacing** (`ParameterListSpacingRule`): normalises the
  whitespace in a value parameter list and in each parameter. It removes
  stray whitespace, collapses whitespace to one space, and inserts a missing
  space after `,` and `:`.
- **Chain wrapping** (`ChainWrappingRule`): `.`, `?.` and `?:` must not
  end a line. `*`, `/`, `%`, `&&`, `||`, `+` and `-` must not begin
  one. Each offending token is moved to the other side of the line break.
- **Blank line before declaration** (`BlankLineBeforeDeclarationRule`):
  classes, functions, properties and the like must follow a blank line,
  unless one of the rule's exemptions applies.

Files:

- `syntax.dfy` (module `Syntax`): the syntax tree.
  - A node is a leaf (element type and text) or a composite (element type
    and children).
  - Whitespace is a leaf. A node is located by its path of child indices.
  - Offsets and line lengths count UTF-16 code units, as Kotlin strings do:
    a character outside the Basic Multilingual Plane counts twice.
  - Also holds the tree navigation that ktlint's helpers provide.
- `autocorrect.dfy` (module `Autocorrect`): the `emit` protocol.
  - A rule emits a violation and the engine answers with an autocorrect
    decision.
  - The engine's policy is a function parameter, so every proof holds for any
    policy: fix all, fix none, or fix outside suppressed regions.
  - A rule's hook either completes or aborts. Aborting models a failing
    `require` or a null dereference.
- `visitor_provider.dfy`, `parameter_list_spacing.dfy`,
  `chain_wrapping.dfy` and `blank_line_before_declaration.dfy`: one module
  per source file.
  - Each rule's `beforeVisitChildNodes` hook is a function of the file, the
    visited node and the policy.
  - It returns the edited file and the reports it made.

The properties proved:

- What is reported. For chain wrapping and for blank line before
  declaration, one call of the hook reports exactly the violations, once
  each, at the source's offset with the source's message. For parameter list
  spacing this is proved per step of the list walk (one whitespace child, one
  comma), not for the log of a whole walk.
- Without an allowed autocorrect the file is unchanged.
- Fixes change whitespace only. The sequence of non-whitespace leaves is
  unchanged. For chain wrapping, the sequence of code tokens is unchanged.
- A fix is final. A fixed chain operator or declaration is not reported
  again. With every fix allowed, a walk over a parameter list leaves no
  whitespace that a second walk would remove, collapse or fail on, and a
  comma that got a space keeps it.

The blank-line hook takes a `Reading` of its function-literal exemption.
`AsWritten` is the check as ktlint has it, and `BeforeVisitChildNodes(AsWritten, ...)`
is the rule ktlint runs. `Intended` is the corrected check (see "## Findings").
Every property of the hook is proved for both readings.

## Model

| member | source | states |
|---|---|---|
| VisitorProviders.VisitEach | ktlint-rule-engine/src/main/kotlin/com/pinterest/ktlint/rule/engine/internal/VisitorProvider.kt:47-51 | One `visit` per provider, in list order. Call i gets a new instance (serial counter + i) of provider i and that provider's id. The allocation counter advances by the number of providers |
| VisitorProviders.NewVisitorProvider | ktlint-rule-engine/src/main/kotlin/com/pinterest/ktlint/rule/engine/internal/VisitorProvider.kt:19-40 | The shared sorter is used, or a new one when `recreateRuleSorter` is set. When both sorters return every provider of their input exactly once, the sorted list holds every enabled provider exactly once, in whatever order the chosen sorter picks |
| VisitorProviders.RunVisitor | ktlint-rule-engine/src/main/kotlin/com/pinterest/ktlint/rule/engine/internal/VisitorProvider.kt:42-53 | Call i of a run gets the i-th newly created instance, an instance of the provider whose id goes with the call. The skipping visitor makes no call, and the allocation counter advances by one per call |
| VisitorProviders.EachEnabledRuleVisitedOnce | ktlint-rule-engine/src/main/kotlin/com/pinterest/ktlint/rule/engine/internal/VisitorProvider.kt:19-53 | Whichever sorter is chosen, a run visits every enabled rule provider exactly once and no other: as many calls as providers, no id twice, every id enabled |
| VisitorProviders.EmptyVisitorNeverVisits | ktlint-rule-engine/src/main/kotlin/com/pinterest/ktlint/rule/engine/internal/VisitorProvider.kt:43-46 | With no enabled rule a run makes no call and creates no rule instance |
| VisitorProviders.VisitsInSortedOrder | ktlint-rule-engine/src/main/kotlin/com/pinterest/ktlint/rule/engine/internal/VisitorProvider.kt:47-51 | The rule ids of a run's calls are the sorted providers' ids in sorted order, and each instance belongs to the id passed with it |
| VisitorProviders.FreshInstancePerCall | ktlint-rule-engine/src/main/kotlin/com/pinterest/ktlint/rule/engine/internal/VisitorProvider.kt:50 | Each call of a run gets its own instance, none of them existing before the run; a run creates one instance per sorted provider |
| VisitorProviders.RepeatedRunsAgree | ktlint-rule-engine/src/main/kotlin/com/pinterest/ktlint/rule/engine/internal/VisitorProvider.kt:35-53 | Two runs of one provider visit the same ids in the same order and share no rule instance |
| ParameterListSpacing.OnlyParameterListsInspected | ktlint-ruleset-standard/src/main/kotlin/com/pinterest/ktlint/ruleset/standard/rules/ParameterListSpacingRule.kt:58-65 | On a node that is not a value parameter list the hook reports and changes nothing |
| ParameterListSpacing.BeforeVisitChildNodes | ktlint-ruleset-standard/src/main/kotlin/com/pinterest/ktlint/ruleset/standard/rules/ParameterListSpacingRule.kt:58-65 | The hook: on a value parameter list, the list walk over its children in the file's context; on any other node nothing (OnlyParameterListsInspected). What it keeps and fixes is stated by HookKeepsSignificant, HookRejectedUnchanged and AllowedWalkSettles |
| ParameterListSpacing.VisitListFrom | ktlint-ruleset-standard/src/main/kotlin/com/pinterest/ktlint/ruleset/standard/rules/ParameterListSpacingRule.kt:67-128 | The walk only appends to the log. Its effect is stated by ListRejectedUnchanged, ListKeepsSignificant, ListKeepsVisitedPrefix and ListSettles |
| ParameterListSpacing.WhiteSpaceVerdict | ktlint-ruleset-standard/src/main/kotlin/com/pinterest/ktlint/ruleset/standard/rules/ParameterListSpacingRule.kt:86-111 | The decision for one whitespace child; its cases are stated by EdgeWhiteSpaceVerdict, IndentVerdict and InnerWhiteSpaceVerdict |
| ParameterListSpacing.HookKeepsSignificant | ktlint-ruleset-standard/src/main/kotlin/com/pinterest/ktlint/ruleset/standard/rules/ParameterListSpacingRule.kt:58-128 | After the hook the non-whitespace leaves of the whole file are the same, whatever the engine allows |
| ParameterListSpacing.HookRejectedUnchanged | ktlint-ruleset-standard/src/main/kotlin/com/pinterest/ktlint/ruleset/standard/rules/ParameterListSpacingRule.kt:58-128 | When no report was allowed a fix, the file is exactly as before |
| ParameterListSpacing.ListRejectedUnchanged | ktlint-ruleset-standard/src/main/kotlin/com/pinterest/ktlint/ruleset/standard/rules/ParameterListSpacingRule.kt:67-128 | The list walk from any child on leaves the children unchanged when none of its reports was allowed a fix |
| ParameterListSpacing.WhiteSpaceStepRejectedUnchanged | ktlint-ruleset-standard/src/main/kotlin/com/pinterest/ktlint/ruleset/standard/rules/ParameterListSpacingRule.kt:86-112 | The same, for a walk whose current child is whitespace |
| ParameterListSpacing.CommaStepRejectedUnchanged | ktlint-ruleset-standard/src/main/kotlin/com/pinterest/ktlint/ruleset/standard/rules/ParameterListSpacingRule.kt:114-120 | The same, for a walk whose current child is a comma |
| ParameterListSpacing.ParameterStepRejectedUnchanged | ktlint-ruleset-standard/src/main/kotlin/com/pinterest/ktlint/ruleset/standard/rules/ParameterListSpacingRule.kt:122-125 | The same, for a walk whose current child is a parameter |
| ParameterListSpacing.ListKeepsSignificant | ktlint-ruleset-standard/src/main/kotlin/com/pinterest/ktlint/ruleset/standard/rules/ParameterListSpacingRule.kt:67-128 | A completed list walk keeps the non-whitespace leaves of the children |
| ParameterListSpacing.WhiteSpaceStepKeepsSignificant | ktlint-ruleset-standard/src/main/kotlin/com/pinterest/ktlint/ruleset/standard/rules/ParameterListSpacingRule.kt:86-112 | The same, for a walk whose current child is whitespace (removed or collapsed) |
| ParameterListSpacing.CommaStepKeepsSignificant | ktlint-ruleset-standard/src/main/kotlin/com/pinterest/ktlint/ruleset/standard/rules/ParameterListSpacingRule.kt:114-120 | The same, for a walk whose current child is a comma (space inserted) |
| ParameterListSpacing.WhiteSpaceStepEditsWhiteSpace | ktlint-ruleset-standard/src/main/kotlin/com/pinterest/ktlint/ruleset/standard/rules/ParameterListSpacingRule.kt:86-112 | One step at a whitespace child. A kept child is skipped without a report; otherwise there is exactly one report. An allowed `Remove` deletes the child and the walk stays at its index; an allowed `Collapse` makes it a single space. The non-whitespace leaves are kept, and nothing changes when the report was not allowed a fix |
| ParameterListSpacing.CommaStepEditsWhiteSpace | ktlint-ruleset-standard/src/main/kotlin/com/pinterest/ktlint/ruleset/standard/rules/ParameterListSpacingRule.kt:114-120 | One step at a comma makes at most one report. When that report is allowed a fix, one space is inserted right after the comma and the walk skips it. The non-whitespace leaves are kept, and nothing changes when the report was not allowed a fix |
| ParameterListSpacing.ParameterStepKeepsSignificant | ktlint-ruleset-standard/src/main/kotlin/com/pinterest/ktlint/ruleset/standard/rules/ParameterListSpacingRule.kt:122-125 | The same, for a walk whose current child is a parameter |
| ParameterListSpacing.ChildOffsetIsStartOffset | ktlint-ruleset-standard/src/main/kotlin/com/pinterest/ktlint/ruleset/standard/rules/ParameterListSpacingRule.kt:257 | The offset reported for child k of the list is `startOffset` of that child in the file as edited so far, in UTF-16 code units |
| ParameterListSpacing.EdgeWhiteSpaceVerdict | ktlint-ruleset-standard/src/main/kotlin/com/pinterest/ktlint/ruleset/standard/rules/ParameterListSpacingRule.kt:87-104 | Same-line whitespace before the first or after the last parameter is removed when the list has no comment, and kept when it has one |
| ParameterListSpacing.IndentVerdict | ktlint-ruleset-standard/src/main/kotlin/com/pinterest/ktlint/ruleset/standard/rules/ParameterListSpacingRule.kt:86-111 | A line break is removed only from a list without parameters and comments, or before a comma; otherwise it is kept; it never fails |
| ParameterListSpacing.InnerWhiteSpaceVerdict | ktlint-ruleset-standard/src/main/kotlin/com/pinterest/ktlint/ruleset/standard/rules/ParameterListSpacingRule.kt:105-111 | Between parameters: whitespace before a comma is removed; after a comma, other than one space, it is collapsed; elsewhere, other than one space, the `require` fails |
| ParameterListSpacing.CollapseIsFinal | ktlint-ruleset-standard/src/main/kotlin/com/pinterest/ktlint/ruleset/standard/rules/ParameterListSpacingRule.kt:108-110 | After collapsing, the single space is kept when visited again |
| ParameterListSpacing.CommaFixIsFinal | ktlint-ruleset-standard/src/main/kotlin/com/pinterest/ktlint/ruleset/standard/rules/ParameterListSpacingRule.kt:114-120 | After the comma step's own allowed fix the comma is still child k, the leaf after it is the inserted single space, and a second comma step there reports and changes nothing, whatever the engine decides |
| ParameterListSpacing.WhiteSpaceStepReport | ktlint-ruleset-standard/src/main/kotlin/com/pinterest/ktlint/ruleset/standard/rules/ParameterListSpacingRule.kt:86-111 | At a whitespace child the next log entry is the report for its verdict, at the child's offset. A failed `require` aborts the hook. A kept child is skipped without a report |
| ParameterListSpacing.CommaStepReport | ktlint-ruleset-standard/src/main/kotlin/com/pinterest/ktlint/ruleset/standard/rules/ParameterListSpacingRule.kt:114-120 | A comma whose next leaf is neither whitespace nor `)` gets the next log entry, at its offset, with the missing-whitespace message; any other comma is skipped |
| ParameterListSpacing.CollapseChild | ktlint-ruleset-standard/src/main/kotlin/com/pinterest/ktlint/ruleset/standard/rules/ParameterListSpacingRule.kt:263-269 | One report "Expected a single space" at the given offset; the child becomes one space exactly when the report was allowed a fix |
| ParameterListSpacing.InsertSpaceChild | ktlint-ruleset-standard/src/main/kotlin/com/pinterest/ktlint/ruleset/standard/rules/ParameterListSpacingRule.kt:233-242 | One report "Whitespace after ... is missing" at the given offset, decided by the policy; one space is inserted after the child exactly when the fix is allowed, otherwise the children are unchanged |
| ParameterListSpacing.ParameterRejectedUnchanged | ktlint-ruleset-standard/src/main/kotlin/com/pinterest/ktlint/ruleset/standard/rules/ParameterListSpacingRule.kt:132-139 | A parameter none of whose reports was allowed a fix is unchanged |
| ParameterListSpacing.VisitValueParameter | ktlint-ruleset-standard/src/main/kotlin/com/pinterest/ktlint/ruleset/standard/rules/ParameterListSpacingRule.kt:132-139 | The parameter keeps its type and the log only grows. The three fixes are stated by ParameterRejectedUnchanged, ParameterKeepsSignificant and the `*Settled` lemmas |
| ParameterListSpacing.ParameterChildrenRejectedUnchanged | ktlint-ruleset-standard/src/main/kotlin/com/pinterest/ktlint/ruleset/standard/rules/ParameterListSpacingRule.kt:132-139 | The three steps over a parameter's children (modifier list, before the colon, after the colon) leave them unchanged when no report was allowed a fix |
| ParameterListSpacing.ParameterKeepsSignificant | ktlint-ruleset-standard/src/main/kotlin/com/pinterest/ktlint/ruleset/standard/rules/ParameterListSpacingRule.kt:132-139 | A parameter keeps its non-whitespace leaves |
| ParameterListSpacing.ModifierListRejectedUnchanged | ktlint-ruleset-standard/src/main/kotlin/com/pinterest/ktlint/ruleset/standard/rules/ParameterListSpacingRule.kt:141-148 | The modifier-list step changes nothing without an allowed fix |
| ParameterListSpacing.ModifierListKeepsSignificant | ktlint-ruleset-standard/src/main/kotlin/com/pinterest/ktlint/ruleset/standard/rules/ParameterListSpacingRule.kt:141-148 | The modifier-list step keeps the non-whitespace leaves |
| ParameterListSpacing.ModifierListSettled | ktlint-ruleset-standard/src/main/kotlin/com/pinterest/ktlint/ruleset/standard/rules/ParameterListSpacingRule.kt:141-148 | With every fix allowed, each whitespace in the modifier list, and the whitespace after the list, is one space or a line break after an annotation |
| ParameterListSpacing.ModifiersRejectedUnchanged | ktlint-ruleset-standard/src/main/kotlin/com/pinterest/ktlint/ruleset/standard/rules/ParameterListSpacingRule.kt:150-161 | Visiting the modifiers' whitespace changes nothing without an allowed fix |
| ParameterListSpacing.ModifiersKeepSignificant | ktlint-ruleset-standard/src/main/kotlin/com/pinterest/ktlint/ruleset/standard/rules/ParameterListSpacingRule.kt:150-161 | Visiting the modifiers' whitespace keeps the non-whitespace leaves |
| ParameterListSpacing.ModifiersSettled | ktlint-ruleset-standard/src/main/kotlin/com/pinterest/ktlint/ruleset/standard/rules/ParameterListSpacingRule.kt:150-161 | With every fix allowed, every whitespace child of the modifier list ends up settled |
| ParameterListSpacing.WhiteSpaceAfterModifierRejectedUnchanged | ktlint-ruleset-standard/src/main/kotlin/com/pinterest/ktlint/ruleset/standard/rules/ParameterListSpacingRule.kt:163-173 | One whitespace after a modifier is unchanged without an allowed fix |
| ParameterListSpacing.WhiteSpaceAfterModifierKeepsSignificant | ktlint-ruleset-standard/src/main/kotlin/com/pinterest/ktlint/ruleset/standard/rules/ParameterListSpacingRule.kt:163-173 | Collapsing one whitespace after a modifier keeps the non-whitespace leaves |
| ParameterListSpacing.WhiteSpaceAfterModifierSettles | ktlint-ruleset-standard/src/main/kotlin/com/pinterest/ktlint/ruleset/standard/rules/ParameterListSpacingRule.kt:163-173 | With every fix allowed, the visited whitespace is settled, no other child changes, and earlier settled children stay settled |
| ParameterListSpacing.WhiteSpaceAfterModifierListSettles | ktlint-ruleset-standard/src/main/kotlin/com/pinterest/ktlint/ruleset/standard/rules/ParameterListSpacingRule.kt:174-184 | With every fix allowed, the whitespace right after the modifier list is settled and the list itself is untouched |
| ParameterListSpacing.BeforeColonRejectedUnchanged | ktlint-ruleset-standard/src/main/kotlin/com/pinterest/ktlint/ruleset/standard/rules/ParameterListSpacingRule.kt:186-197 | Removing whitespace before the colon changes nothing without an allowed fix |
| ParameterListSpacing.BeforeColonKeepsSignificant | ktlint-ruleset-standard/src/main/kotlin/com/pinterest/ktlint/ruleset/standard/rules/ParameterListSpacingRule.kt:186-197 | Removing whitespace before the colon keeps the non-whitespace leaves |
| ParameterListSpacing.BeforeColonSettled | ktlint-ruleset-standard/src/main/kotlin/com/pinterest/ktlint/ruleset/standard/rules/ParameterListSpacingRule.kt:186-197 | With every fix allowed, no whitespace is left right before the colon |
| ParameterListSpacing.AfterColonRejectedUnchanged | ktlint-ruleset-standard/src/main/kotlin/com/pinterest/ktlint/ruleset/standard/rules/ParameterListSpacingRule.kt:199-231 | Fixing the space after the colon changes nothing without an allowed fix |
| ParameterListSpacing.AfterColonKeepsSignificant | ktlint-ruleset-standard/src/main/kotlin/com/pinterest/ktlint/ruleset/standard/rules/ParameterListSpacingRule.kt:199-231 | Fixing the space after the colon keeps the non-whitespace leaves |
| ParameterListSpacing.AfterColonSettled | ktlint-ruleset-standard/src/main/kotlin/com/pinterest/ktlint/ruleset/standard/rules/ParameterListSpacingRule.kt:199-231 | With every fix allowed, the colon is followed by one space, or by a line break before a type with a modifier list or a type too long for the colon's line |
| ParameterListSpacing.AfterColonAtSettled | ktlint-ruleset-standard/src/main/kotlin/com/pinterest/ktlint/ruleset/standard/rules/ParameterListSpacingRule.kt:203-231 | With every fix allowed, the colon stays the first colon and is followed by one space, an indent before a type with a modifier list, or a line break before a type that does not fit |
| ParameterListSpacing.FixWhiteSpaceAfterColonAt | ktlint-ruleset-standard/src/main/kotlin/com/pinterest/ktlint/ruleset/standard/rules/ParameterListSpacingRule.kt:203-231 | Only appends to the log; its result is stated by AfterColonAtSettled, CollapseAfterColonValue and InsertAfterColonValue |
| ParameterListSpacing.TypeDoesNotFitOnColonLine | ktlint-ruleset-standard/src/main/kotlin/com/pinterest/ktlint/ruleset/standard/rules/ParameterListSpacingRule.kt:288-309 | Whitespace with a line break before a type reference whose joined line, measured in UTF-16 code units, would exceed the maximum line length; AfterColonSettled states that such a break is kept |
| ParameterListSpacing.SpaceAfterColonPlaced | ktlint-ruleset-standard/src/main/kotlin/com/pinterest/ktlint/ruleset/standard/rules/ParameterListSpacingRule.kt:226-227 | Any children that keep everything up to the first colon and have a single space after it have the colon settled |
| ParameterListSpacing.CollapseAfterColonValue | ktlint-ruleset-standard/src/main/kotlin/com/pinterest/ktlint/ruleset/standard/rules/ParameterListSpacingRule.kt:226-227 | With every fix allowed, whitespace after the colon that is to be collapsed becomes one space and nothing else changes |
| ParameterListSpacing.InsertAfterColonValue | ktlint-ruleset-standard/src/main/kotlin/com/pinterest/ktlint/ruleset/standard/rules/ParameterListSpacingRule.kt:208-209 | With every fix allowed, a colon not followed by whitespace gets one space inserted right after it and nothing else changes |
| ParameterListSpacing.AfterLastNewlineIsLastLine | ktlint-ruleset-standard/src/main/kotlin/com/pinterest/ktlint/ruleset/standard/rules/ParameterListSpacingRule.kt:301 | The result is the longest suffix without a line break; when the text has one, a line break comes right before it |
| ParameterListSpacing.BeforeFirstNewlineIsFirstLine | ktlint-ruleset-standard/src/main/kotlin/com/pinterest/ktlint/ruleset/standard/rules/ParameterListSpacingRule.kt:295-297 | The result is the longest prefix without a line break; when the text has one, a line break comes right after it |
| ParameterListSpacing.AllowedWalkSettles | ktlint-ruleset-standard/src/main/kotlin/com/pinterest/ktlint/ruleset/standard/rules/ParameterListSpacingRule.kt:67-128 | With every fix allowed, a completed walk over a list whose commas fit keeps the number of parameters and leaves children that a second walk passes without removing, collapsing or failing on any whitespace |
| ParameterListSpacing.ListSettles | ktlint-ruleset-standard/src/main/kotlin/com/pinterest/ktlint/ruleset/standard/rules/ParameterListSpacingRule.kt:67-128 | The same from any child k on, given the walk invariant: children before k settled, parameters counted, commas from k on fitting |
| ParameterListSpacing.WhiteSpaceStepSettles | ktlint-ruleset-standard/src/main/kotlin/com/pinterest/ktlint/ruleset/standard/rules/ParameterListSpacingRule.kt:86-112 | The same for a walk whose current child is whitespace |
| ParameterListSpacing.CommaStepSettles | ktlint-ruleset-standard/src/main/kotlin/com/pinterest/ktlint/ruleset/standard/rules/ParameterListSpacingRule.kt:114-120 | The same for a walk whose current child is a comma; the inserted space is settled |
| ParameterListSpacing.ParameterStepSettles | ktlint-ruleset-standard/src/main/kotlin/com/pinterest/ktlint/ruleset/standard/rules/ParameterListSpacingRule.kt:122-125 | The same for a walk whose current child is a parameter |
| ParameterListSpacing.InsertedSpaceKept | ktlint-ruleset-standard/src/main/kotlin/com/pinterest/ktlint/ruleset/standard/rules/ParameterListSpacingRule.kt:86-120 | The space inserted after a comma that fits gets the verdict Keep when the walk reaches it |
| ParameterListSpacing.ListKeepsVisitedPrefix | ktlint-ruleset-standard/src/main/kotlin/com/pinterest/ktlint/ruleset/standard/rules/ParameterListSpacingRule.kt:67-128 | Under any policy, the walk from child k on never changes the children before k |
| ParameterListSpacing.CommaSpaceKept | ktlint-ruleset-standard/src/main/kotlin/com/pinterest/ktlint/ruleset/standard/rules/ParameterListSpacingRule.kt:114-120 | Under any policy, when the comma step's report is allowed a fix, the completed walk leaves the comma followed by that single space, so it no longer lacks one |
| ParameterListSpacing.TightPairListFits | ktlint-ruleset-standard/src/main/kotlin/com/pinterest/ktlint/ruleset/standard/rules/ParameterListSpacingRule.kt:114-120 | For any parameter names a and b, in `(a,b)` the comma lacks a space and the list's commas fit, so AllowedWalkSettles applies to it |
| ChainWrapping.NextCodeLeaf | ktlint-ruleset-standard/src/main/kotlin/com/pinterest/ktlint/ruleset/standard/rules/ChainWrappingRule.kt:82 | The index of the first code token after i, with only non-code tokens between; none when no code follows |
| ChainWrapping.PrevCodeLeaf | ktlint-ruleset-standard/src/main/kotlin/com/pinterest/ktlint/ruleset/standard/rules/ChainWrappingRule.kt:158 | The index of the last code token before i, with only non-code tokens between; none when no code precedes |
| ChainWrapping.TokensAreLeaves | ktlint-ruleset-standard/src/main/kotlin/com/pinterest/ktlint/ruleset/standard/rules/ChainWrappingRule.kt:82-105 | The token view is the leaf view the hook navigates: the tokens of a tree are its leaves in order, with their types and texts, and they spell the tree's text |
| ChainWrapping.BeforeVisitChildNodes | ktlint-ruleset-standard/src/main/kotlin/com/pinterest/ktlint/ruleset/standard/rules/ChainWrappingRule.kt:73-167 | The hook on one token; what it reports is stated by LineEndReportedIffViolation and LineStartReportedIffViolation, what it changes by FixKeepsProgram and RejectedFixLeavesTokens, and that the fix is final by FixedTokenNotReportedAgain |
| ChainWrapping.IsPartOfSpread | ktlint-ruleset-standard/src/main/kotlin/com/pinterest/ktlint/ruleset/standard/rules/ChainWrappingRule.kt:169-179 | A `*` after `(`, `,`, `{`, `else` or an operation; LineStartReportedIffViolation states that it is never reported |
| ChainWrapping.IsInPrefixPosition | ktlint-ruleset-standard/src/main/kotlin/com/pinterest/ktlint/ruleset/standard/rules/ChainWrappingRule.kt:181 | A `+` or `-` whose grandparent is a prefix expression; LineStartReportedIffViolation states that it is never reported |
| ChainWrapping.IsElvisOperatorAndComment | ktlint-ruleset-standard/src/main/kotlin/com/pinterest/ktlint/ruleset/standard/rules/ChainWrappingRule.kt:183-185 | An elvis whose next leaf is same-line whitespace or part of a comment; LineEndReportedIffViolation states that it is never reported |
| ChainWrapping.MoveAfterNewline | ktlint-ruleset-standard/src/main/kotlin/com/pinterest/ktlint/ruleset/standard/rules/ChainWrappingRule.kt:82-97 | The fix for `.` and `?.`; MoveAfterNewlineKeepsProgram and MoveAfterNewlineResolves state what it keeps and that it resolves the violation |
| ChainWrapping.UpsertWhiteSpaceBefore | ktlint-ruleset-standard/src/main/kotlin/com/pinterest/ktlint/ruleset/standard/rules/ChainWrappingRule.kt:93 | The token is kept, at the returned index, right after a whitespace token with the given text |
| ChainWrapping.UpsertWhiteSpaceAfter | ktlint-ruleset-standard/src/main/kotlin/com/pinterest/ktlint/ruleset/standard/rules/ChainWrappingRule.kt:94 | The token is kept at its index, right before a whitespace token with the given text |
| ChainWrapping.WrapElvis | ktlint-ruleset-standard/src/main/kotlin/com/pinterest/ktlint/ruleset/standard/rules/ChainWrappingRule.kt:92-94 | The elvis is kept at the returned index, right after a whitespace token with the indent's text and right before a whitespace token holding a single space; the tokens before that indent are unchanged |
| ChainWrapping.MovedOperator | ktlint-ruleset-standard/src/main/kotlin/com/pinterest/ktlint/ruleset/standard/rules/ChainWrappingRule.kt:148-161 | The moved operator has the operator's type and text and is code; the space put before it is not code |
| ChainWrapping.OtherTokensIgnored | ktlint-ruleset-standard/src/main/kotlin/com/pinterest/ktlint/ruleset/standard/rules/ChainWrappingRule.kt:73-167 | Any other token type is neither reported nor changed |
| ChainWrapping.LineEndReportedIffViolation | ktlint-ruleset-standard/src/main/kotlin/com/pinterest/ktlint/ruleset/standard/rules/ChainWrappingRule.kt:78-100 | On `.`, `?.`, `?:` the hook never fails. It reports exactly when the token ends its line and is not an elvis before a comment or space. It reports once, at the token's offset, with "Line must not end with" |
| ChainWrapping.LineStartReportedIffViolation | ktlint-ruleset-standard/src/main/kotlin/com/pinterest/ktlint/ruleset/standard/rules/ChainWrappingRule.kt:101-165 | On an operator the hook reports exactly when the operator begins its line and is not a spread or prefix operator. It reports once, with "Line must not begin with". It fails exactly when the fix is allowed and no code precedes |
| ChainWrapping.CommentsNeverReported | ktlint-ruleset-standard/src/main/kotlin/com/pinterest/ktlint/ruleset/standard/rules/ChainWrappingRule.kt:78-104 | A comment, or a token inside one, is neither reported nor changed |
| ChainWrapping.RejectedFixLeavesTokens | ktlint-ruleset-standard/src/main/kotlin/com/pinterest/ktlint/ruleset/standard/rules/ChainWrappingRule.kt:83-164 | Without an allowed fix the tokens are unchanged |
| ChainWrapping.OffsetIsTextLength | ktlint-ruleset-standard/src/main/kotlin/com/pinterest/ktlint/ruleset/standard/rules/ChainWrappingRule.kt:84 | The offset reported for a token, its `startOffset`, is the UTF-16 length of the file's text before it |
| ChainWrapping.FixKeepsProgram | ktlint-ruleset-standard/src/main/kotlin/com/pinterest/ktlint/ruleset/standard/rules/ChainWrappingRule.kt:73-167 | Whenever the hook completes, the tokens it leaves hold the same code tokens (type and text, in order) as before, provided, for `.` and `?.`, that the leaf where the moved token lands is outside comments |
| ChainWrapping.LineEndFixKeepsProgram | ktlint-ruleset-standard/src/main/kotlin/com/pinterest/ktlint/ruleset/standard/rules/ChainWrappingRule.kt:78-100 | The same for `.`, `?.`, `?:`, under the same proviso: the tokens a completed call leaves spell the same program |
| ChainWrapping.LineStartFixKeepsProgram | ktlint-ruleset-standard/src/main/kotlin/com/pinterest/ktlint/ruleset/standard/rules/ChainWrappingRule.kt:121-164 | The same for the operators: the tokens a completed call leaves spell the same program |
| ChainWrapping.MoveAfterNewlineKeepsProgram | ktlint-ruleset-standard/src/main/kotlin/com/pinterest/ktlint/ruleset/standard/rules/ChainWrappingRule.kt:96-97 | Moving `.` or `?.` right after the whitespace before the next code token keeps the code tokens, when that whitespace is outside comments |
| ChainWrapping.MoveBeforeNewlineKeepsProgram | ktlint-ruleset-standard/src/main/kotlin/com/pinterest/ktlint/ruleset/standard/rules/ChainWrappingRule.kt:130-163 | Moving an operator after the previous code token, and deleting one whitespace, keeps the code tokens |
| ChainWrapping.MoveDroppingNewlineKeepsProgram | ktlint-ruleset-standard/src/main/kotlin/com/pinterest/ktlint/ruleset/standard/rules/ChainWrappingRule.kt:133-137 | The same when the line break before the operator is deleted |
| ChainWrapping.MoveDroppingSpaceKeepsProgram | ktlint-ruleset-standard/src/main/kotlin/com/pinterest/ktlint/ruleset/standard/rules/ChainWrappingRule.kt:139-141 | The same when the space after the operator is deleted |
| ChainWrapping.MoveKeepingAllKeepsProgram | ktlint-ruleset-standard/src/main/kotlin/com/pinterest/ktlint/ruleset/standard/rules/ChainWrappingRule.kt:143-145 | The same when no whitespace is deleted |
| ChainWrapping.WrapElvisKeepsProgram | ktlint-ruleset-standard/src/main/kotlin/com/pinterest/ktlint/ruleset/standard/rules/ChainWrappingRule.kt:92-94 | Re-spacing an elvis keeps the code tokens |
| ChainWrapping.UpsertBeforeKeepsProgram | ktlint-ruleset-standard/src/main/kotlin/com/pinterest/ktlint/ruleset/standard/rules/ChainWrappingRule.kt:93 | Upserting whitespace before a token keeps the code tokens |
| ChainWrapping.UpsertAfterKeepsProgram | ktlint-ruleset-standard/src/main/kotlin/com/pinterest/ktlint/ruleset/standard/rules/ChainWrappingRule.kt:94 | Upserting whitespace after a token keeps the code tokens |
| ChainWrapping.MoveAfterNewlineResolves | ktlint-ruleset-standard/src/main/kotlin/com/pinterest/ktlint/ruleset/standard/rules/ChainWrappingRule.kt:82-97 | After `.` or `?.` is moved, the moved token no longer ends a line and is not reported |
| ChainWrapping.WrapElvisResolves | ktlint-ruleset-standard/src/main/kotlin/com/pinterest/ktlint/ruleset/standard/rules/ChainWrappingRule.kt:92-94 | After the elvis fix, the elvis is followed by a space and is not reported |
| ChainWrapping.MoveBeforeNewlineResolves | ktlint-ruleset-standard/src/main/kotlin/com/pinterest/ktlint/ruleset/standard/rules/ChainWrappingRule.kt:121-163 | After an operator is moved, it no longer begins a line and is not reported |
| ChainWrapping.MovedOperatorBeginsNoLine | ktlint-ruleset-standard/src/main/kotlin/com/pinterest/ktlint/ruleset/standard/rules/ChainWrappingRule.kt:148-161 | After the move the operator, with its type and text, sits two places after the previous code token, right behind a space, so it begins no line |
| ChainWrapping.MoveBeforeNewline | ktlint-ruleset-standard/src/main/kotlin/com/pinterest/ktlint/ruleset/standard/rules/ChainWrappingRule.kt:130-163 | The tokens up to the previous code token are kept; the space and the moved operator follow it |
| ChainWrapping.ProgramMoveBack | ktlint-ruleset-standard/src/main/kotlin/com/pinterest/ktlint/ruleset/standard/rules/ChainWrappingRule.kt:130-163 | Moving a code token with a space before it back over non-code tokens, in place of tokens that spell the same code, keeps the code tokens |
| ChainWrapping.FixedTokenNotReportedAgain | ktlint-ruleset-standard/src/main/kotlin/com/pinterest/ktlint/ruleset/standard/rules/ChainWrappingRule.kt:73-167 | When the hook completes with a log in which some report was allowed a fix, the operator, with its type and text, is at `FixedIndex` in the tokens it leaves: after the indent for `?:`, at the old index of the line break for `.` and `?.`, two places after the previous code token for a line-start operator. Visiting it there reports and changes nothing, whatever the policy |
| ChainWrapping.LineEndFixNotReportedAgain | ktlint-ruleset-standard/src/main/kotlin/com/pinterest/ktlint/ruleset/standard/rules/ChainWrappingRule.kt:78-100 | When the hook completes with an allowed fix, `?:` is at the index `WrapElvis` returns in the tokens it leaves, and `.` or `?.` one place before the next code token; visiting it there reports and changes nothing |
| ChainWrapping.LineStartFixNotReportedAgain | ktlint-ruleset-standard/src/main/kotlin/com/pinterest/ktlint/ruleset/standard/rules/ChainWrappingRule.kt:101-165 | When the hook completes with an allowed fix, the operator is, in the tokens it leaves, two places after the previous code token p, right behind the inserted space; visiting it there reports and changes nothing |
| BlankLineBeforeDeclaration.OnlyDeclarationsExamined | ktlint-ruleset-standard/src/main/kotlin/com/pinterest/ktlint/ruleset/standard/rules/BlankLineBeforeDeclarationRule.kt:46-61 | A node that is not a class, initializer, function, object declaration, property or accessor is neither reported nor changed |
| BlankLineBeforeDeclaration.BeforeVisitChildNodes | ktlint-ruleset-standard/src/main/kotlin/com/pinterest/ktlint/ruleset/standard/rules/BlankLineBeforeDeclarationRule.kt:46-61 | The hook; its reports are stated by ReportedIffViolation, its edits by RejectedUnchanged, FixKeepsSignificant and AllowedFixUpserts |
| BlankLineBeforeDeclaration.VisitDeclaration | ktlint-ruleset-standard/src/main/kotlin/com/pinterest/ktlint/ruleset/standard/rules/BlankLineBeforeDeclarationRule.kt:63-158 | The exemptions, then the report and the fix; stated through the hook by ReportedIffViolation and FixedDeclarationNotReportedAgain |
| BlankLineBeforeDeclaration.IsExemptAsWritten | ktlint-ruleset-standard/src/main/kotlin/com/pinterest/ktlint/ruleset/standard/rules/BlankLineBeforeDeclarationRule.kt:67-148 | The exemptions as ktlint has them; OnlyFunctionLiteralExemption and CommentBeforeFirstDeclarationInFunctionLiteral state how the function-literal check decides |
| BlankLineBeforeDeclaration.IsExempt | ktlint-ruleset-standard/src/main/kotlin/com/pinterest/ktlint/ruleset/standard/rules/BlankLineBeforeDeclarationRule.kt:67-148 | The exemptions with the corrected function-literal check; FirstChildIsFirstCodeSibling states that it exempts every declaration `IsExemptAsWritten` exempts |
| BlankLineBeforeDeclaration.UpsertWhiteSpaceBefore | ktlint-ruleset-standard/src/main/kotlin/com/pinterest/ktlint/ruleset/standard/rules/BlankLineBeforeDeclarationRule.kt:156 | The fix; UpsertPlacesWhiteSpace and UpsertKeepsSignificant state where the whitespace lands and what is kept |
| BlankLineBeforeDeclaration.BlankLineNeverReported | ktlint-ruleset-standard/src/main/kotlin/com/pinterest/ktlint/ruleset/standard/rules/BlankLineBeforeDeclarationRule.kt:150-161 | A declaration at the start of the file, or whose previous leaf starts with two line breaks, is neither reported nor changed |
| BlankLineBeforeDeclaration.ReportedIffViolation | ktlint-ruleset-standard/src/main/kotlin/com/pinterest/ktlint/ruleset/standard/rules/BlankLineBeforeDeclarationRule.kt:63-158 | For either reading of the exemption (`AsWritten` is ktlint's rule): at most one report. It is made exactly for an examined declaration that is not exempt under that reading and not after a blank line, at its start offset, with "Expected a blank line for this declaration" |
| BlankLineBeforeDeclaration.RejectedUnchanged | ktlint-ruleset-standard/src/main/kotlin/com/pinterest/ktlint/ruleset/standard/rules/BlankLineBeforeDeclarationRule.kt:150-158 | Without an allowed fix the file is unchanged |
| BlankLineBeforeDeclaration.UpsertPlacesWhiteSpace | ktlint-ruleset-standard/src/main/kotlin/com/pinterest/ktlint/ruleset/standard/rules/BlankLineBeforeDeclarationRule.kt:156 | After the upsert the declaration is unchanged at its new path, and its previous leaf is whitespace with the given text |
| BlankLineBeforeDeclaration.ReTextPlacesWhiteSpace | ktlint-ruleset-standard/src/main/kotlin/com/pinterest/ktlint/ruleset/standard/rules/BlankLineBeforeDeclarationRule.kt:156 | The same when a whitespace sibling precedes the declaration and is re-texted |
| BlankLineBeforeDeclaration.InsertPlacesWhiteSpace | ktlint-ruleset-standard/src/main/kotlin/com/pinterest/ktlint/ruleset/standard/rules/BlankLineBeforeDeclarationRule.kt:156 | The same when a whitespace sibling is inserted |
| BlankLineBeforeDeclaration.UpsertKeepsSignificant | ktlint-ruleset-standard/src/main/kotlin/com/pinterest/ktlint/ruleset/standard/rules/BlankLineBeforeDeclarationRule.kt:156 | The upsert keeps the non-whitespace leaves of the file |
| BlankLineBeforeDeclaration.FixKeepsSignificant | ktlint-ruleset-standard/src/main/kotlin/com/pinterest/ktlint/ruleset/standard/rules/BlankLineBeforeDeclarationRule.kt:150-158 | The hook keeps the non-whitespace leaves of the file |
| BlankLineBeforeDeclaration.FixedDeclarationNotReportedAgain | ktlint-ruleset-standard/src/main/kotlin/com/pinterest/ktlint/ruleset/standard/rules/BlankLineBeforeDeclarationRule.kt:150-161 | After an allowed fix the file is the upserted one. The declaration is unchanged at its new path and is not reported again under any policy |
| BlankLineBeforeDeclaration.AllowedFixUpserts | ktlint-ruleset-standard/src/main/kotlin/com/pinterest/ktlint/ruleset/standard/rules/BlankLineBeforeDeclarationRule.kt:150-158 | An allowed fix never happens at the file root, and its result is the file with the blank line upserted before the declaration |
| BlankLineBeforeDeclaration.UpsertedDeclarationNotReported | ktlint-ruleset-standard/src/main/kotlin/com/pinterest/ktlint/ruleset/standard/rules/BlankLineBeforeDeclarationRule.kt:150-158 | After the blank line is upserted the declaration is at its new path, unchanged, and the hook reports nothing there, whatever the policy |
| BlankLineBeforeDeclaration.OnlyExemptionDecides | ktlint-ruleset-standard/src/main/kotlin/com/pinterest/ktlint/ruleset/standard/rules/BlankLineBeforeDeclarationRule.kt:67-148 | A declaration exempt under the hook's reading (for ktlint's rule, `IsExemptAsWritten`) is neither reported nor changed |
| BlankLineBeforeDeclaration.NotExemptByKind | ktlint-ruleset-standard/src/main/kotlin/com/pinterest/ktlint/ruleset/standard/rules/BlankLineBeforeDeclarationRule.kt:100-148 | A function directly in a block with no code sibling before it has none of the type-specific exemptions |
| BlankLineBeforeDeclaration.OnlyFunctionLiteralExemption | ktlint-ruleset-standard/src/main/kotlin/com/pinterest/ktlint/ruleset/standard/rules/BlankLineBeforeDeclarationRule.kt:67-148 | When neither brace exemption nor any type-specific exemption applies, the declaration is exempt exactly when the function-literal check holds. This holds for both readings of that check |
| BlankLineBeforeDeclaration.FirstChildIsFirstCodeSibling | ktlint-ruleset-standard/src/main/kotlin/com/pinterest/ktlint/ruleset/standard/rules/BlankLineBeforeDeclarationRule.kt:177-185 | The as-written check implies the intended one, so every declaration exempt as written is exempt as intended |
| BlankLineBeforeDeclaration.FirstCodeSiblingInBodyOfFunctionLiteral | ktlint-ruleset-standard/src/main/kotlin/com/pinterest/ktlint/ruleset/standard/rules/BlankLineBeforeDeclarationRule.kt:177-185 | In a function literal's first block, the intended check holds exactly for a code node with no code child of the block before it |
| BlankLineBeforeDeclaration.CommentBeforeFirstDeclarationInFunctionLiteral | ktlint-ruleset-standard/src/main/kotlin/com/pinterest/ktlint/ruleset/standard/rules/BlankLineBeforeDeclarationRule.kt:177-185 | In `{ /* c */ <newline> fun f }` the function is examined. As written it is not exempt, and its previous leaf is a single line break |
| BlankLineBeforeDeclaration.FirstDeclarationAfterCommentExempt | ktlint-ruleset-standard/src/main/kotlin/com/pinterest/ktlint/ruleset/standard/rules/BlankLineBeforeDeclarationRule.kt:89-98 | In the same literal the function is exempt as intended, and the hook neither reports nor changes anything |
| BlankLineBeforeDeclaration.ExampleReportedOnlyAsWritten | ktlint-ruleset-standard/src/main/kotlin/com/pinterest/ktlint/ruleset/standard/rules/BlankLineBeforeDeclarationRule.kt:177-185 | On `{ /* c */ <newline> fun f }` ktlint's hook reports the function once, at its start, and the corrected hook reports nothing |
| BlankLineBeforeDeclaration.IntendedReportsFewer | ktlint-ruleset-standard/src/main/kotlin/com/pinterest/ktlint/ruleset/standard/rules/BlankLineBeforeDeclarationRule.kt:177-185 | Everywhere, the corrected hook reports only where ktlint's hook reports |
| Autocorrect.EmitRecordsDecision | ktlint-ruleset-standard/src/main/kotlin/com/pinterest/ktlint/ruleset/standard/rules/ParameterListSpacingRule.kt:257 | An `emit` keeps the earlier reports and adds one correctable report with the given offset and message and the engine's answer; the log allows no fix afterwards exactly when it allowed none before and the engine refused this one |
| Syntax.Utf16LengthBounds | ktlint-ruleset-standard/src/main/kotlin/com/pinterest/ktlint/ruleset/standard/rules/ParameterListSpacingRule.kt:301 | A Kotlin `length` is between one and two code units per character, and equals the number of characters exactly when none lies outside the Basic Multilingual Plane |
| Syntax.AstralCharCountsTwice | ktlint-ruleset-standard/src/main/kotlin/com/pinterest/ktlint/ruleset/standard/rules/ParameterListSpacingRule.kt:257 | An emoji is one character of a Dafny string but two UTF-16 code units, which is what `startOffset` and `length` count |

## Left out

- The rule provider sorter (`RuleProviderSorter`) is not modelled. The shared sorter and a new sorter are two function parameters; all the model assumes of each is that it returns every provider of its input exactly once. Its ordering by visitor modifiers is not modelled, so nothing is said about the order beyond that it is the chosen sorter's.
- Logging, and the process-wide shared sorter as an object, are not modelled. The model records which sorter was chosen.
- The traversal engine that calls `beforeVisitChildNodes` on every node is left out. Each rule's hook is modelled for one call on one node.
- EditorConfig plumbing is left out. `maxLineLength`, the chain-wrapping indent (`indentConfig.childIndentOf(node)`) and the declaration indent (`indent20`) are parameters.
- BlankLineBeforeDeclaration.FixedDeclarationNotReportedAgain: requires the indent to start with a line break, as `indent20` does; the helper that computes it is not part of this model.
- BlankLineBeforeDeclaration.UpsertedDeclarationNotReported: has the same requirement on the indent, for the same reason.
- `isDeclaration20` is not modelled: it holds for all six node types the blank-line hook examines.
- ParameterListSpacing.TypeDoesNotFitOnColonLine: measures the two lines on their text, in UTF-16 code units. `leavesOnLine20`, `dropTrailingEolComment` and `lineLength` come from a library that is not part of this model. So a trailing end-of-line comment is not dropped, and a line break inside a block comment counts as a line end.
- ParameterListSpacing.AfterColonAtSettled: decides on TypeDoesNotFitOnColonLine, so it inherits the same line measure.
- ParameterListSpacing.AfterColonSettled: decides on TypeDoesNotFitOnColonLine, so it inherits the same line measure.
- ParameterListSpacing.BeforeColonSettled: the whitespace before and after the colon is looked up among the parameter's children, not by leaf. The parser never starts or ends a composite with whitespace. The settled result assumes no two whitespace children in a row (the parser merges them).
- Zero-length leaves are not skipped when the previous or next leaf is looked up.
- The set `KtTokens.OPERATIONS` comes from the Kotlin compiler and is restated in `Syntax.IsOperation`.
- ChainWrapping.FixKeepsProgram: for `.` and `?.`, requires that the leaf right before the next code leaf is not inside a comment (`BreakOutsideComment`). The moved token takes that leaf's ancestors, so it would otherwise count as part of a comment. That leaf is a line break, and a KDoc ends with its own closing token, so in parser output it is never inside a comment; the model does not derive this from the parser.
- ChainWrapping.LineEndFixKeepsProgram: has the same requirement, for the same reason.
- ChainWrapping.MoveAfterNewlineKeepsProgram: requires the same of the whitespace it moves the token past.
- `upsertWhitespaceBeforeMe`/`upsertWhitespaceAfterMe` are modelled on the node's own siblings: re-text the adjacent whitespace sibling, or insert one. The library's descent to the first or last leaf of a composite is not modelled.
- When a hook aborts, the model drops both the edits and the reports made earlier in the same call. In the source the tree keeps those edits, and the engine has already received those reports.
- Chain wrapping works on the file's sequence of leaves, each carrying its ancestors' types. Moving an operation reference node is modelled as moving its operator leaf.
- ParameterListSpacing.AllowedWalkSettles: assumes the list's commas fit (`CommasFit`). A comma that lacks a space must not be followed by another comma, and in a list without comments it must sit between two parameters. Lists the Kotlin parser builds are like this, but the model does not derive it from the grammar.
- ParameterListSpacing.CommaSpaceKept: proves that a comma the walk gives a space keeps it. It does not prove that no comma lacks a space after a whole walk: a later step may remove the whitespace after a comma that needed no fix, and ruling that out needs the parser's list shape.
- ParameterListSpacing.VisitListFrom: the log of a whole walk is described step by step (WhiteSpaceStepReport, CommaStepReport), not as the list of all violations of the list.

## Findings

| source | as written | input that shows it | evidently intended | confidence | as-written member | corrected member |
|---|---|---|---|---|---|---|
| ktlint-ruleset-standard/src/main/kotlin/com/pinterest/ktlint/ruleset/standard/rules/BlankLineBeforeDeclarationRule.kt:177-185 | `firstOrNull { isCode }` tests the declaration itself (the receiver of the extension function), not each child. So only the block's first child can be exempt | `{ /* c */ <newline> fun f }`: the function follows a comment, is not exempt, and is reported | The first code child of the function literal's block is exempt | medium; not executed. The example tree is built by hand: it assumes the Kotlin parser puts `/* c */` inside the lambda's BLOCK, before the function. Where the parser attaches the comment is not in the source text | BlankLineBeforeDeclaration.IsFirstChildInBodyOfFunctionLiteral, used by the hook with reading `AsWritten` (counterexamples BlankLineBeforeDeclaration.CommentBeforeFirstDeclarationInFunctionLiteral and BlankLineBeforeDeclaration.ExampleReportedOnlyAsWritten) | BlankLineBeforeDeclaration.IsFirstCodeSiblingInBodyOfFunctionLiteral, used by the hook with reading `Intended` (proved BlankLineBeforeDeclaration.FirstCodeSiblingInBodyOfFunctionLiteral, BlankLineBeforeDeclaration.FirstDeclarationAfterCommentExempt and BlankLineBeforeDeclaration.IntendedReportsFewer) |
