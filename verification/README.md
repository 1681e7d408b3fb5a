# Verified model of the assurance tooling

plenora-database-tools rests its release on Python gates: scripts that read Rust
sources, render and check a bill of materials, switch database fixtures on and
off, and compare what a fleet of servers answered. This project models the
algorithms of those gates in Dafny and proves what they are for. Each gate is a
module or a pair of modules: a specification with its theorems, and the loops of
the script proved against it.

* **Reading Rust sources** (`RustLexer`, `LexerGrammar`, `Attributes`,
  `LiveInventory`). The masker `strip_noncode` is specified on the text still to
  be read. It keeps offsets and lines, is idempotent on every text, and is
  compared with an independent lexeme grammar: exactly the comments and literals
  are blanked, but for what the escaped apostrophe does.
* **Evaluating `cfg` predicates on text** (`CfgPredicate`, `CfgTheorems`,
  `DelimitedText`, `MalformedPredicates`). A predicate syntax with a printer that
  allows any layout; the evaluator's answer is the strong Kleene value. It is
  definite exactly when the predicate is constant with the plain and the negated
  occurrences of each atom set apart, hence sound for every configuration, and
  exact when no atom occurs both ways.
* **Finding tests in attribute blocks** (`DeclaresTest`, `AttributeBlocks`,
  `BlockScan`, `BlockTheorems`, `LostTests`). Blocks as syntax: paths with
  arguments in any delimiters, `cfg`s, `cfg_attr`s nested to any depth,
  indentation and other attributes around them. A configuration decides which
  attributes a block expands to and whether its `cfg`s let the item be compiled. A
  block is a test under it if it is compiled and one of these attributes is a path
  that ends in `test`; the scan is compared with that, exactly. The predicates of
  a configuration are those of the source, of which masking leaves only the shape
  in the text: every `feature = "..."` reads `feature =` there.
* **Finding functions and their attributes** (`Definitions`, `Signatures`,
  `AttributeLines`, `AnnotatedTests`, `CutTests`). The search for signatures and
  the walk up over the lines above each of them, compared with functions as
  syntax: lines of attributes, attributes on the line of the function, and its
  signature with visibility, qualifiers, name, generics and blanks.
* **Balanced delimiters** (`Balanced`). One specification, the least closing
  position, for all the brace and parenthesis loops, tied in both directions to
  the grammar of balanced words.
* **The release bill of materials** (`RequirementIncludes`, `RequirementResolver`,
  `Versions`, `VersionBounds`, `Declarations`, `Sbom`, `SbomTheorems`,
  `BillTheorems`, `InventorySpec`, `Inventories`, `InventoryTheorems`, `Release`).
  Include resolution by depth-first search, the zero-padded version order of PEP
  440 (section "Final releases"), wheel requirements and pinned lines as syntax
  with a printer, the generator and the checker of the bill, compared with the
  lists of a bill themselves, and the path from lock files and wheels to an
  accepted bill and back.
* **The fixture campaign** (`Campaign`, `CampaignSafety`, `CampaignErrors`,
  `CampaignCleanup`). The environment is an arbitrary function of the history, so
  a theorem about all environments is a theorem about all runs. Safety is stated
  on traces.
* **The ODBC checker** (`OdbcStrict`, `OdbcGrammar`, `OdbcChecker`). The alias
  loop computes a least fixed point; the masker keeps offsets and is compared with
  a token grammar. `UnclosedTokens` says what both maskers make of a comment or
  literal that is never closed.
* **The evidence gate** (`FleetGate`, `FleetTheorems`). Star-shaped comparison
  plus validation is equivalent to pairwise agreement of the fleet.
* **Measurements and files** (`Percentile`, `Recorder`, `Aggregation`,
  `ReportTheorems`, `Readiness`, `LineEndings`, `Spans`, `TestModules`).
  Nearest-rank percentiles, the recorder and its aggregation, the two-probe
  readiness wait, line-ending forms, deletion of test modules.

`Text` and `SortedText` model the string operations and `sorted`; `Selections`
says what a filtering pass over a list selects.

## Properties the code meets only in part

For each of these a lemma shows a failing input and another says exactly when the
property holds.

* `without_spans` deletes product code when test modules are nested:
  `TestModules.NestedModuleLosesCode` gives a source. The spans of test modules
  are always nested or disjoint, and the deletion is right if and only if no
  product text follows a test module that holds another one
  (`TestModules.DeletionOfTestModules`; for arbitrary sorted spans,
  `Spans.DeletionIsExactlyRight`).
* `predicate_truth` answers "unknown" for some constant predicates, such as
  `any(a,not(a))` (`CfgTheorems.MixedAtomStaysUnknown`). The answer is true or
  false if and only if the predicate is so with plain and negated occurrences of
  an atom set independently (`CfgTheorems.TruthIsExactly`), so the answer is exact
  wherever no atom occurs in both ways (`CfgTheorems.TruthIsExactWhenUnmixed`).
* The literal `'\''` is not masked as one literal: its last apostrophe is scanned
  again in front of what follows (`LexerGrammar.EscapedApostropheIsSplit`), and in
  `'\'','"'` it derails the masker, which then blanks code up to the next quote
  (`LexerGrammar.CodeIsDerailed`). For every well-formed source, only that
  apostrophe stays behind if and only if none pairs with the text after it
  (`LexerGrammar.StripShowsExactly`); a source without `'\''` is masked exactly.
* Three kinds of tests are left out of the inventory whatever the predicates say:
  one emitted through a `cfg_attr` inside a `cfg_attr`, one whose path starts with
  `::`, and one whose arguments stand in braces or brackets
  (`LostTests.NestedTestIsLost`, `LostTests.RootedTestIsLost`,
  `LostTests.BracedTestIsLost`). No test of a block is lost if and only if the
  scan sees some test of it, or no configuration makes it a compiled test in one
  of these ways (`BlockTheorems.NoTestIsLostExactly`).
* A test under `#[cfg(any())]` is listed although no configuration compiles it
  (`LostTests.AbsentTestIsListed`): `declares_a_test` evaluates the predicates of
  `cfg_attr`s only. A block is listed if and only if some configuration makes it a
  compiled test, exactly under the condition on its syntax of
  `BlockTheorems.InventoryIsExact`.
* `ATTRIBUTE_LINE` and `FUNCTION` end an attribute at its first `]`, so `#[test]`
  above `#[values([1])]` is cut off (`CutTests.CutTestIsLost`). A function with a
  signature that is read is listed if and only if no attribute on its own line has
  an inner `]` and a test is seen there or on a line with no such attribute on or
  below it (`AnnotatedTests.ListedExactly`); when it is exactly right,
  `AnnotatedTests.FunctionIsExact`.
* `FUNCTION` reads a signature if and only if it has no qualifier but `async`, no
  generics, nothing between `pub` and its parenthesis, and spaces and tabs as its
  only blanks (`Signatures.SignatureExactly`). So a test above `pub (crate) fn f(`
  is not listed (`CutTests.SpacedTestIsLost`).
* `code_only` does not know char literals such as `'\x41'` or `'\u{1F600}'`: it
  keeps them, and the last apostrophe of one may open a char literal with the text
  that follows, as in `'\x41','"'`, which blanks code up to the next quote
  (`OdbcGrammar.CodeIsDerailed`). For every well-formed source, only these
  literals stay behind if and only if no such apostrophe does
  (`OdbcGrammar.MaskShowsExactly`); a source without them is masked exactly.
* Bytes with mixed line endings are not among the two reconstructed forms
  (`LineEndings.MixedEndingsAreLost`, `LineEndings.ReconstructedExactly`), and a
  CRLF checkout keeps the digest if and only if the text held no CRLF
  (`LineEndings.CrlfTextChangesDigest`,
  `LineEndings.DigestSurvivesCheckoutExactly`). The docstring promises only the
  pure forms, so code and documentation agree here.
* An exception outside the three caught classes can end cleanup before every
  fixture is stopped (`CampaignCleanup.InterruptedCleanupLeavesFixture`). Every
  started file gets its final `down` if and only if nothing was started, or
  diagnostics let cleanup start and no `down` but the last failed that way
  (`CampaignCleanup.EveryStartedIsStoppedExactly`).

## Model

| member | source | states |
|---|---|---|
| `RustLexer.StripKeepsPositions` | scripts/live_inventory.py:170-243 | masking keeps the length, every character is kept or becomes a space, newlines always stay |
| `RustLexer.KeptOrBlanked` | scripts/live_inventory.py:195-243 | a kept character starts no comment or literal; every other one is blanked |
| `RustLexer.StripKeepsLines` | scripts/live_inventory.py:170-243 | the line number of any offset is the same in source and masked text |
| `RustLexer.NoOpenerSurvives` | scripts/live_inventory.py:195-243 | a masked text holds no quote, no `//` and no `/*` |
| `RustLexer.LifetimeStays` | scripts/live_inventory.py:300-308 | an apostrophe that survives is still a lifetime in the masked text |
| `RustLexer.StripLeavesOnlyCode` | scripts/live_inventory.py:170-243 | at every position of the output: no quote, no comment opener, apostrophes are lifetimes |
| `RustLexer.StripIsIdempotent` | scripts/live_inventory.py:170-243 | for every text, masking twice is masking once |
| `LexerGrammar.BlockSkipsBody` | scripts/live_inventory.py:202-214 | a comment body with any nesting is skipped at any depth |
| `LexerGrammar.RawAfter` | scripts/live_inventory.py:279-297 | a raw string with any number of hashes ends at its first terminator, also when the content ends in quotes |
| `LexerGrammar.TokenOfLexeme` | scripts/live_inventory.py:195-243 | the scanner consumes exactly the text of every comment and literal of the grammar |
| `LexerGrammar.StripShowsExactly` | scripts/live_inventory.py:170-305 | for every well-formed source: its comments and literals and nothing else are blanked, but for the last apostrophe of every `'\''`, iff none of these pairs with what follows it |
| `LexerGrammar.StripMasksExactlyNoncode` | scripts/live_inventory.py:170-243 | a well-formed source without `'\''` is masked exactly; one whose `'\''` pair with nothing is so only if it has none |
| `LexerGrammar.EscapedCharExactly` | scripts/live_inventory.py:300-305 | an escaped char literal is consumed whole iff it holds no apostrophe |
| `LexerGrammar.EscapedApostropheIsSplit` | scripts/live_inventory.py:300-305 | `'\''` loses its closing apostrophe to the text that follows |
| `LexerGrammar.CodeIsDerailed` | scripts/live_inventory.py:195-305 | after `'\'','"'` all code up to the next quote is blanked, in front of any well-formed source |
| `LiveInventory.ScanBlock` | scripts/live_inventory.py:203-214 | the depth loop stops where the nested comment ends |
| `LiveInventory.ScanString` | scripts/live_inventory.py:220-231 | the string loop stops after the closing quote, past escapes, even one at the end of the text |
| `LiveInventory.ScanHashes` | scripts/live_inventory.py:288-291 | the loop counts the hashes of the opener |
| `LiveInventory.ScanRaw` | scripts/live_inventory.py:279-297 | the end of a raw string, none if there is no opener |
| `LiveInventory.ScanToken` | scripts/live_inventory.py:195-243 | the branches in order: where the token at an index ends |
| `LiveInventory.StripNoncodeLoop` | scripts/live_inventory.py:188-243 | the loop writes the masked text |
| `Attributes.FlattenKeepsPositions` | scripts/live_inventory.py:246-276 | only newlines change, only into spaces |
| `Attributes.MaskedTextKeepsOffsets` | scripts/live_inventory.py:410-426 | flattening after masking has the offsets of the source, so the source may be sliced at them |
| `Attributes.FlattenOneAttribute` | scripts/live_inventory.py:259-276 | an attribute with balanced brackets is flattened up to its own bracket and no further |
| `Attributes.FlattenIsIdempotent` | scripts/live_inventory.py:246-276 | flattening twice is flattening once |
| `LiveInventory.FlattenAttribute` | scripts/live_inventory.py:261-273 | the inner loop overwrites the newlines of one attribute in place and stops at its bracket |
| `LiveInventory.FlattenLoop` | scripts/live_inventory.py:246-276 | the loop computes the flattened text |
| `Attributes.JoinSplit` | scripts/live_inventory.py:79-100 | joining the parts with commas gives back every text |
| `Attributes.SplitIsSeparable` | scripts/live_inventory.py:79-100 | a part has no level-zero comma, and every part but the last is closed |
| `Attributes.SplitUndoesJoinExactly` | scripts/live_inventory.py:79-100 | splitting undoes joining iff the parts are closed and free of level-zero commas |
| `DelimitedText.PartsAreSplit` | scripts/live_inventory.py:79-100 | parts with parentheses, brackets and braces, nested to any depth, are split at exactly the commas between them |
| `LiveInventory.TopLevelParts` | scripts/live_inventory.py:86-100 | the loop computes the split |
| `Balanced.CloseAtIsLeast` | scripts/code_size.py:59-72 | the scan stops at the least position where the depth returns to zero, and nowhere iff there is none |
| `Balanced.ScanSkipsWord` | scripts/live_inventory.py:151-162 | a balanced word is passed over at any depth, whatever follows |
| `Balanced.ScanRecoversWord` | scripts/live_inventory.py:151-162 | any balanced word is recovered exactly from word, closer and rest |
| `Balanced.ScannedWordsAreBalanced` | scripts/live_inventory.py:151-162 | the texts the scan can return are exactly the balanced words |
| `Balanced.BracedBody` | scripts/render_state.py:133-144 | the content up to the least closing brace, an error iff there is none; `function_body` of check_relational_ir.py runs the same loop |
| `Balanced.ModuleEnd` | scripts/code_size.py:59-72 | one past the least closing brace of an inline module, an error iff it is unbalanced |
| `CfgTheorems.TruthIsKleene` | scripts/live_inventory.py:109-144 | on every printed predicate, with any spacing and empty arguments, the answer is the strong Kleene value |
| `CfgTheorems.KleeneIsSound` | scripts/live_inventory.py:109-144 | a definite Kleene value is the Boolean value under every configuration |
| `CfgTheorems.TruthIsSound` | scripts/live_inventory.py:109-144 | an answer true or false is the value under every configuration |
| `CfgTheorems.TruthIsExactly` | scripts/live_inventory.py:109-144 | for every predicate: answered true (false) iff it is true (false) however its plain and its negated atoms are set |
| `CfgTheorems.Favourable` | scripts/live_inventory.py:109-144 | without mixed atoms, the configuration enabling the plain atoms makes the predicate true unless it is answered false |
| `CfgTheorems.TruthIsExactWhenUnmixed` | scripts/live_inventory.py:109-144 | when no atom occurs both plain and negated: true (false) iff every configuration makes it so |
| `CfgTheorems.MixedAtomStaysUnknown` | scripts/live_inventory.py:109-144 | `any(a,not(a))` holds in every configuration and is answered "unknown" |
| `CfgTheorems.KleeneOfShape` | scripts/live_inventory.py:109-144 | the value depends on the shape only, so masking the strings of the atoms does not change it |
| `MalformedPredicates.CallIsItsArguments` | scripts/live_inventory.py:123-134 | a call is answered by its arguments whatever they are, closed by a parenthesis or not |
| `MalformedPredicates.NotOfOthersIsUnknown` | scripts/live_inventory.py:135-136 | `not` of no argument or of several is unknown |
| `LiveInventory.ReadArgument` | scripts/live_inventory.py:151-162 | the parenthesis loop reads the argument up to its closer or the end |
| `LiveInventory.CfgAttrArguments` | scripts/live_inventory.py:147-163 | the argument of every match, in order, resuming after the opening parenthesis |
| `DeclaresTest.WordsAreReadBack` | scripts/live_inventory.py:147-163 | consecutive `#[cfg_attr(w)]` with balanced words and none nested yield exactly those words |
| `AttributeBlocks.TestPathOf` | scripts/live_inventory.py:59-76 | whatever its segments and blanks, a path is a test iff its last segment is `test` and the end, arguments or the bracket follow |
| `AttributeBlocks.TestPathOfPath` | scripts/live_inventory.py:59-76 | the same with a leading `::`, which is never recognised |
| `BlockScan.MetaIsContained` | scripts/live_inventory.py:79-163 | an attribute with any nesting stays inside one argument for the comma splitter and the parenthesis scan |
| `BlockScan.BlockArguments` | scripts/live_inventory.py:147-163 | the `cfg_attr`s of a block are read back one by one, whatever stands before, between and after them |
| `BlockScan.DeclaresOfMeta` | scripts/live_inventory.py:317-324 | one `cfg_attr` counts iff its predicate is not constantly false and it emits a test path directly |
| `BlockScan.DeclaresBlock` | scripts/live_inventory.py:311-325 | a block declares a test iff one of its attributes is a test path, or a `cfg_attr` that is not constantly false emits one directly |
| `BlockTheorems.NoTestIsLostExactly` | scripts/live_inventory.py:311-325 | no configuration makes a discarded block a compiled test, iff the scan sees a test of the block or none is compiled under nesting, a rooted path or arguments in braces or brackets |
| `BlockTheorems.NoOrdinaryTestIsLost` | scripts/live_inventory.py:311-325 | without these three forms no test is ever lost, whatever the predicates |
| `BlockTheorems.TestableExactly` | scripts/live_inventory.py:311-325 | without mixed atoms: some configuration makes the block a compiled test iff an attribute may be one and the `cfg`s can hold, decided on the syntax |
| `BlockTheorems.InventoryIsExact` | scripts/live_inventory.py:311-325 | without mixed atoms: listed iff some configuration makes it a compiled test, exactly when: if the scan sees a test the `cfg`s can hold, and otherwise none is hidden or they cannot |
| `LostTests.NestedTestIsLost` | scripts/live_inventory.py:68-76 | `#[cfg_attr(all(), cfg_attr(all(), test))]`, in any surroundings, is a test in every configuration and not listed |
| `LostTests.RootedTestIsLost` | scripts/live_inventory.py:59-65 | so is `#[::tokio::test]` |
| `LostTests.BracedTestIsLost` | scripts/live_inventory.py:68-76 | so is `#[tokio::test{}]` |
| `LostTests.AbsentTestIsListed` | scripts/live_inventory.py:311-325 | `#[cfg(any())]` above `#[test]`, in any surroundings, is compiled in no configuration and listed |
| `Definitions.FoundExactly` | scripts/live_inventory.py:42 | a match is found iff no match found before it reaches past its start |
| `Definitions.NamesExactly` | scripts/live_inventory.py:353-361 | a name is listed iff a match of that name is found whose attributes declare a test |
| `LiveInventory.WalkUp` | scripts/live_inventory.py:45-51 | the inner loop ends where the walk over the lines above ends |
| `LiveInventory.FindDefinitions` | scripts/live_inventory.py:38-62 | the loop computes the definitions of the text, in order |
| `LiveInventory.AnnotatedTests` | scripts/live_inventory.py:353-361 | masking, flattening and searching give the names of the specification |
| `AttributeLines.ReadExactly` | scripts/live_inventory.py:20-26 | the attribute part of both expressions reads all attributes of a line, whatever follows them, iff none has an inner `]` |
| `AttributeLines.PassesExactly` | scripts/live_inventory.py:46-51 | the walk passes a blank line, and a line of attributes iff none has an inner `]` |
| `AnnotatedTests.WalkCollects` | scripts/live_inventory.py:43-51 | the walk collects exactly the lines below the last one it cannot pass |
| `Signatures.SignatureExactly` | scripts/live_inventory.py:20-25 | any signature of the syntax, whatever follows it: read with its name and up to its parenthesis iff no qualifier but `async`, no generics, nothing between `pub` and its parenthesis, spaces and tabs only |
| `AnnotatedTests.RecognisedExactly` | scripts/live_inventory.py:20-26 | a function is matched with its name, all attributes of its line and up to its parenthesis, iff none of these has an inner `]` and its signature is one that is read |
| `AnnotatedTests.CollectedExactly` | scripts/live_inventory.py:38-62 | a matched function gets its name, exactly the attributes of its line and of the collected lines, and their positions |
| `AnnotatedTests.ListedExactly` | scripts/live_inventory.py:353-361 | a function counts as a test iff its name is an identifier, its signature is one that is read, its line has no inner `]`, and a test is seen there or on a line with no inner `]` on or below it |
| `AnnotatedTests.SimpleFunctionIsItsBlock` | scripts/live_inventory.py:353-361 | without inner `]` and with a signature that is read: iff the whole block of its attributes declares a test |
| `AnnotatedTests.FunctionIsExact` | scripts/live_inventory.py:353-361 | without mixed atoms: a function counts iff some configuration makes it a compiled test, exactly when: if its signature is read and a seen test is collected the `cfg`s can hold, and otherwise no attribute may make a test or they cannot |
| `AnnotatedTests.ListedIsNamed` | scripts/live_inventory.py:353-361 | a function that counts is among the names, unless an earlier match reaches past its start |
| `CutTests.CutTestIsLost` | scripts/live_inventory.py:26-51 | `#[test]` above `#[values([1])]`, on any function, is a test in every configuration and not listed |
| `CutTests.SpacedTestIsLost` | scripts/live_inventory.py:20-25 | `#[test]` above `pub (crate) fn f(`, with anything around, is a test in every configuration and not listed |
| `RequirementIncludes.WalkDescends` | scripts/render_release_sbom.py:88-112 | includes of finished files lead strictly back in finishing order |
| `RequirementIncludes.FinishedIsSound` | scripts/render_release_sbom.py:88-112 | nothing reachable from a finished file is missing, malformed or on a cycle, and all of it is finished |
| `RequirementIncludes.CycleFound` | scripts/render_release_sbom.py:92-93 | a file met while being visited is on a cycle |
| `RequirementResolver.Resolver.Visit` | scripts/render_release_sbom.py:88-112 | ends on every finite graph; on success the finished files grew by reachable ones only and the visiting set is restored; an error names a reachable defect |
| `RequirementResolver.Resolver.VisitFile` | scripts/render_release_sbom.py:95-112 | a file that is neither finished nor being visited is read, once, and finished |
| `RequirementResolver.Resolver.VisitLines` | scripts/render_release_sbom.py:97-110 | all includes of the file are finished, its own requirement lines kept in order |
| `RequirementResolver.Resolver.VisitLine` | scripts/render_release_sbom.py:102-109 | a malformed include raises, an include is visited, a requirement changes nothing |
| `RequirementResolver.ResolveIncludes` | scripts/render_release_sbom.py:82-114 | succeeds iff nothing reachable from the roots is missing, malformed or cyclic; then the files are exactly the reachable set, each with its own lines; no file is read twice |
| `InventoryTheorems.RequirementsExactly` | scripts/render_release_sbom.py:98-110 | a file keeps exactly its requirement lines, in order |
| `Versions.CompareIsExact` | scripts/render_release_sbom.py:176-185 | the sign is the order at the first difference of the zero-padded versions, 0 iff there is none |
| `Versions.CompareIsTotalPreorder` | scripts/render_release_sbom.py:176-185 | antisymmetric in sign and transitive across any three lengths |
| `Versions.EqualUpToTrailingZeros` | scripts/render_release_sbom.py:176-185 | 0 iff the versions match after dropping trailing zeros |
| `Versions.AppendZero` | scripts/render_release_sbom.py:176-185 | appending a zero changes no comparison, on either side |
| `Versions.KeyOfAppendedZero` | scripts/render_release_sbom.py:168-173 | writing `.0` appends a zero to the key and makes nothing readable |
| `Versions.CheckSegments` | scripts/render_release_sbom.py:218-229 | passes iff every specifier is understood and satisfied |
| `Versions.ResolveRequirement` | scripts/render_release_sbom.py:188-230 | returns a reference iff it is the only pin of the name and satisfies every specifier; a refusal has a reason that holds |
| `VersionBounds.ParseBound` | scripts/render_release_sbom.py:200-213 | the parse of a requirement around a bound does not depend on the version written there |
| `VersionBounds.AppendZeroToSegment` | scripts/render_release_sbom.py:218-229 | `.0` on a bound changes no verdict on its segment, whatever else the segment holds |
| `VersionBounds.AppendZeroToBound` | scripts/render_release_sbom.py:188-230 | `.0` on any bound, anywhere in any requirement text, changes no acceptance |
| `Versions.AppendZeroToPin` | scripts/render_release_sbom.py:188-230 | `.0` on the pin changes no acceptance |
| `Declarations.VersionIsRead` | scripts/render_release_sbom.py:168-173 | dotted numbers, with any leading zeros, are read as their decimal values |
| `Declarations.ReadIsVersion` | scripts/render_release_sbom.py:168-173 | whatever is read as a version is the text of such numbers |
| `Declarations.HoldsExactly` | scripts/render_release_sbom.py:222-227 | each operator against the order at the first difference of the zero-padded versions |
| `Declarations.SegmentExactly` | scripts/render_release_sbom.py:218-229 | a specifier with any blanks passes iff its version is readable and stands in the relation of its operator to the pin; the version is refused iff it is not readable |
| `Declarations.ParsedIsSpec` | scripts/render_release_sbom.py:220-222 | nothing but the text of a specifier is read as one |
| `Declarations.DeclaredIsParsed` | scripts/render_release_sbom.py:200-216 | a printed declaration, with any blanks and with or without parentheses, gives its name and its specifiers |
| `Declarations.AcceptsExactly` | scripts/render_release_sbom.py:188-230 | a printed declaration maps onto a reference iff it is the only pin of the normalized name, its version is readable and every specifier holds for it |
| `Declarations.OnlyPinned` | scripts/render_release_sbom.py:214-217 | being the only pin of a name, on the references themselves |
| `Declarations.AcceptedIsDeclared` | scripts/render_release_sbom.py:188-230 | whatever text is accepted is a printed declaration |
| `Declarations.NormalizeIsByRuns` | scripts/render_release_sbom.py:204 | letters in lower case, one hyphen for every stretch of `-`, `_` and `.` |
| `Declarations.NameHasRuns` | scripts/render_release_sbom.py:204 | every name consists of such stretches |
| `SortedText.LeExactly` | scripts/render_release_sbom.py:283-292 | code-point order: a prefix comes first, else the first difference decides |
| `SortedText.Sorted` | scripts/render_release_sbom.py:283-292 | ascending in code-point order, each element once, exactly the elements of the set |
| `Sbom.IndexReferences` | scripts/render_release_sbom.py:139-148 | succeeds iff all references are present, non-empty and distinct; the index inverts the list |
| `Sbom.ReadEdges` | scripts/render_release_sbom.py:154-159 | succeeds iff the targets are a list of distinct non-empty references, or absent |
| `Sbom.DependencyGraph` | scripts/render_release_sbom.py:151-160 | succeeds iff the list is well formed, and returns the graph it denotes |
| `Sbom.DenotesIsUnique` | scripts/render_release_sbom.py:151-160 | a dependency list denotes at most one graph |
| `Sbom.IndexComponents` | scripts/render_release_sbom.py:139-148 | the table a component list writes down, iff its references are unique |
| `Sbom.CheckFaithful` | scripts/render_release_sbom.py:336-343 | no dangling edge, root to exactly all components, inventory edges exact: an error iff one fails |
| `Sbom.Validate` | scripts/render_release_sbom.py:318-343 | accepts iff references are unique, no edge dangles, the root depends on exactly all components, and inventory members and edges are exact |
| `Sbom.JoinComponents` | scripts/render_release_sbom.py:271-278 | the union of the component tables, iff no reference is supplied twice or is the root |
| `Sbom.JoinGraphs` | scripts/render_release_sbom.py:286-294 | the union of the graphs with the root, iff no node is supplied twice and no edge dangles |
| `Sbom.WriteComponents` | scripts/render_release_sbom.py:283 | the components in reference order |
| `Sbom.WriteGraph` | scripts/render_release_sbom.py:292 | the nodes in order, each with its targets in order |
| `Sbom.Render` | scripts/render_release_sbom.py:264-295 | succeeds iff the artifact bill combines with the inventories, and writes the combination |
| `SbomTheorems.RenderingReadsBack` | scripts/render_release_sbom.py:264-295 | what is written reads back as exactly the joined tables |
| `SbomTheorems.RenderedIsAccepted` | scripts/render_release_sbom.py:264-343 | whatever is rendered is accepted on the same inventories |
| `SbomTheorems.RenderThenValidate` | scripts/render_release_sbom.py:264-343 | generator and checker, one after the other, never disagree |
| `SbomTheorems.RenderKeepsArtifact` | scripts/render_release_sbom.py:264-295 | components and edges of the artifact bill are still there, unchanged |
| `SbomTheorems.NoSecondRendering` | scripts/render_release_sbom.py:271-275 | a rendered bill is refused as an artifact bill |
| `BillTheorems.AcceptedExactly` | scripts/render_release_sbom.py:318-343 | on the lists of the bill: accepted iff header and identity are right, all references present and distinct, every inventoried component there unchanged, nodes and targets known, the root above exactly all components, and the edges of every inventoried node exactly the inventoried ones |
| `BillTheorems.RenderableExactly` | scripts/render_release_sbom.py:264-295 | on the lists of the artifact bill: rendered iff they are well formed, supply no component and no node that is inventoried or the root, and no edge of theirs ends at an unknown reference |
| `BillTheorems.RenderedExactly` | scripts/render_release_sbom.py:264-295 | the rendered lists hold exactly the components, nodes and edges of the artifact bill and of the inventories, and the root above all components, in ascending order |
| `Inventories.LinkPackage` | scripts/render_release_sbom.py:71-78 | the targets of a package, iff every dependency names exactly one package of its lock |
| `Inventories.AddPackages` | scripts/render_release_sbom.py:41-68 | a component and an edge set for every package, earlier edges kept |
| `Inventories.LinkLock` | scripts/render_release_sbom.py:69-78 | every node gains exactly the targets of its packages |
| `Inventories.CargoInventory` | scripts/render_release_sbom.py:34-79 | the union of the lock graphs; fails iff some dependency is ambiguous |
| `InventorySpec.CargoTargetsKnown` | scripts/render_release_sbom.py:69-79 | no lock edge leaves the inventoried packages |
| `Inventories.AddLines` | scripts/render_release_sbom.py:117-128 | the pins of a file are added, iff every line is a pin |
| `Inventories.PinnedComponents` | scripts/render_release_sbom.py:115-129 | exactly the pins of the files, iff every line is a pin |
| `Inventories.ResolveAll` | scripts/render_release_sbom.py:250-251 | the set of pins the declarations map onto, iff each has one |
| `Inventories.WheelInventory` | scripts/render_release_sbom.py:233-261 | one component per wheel and its runtime pins as edges; fails iff a wheel is missing, foreign, ambiguous or has an unmet declaration |
| `InventoryTheorems.UnparenthesizedExactly` | scripts/render_release_sbom.py:75 | the source of a dependency without any parentheses around it |
| `InventoryTheorems.CargoExactly` | scripts/render_release_sbom.py:34-79 | on the packages and words of the locks: a component per package, an edge iff a package names another of its lock by name, by version if given and by source if given |
| `InventoryTheorems.CargoOkExactly` | scripts/render_release_sbom.py:69-77 | the inventory exists iff every dependency means some package of its lock and all it means are the same |
| `InventoryTheorems.PinOfExactly` | scripts/render_release_sbom.py:85 | a line is a pin of a name and version iff it is the text of one, with any extras and any marker |
| `InventoryTheorems.PinnedExactly` | scripts/render_release_sbom.py:114-129 | on the lines: exactly the references of the pins they write; an error iff some line is none |
| `InventoryTheorems.WheelsExactly` | scripts/render_release_sbom.py:233-261 | on the wheels: each is the release's, a component per wheel, an edge iff a declaration of the wheel is accepted for the pin |
| `Release.PythonInventory` | scripts/render_release_sbom.py:82-129 | exactly the pins of the requirement files reachable through includes; fails iff a reachable include or line is defective |
| `Release.ReleaseInventory` | scripts/render_release_sbom.py:264-270 | the three inventories, or an error iff no inventory exists for the files |
| `Release.InventoryIsOk` | scripts/render_release_sbom.py:34-261 | what render and validate rely on holds of every inventory built from files |
| `Release.AcceptedIsTraceable` | scripts/render_release_sbom.py:318-343 | in any accepted bill, packages depend on exactly what the locks say, and wheels on exactly the only pins satisfying their declarations |
| `Release.Publish` | scripts/render_release_sbom.py:264-343 | from any files and artifact bill: rendered iff combinable, and then accepted |
| `Campaign.Runner.Execute` | scripts/fixture_campaign.py:38-62 | a command extends the history by itself and its outcome |
| `Campaign.Runner.StartFixtures` | scripts/fixture_campaign.py:65-77 | the loop over files follows the start protocol |
| `Campaign.Runner.StopFixtures` | scripts/fixture_campaign.py:80-98 | the reversed loop goes past every caught failure and collects it |
| `Campaign.Runner.RunDiagnostics` | scripts/fixture_campaign.py:101-129 | each artefact is attempted on its own |
| `Campaign.Runner.RunAttempt` | scripts/fixture_campaign.py:186-197 | the guarded block: start, measure, postflight |
| `Campaign.Runner.RunCampaign` | scripts/fixture_campaign.py:160-209 | the program produces exactly the trace and exit of the protocol, for every environment |
| `CampaignSafety.PreflightComesFirst` | scripts/fixture_campaign.py:183-189 | no command precedes a successful preflight, in any run |
| `CampaignSafety.StartsFromKnownState` | scripts/fixture_campaign.py:68-77 | every `up` comes right after a successful `down` of the same file, in any run |
| `CampaignSafety.InterruptionIsUncaught` | scripts/fixture_campaign.py:80-129 | only an exception outside the caught classes interrupts cleanup or diagnostics; it is last in the trace and the error |
| `CampaignSafety.CaughtCleanupNeverInterrupts` | scripts/fixture_campaign.py:91-97 | when cleanup fails only in the caught classes, no run is interrupted |
| `CampaignSafety.StartedIsConfigured` | scripts/fixture_campaign.py:65-77 | in any run the started files are exactly those of the successful `config` commands of the trace, in order |
| `CampaignSafety.CleanupOnEveryExit` | scripts/fixture_campaign.py:80-209 | without `keep_fixtures` every uninterrupted run ends with a `down` of each started file, in reverse start order |
| `CampaignCleanup.StopEvents` | scripts/fixture_campaign.py:80-98 | the cleanup loop issues a `down` per file, last first, up to and including the first uncaught failure |
| `CampaignCleanup.EveryStartedIsStoppedExactly` | scripts/fixture_campaign.py:80-209 | in every run without `keep_fixtures` cleanup issues the prescribed `down`s in order, and all of them iff nothing was started or it was not interrupted before the last |
| `CampaignCleanup.LeftUpExactly` | scripts/fixture_campaign.py:80-209 | in every such run, interrupted or not, a file is left up iff its `up` was issued and cleanup did not take it down successfully; only started files get an `up` |
| `CampaignCleanup.InterruptedCleanupLeavesFixture` | scripts/fixture_campaign.py:91-97 | a run in which one uncaught `down` leaves another fixture up |
| `CampaignCleanup.LateInterruptionIsComplete` | scripts/fixture_campaign.py:91-97 | a run interrupted at its last `down`, with every `down` issued |
| `CampaignSafety.ValueMeansGreen` | scripts/fixture_campaign.py:160-209 | a value is returned only if every step succeeded, the commands are exactly the prescribed ones, both snapshots agree and the value is the measured one |
| `CampaignSafety.NoFailureMeansValue` | scripts/fixture_campaign.py:160-209 | a run without a failed step returns a value unless the repository moved |
| `CampaignSafety.NothingLeftRunning` | scripts/fixture_campaign.py:80-98 | after an uninterrupted run only files whose final `down` failed may be up |
| `CampaignSafety.GreenRunLeavesNothing` | scripts/fixture_campaign.py:205-209 | a returned value means nothing is left up |
| `CampaignErrors.RecoveryInOrder` | scripts/fixture_campaign.py:80-129 | the commands after a failed attempt, place by place: directory, containers, the log of every started file, then `down` of each, last first |
| `CampaignErrors.StopFailures` | scripts/fixture_campaign.py:80-98 | the reported failures are exactly the failed `down`s, in order |
| `CampaignErrors.ExitIsExplained` | scripts/fixture_campaign.py:160-209 | the exit of an uninterrupted run is the failure its attempt ended with, a step of the attempt after which all of diagnostics and cleanup follow; or a moved repository, likewise; or exactly the files cleanup could not stop |
| `OdbcChecker.ModuleAliases` | scripts/check_odbc_strict.py:79-88 | the loop ends in the least set with the seeds, closed under aliases of imports that mention a member |
| `OdbcStrict.ClosureIsDerivation` | scripts/check_odbc_strict.py:76-88 | a name is in the set iff a chain of imports leads to it from a seed |
| `OdbcStrict.ClosureIsMonotone` | scripts/check_odbc_strict.py:76-88 | order and repetition of imports do not matter, and more imports never remove a module |
| `OdbcStrict.CodeOnlyKeepsOffsets` | scripts/check_odbc_strict.py:38-67 | offsets and lines are kept, no comment opener survives, reported lines are those of the source |
| `OdbcGrammar.TokenTaken` | scripts/check_odbc_strict.py:40-55 | the mask takes exactly the text of every comment, string, raw string and char literal of the grammar |
| `OdbcGrammar.MaskShowsExactly` | scripts/check_odbc_strict.py:38-58 | for every well-formed source: exactly its comments, strings, raw strings and char literals are blanked, but for longer escapes, iff the last apostrophe of none of these opens a char literal |
| `OdbcGrammar.MaskIsExact` | scripts/check_odbc_strict.py:38-58 | a well-formed source without longer escapes is masked exactly, all its code kept; one whose longer escapes open nothing is so only if it has none |
| `OdbcGrammar.CodeIsDerailed` | scripts/check_odbc_strict.py:40 | after `'\x41','"'` all code up to the next quote is blanked, in front of any well-formed source |
| `UnclosedTokens.StripBlanksUnclosed` | scripts/live_inventory.py:195-297 | a comment, string or raw string that is never closed is blanked to the end of the text |
| `UnclosedTokens.MaskBlanksUnclosed` | scripts/check_odbc_strict.py:40-57 | so is a comment or raw string by `code_only`, which takes an unclosed string for code |
| `OdbcChecker.MatchLen` | scripts/check_odbc_strict.py:40-55 | the match at an offset with its tail |
| `OdbcChecker.MaskNext` | scripts/check_odbc_strict.py:43-57 | one turn overwrites exactly one match in place |
| `OdbcChecker.CodeOnlyLoop` | scripts/check_odbc_strict.py:38-58 | the loop computes the mask |
| `OdbcChecker.NestedCommentEnd` | scripts/check_odbc_strict.py:45-51 | jumping from marker to marker ends where the character scan of `strip_noncode` ends |
| `OdbcStrict.SkipToMarker` | scripts/check_odbc_strict.py:47-49 | text before the next marker does not change where the comment ends |
| `FleetGate.DuplicateProbes` | scripts/check_mariadb_driver.py:465-478 | the names that occur twice, sorted, each once; empty iff all are distinct |
| `FleetGate.LineUp` | scripts/check_mariadb_driver.py:826-844 | what every server observed for a probe, iff every server has it |
| `FleetGate.FindDivergent` | scripts/check_mariadb_driver.py:845-856 | the servers that differ from the reference, in fleet order |
| `FleetGate.DivergersAre` | scripts/check_mariadb_driver.py:847-856 | a server is listed iff it differs in outcome or code, or in detail where details count |
| `FleetGate.CompareProbe` | scripts/check_mariadb_driver.py:825-867 | one row across the fleet with the template of the reference, iff every server has the probe; divergent are exactly the servers that differ from the reference |
| `FleetGate.CheckDocuments` | scripts/check_mariadb_driver.py:790-820 | passes iff no document repeats a probe and each is exactly the expected inventory, if there is one |
| `FleetGate.Compare` | scripts/check_mariadb_driver.py:772-869 | rows for the probes of the reference in order, iff the raw documents pass and no server lacks a probe |
| `FleetGate.ComparedInventory` | scripts/check_mariadb_driver.py:772-869 | with an expected inventory the rows are exactly the expected probes in order, each showing what every server said there |
| `FleetGate.Validate` | scripts/check_session_matrix.py:74-139 | returns iff the inventory is exact on every server, all rows are accepted and agree, one row per probe |
| `FleetGate.GateImpliesAgreement` | scripts/check_session_matrix.py:234-235 | comparisons with the reference alone, plus validation, give agreement of every pair |
| `FleetGate.AgreementImpliesGate` | scripts/check_session_matrix.py:234-235 | an agreeing fleet passes |
| `FleetGate.Judge` | scripts/check_session_matrix.py:234-235 | for any fleet size: both return iff every two servers list the expected probes in order and agree on outcome, code and detail |
| `FleetGate.Verdict` | scripts/check_session_matrix.py:195-235 | passes iff the tree was clean before and after, the commit did not move, every server runs its declared image, one bootstrap statement was measured, and the fleet agrees |
| `FleetTheorems.DivergentExactly` | scripts/check_mariadb_driver.py:845-856 | on the documents, for any outcome-only probes: a server is divergent in a row iff its entry differs from that of the reference in outcome or code, or in detail where the probe is not outcome-only |
| `FleetTheorems.DivergersInOrder` | scripts/check_mariadb_driver.py:845-856 | the divergent servers stand in fleet order |
| `FleetTheorems.SameExactly` | scripts/check_mariadb_driver.py:857-867 | no row has a divergent server iff any two servers agree on outcome and code everywhere, and on detail outside the outcome-only probes |
| `FleetTheorems.DeclaresExactly` | scripts/check_mariadb_driver.py:577-586 | a server runs its declared image iff one reported identity is the digest, alone or after a repository and `@` |
| `FleetTheorems.HolderIsLast` | scripts/check_session_matrix.py:195-235 | of several servers under one key the last one counts |
| `Percentile.CeilDivExactly` | scripts/phase0_report.py:38 | the rank is the least integer that reaches the fraction of the samples |
| `Percentile.NearestRankIsRight` | scripts/phase0_report.py:32-39 | the answer is the one sample with at least the rank at or below it and fewer than the rank below it |
| `Percentile.NoRankExactly` | scripts/phase0_report.py:33-36 | an error iff there is no sample or the fraction is outside (0, 1] |
| `Percentile.MedianExactly` | scripts/phase0_report.py:104 | the mean of the two middle samples, each told by how many samples are around it |
| `Percentile.TruncExactly` | scripts/phase0_report.py:104 | the integer next to a number on the side of zero |
| `Percentile.ImplementationsCoincide` | scripts/check_mysql_performance.py:160-162 | the three implementations agree on every non-empty list and fraction |
| `Percentile.StatsAreOrdered` | scripts/check_postgres_performance.py:265-272 | min, median, p95 and max are in this order for every list |
| `Percentile.TruncatedMedian` | scripts/phase0_report.py:102-107 | truncating the median of whole samples keeps it between minimum and p95 |
| `Recorder.BenchRecorder.RunSample` | scripts/phase0_harness.py:198-257 | one record per call, passed or failed, none for an exception that escapes |
| `Recorder.BenchRecorder.Run` | scripts/phase0_harness.py:168-196 | the loops append exactly what the specification of a run adds |
| `Recorder.RunAddsItsSamples` | scripts/phase0_harness.py:168-257 | a completed run adds exactly its samples, numbered from 1, passed, each with the summary of its own call; a failed warmup adds none |
| `Recorder.RunExactly` | scripts/phase0_harness.py:168-257 | call by call: warmups and samples up to the first call that gives no summary; a record per sample with its case, number, count, outcome and own figures; how the run ends and what it returns |
| `Recorder.HarnessExactly` | scripts/phase0_harness.py:507-519 | the records of every case up to and with the first that does not complete, joined, and the end of that case |
| `Recorder.AtMostOneFailure` | scripts/phase0_harness.py:507-519 | in every harness run at most one record failed, and it is the last |
| `Recorder.BenchRecorder.RunAll` | scripts/phase0_harness.py:507-519 | the cases in order up to the first that raises |
| `Aggregation.GroupByCase` | scripts/phase0_report.py:65-67 | the groups are the records of each case, in order |
| `Aggregation.GroupingPartitions` | scripts/phase0_report.py:64-130 | case counts add up to the number of records and of passed records |
| `Aggregation.WallOf` | scripts/phase0_report.py:72-106 | none without a sample, else least, truncated median, nearest-rank p95 and greatest |
| `Aggregation.FiguresAreOrdered` | scripts/phase0_report.py:102-107 | the reported min, median, p95 and max are in this order |
| `Aggregation.StableExactly` | scripts/phase0_report.py:83-96 | a case is called stable iff all its passed samples have one summary digest |
| `Aggregation.SummarizeCase` | scripts/phase0_report.py:69-115 | the entry of a case reports counts, digests, wall and memory figures of its own records |
| `Aggregation.SummarizeCases` | scripts/phase0_report.py:69-130 | one entry per case about its own records, and running totals |
| `Aggregation.Aggregate` | scripts/phase0_report.py:64-130 | cases in name order; total samples are the records, passed plus failed; unstable cases counted |
| `ReportTheorems.CountsExactly` | scripts/phase0_report.py:65-71 | on the records: a case counts exactly the records that name it, and as passed exactly those that passed, in order |
| `ReportTheorems.FiguresExactly` | scripts/phase0_report.py:72-84 | on the records: the wall figures are those of exactly the passed records that have one, the deltas `after - before` of exactly those that have both, in order |
| `ReportTheorems.UnstableExactly` | scripts/phase0_report.py:126-128 | the unstable cases counted are those not called stable |
| `Aggregation.HarnessReport` | scripts/phase0_report.py:64-130 | the report of a harness run is about exactly its records, counts at most one failure, and one only if the run failed |
| `Readiness.WaitUntilReady` | scripts/check_postgres_matrix.py:104-152 | ready at the first turn whose probe repeats the success and identity of the one before, unless the container exited earlier |
| `Readiness.AnswerIsUnique` | scripts/check_postgres_matrix.py:104-152 | the turns determine the answer |
| `LineEndings.CheckoutRoundTrip` | scripts/avvisi_crate.py:54-55 | LF to CRLF and back is the identity on all byte strings |
| `LineEndings.LfFormExactly` | scripts/avvisi_crate.py:41-43 | the normal form is the text itself iff it holds no CRLF |
| `LineEndings.ReconstructedExactly` | scripts/avvisi_crate.py:46-58 | the original bytes are one of the two forms iff there is no CRLF or no LF without its CR |
| `LineEndings.MixedEndingsAreLost` | scripts/avvisi_crate.py:46-58 | LF CR LF is neither of its reconstructed forms |
| `LineEndings.DigestSurvivesCheckoutExactly` | scripts/avvisi_crate.py:41-43 | for every hash, a CRLF checkout keeps the digest iff the text held no CRLF |
| `LineEndings.CrlfTextChangesDigest` | scripts/avvisi_crate.py:41-43 | CR LF and its CRLF checkout differ under some hash |
| `LineEndings.UpstreamIsFound` | scripts/avvisi_crate.py:46-58 | a CRLF-free upstream text is found from a copy with either line ending |
| `Spans.WithoutSpans` | scripts/code_size.py:76-79 | the reversed loop computes the right-to-left deletion |
| `Spans.Survivors` | scripts/code_size.py:76-79 | whatever survives is in order and outside every span |
| `Spans.DeletionIsExactlyRight` | scripts/code_size.py:76-121 | the characters outside every span remain iff no overlap lies before one of them; otherwise product code is lost |
| `Spans.DisjointDeletion` | scripts/code_size.py:76-79 | for disjoint spans exactly the outside remains, and lengths add up |
| `TestModules.NestedOrDisjoint` | scripts/code_size.py:55-73 | of two test modules the later starts after the earlier ends, or lies inside it |
| `TestModules.TestSpans` | scripts/code_size.py:48-119 | the sorted spans are those of the matches in text order, an error iff some module is unbalanced |
| `TestModules.DeletionOfTestModules` | scripts/code_size.py:76-121 | deleting test modules leaves exactly the product text iff none follows a module that holds another; otherwise product text is lost |
| `TestModules.NestedModuleLosesCode` | scripts/code_size.py:55-79 | a source with a nested test module whose first 19 product characters are deleted |

## Left out

- Docker, Compose, Cargo, Git, files and clocks: replies of the environment in the campaign, turns in the readiness wait, values elsewhere.
- Regular expressions as such: each needed pattern is a function on text. `CFG_TEST_MODULE` and the import patterns of the ODBC checker are not modelled, so the spans and the word sets of imports are inputs; `isidentifier` is a parameter.
- The Unicode word characters of `\b` in `code_only`: a parameter.
- `isdigit` on non-ASCII digits: pins are percent-encoded and bounds are matched by `[0-9.]+`, so none reaches `version_key`.
- The classification of a requirement line as include or requirement (`shlex`, path resolution): a datatype. Blank lines and comments are dropped before.
- The members of a component other than its reference: opaque text, compared as a whole. Percent-encoding, checksums and hashes are parameters or text.
- Texts of error messages, and which of two simultaneous defects is reported first among the documents of a fleet.
- `render` and `validate` each read the files again; the model reads them once, so a file changed in between is not captured.
- `cfg`s on the modules around a function, and attribute macros other than a path ending in `test` (`#[rstest]`), which the script does not count as tests either.
- Attributes on a line that also holds other code, which the walk does not reach; the duplicates check of `source_inventory`.
- Attributes written inside the arguments of another attribute (`foo(#[test])`), and module headers with unbalanced braces in their attributes.
- Attribute paths with raw or non-ASCII identifiers, and blanks other than space and tab around the parts of a top-level attribute.
- Floating-point rounding in the percentiles: fractions are exact rationals, samples are reals.
- The fields of `aggregate` that are copied (provider, schema version, date); `regression_percent`, `compare_reports` and the budgets of the performance checks.
- The digests `compare` adds to the observations; `inventory_violations`, `capability_violations` and `gate_violations` of the MariaDB gate: list comparisons that would only add easy members.
- The failure of `docker inspect` during the readiness wait: it raises at once.
- The other checks of `inspect` in the ODBC checker, `check_comments.py`, probe catalogues, fuzz targets and report rendering.
- The Rust crates: their behaviour is not part of this model.
