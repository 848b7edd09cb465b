# Proofs about the MX core

A Dafny model of the hardest logic of `packages/core/src`, and of the marker
highlighting of the documentation site: analyses, graph copies, rewritings,
caches and tables, each with the property it exists for. `dafny verify
dfyconfig.toml` checks the whole project. One module follows one source file or
one part of it:

| files | source | about |
|---|---|---|
| `Utf16`, `RegexSyntax`, `DialectMarks`, `ClassRanges`, `MarkClash`, `HalfMarks` | `dialect-marks.ts` | the literal every match of a regular expression starts with, the ranges of a class, and marks that clash |
| `Heap`, `GraphCopy`, `CopiedHeaps`, `CloneIr`, `ContractFields`, `ClaimedUse`, `DeepFrozen`, `FrozenSymbols` | `clone-ir.ts`, `contract-fields.ts`, `deep-frozen.ts` | memoised copies and searches of object graphs with sharing and cycles; the memo of deep-frozen objects |
| `AttrTag`, `AttrTagRuns`, `AttrTagPlans`, `AttrTagShapes` | `attr-tag.ts` | attribute tags under control flow: projection, ranges, one plan per group at every depth |
| `AccessorReads`, `AccessorNames`, `ReadVisitors`, `Destructuring`, `DestructuringMisreads` | `accessor-reads.ts` | rewriting reads without changing the meaning; the paths a pattern reads |
| `CoreScopes`, `CoreText` | `core.ts` | what each undo restores; offsets, positions and splices |
| `CalleeInput`, `CalleeTypes`, `CalleeAnalyzer`, `CalleeChains`, `CalleeExports`, `CalleeProbes`, `CalleeCache` | `callee-input.ts` | reading a callee's `Input`, what its dependencies decide, and the cache |
| `DefaultTag` | `contract-default-tag.ts` | which enclosing tag declares the default |
| `DidYouMean` | `did-you-mean.ts` | edit distance and the nearest name |
| `HomeExample`, `HomeHighlight`, `HomeGrid` | `home-example.ts` | accepted markers, the markup that shows them, and the grid of cards |

JavaScript objects whose identity matters live in an explicit heap (`Heap`):
an address per object, so that "the same object", "a new object" and "the
original is untouched" are statements about addresses. Objects that change in
place are classes. Source text, lines, marks and the names whose distance is
measured are UTF-16 code units (`Utf16.Text`); other names, and paths, are
strings.
The parser, the file system, the link checks, lower-casing and path arithmetic
are parameters, so every theorem holds for all of them.

## Where the code falls short

Each of these has a lemma with a concrete input, and beside it the condition on
the input that decides whether the code does what is expected of it.

- `rangesOf` reads a leading `^` of `chars`, which negates the class a row is
  armed on, as a character: `^\s,;)\]}`, which validation accepts, is read as
  `^`, `s` and `,;)]}` (`ClassRanges.CaretMisread`). Without letter escapes
  the ranges are the class exactly when there is no leading `^`, or the row is
  armed on nothing and the ranges hold nothing
  (`ClassRanges.RangesAreRightExactly`; `ClassRanges.EverythingNegated` is a
  class of that kind). With letter escapes, and no dash right after the `^`, a
  negated class is right exactly when it writes out no character and no span,
  and its escapes stand for all but `^` and their own letters
  (`ClassRanges.CaretIsRightExactly`, `ClassRanges.CaretIsMisread`).
- It reads a letter escape as the letter: `\d` is taken for `d`
  (`ClassRanges.LetterEscapeMisread`). Without a leading `^` the ranges are the
  class exactly when everything an escape stands for is also written out, and
  its letters are characters of the class (`ClassRanges.RightUnlessEscaped`).
- `literalPrefix` compares code units, so a prefix can end in half a character,
  and two rows with different characters then have one mark
  (`HalfMarks.HalfCharacterClash`). It does exactly when the alternatives, past
  the characters they all start with, go on with different characters of two
  units that share the first one (`HalfMarks.PrefixIsWholeCharacters`).
- `isDeepFrozen` walks names and not symbols
  (`FrozenSymbols.SymbolKeysAreNotWalked`). A positive answer means frozen all
  the way down exactly when no symbol key of what is reached by name is an
  accessor or leads to something that can change
  (`FrozenSymbols.SymbolsDecide`).
- A remembered answer goes stale when a class instance held by a frozen object
  is given a plain prototype (`DeepFrozen.StaleAnswer`). A step keeps the memo
  true exactly when it does not do that (`DeepFrozen.StepKeepsMemo`).
- `rejectAssignmentTo` does not see through TypeScript casts: `p! = 1` is
  accepted and the replacement lands in the target
  (`AccessorReads.CastAssignmentIsAccepted`). Outside type annotations and
  declarations that are only signatures, which are not modelled, that is the
  only way it can (`AccessorReads.BreaksExactly`).
- `destructuredNames` reads a computed key where the pattern's own names are not
  in scope: in `{ a, [a]: b }` it reads `b` through another `a`
  (`DestructuringMisreads.BoundKeyMisread`). It prints a key that is neither a
  string nor a name as `[undefined]` (`DestructuringMisreads.OtherKeyMisread`),
  and a literal key as JSON, so `1e999` as `[null]`
  (`DestructuringMisreads.OverflowKeyMisread`). And it indexes what an array
  pattern iterates: `[a]` of a string reads half of a character of two units
  (`DestructuringMisreads.CharacterMisread`), and what is not iterable is read
  where destructuring throws (`DestructuringMisreads.ArrayIsIterated`). Where
  destructuring needs no default and finds members wherever it looks for them,
  the paths of a supported pattern are right for values whose arrays are iterated
  as they are indexed exactly when every key fits: no name is bound below an
  expression key, below a literal printed as another property, or below a name
  bound before it, and no key is a name the pattern binds only later. They are
  right however the values are iterated exactly when there is no array pattern
  either (`DestructuringMisreads.PathsAreRightExactly`).
- `reexportsSeen` is never cleared within a read, so the second property of one
  `Input` that names the same imported type is an ordinary prop
  (`CalleeChains.TwoUsesOfOneImport`). A property whose type is an import of an
  alias of `AttrTag` is an attribute tag exactly when that import has not been
  followed before in the read (`CalleeChains.ImportIsTagExactly`), and so of the
  properties that share one import exactly the first is
  (`CalleeChains.FirstUsesAreTags`).
- A dependency that was missing and is opened as an empty buffer leaves every
  snapshot valid (`CalleeCache.EmptyBufferGoesUnnoticed`); the snapshots hold
  exactly when a file is as it was or slipped in one of two ways
  (`CalleeCache.SnapshotHoldsExactly`).
- The candidates tried in vain before the callee's own file is found are not
  handed back: when `./card.ts` is the callee, creating `./card.tsx` moves the
  target and changes no dependency
  (`CalleeCache.CreatedCandidateGoesUnnoticed`). The dependencies decide the
  target exactly when the read of the callee tries every such candidate again for
  a specifier it follows (`CalleeCache.TargetIsDecided`).

## Model

| member | source | states |
|---|---|---|
| DialectMarks.LiteralPrefixSound | packages/core/src/dialect-marks.ts:61-127 | Whatever a printed regular expression matches starts with its literal prefix. |
| DialectMarks.LiteralPrefixExact | packages/core/src/dialect-marks.ts:92-99 | The prefix is the longest text that starts the leading literals of every top-level alternative. |
| DialectMarks.SplitsAtTopLevelBars | packages/core/src/dialect-marks.ts:61-86 | The scan splits a printed disjunction exactly at its top-level bars, whatever stands in groups, classes and escapes. |
| DialectMarks.SplitsStoredText | packages/core/src/dialect-marks.ts:61-86 | The same on the stored code units: no surrogate is taken for a bar or a bracket. |
| DialectMarks.LeadingTextPrinted | packages/core/src/dialect-marks.ts:101-127 | The prefix scan reads exactly the literals that lead the tree, with its escape and quantifier rules. |
| DialectMarks.LiteralStartSound | packages/core/src/dialect-marks.ts:101-127 | Every word an alternative matches starts with those literals. |
| DialectMarks.Alternatives | packages/core/src/dialect-marks.ts:61-86 | The loop over depth, class and escape state computes the scan. |
| DialectMarks.AlternativePrefix | packages/core/src/dialect-marks.ts:101-127 | The loop computes the leading text, stored in code units. |
| DialectMarks.LiteralPrefix | packages/core/src/dialect-marks.ts:92-99 | The reduction over the alternatives computes the prefix. |
| ClassRanges.RangesOf | packages/core/src/dialect-marks.ts:41-58 | The loop reads the pieces of a class one after the other. |
| ClassRanges.RangesOfPrinted | packages/core/src/dialect-marks.ts:41-58 | Of a printed class the pieces are its items: characters, spans, and a letter escape as its letters. |
| ClassRanges.RightUnlessEscaped | packages/core/src/dialect-marks.ts:41-58 | Without a leading `^` the ranges are what the row is armed on exactly when each letter escape is written in letters of the class and everything it stands for is written out. |
| ClassRanges.RangesAreRightExactly | packages/parser/src/template/syntax.ts:688-694 | Without letter escapes they are exactly when there is no leading `^`, or the row is armed on nothing and the ranges hold nothing. |
| ClassRanges.EverythingNegated | packages/parser/src/template/syntax.ts:688-694 | A negated class of every character whose ranges hold nothing: such a class exists, and passes validation. |
| ClassRanges.CaretIsRightExactly | packages/core/src/dialect-marks.ts:41-58 | With the `^` read by itself, a negated class is right exactly when it holds letter escapes alone, which stand for all but `^` and their own letters. |
| ClassRanges.CaretIsMisread | packages/core/src/dialect-marks.ts:41-58 | Such a class that writes out a character or a span is never read right. |
| ClassRanges.CaretMisread | packages/parser/src/template/syntax.ts:481-505 | `^\s,;)\]}` passes validation, is armed on all but whitespace and `,;)]}`, and is read as `^`, `s` and those five. |
| ClassRanges.LetterEscapeMisread | packages/core/src/dialect-marks.ts:41-58 | `\d` gives the range of the letter, not the digits. |
| MarkClash.MarksOf | packages/core/src/dialect-marks.ts:129-149 | The marks of a table, list by list, with their indices. |
| MarkClash.MarksAreTheRows | packages/core/src/dialect-marks.ts:129-149 | The marks are those of the rows of all five lists whose characters and match are both strings, and of no other row, in list and row order. |
| MarkClash.Overlap | packages/core/src/dialect-marks.ts:161-180 | Finds a text both marks read exactly when the two marks are identical, and the text is one. |
| MarkClash.FindMarkOverlap | packages/core/src/dialect-marks.ts:205-223 | Reports nothing exactly when no pair is identical, and otherwise the first pair. |
| MarkClash.SharedText | packages/core/src/dialect-marks.ts:187-199 | Finds a shared text exactly when one mark starts the other or a class reads its first character. |
| MarkClash.FindCoreMarkClash | packages/core/src/dialect-marks.ts:255-280 | Reports nothing exactly when no row clashes with core, and otherwise the first row that does. |
| MarkClash.ClashIsWithDotsOrBar | packages/core/src/dialect-marks.ts:225-253 | Only a mark of the attribute list clashes, and only by sharing text with `...` or a bar. |
| MarkClash.NoClashNeverShadowed | packages/core/src/dialect-marks.ts:251-280 | Where a row with a literal mark that passes matches, no core mark starts the text, whatever follows the match. |
| MarkClash.NoClashNeverArmedOnCore | packages/core/src/dialect-marks.ts:251-280 | A row without a literal mark that passes, and whose class is read right, is armed on no character a core mark starts with. |
| MarkClash.ClashNeverFires | packages/core/src/dialect-marks.ts:251-280 | A row whose mark starts with a core mark only matches text core reads first. |
| MarkClash.IncomparableMarksMatchApart | packages/core/src/dialect-marks.ts:201-223 | Rows with literal marks neither of which starts the other never match the same text. |
| HalfMarks.PrefixInCharacters | packages/core/src/dialect-marks.ts:92-99 | The prefix is the characters all alternatives start with and, if these go on with different characters that share a first unit, that unit. |
| HalfMarks.PrefixIsWholeCharacters | packages/core/src/dialect-marks.ts:92-99 | The prefix is whole characters exactly when the alternatives do not split one. |
| HalfMarks.HalfCharacterClash | packages/core/src/dialect-marks.ts:92-99 | Two rows armed on different characters, whose literals share none, have the same half character for a mark. |
| DeepFrozen.FrozenObjects.IsDeepFrozen | packages/core/src/deep-frozen.ts:5-51 | The answer is exact on any graph whatever was asked before, and the memo grows by exactly what a positive answer reached. |
| DeepFrozen.Walker.Walk | packages/core/src/deep-frozen.ts:27-51 | The walk ends on cycles, finishes everything it adds, and a negative answer has a reachable witness. |
| DeepFrozen.StepKeepsMemo | packages/core/src/deep-frozen.ts:5-51 | An allocation, freeze, write, change of prototype or question keeps the memo true exactly when it uncovers no opaque object. |
| DeepFrozen.AnswersAreFinal | packages/core/src/deep-frozen.ts:5-51 | Through any run of such steps a positive answer stays right for ever. |
| DeepFrozen.StaleAnswer | packages/core/src/deep-frozen.ts:8-12 | A change of prototype can make a remembered answer wrong. |
| FrozenSymbols.SymbolsDecide | packages/core/src/deep-frozen.ts:27-51 | On any heap, an object is frozen through keys of every kind exactly when the answer is yes and no symbol key of what it reaches by name is an accessor or leads to a change. |
| FrozenSymbols.ExactWithoutSymbols | packages/core/src/deep-frozen.ts:27-51 | Where nothing reached has a symbol key the answer is exact. |
| FrozenSymbols.SymbolKeysAreNotWalked | packages/core/src/deep-frozen.ts:27-51 | A changeable object behind a symbol key does not count. |
| CloneIr.CloneIr | packages/core/src/clone-ir.ts:27-58 | On any heap, cycles included, each reachable plain object gets one new object, whose keys are its enumerable string keys in order; the value under `node`, `paramNodes` or `forward` is the very same, any other plain object is its own copy; the original heap is a prefix of the new one. |
| CloneIr.CloneIn | packages/core/src/clone-ir.ts:27-58 | The same with parser nodes copied, class instances included, when no object is reached in two modes. |
| CloneIr.Cloner.Copy | packages/core/src/clone-ir.ts:30-56 | One recursive call extends a sound copy by what its argument reaches and answers its image. |
| CloneIr.Cloner.CopyArray | packages/core/src/clone-ir.ts:35-40 | The array branch registers the copy before it fills it, element by element. |
| CloneIr.Cloner.CopyObject | packages/core/src/clone-ir.ts:41-55 | The object branch copies the enumerable fields in order and hands parser fields on. |
| GraphCopy.Graph.WalksAgree | packages/core/src/clone-ir.ts:27-58 | Reading along any path in the copy gives the image of what it gives in the original. |
| GraphCopy.Graph.SharingIsKept | packages/core/src/clone-ir.ts:27-58 | Two paths meet in the copy exactly when they meet in the original. |
| GraphCopy.Graph.CopiesEverythingReached | packages/core/src/clone-ir.ts:27-58 | The copied objects are closed under the fields the copy follows. |
| CopiedHeaps.CopyIsCloned | packages/core/src/clone-ir.ts:35-55 | In a finished copy every object has the keys and values of its original, told of the two heaps alone. |
| CopiedHeaps.CopyIsFrozenLike | packages/core/src/contract-fields.ts:139-151 | The same of a frozen copy, which has every object frozen. |
| ContractFields.FrozenData | packages/core/src/contract-fields.ts:139-156 | The copy of any plain data has its elements, keys and values, is isomorphic to it and frozen all the way down as `isDeepFrozen` means it; the original is untouched. |
| ContractFields.FrozenCopier.FrozenCopy | packages/core/src/contract-fields.ts:139-151 | One recursive call extends a sound frozen copy, though a cyclic reference is handed out before its target is frozen. |
| ContractFields.FrozenCopier.CopyFields | packages/core/src/contract-fields.ts:143-150 | An object is registered, filled and then frozen, and the copies made meanwhile stay what they were. |
| ContractFields.CompleteIsDeepFrozen | packages/core/src/contract-fields.ts:139-156 | When the copying has ended, every copy is deep-frozen. |
| ClaimedUse.UsesClaimed | packages/core/src/contract-fields.ts:195-240 | Finds a claimed key exactly when the contract's own tag keys or an attribute of a contract inside it, at any depth, has one; cycles included. |
| ClaimedUse.UsesExactly | packages/core/src/contract-fields.ts:200-240 | A contract uses a claimed key exactly when it owns a claimed tag key, or some way through wildcard children and attribute tags, named or under `*`, ends at a contract one of whose attributes has a claimed key. |
| ClaimedUse.Search.UsesClaimed | packages/core/src/contract-fields.ts:200-240 | One recursive call: a positive answer has a witness, and a negative one has come to everything inside. |
| AttrTag.FilterProjects | packages/core/src/attr-tag.ts:49-73 | In every environment the filtered tree produces exactly the tags of that name, in order. |
| AttrTag.FilterIsIdempotent | packages/core/src/attr-tag.ts:49-73 | Filtering twice is filtering once. |
| AttrTag.FilterKeepsRange | packages/core/src/attr-tag.ts:21-73 | Filtering keeps the range of the name. |
| AttrTag.FilteredIsSparse | packages/core/src/attr-tag.ts:49-73 | What is left has no branching and no loop, at any depth, without a tag of the name. |
| AttrTag.RangeIsSupremum | packages/core/src/attr-tag.ts:21-47 | The range is the exact supremum of the name's count over all runs, infinite exactly when runs have no bound. |
| AttrTag.RunIsPossible | packages/core/src/attr-tag.ts:21-47 | Every evaluation is one of the runs the range is about. |
| AttrTagRuns.PossibleIsEvaluated | packages/core/src/attr-tag.ts:21-47 | When no test or loop stands twice and an `<else>` comes last, those runs are exactly the evaluations. |
| AttrTagRuns.RangeIsSupremumOfEvaluations | packages/core/src/attr-tag.ts:21-47 | The range is then the exact supremum over all evaluations of tests and lists. |
| AttrTag.FilterTree | packages/core/src/attr-tag.ts:49-73 | The loop computes the filtered tree. |
| AttrTag.OccurrenceRange | packages/core/src/attr-tag.ts:21-47 | The loop computes the range, and `inFor` says whether it is infinite. |
| AttrTagPlans.SameShapeAtEveryDepth | packages/core/src/attr-tag.ts:75-138 | After unification any two tags reached by one path of names have the same names, cardinalities and shapes. |
| AttrTagPlans.TagGetsGroupPlan | packages/core/src/attr-tag.ts:80-138 | Each tag gets the plan of its group as the group was before, whatever was rewritten meanwhile. |
| AttrTagPlans.FallbackIsExact | packages/core/src/attr-tag.ts:99-125 | A declared property decides; without one, `single` exactly when no run of any parent produces two. |
| AttrTagShapes.PropIsUnified | packages/core/src/attr-tag.ts:8-138 | A property is declared exactly when some tag of the group declared it, and then the first declared decides; else it is data exactly when a tag of the name has attributes or attribute tags, and single exactly when no run produces two. |
| AttrTagShapes.GroupIsDescent | packages/core/src/attr-tag.ts:80-155 | The group reached by a path of names is the tags nested that way. |
| AttrTagShapes.PropsInOrder | packages/core/src/attr-tag.ts:84-98 | A tag has a property for each name nested in its group and each declared one, once, in the order in which they are first seen. |
| AttrTagPlans.SourceIsProjection | packages/core/src/attr-tag.ts:120-137 | Each property's source produces exactly its owner's tags of that name. |
| AttrTagPlans.PlannedNames | packages/core/src/attr-tag.ts:84-98 | A group plans the names it nests or declares, once each, and no others. |
| AttrTagPlans.GroupsAreApart | packages/core/src/attr-tag.ts:145-155 | Groups of different names share no tag. |
| AttrTagPlans.UnifiedElsewhere | packages/core/src/attr-tag.ts:80-138 | Tags outside the forest keep their properties. |
| AttrTagPlans.AttributeTags.UnifyNestedAttrTagPlans | packages/core/src/attr-tag.ts:80-138 | The recursion ends, and leaves the properties of the unification, which `AttrTagShapes.PropIsUnified` tells of the tags alone. |
| AttrTagPlans.AttributeTags.UnifyNestedAttrTagPlanGroups | packages/core/src/attr-tag.ts:145-155 | Each group is unified by itself, in the order the names appear. |
| AccessorReads.RewritingKeepsMeaning | packages/core/src/accessor-reads.ts:75-197 | In every model of the language, an accepted rewriting without capture and without a written cast means what the original meant. |
| AccessorReads.RaisesExactly | packages/core/src/accessor-reads.ts:105-197 | It raises exactly when an unshadowed rewritten name is written outright, patterns included. |
| AccessorNames.RaisesWhereWritten | packages/core/src/accessor-reads.ts:105-197 | It raises exactly when a rewritten name stands as a target somewhere in the tree and no scope on the way there binds it. |
| AccessorNames.ReportedExactly | packages/core/src/accessor-reads.ts:221-245 | What is reported is exactly what is read, written behind a cast, or the whole target of an update or loop, at a place where no scope binds it. |
| AccessorReads.BreaksExactly | packages/core/src/accessor-reads.ts:153-197 | Outside type annotations, a replacement lands in a target exactly when a rewritten name is written behind a cast. |
| AccessorReads.CastAssignmentIsAccepted | packages/core/src/accessor-reads.ts:114-151 | `p! = 1` is accepted and breaks. |
| AccessorReads.MeaningIsLocal | packages/core/src/accessor-reads.ts:200-245 | A meaning depends on the free names alone. |
| ReadVisitors.RewriteReadsInCode | packages/core/src/accessor-reads.ts:75-197 | The whole call: throws exactly then, answers the rewritten tree, and hands back what reads no such name as it came. |
| ReadVisitors.Rewriter.Visit | packages/core/src/accessor-reads.ts:97-197 | One visit, with the names bound on the way; `changed` is set exactly when something is replaced. |
| ReadVisitors.NothingReplaced | packages/core/src/accessor-reads.ts:193-196 | An expression that reads no rewritten name is its own rewriting. |
| ReadVisitors.FreeIdentifiersIn | packages/core/src/accessor-reads.ts:221-245 | Collects exactly the names that are referenced and bound by no scope on the way. |
| ReadVisitors.Collector.Visit | packages/core/src/accessor-reads.ts:235-243 | One visit adds exactly the referenced names its scopes leave free. |
| ReadVisitors.ReportedNamesSuffice | packages/core/src/accessor-reads.ts:200-245 | The names reported decide the meaning, unless one is written and not read. |
| Destructuring.PathsReadBindings | packages/core/src/accessor-reads.ts:246-323 | When the keys fit and the arrays are iterated as they are indexed, reading each path from any value gives, in order, what destructuring binds; no key throws, and what needs a default or a member of nothing is told apart. |
| Destructuring.DestructuredNames | packages/core/src/accessor-reads.ts:267-323 | Answers the paths, or nothing when a part is not supported. |
| Destructuring.IndexIsDecimal | packages/core/src/accessor-reads.ts:308-316 | The member an array element is read by is its index in decimal digits. |
| Destructuring.SupportedExactly | packages/core/src/accessor-reads.ts:280-322 | A pattern is supported exactly when nothing in it, however deep, is a rest or a target that is no name. |
| Destructuring.Walker.Walk | packages/core/src/accessor-reads.ts:280-322 | The walk appends the paths below its pattern, and clears `ok` exactly when it is not supported. |
| DestructuringMisreads.PathsAreRightExactly | packages/core/src/accessor-reads.ts:280-322 | For values whose arrays are iterated as they are indexed the paths of a supported pattern are right exactly when every key fits; however values are iterated, exactly when there is no array pattern either. |
| DestructuringMisreads.BoundKeyMisread | packages/core/src/accessor-reads.ts:297-305 | In `{ a, [a]: b }` the member named by the `a` just bound is read through an outer `a`. |
| DestructuringMisreads.OtherKeyMisread | packages/core/src/accessor-reads.ts:297-305 | The member named by any other key is read through `[undefined]`. |
| DestructuringMisreads.OverflowKeyMisread | packages/core/src/accessor-reads.ts:303-305 | `{ 1e999: x }` binds the member `Infinity` and reads the member `null`. |
| DestructuringMisreads.ArrayIsIterated | packages/core/src/accessor-reads.ts:308-316 | `[a]` binds what iterating gives first, or throws, and reads the member `0` either way. |
| DestructuringMisreads.CharacterMisread | packages/core/src/accessor-reads.ts:308-316 | Of a string that begins with a character of two units `[a]` binds the character and reads its first unit. |
| CoreScopes.Ctx.UndoScope | packages/core/src/core.ts:1481-1511 | Restores every part of the entry state whatever the block left, the defines when it was to scope them. |
| CoreScopes.Ctx.UndoDefines | packages/core/src/core.ts:1527-1549 | Names the block added go with their positions; names it declared again are the outer ones. |
| CoreScopes.Ctx.ShadowBindings | packages/core/src/core.ts:1551-1609 | Every name of a parameter list is hidden from the rewrites, lets, consts and derived sets and recorded as shadowed, with its own guard or none; any other name stays as it was in every table; the undo keeps the entry state. |
| CoreScopes.ShadowingHides | packages/core/src/core.ts:1551-1609 | The same of the state machine: name by name, what a parameter list hides and what it leaves. |
| CoreScopes.Ctx.UndoShadow | packages/core/src/core.ts:1610-1619 | What the undo writes back, and what it leaves. |
| CoreScopes.Perform | packages/core/src/core.ts:1481-1619 | Any program of nested scopes, run on the context, does what the state machine says. |
| CoreScopes.AllBalancedKeep | packages/core/src/core.ts:1481-1619 | Properly nested scopes restore the state they began in, however deep. |
| CoreScopes.ParametersRestoreExactly | packages/core/src/core.ts:1551-1619 | A parameter list restores its entry state exactly when the body left alone what the undo does not write. |
| CoreScopes.ElementRestoresExactly | packages/core/src/core.ts:1527-1549 | A native element leaves the state as it found it exactly when its body changed only defines and positions, moved the position of no name it did not declare or drop, and gave a new one only to a name it newly declared, at a define. |
| CoreText.OffsetsAndPositions | packages/core/src/core.ts:1214-1227 | Slicing between the positions of two offsets is slicing between the offsets, and a later offset has a later position. |
| CoreText.SliceBetweenPositions | packages/core/src/core.ts:1755-1764 | The slice across any number of lines is the text between the offsets. |
| CoreText.PositionsGrow | packages/core/src/core.ts:1214-1227 | Positions are strictly monotone, so they determine the offset. |
| CoreText.PositionAtOffset | packages/core/src/core.ts:1214-1227 | The loop finds the position, also past the end and before the start. |
| CoreText.PositionsOutside | packages/core/src/core.ts:1214-1227 | An offset past the end is in the last line, as if a newline ended it, one before the start is in front of line 1, and without lines all is in line 1. |
| CoreText.JoinOfSplit | packages/core/src/core.ts:2455-2455 | Joining the context's lines gives its source. |
| CoreText.LinesHoldNoNewline | packages/core/src/core.ts:2455-2455 | No line holds a newline, so the lines are those of the source. |
| CoreText.SpliceSource | packages/core/src/core.ts:1409-1429 | The loop prints the spliced text and records the range of every splice. |
| CoreText.SplicedPieces | packages/core/src/core.ts:1409-1429 | Each recorded range selects exactly its splice's text, and in front of it stands exactly the authored text since the splice before. |
| CoreText.SplicedEnd | packages/core/src/core.ts:1409-1429 | After the last splice the authored text goes on to the end. |
| CoreText.SpansAreApart | packages/core/src/core.ts:1409-1429 | The recorded ranges are ordered and disjoint. |
| CoreText.SortedIsSorted | packages/core/src/core.ts:1416-1416 | The sort orders the splices and loses none. |
| CoreText.ExprWithNodes | packages/core/src/core.ts:1349-1403 | The code is the text with triggers and rewritten references spliced in one order; each trigger inside the expression that carries a node is listed once, with the range that selects what it prints, in order and apart, and nothing else is; a lone name and a generated tree are printed without triggers and ranges. |
| CoreText.TriggersAreThoseInside | packages/core/src/core.ts:1397-1403 | The triggers of an expression are those that start and end in it, each as often as it is there, by their starts, equal starts in the order given. |
| CoreText.WithNodesSorted | packages/core/src/core.ts:1409-1416 | The sort keeps the order of equal starts: picking the triggers with nodes before or after it gives the same list. |
| CoreText.SortedTwice | packages/core/src/core.ts:1397-1403 | Triggers sorted for the nodes stay as they are when the splicing sorts them again. |
| CoreText.RecordedRange | packages/core/src/core.ts:1419-1425 | The last entry for a splice is the one kept. |
| CalleeInput.DependenciesDecide | packages/core/src/callee-input.ts:1211-1362 | Two file systems that agree on the recorded dependencies give the same answer and the same dependencies. |
| CalleeInput.ReadStaysInUniverse | packages/core/src/callee-input.ts:1805-1872 | A read ends on every declaration graph: it never looks up a name no file writes. |
| CalleeInput.SameImported | packages/core/src/callee-input.ts:1269-1362 | Following re-exports depends on the recorded paths alone. |
| CalleeInput.SameClass | packages/core/src/callee-input.ts:1586-1694 | Classifying a property depends on the recorded paths alone. |
| CalleeInput.ProbeIsFirst | packages/core/src/callee-input.ts:693-716 | The hit is the first candidate that is there, and a miss has tried them all. |
| CalleeTypes.CandidatesInPlace | packages/core/src/callee-input.ts:693-716 | The candidates are the path, the path with each extension, and the index file without one and with each. |
| CalleeAnalyzer.InputAnalyzer.ImportedDeclaration | packages/core/src/callee-input.ts:1269-1362 | The method follows the re-exports in order and ends on cycles; `CalleeExports.ImportFindsExport` says what it finds. |
| CalleeExports.ImportFindsExport | packages/core/src/callee-input.ts:1269-1362 | When nothing has been followed yet, a declaration is found exactly when the file exports the name, itself or through `export *` and `export { a as b }` of files that do; it is the one at the end of the trail on which the first re-export in order wins; and it throws only where a file on the way does not parse. |
| CalleeExports.TrailIsUnique | packages/core/src/callee-input.ts:1310-1361 | There is one such trail. |
| CalleeExports.StepIsPassed | packages/core/src/callee-input.ts:1341-1361 | Each re-export passes on the names it lists, or all of them, to the first candidate file that is there. |
| CalleeAnalyzer.InputAnalyzer.ResolveNamedType | packages/core/src/callee-input.ts:1211-1257 | Resolves a name in the file, or through its type import, whose file is merged. |
| CalleeExports.ImportResolvesToExport | packages/core/src/callee-input.ts:1211-1257 | When nothing has been followed yet, an import whose specifier leads to a file resolves to the declaration that file exports, whose own file is merged, and to nothing when it exports none. |
| CalleeExports.NoTargetNoExport | packages/core/src/callee-input.ts:1211-1257 | An import whose specifier leads to no file that is followed resolves to nothing. |
| CalleeAnalyzer.InputAnalyzer.NamedTypeEventuallyContainsAttrTag | packages/core/src/callee-input.ts:1811-1872 | Follows aliases without a depth limit until `AttrTag`, a cycle or an unknown name. |
| CalleeTypes.EventuallyIsReached | packages/core/src/callee-input.ts:1811-1872 | In a file without type imports it answers whether a chain of aliases, however long, leads to a declaration that holds an `AttrTag`. |
| CalleeTypes.ContainsIsMention | packages/core/src/callee-input.ts:1978-2005 | A type contains `AttrTag` exactly when it is written at some place inside it. |
| CalleeAnalyzer.InputAnalyzer.AnalyzeAttrTagType | packages/core/src/callee-input.ts:1586-1694 | The alias loop classifies the property as an attribute tag, an error or an ordinary prop. |
| CalleeExports.ExportedTagIsDeclared | packages/core/src/callee-input.ts:1586-1694 | When nothing has been followed yet, a property whose type is imported, over however many re-exports, from an alias of `AttrTag` is an attribute tag, several of them for an alias in an array. |
| CalleeTypes.ClassOfWritten | packages/core/src/callee-input.ts:1586-1694 | A type written without a name is an attribute tag, several of them in an array, an error when `AttrTag` is written inside something else, and an ordinary prop otherwise. |
| CalleeTypes.ClassOfReference | packages/core/src/callee-input.ts:1640-1678 | A reference to an interface is an ordinary prop, and one to an alias is what the alias is. |
| CalleeAnalyzer.InputAnalyzer.AddNodes | packages/core/src/callee-input.ts:1050-1144 | A file's declarations and imports are added, and an `AttrTag` of its own is noted. |
| CalleeTypes.ModuleIsAdded | packages/core/src/callee-input.ts:1050-1144 | The last declaration and the last import of a name in the file are the ones kept. |
| CalleeTypes.ShadowsAreAdded | packages/core/src/callee-input.ts:1050-1144 | A file is noted exactly when it declares an `AttrTag`, or imports one from elsewhere than a source of attribute tags. |
| CalleeAnalyzer.InputAnalyzer.ReadMembers | packages/core/src/callee-input.ts:1369-1413 | The members of `Input` are classified in order, an optional one as such. |
| CalleeTypes.MembersInOrder | packages/core/src/callee-input.ts:1369-1413 | The members keep their names and order, and an optional single tag is one or none. |
| CalleeTypes.InputIsFirstExported | packages/core/src/callee-input.ts:1146-1173 | `Input` is the first exported declaration of that name. |
| CalleeAnalyzer.ReadInput | packages/core/src/callee-input.ts:792-906 | A whole read in a new analyzer answers the read that `CalleeInput` is about. |
| CalleeChains.ChainIsDeclaredOrError | packages/core/src/callee-input.ts:1640-1678 | A chain of at most four references to `AttrTag` is declared; a longer one is an error, never an ordinary prop. |
| CalleeChains.ChainIsFound | packages/core/src/callee-input.ts:1811-1872 | The unbounded search finds `AttrTag` at the end of a chain of any length. |
| CalleeChains.FollowedImportIsLost | packages/core/src/callee-input.ts:1269-1278 | An import of a declaration its target makes resolves exactly when that target has not been followed for that name, and is marked either way. |
| CalleeChains.ImportIsTagExactly | packages/core/src/callee-input.ts:1276-1278 | A property whose type is an import of an alias of `AttrTag` is an attribute tag exactly when the import has not been followed in the read, and an ordinary prop otherwise. |
| CalleeChains.FirstUsesAreTags | packages/core/src/callee-input.ts:1369-1413 | Of the properties of an `Input` that share such an import, the first is an attribute tag and every later one an ordinary prop. |
| CalleeChains.NextMemberIsTagExactly | packages/core/src/callee-input.ts:1369-1413 | After any members, of whatever types, a property is an attribute tag exactly when they have not followed its import. |
| CalleeChains.TwoUsesOfOneImport | packages/core/src/callee-input.ts:1276-1278 | The read of a callee that gives one imported alias of `AttrTag` to two properties answers an attribute tag and an ordinary prop. |
| CalleeCache.CalleeInputCache.ReadCalleeInput | packages/core/src/callee-input.ts:374-448 | A cached answer is a fresh one, unless the cached read had failed or a dependency slipped. |
| CalleeCache.CalleeInputCache.TouchAndEvict | packages/core/src/template-tag.ts:162-174 | The new entry is kept, every entry stays what a read gave, and the bound holds. |
| CalleeCache.SnapshotDependencies | packages/core/src/callee-input.ts:564-585 | One snapshot for each dependency, of the text that was parsed. |
| CalleeCache.SnapshotsMatch | packages/core/src/callee-input.ts:587-607 | Answers whether every snapshot still holds. |
| CalleeCache.SnapshotHoldsExactly | packages/core/src/callee-input.ts:564-607 | A snapshot holds exactly when the file is as it was, or slipped. |
| CalleeCache.EmptyBufferGoesUnnoticed | packages/core/src/callee-input.ts:587-607 | Opening a missing candidate as an empty buffer moves the probe and invalidates nothing. |
| CalleeProbes.DependenciesAreProbes | packages/core/src/callee-input.ts:792-906 | A read depends on the callee and on the candidates it tried for the specifiers it followed, and on nothing else. |
| CalleeCache.TargetIsDecided | packages/core/src/callee-input.ts:613-664 | The dependencies decide which file is the callee exactly when the read tries again every candidate its import tried in vain. |
| CalleeCache.CreatedCandidateGoesUnnoticed | packages/core/src/callee-input.ts:671-715 | With the probes `.mx`, `.tsx`, `.ts`, `.jsx`, `.js` and the callee found as `.ts`, creating the `.tsx` file moves the target and changes no dependency. |
| DefaultTag.LookupDeclared | packages/core/src/contract-default-tag.ts:79-129 | The two loops compute the default the state machine over the parents finds. |
| DefaultTag.LookupIsResolved | packages/core/src/contract-default-tag.ts:79-129 | The lookup answers a name exactly when the first tag that answers for itself, or its declaration of the attribute tags inside it, resolved from it inwards one in the other, has that default: a listed name before the wildcards, and of these the first that fits. |
| DefaultTag.LookupFollowsTheRule | packages/core/src/contract-default-tag.ts:46-129 | With control flow out of sight, attribute tags belong to the tag around them, which answers if it is authored and is skipped with them if not. |
| DefaultTag.ControlFlowIsTransparent | packages/core/src/contract-default-tag.ts:104-115 | Parents that differ in control flow alone have the same answer. |
| DefaultTag.StructuralOwnerIsSkipped | packages/core/src/contract-default-tag.ts:104-117 | Any other structural tag is skipped together with the attribute tags it owns. |
| DefaultTag.OwnerAnswers | packages/core/src/contract-default-tag.ts:117-127 | Each attribute tag is looked up in the declaration of the one around it, from the owner inwards. |
| DefaultTag.OnlyToTheFirstAuthored | packages/core/src/contract-default-tag.ts:83-127 | Nothing past the first authored parent matters. |
| DidYouMean.Distance | packages/core/src/did-you-mean.ts:132-158 | The table ends with the value of its recurrence. |
| DidYouMean.DistanceIsLeastCost | packages/core/src/did-you-mean.ts:131-158 | That value is the least cost of an alignment by insertions, deletions, substitutions and adjacent swaps. |
| DidYouMean.DistanceIsSymmetric | packages/core/src/did-you-mean.ts:131-158 | The distance does not depend on which string is the misspelled one. |
| DidYouMean.ZeroMeansEqual | packages/core/src/did-you-mean.ts:131-158 | Only equal strings are at distance 0. |
| DidYouMean.NearestName | packages/core/src/did-you-mean.ts:160-189 | Answers a candidate exactly when it is the one nearest within the limit, whatever the order of the candidates. |
| HomeExample.Validate | apps/docs/scripts/home-example.ts:199-269 | No problem is reported exactly for markers that are sound, in bounds and pairwise disjoint. |
| HomeExample.ValidateRange | apps/docs/scripts/home-example.ts:229-253 | A range is reported exactly when it is out of bounds or meets a range claimed before. |
| HomeExample.TextsInBounds | apps/docs/scripts/home-example.ts:130-138 | The text a marker covers is what stands between its columns, range by range. |
| HomeHighlight.HighlightExample | apps/docs/scripts/home-example.ts:423-480 | The emitted spans are well nested, and read back as the page shown. |
| HomeHighlight.HighlightLine | apps/docs/scripts/home-example.ts:441-467 | One line's loop closes what it opens and shows each column inside its owner and its class. |
| HomeHighlight.PageShowsTheText | apps/docs/scripts/home-example.ts:440-479 | The page shows the text character for character, each inside its line, its owner and its class. |
| HomeHighlight.ShownInItsMarker | apps/docs/scripts/home-example.ts:423-480 | For accepted markers a character is inside a marker's span exactly when that marker has a range there. |
| HomeHighlight.AcceptedArePlaced | apps/docs/scripts/home-example.ts:199-269 | Accepted markers lie in the lines that are shown, though a final newline is dropped. |
| HomeHighlight.OwnersOf | apps/docs/scripts/home-example.ts:428-439 | The array of owners holds, at every offset, the last marker with a range there. |
| HomeGrid.Layout | apps/docs/scripts/home-example.ts:570-592 | Every group's heading and cards, once and in order, in the two columns beside the file, with no two boxes in one cell: read row by row, a heading and each card of the first group take a row, and the cards of any other fill one from left to right, two by two. |
| HomeGrid.Place | apps/docs/scripts/home-example.ts:573-587 | One group takes the rows from where it starts to where the next one does. |
| HomeGrid.BoxesInSections | apps/docs/scripts/home-example.ts:573-587 | The boxes are the groups one after the other, each a heading and then its cards. |
| HomeGrid.GroupInOrder | apps/docs/scripts/home-example.ts:578-578 | The cards of a group are all the cards that name it, in order. |
| HomeGrid.GroupsInOrder | apps/docs/scripts/home-example.ts:491-494 | The groups come in the order of their first cards. |
| HomeGrid.EveryCardIsLaid | apps/docs/scripts/home-example.ts:570-592 | Every card has its box. |
| HomeHighlight.LineStarts | apps/docs/scripts/home-example.ts:326-334 | The offsets at which the lines start. |
| HomeHighlight.EscapesByCharacter | packages/editors/tree-sitter-mx/highlight/mx-highlight.mjs:313-319 | The four passes escape character by character: none touches what an earlier one wrote. |
| HomeHighlight.EscapeRoundTrip | packages/editors/tree-sitter-mx/highlight/mx-highlight.mjs:313-319 | Escaped text reads as the text. |

## Left out

- AttrTagRuns.PossibleIsEvaluated: tests and lists are independent of each other; two tests that always agree have fewer evaluations than runs.
- Parsing and printing by Babel, the template lexer and tree-sitter: expressions, patterns, regular expressions and modules are trees, and the classes of the highlighter are given.
- Diagnostic wording, error codes, HTML attributes and CSS: errors are values, spans are tags. The hover rules of `overviewCss`, the cards of a line (`data-cards`) and `validateCards` are not part of this model.
- ReadVisitors.Rewriter.Visit: returns the rewritten tree instead of replacing nodes in place, so aliasing between nodes of one parse is not modelled; a code that does not parse is left as it is before any of this.
- AccessorReads.RewritingKeepsMeaning: requires that no scope inside the expression captures a name a replacement uses, which the code does not check.
- AccessorReads.BreaksExactly: type annotations are not modelled, so a name in one, such as a parameter name inside a function type of a kept cast, is not seen; nor are declarations that are only signatures, such as overloads and abstract methods.
- ReadVisitors.ReportedNamesSuffice: names that are only assigned are not reported, so it requires that what is written is also read.
- Destructuring.PathsReadBindings: a path drops a default, and destructuring a value without members throws, so it says what is bound when neither comes up; which of the two comes up first is its outcome. The members, the keys and the iteration of a value have no effects.
- Inside destructuring patterns: an expression used as a key has a value and no effects, and does not read the pattern's own names unless it is one.
- CloneIr.CloneIn: requires that no object is reached in two modes, because the memo is keyed by the object alone and the result would depend on the order of the walk; without `nodes` nothing is required.
- Holes in arrays, `__proto__` as a key and accessor properties in `cloneIr`: an accessor is copied as the value it gives, and array elements are all there.
- `contractData` and the registries of claimed fields: one call of `frozenCopy` per field. Fields a contract inherits from its prototype are not read in `ClaimedUse`.
- MarkClash.NoClashNeverArmedOnCore: states the classes that are read right; of a class that is misread `MarkClash.SharedText` says what is compared.
- ClassRanges.CaretIsRightExactly: leaves out a negated class with letter escapes that begins with a dash; `ClassRanges.RangesAreRightExactly` has those without letter escapes.
- A `chars` with a bare `]`, such as `a]|[b`, which the parser compiles as more than one class.
- Regular expressions outside the subset rows may use (look-around, back-references, named groups).
- CalleeAnalyzer.InputAnalyzer.AnalyzeAttrTagType: unions and the configuration of an attribute tag are not modelled.
- CalleeAnalyzer.ReadInput: `extends`, intersections and index signatures of an `Input` are not read.
- Unions, intersections, `extends`, configuration types, nested attribute tags, `declare`d values and default exports in `callee-input.ts`: a property's type is a reference, an array, `AttrTag`, a type literal or something else, and an `Input` that is an alias of anything but a type literal has no members here. Chains through array or parenthesis wrappers and through interfaces are not claimed to be found.
- A file that both declares and imports `AttrTag`, which TypeScript refuses, and values named `AttrTag`.
- `.mx` callees, bare specifiers, tool aliases, registered readers and `readOwnInput`: relative specifiers over a map from paths to texts.
- Changes of the file system during one read: a read sees one file system.
- CalleeCache.CalleeInputCache.ReadCalleeInput: after a failed parse only the callee is a dependency, so a cached failure may outlive the file that caused it; the contract names that case.
- The order of a map's keys where no code depends on it, and the message of the first error.
- CoreScopes.Perform: runs the scope operations and arbitrary changes of the tables between them; which construct of a template calls which operation is not modelled.
- CoreText.ExprWithNodes: the splices of the references are given, because which identifiers are references depends on the parser; that the ranges select their texts is promised when the splices are apart, and no splice object stands in a list twice.
- CoreText.SplicedPieces: requires that the splices are disjoint and inside the range; `CoreText.SpliceSource` requires nothing.
- Lower-casing in `nearestName` and the list of HTML elements: any function, any list.
- `contractDefaultTag`'s validation of the name it found, and the ladder of other rungs.
- HomeExample.Validate: the address pattern and the existence of a page are given predicates, and unknown keys of a marker do not occur.
