# Relation store and comment-line counter of SonarJava, in Dafny

This project models two small pieces of the SonarJava analyser.

**The path-sensitive relation store `ExecutionState`** (java-checks). An
execution state is a scope in a tree. Each state owns a local table from
ordered pairs of symbolic values to a `SymbolicRelation` (EQUAL_TO, NOT_EQUAL,
GREATER_THAN, GREATER_EQUAL, LESS_THAN, LESS_EQUAL, UNKNOWN) and has an
optional parent state.

- A lookup checks the local table, then the parent chain, and answers UNKNOWN
  at a root.
- A write records a relation and its swapped mirror, and only in the receiving
  state.
- A boolean constraint on a variable is a relation to the constant `true`.
- A branch merge folds `union` over the sibling states for every pair recorded
  below the receiver. It writes a pair only when the result differs from what
  the receiver already answers.
- Invalidation resets to UNKNOWN either every relation of one reassigned value
  or every relation of every field.

States live in an arena (`States.Arena`): a sequence of parents and a sequence
of local stores, indexed by state number, with every parent numbered before its
children. Every operation is a pure function from arena to arena. The receiver
is a state number. A state's "answer" for a pair is `States.GetRelation`.

**Comment-line counting, `CommentLinesVisitor`** (java-squid). Each comment
(trivia) attached to a token is handled in turn:

- its delimiters are stripped;
- it is split into physical lines on `\r\n`, `\n` or `\r`;
- its k-th line is numbered start line + k;
- that line number goes into a set when the line is neither blank nor marked
  NOSONAR.

The very first trivia of the first token is skipped. The result is the size of
the set. The tokens of a file are modelled as a sequence of tokens, each a
sequence of `Trivia(startLine, comment)`.

Modules, one per concern:

- `Wrappers` (wrappers.dfy): `Option`.
- `Symbolic` (symbolic.dfy): values, relations, `swap`, and the laws assumed
  of `union`.
- `States` (execution_state.dfy): the arena, lookup, writes and boolean
  constraints.
- `Merge` (merge.dfy): `mergeRelations` in an order-free form, and its
  properties.
- `MergeOrder` (merge_loop.dfy): the merge loop exactly as written, entry by
  entry. It is proved equal to the order-free form for every repeat-free
  enumeration of exactly the discovered pairs, provided the arena's stores are
  mirrored and free of self pairs (`Consistent`) and `union` satisfies `IsJoin`
  and `CommutesWithSwap`.
- `Invalidation` (invalidation.dfy): both invalidations, as loops and in
  closed form.
- `CommentLines` (comment_lines.dfy): the comment-line counter.
- `Scenarios` (scenarios.dfy): the situations the unit tests of
  `ExecutionState` set up, restated as lemmas.

`SymbolicRelation.union` and `combine` are not part of this model. They are
parameters of type `UnionOp` and `CombineOp`. The merge properties that need
algebra assume what they need, each stated as a named predicate:

- `IsJoin`: an absent accumulator is neutral, and union is commutative,
  associative and idempotent.
- `CommutesWithSwap`: swapping the operands commutes with union.
- `Widens`: union never rules out an ordering that either side allows.

`Symbolic.WideningUnion` is one concrete table that meets all three. The test
scenarios use it.

The merge fold starts from `null` (ExecutionState.java:74-77). In the merge
test (ExecutionStateTest.java:111-117) all three siblings answer GREATER_THAN
and the receiver is expected to answer GREATER_THAN afterwards. So `union`
with an absent accumulator returns the receiver. `IsJoin` assumes this, and
`WideningUnion` does it.

`seenFirstToken` is set at the end of every `visitToken`
(CommentLinesVisitor.java:68). So only the first trivia of the first token is
skipped (:64-66). If the first token carries no trivia, nothing is skipped.

## Model

| member | source | states |
|---|---|---|
| Symbolic.Swap | java-checks/src/main/java/org/sonar/java/symexec/ExecutionState.java:67 | the mirror relation admits exactly the flipped orderings (GREATER_EQUAL mirrors LESS_EQUAL, GREATER_THAN mirrors LESS_THAN); by Symbolic.AdmitsDetermines that fixes the mirror uniquely |
| Symbolic.AdmitsDetermines | java-checks/src/main/java/org/sonar/java/symexec/ExecutionState.java:67 | a relation is determined by the orderings it admits, so the `Admits`/`Flip` contract of Symbolic.Swap pins down exactly one mirror |
| Symbolic.SwapInvolution | java-checks/src/main/java/org/sonar/java/symexec/ExecutionState.java:66-67 | swapping twice gives the stored relation back, so distinct relations have distinct mirrors |
| Symbolic.WideningUnionIsSoundJoin | java-checks/src/test/java/org/sonar/java/symexec/ExecutionStateTest.java:111-127 | the witness union is a join, commutes with swap and widens, and gives the test's folds: GREATER_THAN over GREATER_THAN stays GREATER_THAN, LESS_THAN with LESS_EQUAL gives LESS_EQUAL |
| States.GetRelation | java-checks/src/main/java/org/sonar/java/symexec/ExecutionState.java:55-58 | `getRelation`: the local entry, else the parent's answer, else UNKNOWN; its contract is carried by States.GetRelationNearest and States.LookupStep |
| States.GetRelationNearest | java-checks/src/main/java/org/sonar/java/symexec/ExecutionState.java:55-58 | the answer is the entry of the nearest state on the parent chain that records the pair, and UNKNOWN when no state on the chain records it |
| States.LookupStep | java-checks/src/main/java/org/sonar/java/symexec/ExecutionState.java:56-57 | one unfolding of the definition of States.GetRelation, split by case: the local entry if present, otherwise the parent's answer, otherwise UNKNOWN at a root; the real characterisation is States.GetRelationNearest |
| States.GetFrame | java-checks/src/main/java/org/sonar/java/symexec/ExecutionState.java:55-58 | an answer depends only on the stores along the state's own chain, for that pair |
| States.AddState | java-checks/src/main/java/org/sonar/java/symexec/ExecutionState.java:44-52 | a new state gets the next number, an empty store and the given parent, and every existing state is unchanged |
| States.FreshStateAnswers | java-checks/src/main/java/org/sonar/java/symexec/ExecutionState.java:44-52 | a fresh root answers UNKNOWN for every pair, and a fresh child answers exactly as its parent |
| States.AddStateKeepsAnswers | java-checks/src/main/java/org/sonar/java/symexec/ExecutionState.java:49-52 | creating a state changes no existing state's answer |
| States.SetRelation | java-checks/src/main/java/org/sonar/java/symexec/ExecutionState.java:64-70 | a self pair leaves everything unchanged; otherwise the pair answers the relation and its mirror the swap; exactly those two keys are added (two entries on an empty store); every other entry and every other store is kept; mirrored stores stay mirrored |
| States.SetRelationShadows | java-checks/src/main/java/org/sonar/java/symexec/ExecutionState.java:64-70 | a write changes no answer of a state that does not descend from the receiver, ancestors included, and no answer for any other pair |
| States.OnlyStoreChangedIsLocal | java-checks/src/main/java/org/sonar/java/symexec/ExecutionState.java:64-70 | replacing one state's store changes no answer of any state off its subtree |
| States.GetMirror | java-checks/src/main/java/org/sonar/java/symexec/ExecutionState.java:66-67 | in an arena whose stores are all mirrored, every state answers the swap of (x, y) for (y, x) |
| States.EvaluateRelation | java-checks/src/main/java/org/sonar/java/symexec/ExecutionState.java:60-62 | for a pair recorded nowhere on the chain, the verdict is `combine(UNKNOWN, queried)`; otherwise it is `combine` of the entry held by the nearest state on the chain that records the pair |
| States.EvaluateAfterSet | java-checks/src/main/java/org/sonar/java/symexec/ExecutionState.java:60-67 | after a write, evaluating the pair combines the written relation, and evaluating the mirror combines its swap |
| States.GetBooleanConstraint | java-checks/src/main/java/org/sonar/java/symexec/ExecutionState.java:100-109 | the constraint is the one whose encoding the state answers for (v, true), or UNKNOWN; UNKNOWN when nothing is recorded |
| States.SetBooleanConstraint | java-checks/src/main/java/org/sonar/java/symexec/ExecutionState.java:111-124 | reading the constraint back gives what was set, for TRUE, FALSE and UNKNOWN; (v, true) answers the constraint's encoding and (true, v) its swap; every other entry of the receiver's store is kept, and no other store changes |
| States.ReadBackConstraint | java-checks/src/main/java/org/sonar/java/symexec/ExecutionState.java:100-109 | whenever a state answers a constraint's encoding for (v, true), the constraint read is that constraint |
| Merge.Discovered | java-checks/src/main/java/org/sonar/java/symexec/ExecutionState.java:72-73 | the pairs `mergeRelations` iterates: the union over the siblings of the pairs `findRelatedValues` collects, each characterised by Merge.PairsBelow |
| Merge.PairsBelow | java-checks/src/main/java/org/sonar/java/symexec/ExecutionState.java:88-98 | a pair is found iff some state from the sibling up to, but not including, the receiver records it locally |
| Merge.InheritsFromReceiver | java-checks/src/main/java/org/sonar/java/symexec/ExecutionState.java:91 | a pair recorded nowhere below the receiver on a sibling's chain gets the receiver's own answer from that sibling |
| Merge.DiscoveredMirrored | java-checks/src/main/java/org/sonar/java/symexec/ExecutionState.java:88-98 | with mirrored stores, every discovered pair is not a self pair and its mirror is discovered too |
| Merge.Answers | java-checks/src/main/java/org/sonar/java/symexec/ExecutionState.java:75-77 | one answer per sibling, in the siblings' order, each that sibling's lookup |
| Merge.FoldUnion | java-checks/src/main/java/org/sonar/java/symexec/ExecutionState.java:74-80 | the fold stays `null` exactly when there are no siblings |
| Merge.MergeRelations | java-checks/src/main/java/org/sonar/java/symexec/ExecutionState.java:72-86 | every discovered pair answers the fold of union over the siblings' answers; undiscovered pairs keep their entries; a pair whose fold equals what the receiver already answers keeps its entry; the receiver's store gains exactly the changed pairs, each holding its fold; no other store changes |
| Merge.MergeIsSound | java-checks/src/main/java/org/sonar/java/symexec/ExecutionState.java:72-86 | with a widening union, an ordering one sibling allows is still allowed after the merge |
| Merge.MergeAgreement | java-checks/src/main/java/org/sonar/java/symexec/ExecutionState.java:72-86 | when every sibling answers the same relation, the receiver answers that relation after the merge |
| Merge.FoldWidens | java-checks/src/main/java/org/sonar/java/symexec/ExecutionState.java:74-77 | with a widening union, the fold allows every ordering any folded answer allows |
| Merge.FoldOfEqual | java-checks/src/main/java/org/sonar/java/symexec/ExecutionState.java:74-77 | folding copies of one relation yields that relation |
| Merge.FoldSwap | java-checks/src/main/java/org/sonar/java/symexec/ExecutionState.java:74-77 | when union commutes with swap, folding the swapped answers yields the swapped fold |
| Merge.MergedMirror | java-checks/src/main/java/org/sonar/java/symexec/ExecutionState.java:81-84 | the merged value of the mirror pair is the swap of the merged value of the pair |
| Merge.MergedStoreMirrored | java-checks/src/main/java/org/sonar/java/symexec/ExecutionState.java:81-84 | the receiver's store after the merge is still mirrored |
| Merge.MergeKeepsConsistent | java-checks/src/main/java/org/sonar/java/symexec/ExecutionState.java:72-86 | the merge keeps every store free of self pairs and mirrored |
| MergeOrder.Step | java-checks/src/main/java/org/sonar/java/symexec/ExecutionState.java:74-84 | after one iteration the receiver answers the fold of the siblings' current answers for the entry, and on a consistent arena its swap for the mirror; only the entry and its mirror in the receiver's store can change |
| MergeOrder.MergeLoop | java-checks/src/main/java/org/sonar/java/symexec/ExecutionState.java:72-86 | the loop over an enumeration order changes only the receiver's store, and only for pairs in the order or mirrors of pairs in it |
| MergeOrder.LoopFrom | java-checks/src/main/java/org/sonar/java/symexec/ExecutionState.java:73-85 | from any point of a duplicate-free order of discovered pairs, the rest of the loop ends in the state the order-free merge describes |
| MergeOrder.MergeLoopAgrees | java-checks/src/main/java/org/sonar/java/symexec/ExecutionState.java:72-86 | on a `Consistent` arena and for a union satisfying `IsJoin` and `CommutesWithSwap`, the loop over any repeat-free enumeration of exactly the discovered pairs gives the same arena as the order-free merge |
| Invalidation.Row | java-checks/src/main/java/org/sonar/java/symexec/ExecutionState.java:136-139 | the values related to v in one store are exactly the o with an entry (v, o), and none when v has no row |
| Invalidation.RelatedValues | java-checks/src/main/java/org/sonar/java/symexec/ExecutionState.java:128-130 | the values collected along the whole chain are exactly those paired with v in some store on it |
| Invalidation.ValuePairs | java-checks/src/main/java/org/sonar/java/symexec/ExecutionState.java:127-130 | the collected pairs are exactly the pairs (v, o) recorded on the chain |
| Invalidation.ForgetEach | java-checks/src/main/java/org/sonar/java/symexec/ExecutionState.java:131-133 | writing UNKNOWN for each collected pair one at a time gives the closed-form reset of the whole set |
| Invalidation.ForgetClears | java-checks/src/main/java/org/sonar/java/symexec/ExecutionState.java:132 | every reset pair and its mirror answer UNKNOWN at the receiver |
| Invalidation.ForgetKeepsOthers | java-checks/src/main/java/org/sonar/java/symexec/ExecutionState.java:131-133 | a pair that is not reset, nor mirrors a reset pair, keeps its answer at every state |
| Invalidation.ForgetKeepsConsistent | java-checks/src/main/java/org/sonar/java/symexec/ExecutionState.java:131-133 | resetting keeps every store free of self pairs and mirrored |
| Invalidation.InvalidateRelationsOnValue | java-checks/src/main/java/org/sonar/java/symexec/ExecutionState.java:126-134 | afterwards v answers UNKNOWN against every other value, and in a consistent arena every value answers UNKNOWN against v; pairs not involving v keep their answers at every state; only the receiver's store changes; consistency is kept |
| Invalidation.ValueForgetAnswers | java-checks/src/main/java/org/sonar/java/symexec/ExecutionState.java:126-134 | the same answers, stated of the closed-form reset of the collected pairs |
| Invalidation.FieldPairs | java-checks/src/main/java/org/sonar/java/symexec/ExecutionState.java:142-148 | exactly the pairs with a field on the left recorded on the receiver's chain |
| Invalidation.ForgetFieldChain | java-checks/src/main/java/org/sonar/java/symexec/ExecutionState.java:142-150 | walking the chain and resetting each field row gives the closed-form reset of all field pairs |
| Invalidation.InvalidateFields | java-checks/src/main/java/org/sonar/java/symexec/ExecutionState.java:141-151 | afterwards every field answers UNKNOWN against every other value, and in a consistent arena every value answers UNKNOWN against every field; pairs of two non-fields keep their answers at every state; only the receiver's store changes; consistency is kept |
| Invalidation.FieldForgetAnswers | java-checks/src/main/java/org/sonar/java/symexec/ExecutionState.java:141-155 | the same answers, stated of the closed-form reset of the field pairs |
| CommentLines.GetContents | java-squid/src/main/java/org/sonar/java/ast/visitors/CommentLinesVisitor.java:87-89 | a "//" comment is "//" followed by the result; any other comment is its first two code points, the result and its last two code points; there is no result exactly when a non-"//" comment is shorter than four code points |
| CommentLines.ContentsOfDelimited | java-squid/src/main/java/org/sonar/java/ast/visitors/CommentLinesVisitor.java:88 | "//" + body and "/*" + body + "*/" both give back the body |
| CommentLines.IsBlank | java-squid/src/main/java/org/sonar/java/ast/visitors/CommentLinesVisitor.java:74-84 | the scan answers true iff every character is whitespace, '*' or '/' (so the empty line is blank) |
| CommentLines.BlankIff | java-squid/src/main/java/org/sonar/java/ast/visitors/CommentLinesVisitor.java:77-83 | the recursive blank test agrees with "every character is whitespace, '*' or '/'" |
| CommentLines.NosonarIff | java-squid/src/main/java/org/sonar/java/ast/visitors/CommentLinesVisitor.java:59 | a line contains "NOSONAR" iff the seven characters at some position spell it |
| CommentLines.SplitLines | java-squid/src/main/java/org/sonar/java/ast/visitors/CommentLinesVisitor.java:55-56 | the split has at least one segment, and no segment contains a line break |
| CommentLines.Terminators | java-squid/src/main/java/org/sonar/java/ast/visitors/CommentLinesVisitor.java:56 | one separator fewer than segments, each "\r\n", "\n" or "\r" |
| CommentLines.SplitRoundTrip | java-squid/src/main/java/org/sonar/java/ast/visitors/CommentLinesVisitor.java:55-56 | putting the segments back together with their separators gives the comment body, trailing empty segments included |
| CommentLines.SplitCanonical | java-squid/src/main/java/org/sonar/java/ast/visitors/CommentLinesVisitor.java:56 | a "\r" followed by "\n" is always split as one "\r\n" separator |
| CommentLines.SplitLinesSplits | java-squid/src/main/java/org/sonar/java/ast/visitors/CommentLinesVisitor.java:55-56 | the split meets the whole description of a split on `(\r)?\n|\r` with limit -1 |
| CommentLines.SplitUnique | java-squid/src/main/java/org/sonar/java/ast/visitors/CommentLinesVisitor.java:55-56 | any segments and separators meeting that description are the split |
| CommentLines.SplitNoBreak | java-squid/src/main/java/org/sonar/java/ast/visitors/CommentLinesVisitor.java:55-56 | a body without line breaks is a single segment |
| CommentLines.LinesFrom | java-squid/src/main/java/org/sonar/java/ast/visitors/CommentLinesVisitor.java:57-63 | n is collected iff segment n - start exists and is neither blank nor marked NOSONAR; at most one number per segment |
| CommentLines.CountLines | java-squid/src/main/java/org/sonar/java/ast/visitors/CommentLinesVisitor.java:57-63 | the loop over the segments, with the line counter, collects exactly those numbers |
| CommentLines.LinesCharacterised | java-squid/src/main/java/org/sonar/java/ast/visitors/CommentLinesVisitor.java:53-63 | the lines of a trivia sequence are the union of each trivia's lines, and there are none exactly when some trivia's contents cannot be taken |
| CommentLines.LinesAppend | java-squid/src/main/java/org/sonar/java/ast/visitors/CommentLinesVisitor.java:53-63 | the lines of two trivia sequences in a row are the union of their lines |
| CommentLines.LinesBound | java-squid/src/main/java/org/sonar/java/ast/visitors/CommentLinesVisitor.java:58-62 | the number of distinct lines is at most the total number of segments |
| CommentLines.VisitTrivia | java-squid/src/main/java/org/sonar/java/ast/visitors/CommentLinesVisitor.java:54-66 | one trivia of `visitToken`: skipped with the flag set when the flag is clear, otherwise its lines are added; its contract is carried by CommentLines.VisitTriviasSeen |
| CommentLines.VisitToken | java-squid/src/main/java/org/sonar/java/ast/visitors/CommentLinesVisitor.java:52-69 | `visitToken`: the token's trivia in order, then the flag is set; its contract is carried by CommentLines.VisitTokensSeen |
| CommentLines.CommentLinesOf | java-squid/src/main/java/org/sonar/java/ast/visitors/CommentLinesVisitor.java:44-49 | `commentLines`: reset the set and the flag, visit all tokens, report the set's size; its contract is carried by CommentLines.CommentLinesCounts |
| CommentLines.VisitTriviasSeen | java-squid/src/main/java/org/sonar/java/ast/visitors/CommentLinesVisitor.java:53-63 | once the flag is set, visiting trivia adds exactly their lines to the set |
| CommentLines.VisitTokensSeen | java-squid/src/main/java/org/sonar/java/ast/visitors/CommentLinesVisitor.java:52-69 | once the flag is set, visiting tokens adds exactly the lines of all their trivia |
| CommentLines.CommentLinesCounts | java-squid/src/main/java/org/sonar/java/ast/visitors/CommentLinesVisitor.java:44-69 | the count is the number of distinct lines of every trivia except the first trivia of the first token, and it fails exactly when one of those trivia's contents cannot be taken |
| CommentLines.CommentLinesBound | java-squid/src/main/java/org/sonar/java/ast/visitors/CommentLinesVisitor.java:44-69 | the count is at most the number of segments of the counted trivia |
| Scenarios.RelationScenario | java-checks/src/test/java/org/sonar/java/symexec/ExecutionStateTest.java:66-80 | on a fresh root: the pair answers UNKNOWN; a self write stores nothing; a write stores two entries and answers GREATER_EQUAL and LESS_EQUAL |
| Scenarios.SelfPairIgnored | java-checks/src/test/java/org/sonar/java/symexec/ExecutionStateTest.java:72-74 | writing a self pair returns the arena unchanged |
| Scenarios.WriteOnEmpty | java-checks/src/test/java/org/sonar/java/symexec/ExecutionStateTest.java:76-80 | a write on an empty store leaves two entries answering the relation and its swap |
| Scenarios.ShadowScenario | java-checks/src/test/java/org/sonar/java/symexec/ExecutionStateTest.java:82-92 | a nested state starts empty and inherits its parent's answers; its own write shadows them and leaves the parent's answer as it was |
| Scenarios.BooleanScenario | java-checks/src/test/java/org/sonar/java/symexec/ExecutionStateTest.java:36-55 | the constraint starts UNKNOWN, reads back FALSE, is inherited by a nested state, and is shadowed there by TRUE while the parent keeps FALSE |
| Scenarios.MergeScenarioInherited | java-checks/src/test/java/org/sonar/java/symexec/ExecutionStateTest.java:103-119 | when all three siblings answer GREATER_THAN, as the receiver already does, the merge writes nothing, and the receiver answers GREATER_THAN and LESS_THAN |
| Scenarios.MergeScenarioWidened | java-checks/src/test/java/org/sonar/java/symexec/ExecutionStateTest.java:121-127 | siblings answering LESS_THAN, LESS_EQUAL and LESS_EQUAL merge to LESS_EQUAL, with mirror GREATER_EQUAL |

## Left out

- `SymbolicRelation.union`, `combine` and `SymbolicValue` are not part of this model. `union` and `combine` are parameters; `Symbolic.WideningUnion` only witnesses that the assumed laws can be met. `swap` is the mirror, as the tests fix it.
- Iteration order of Guava's `HashBasedTable` and `HashMultimap` is not modelled. Discovery is a set of pairs. MergeOrder.MergeLoopAgrees covers every repeat-free enumeration of exactly the discovered pairs, under `Consistent`, `IsJoin` and `CommutesWithSwap`.
- A sibling that does not descend from the receiver makes `findRelatedValues` walk past the root and throw (ExecutionState.java:91). This is a precondition (`Merge.SiblingsBelow`). A sibling equal to the receiver contributes no pairs.
- Merge.MergeRelations writes every changed pair at once from the pre-merge answers. The loop as written, where later pairs see earlier writes, is MergeOrder.MergeLoop. The two agree only on a `Consistent` arena and under the stated join laws.
- MergeOrder.MergeLoop: its own contract is a frame only (the receiver's store changes, and only at pairs in the order or their mirrors); what it computes is stated by MergeOrder.MergeLoopAgrees under the join laws, and per iteration by MergeOrder.Step.
- In `invalidateFields` the receiver's own rows are iterated while `setRelation` writes into them. The model collects the pairs from a snapshot first. On a mirrored store the writes only update existing entries, so both readings give the same result.
- The row-by-row and column-by-column loops of both invalidations are flattened into one set of pairs, reset in any order.
- `setRelation` and `setBooleanConstraint` return the receiver for call chaining (ExecutionStateTest.java:58, 95). Here they return the new arena, and the receiver is the same state number.
- `Character.isWhitespace` is a fixed list of code points: the ASCII controls and separators, and the Unicode space, line and paragraph separators except the non-breaking ones. U+180E is included. Changes between Unicode versions are not modelled.
- The `SubscriptionVisitor` token traversal and the `CommentAnalyser` superclass are external. The input is a sequence of tokens, each a sequence of trivia.
- CommentLines.GetContents: strings here are sequences of Unicode code points, while Java's `length()` and `substring` (CommentLinesVisitor.java:87-89) count UTF-16 units. The `None` boundary and the stripped offsets differ from Java only when one of a comment's first or last two units belongs to a supplementary character; a comment produced by the lexer always begins with "//" or "/*" and a block comment ends with "*/", so no lexer comment is affected (CommentLines.ContentsOfDelimited).
- The `StringIndexOutOfBoundsException` from `getContents` on a short block comment is `None`. It propagates as a failed count.
- Line numbers are unbounded integers. The source's `int` overflow is not modelled.
- java-squid/src/main/java/org/sonar/java/ast/visitors/AccessorVisitorST.java is written against an AST API that is not part of this model.
- java-squid/src/main/java/org/sonar/java/SonarComponents.java is a holder with no logic.
- Mockito and JUnit setup in the tests is not modelled. Mocked symbols are `Symbolic.Value`s.
