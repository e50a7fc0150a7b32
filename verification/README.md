# A Dafny model of cstree

cstree is a library of lossless syntax trees: immutable green trees that share
nodes and tokens, and red trees over them that know parents and offsets and are
filled in lazily by any number of threads. This project models its state
machines and one client, and proves what they keep.

| file | what it models |
|---|---|
| `Base.dfy` | `u32` with wrap-around, byte strings, folds over lists |
| `Interning.dfy` | the default interner and its keys |
| `Green.dfy` | green tokens and nodes, heads (kind, length, child hash) |
| `BuilderSpec.dfy`, `Builder.dfy` | the node cache and the green builder: as state transitions, and as classes proved to make them |
| `Programs.dfy`, `Checkpoints.dfy` | runs of the builder; checkpoints, retroactive wrapping, reverting |
| `Reference.dfy`, `Survival.dfy`, `Refinement.dfy`, `Sharing.dfy` | a builder of plain text-carrying trees without cache, interner, heads or hashes; which tokens survive a run, told from its calls alone; and when the real builder refines the plain one |
| `Hashing.dfy` | what the child hash depends on, and when the cache is faithful for that reason |
| `Red.dfy`, `Preorder.dfy`, `TokenWalk.dfy`, `TokenWalkBack.dfy`, `OffsetSearch.dfy`, `Replace.dfy` | handles and navigation, the stackless preorder walk, token steps either way, offset and range search, substitution |
| `SyntaxText.dfy` | text spread over tokens: slices, comparison, characters, search |
| `RefCount.dfy`, `Handles.dfy`, `Teardown.dfy` | the shared red tree as a concurrent protocol with one reference count; what its handles name; and the teardown at its end |
| `Serde.dfy`, `Streams.dfy` | events and side data out of a tree and back; every event stream, whole trees or not |
| `SExpr.dfy`, `SExprUnique.dfy` | the S-expression parser of the examples, and that its tree is the only well-formed one |

`dafny verify dfyconfig.toml` checks all of it.

## How the model stands to the code

- Release profile: `u32` arithmetic and casts wrap and `debug_assert`s are not
  evaluated. `Base.Wrap`, `Base.WrappingAdd` and `Base.WrappingDec` say where.
- The hash is an arbitrary streaming hasher (`Green.Hasher`): every theorem
  holds for all of them. Where the cache could answer with the wrong node,
  "no two different small nodes share a head" is a named hypothesis
  (`Sharing.HeadsDistinct`). `Hashing.HeadsDistinctIffFinishSeparates` traces it
  to the hasher: if writes merge no streams, only cutting the hash to 32 bits
  can break it.
- Kinds are `u32`s (`from_raw` inverts `into_raw`); payloads are byte strings
  with a validity predicate (`from_bytes` inverts `as_bytes` on valid ones).
- A failed assert, an `unwrap` of nothing or a `panic!` is an outcome (`None`,
  `false`, `Panicked`), not a precondition.
- Text lengths below 2^32 and fewer than 2^32 handles are hypotheses of the
  theorems that need them and of no others.
- Atomics and locks are sequentially consistent. In `RefCount.dfy` a step is one
  atomic access or one critical section, and an interleaving is any sequence of
  steps. A handle to a token counts as a handle to its parent, as in the code.
- The documentation of `revert_to` (cstree/src/green/builder.rs:540-544) says
  that unfinished nodes are deleted. The code rejects some of them:
  `Checkpoints.RevertRestores` says exactly which,
  `Checkpoints.RevertRejectsALateStart` gives the family, and
  `Checkpoints.TokenThenStartBlocksRevert` one token that is enough.
- A checkpoint is live until a node open at it is closed or the builder goes
  back past it. "The tokens pushed and not reverted" (`Survival.Survivors`) is
  read off the calls, and the theorems about it speak of runs that revert to
  live checkpoints. A stale checkpoint can pass the asserts
  (builder.rs:578-598): `Survival.AnyRevertCutsLeaves` says what is cut, and
  `Survival.StaleRevertKeepsTheNewToken` shows that it need not be what was
  pushed since.
- `first_token` and `next_token` are documented as reaching the leftmost and the
  next token; they get stuck on childless nodes, as do `last_token` and
  `prev_token`. `TokenWalk.WalkCoversIffHollowOnlyAtEnd` and
  `TokenWalkBack.WalkBackCoversIffHollowOnlyAtStart` say exactly when they do
  not; `TokenWalk.FirstTokenMissesAToken` and
  `TokenWalk.NextTokenStopsAtAnEmptyNode` show it.
- `char_at` is documented as finding the first character at or after an offset
  (cstree/src/syntax/text.rs:213-214). The code panics inside a character:
  `SyntaxText.CharAt` says exactly when, and `SyntaxText.InsideACharacter` that
  every character of more than one byte has such offsets.
- Deserialising accepts streams that spell no tree. `Streams.PanicsIffNotOneTree`
  says which ones, and `Streams.FlagsMatchNodesIffBalanced` when the data still
  lands on its own nodes; `Serde.UnbalancedIsAccepted` is one where it does not.

## Model

| member | source | states |
|---|---|---|
| Interning.KeyRoundTrip | cstree/src/interning.rs:147-159 | the key conversions are inverse, and only `u32::MAX` has no key |
| Interning.InternIsInverse | cstree/src/interning/default_interner.rs:83-97 | keys and values stay mutually inverse, the key returned resolves to the bytes given, no earlier key ever changes its meaning, and interning fails exactly on new bytes when the key space is used up or the bytes are invalid |
| Interning.TokenInterner.TryGetOrInternBytes | cstree/src/interning/default_interner.rs:83-97 | the method's result and new state are the specification's, and the inverse is kept |
| Interning.TokenInterner.TryResolve | cstree/src/interning/default_interner.rs:51-54 | resolving is the lookup that `InternIsInverse` speaks of |
| Green.Summarise | cstree/src/green/node.rs:39-71 | the loop over the children computes their wrapped length sum and the hash of their ordered list |
| Green.NewGreenNode | cstree/src/green/node.rs:39-71 | a new node has the head of its own ordered children |
| Green.HeadLengthIsLeafTotal | cstree/src/green/node.rs:75-104 | whatever the hash, the head's length is the total length of the leaves below, modulo 2^32 |
| Green.SmallTreesAreExact | cstree/src/green/node.rs:75-104 | in a tree of less than 2^32 bytes no length anywhere has wrapped |
| BuilderSpec.AddTokenKeepsValid | cstree/src/green/builder.rs:433-487 | pushing a token keeps every invariant of builder, cache and interner |
| BuilderSpec.CacheNodeKeepsHeads | cstree/src/green/builder.rs:202-257 | collision or not, a node from the cache has the requested head, and satisfies the head invariant all the way down |
| BuilderSpec.FinishNodeKeepsValid | cstree/src/green/builder.rs:498-503 | finishing panics exactly when nothing is open, never drains out of bounds, and keeps every invariant |
| BuilderSpec.CheckpointsKeepValid | cstree/src/green/builder.rs:577-672 | any checkpoint that passes the asserts, stale or not, keeps the open nodes sorted and in bounds |
| Builder.NodeCache.Node | cstree/src/green/builder.rs:202-226 | the node and the cache afterwards are the specification's; exactly the drained children leave the list |
| Builder.NodeCache.GetCachedNode | cstree/src/green/builder.rs:241-257 | the first node with a head is the one returned from then on |
| Builder.NodeCache.Token | cstree/src/green/builder.rs:259-267 | tokens are shared by kind, key and length |
| Builder.GreenNodeBuilder.WithCache | cstree/src/green/builder.rs:340-346 | a builder on a used cache starts with nothing open and nothing pushed |
| Builder.GreenNodeBuilder.Token | cstree/src/green/builder.rs:433-471 | new state or panic as specified; a panic changes nothing |
| Builder.GreenNodeBuilder.StaticToken | cstree/src/green/builder.rs:483-487 | panics exactly for kinds without fixed text |
| Builder.GreenNodeBuilder.StartNode | cstree/src/green/builder.rs:491-494 | opens a node at the current child count, and changes nothing else |
| Builder.GreenNodeBuilder.FinishNode | cstree/src/green/builder.rs:498-503 | new state or panic as specified |
| Builder.GreenNodeBuilder.TakeCheckpoint | cstree/src/green/builder.rs:533-538 | a checkpoint records both stack heights |
| Builder.GreenNodeBuilder.RevertTo | cstree/src/green/builder.rs:577-603 | new state or failed assert as specified |
| Builder.GreenNodeBuilder.StartNodeAt | cstree/src/green/builder.rs:623-672 | new state or failed assert as specified |
| Builder.GreenNodeBuilder.Finish | cstree/src/green/builder.rs:686-693 | succeeds exactly on one child that is a node, whatever is still open |
| Programs.RunKeepsValid | cstree/src/green/builder.rs:433-693 | over whole runs with arbitrary checkpoints: open nodes sorted and in bounds, cache consistent, every head its own children's |
| Checkpoints.WrapSucceedsIffBalanced | cstree/src/green/builder.rs:623-672 | on a live checkpoint `start_node_at` panics exactly when nodes started since are still open |
| Checkpoints.WrapLateIsStartEarly | cstree/src/green/builder.rs:491-672 | checkpoint, any balanced work above it, then wrapping: same parents, children, cache and interner as starting the node first and doing the same work; nested checkpoints, reverts and reuse included |
| Checkpoints.RevertRestores | cstree/src/green/builder.rs:577-603 | on a live checkpoint reverting succeeds exactly when the innermost node opened since begins at the checkpoint, and then parents and children are as when it was taken |
| Checkpoints.RevertRejectsALateStart | cstree/src/green/builder.rs:594-599 | after any live run that has pushed something, starting one more node makes reverting panic, though the documentation lets it delete that node |
| Checkpoints.TokenThenStartBlocksRevert | cstree/src/green/builder.rs:594-599 | any one token call that goes through, in any language and at any point, is enough for that |
| Survival.RefRunYieldsSurvivors | cstree/src/green/builder.rs:433-693 | over whole runs that revert to live checkpoints, the leaves in the plain builder are the tokens that the calls alone say were pushed and not reverted, in order |
| Survival.LiveRunIsLive | cstree/src/green/builder.rs:577-603 | a run that goes on above a checkpoint leaves it live |
| Survival.AnyRevertCutsLeaves | cstree/src/green/builder.rs:577-603 | reverting to any checkpoint that passes the asserts, stale ones included, keeps a prefix of the leaves: those of the children there are now, up to the recorded child count |
| Survival.StaleRevertKeepsTheNewToken | cstree/src/green/builder.rs:577-603 | a run of six calls, for any two tokens, that the asserts do not catch, as the comment there admits: a stale checkpoint passes them and keeps a token pushed after it was taken |
| Reference.CallsBuildTheTree | cstree/src/green/builder.rs:433-503 | making the calls of a tree pushes exactly that tree, up to fixed texts, and leaves everything else alone |
| Refinement.AbsInjective | cstree/src/green/builder.rs:202-267 | hash-consing is canonical: elements that stand for the same plain tree are the same element, keys, lengths and hashes included |
| Refinement.RunMatchesLengths | cstree/src/green/builder.rs:202-503 | with no hypothesis on the hash, every child in every run has the length of the plain builder's child, modulo 2^32 |
| Refinement.FinishedLengthIsReferenceLength | cstree/src/green/builder.rs:686-693 | for all runs, stale checkpoints included, and with no hypothesis on the hash, a finished root has the length of the plain builder's tree, modulo 2^32 |
| Refinement.FinishedLengthIsSurvivingBytes | cstree/src/green/builder.rs:686-693 | with no hypothesis on the hash, a finished root's length is the number of bytes pushed and not reverted, as the calls tell it, modulo 2^32, in runs that revert to live checkpoints |
| Refinement.CloseFaithfulIffNoCollision | cstree/src/green/builder.rs:241-257 | finishing a node stays in step with the cacheless builder if and only if the cache has no other node under that head |
| Sharing.RunInStepIffNoCollisions | cstree/src/green/builder.rs:241-257 | a run is in step with the cacheless builder after every call if and only if no `finish_node` along it meets a collision |
| Sharing.RunMatchesTrees | cstree/src/green/builder.rs:202-257 | without two small nodes under one head, every run holds the cacheless builder's trees |
| Sharing.SharedCacheIsInvisible | cstree/src/green/builder.rs:340-346 | however many builders share one cache, each finishes with the cacheless builder's tree, and all still resolve to it at the end |
| Sharing.BuilderIsLossless | cstree/src/green/builder.rs:433-503 | without a head collision, and reverting to live checkpoints only, the finished tree's leaves, resolved through the interner, are the tokens that the calls alone say were pushed and not reverted, in order |
| Sharing.TextKeptIffNotOverridden | cstree/src/green/builder.rs:433-471 | a token keeps the bytes pushed exactly when its kind has no fixed text or they are that text |
| Sharing.RunSucceeds | cstree/src/green/builder.rs:433-503 | a run of valid payloads, within the key space, that the plain builder completes does not panic |
| Sharing.CallsFinishTheTree | cstree/src/green/builder.rs:686-693 | making a tree's calls finishes with that tree and no open node |
| Sharing.CollisionLosesText | cstree/src/green/builder.rs:248-256 | for any language and hasher under which two one-token nodes share a head: the second comes back with the first one's text |
| Sharing.ConstantHasherCollides | cstree/src/green/builder.rs:248-256 | there are such hashers: a constant one makes any two such nodes of equal length collide |
| Hashing.AlikeHashAlike | cstree/src/green/node.rs:145-150 | whatever the hasher, the hash of a list depends only on its tokens' kinds, keys and lengths and its nodes' heads |
| Hashing.HashSeesTheChildren | cstree/src/green/token.rs:11-16 | a hasher that merges no streams of writes sees all of that: equal states mean equal length and, position by position, equal kinds, text keys, lengths and heads |
| Hashing.WriteAllSeparates | cstree/src/green/builder.rs:205-211 | there are such hashers |
| Hashing.HeadsDistinctIffFinishSeparates | cstree/src/green/builder.rs:205-226 | under such a hasher the heads of nodes are distinct if and only if cutting the hash to 32 bits separates their lists of children |
| Hashing.RunFaithfulIfFinishSeparates | cstree/src/green/builder.rs:202-257 | then every run holds the cacheless builder's trees |
| Hashing.BothKeptIffHeadsDiffer | cstree/src/green/builder.rs:248-256 | whatever the hasher, two nodes around different texts both keep their text if and only if their heads differ |
| Hashing.BothTextsKept | cstree/src/green/builder.rs:205-226 | under a hasher that merges no streams and whose 32 bits tell those two lists apart, they do, because the text keys differ |
| Hashing.OnlySmallNodesCollide | cstree/src/green/builder.rs:221-225 | finishing a node of four or more children always stays in step; finishing one of up to three does unless its head is cached with other children |
| Hashing.CacheStopsAfterThree | cstree/src/green/builder.rs:221-257 | up to three children the cached node comes back or the new one is stored; from four on the cache is neither asked nor changed |
| Red.ChildrenTile | cstree/src/syntax/iter.rs:159-164 | siblings tile their parent's range |
| Red.ChildRoutes | cstree/src/syntax/node.rs:631-658 | first and last child get the one offset their index has, computed forward and backward |
| Red.NodeChildRoutes | cstree/src/syntax/node.rs:624-648 | the first and last child node are found past the tokens, at the one offset they can have |
| Red.SiblingRoutes | cstree/src/syntax/node.rs:716-748 | from either neighbour a sibling gets the same parent, index and offset |
| Red.NodeFromIsCanonical | cstree/src/syntax/node.rs:951-964 | running forward finds the next child node, skips only tokens, and arrives at its one offset |
| Red.NodeBeforeIsCanonical | cstree/src/syntax/node.rs:967-980 | running backward likewise |
| Red.RunsAreCanonical | cstree/src/syntax/node.rs:951-980 | running over the children adds or subtracts their lengths one at a time, and from either end or from a sibling arrives at the one offset a child can have |
| Red.NodeSiblingRoutes | cstree/src/syntax/node.rs:702-737 | the next and previous sibling node are the nearest child node after and before, at its one offset, and nothing exactly when there are only tokens on that side |
| Red.SiblingStepsAreInverse | cstree/src/syntax/node.rs:702-748 | next and previous sibling are mutually inverse, over elements and over nodes |
| Red.ChildIter.NextElement | cstree/src/syntax/iter.rs:159-164 | running offset and index stay aligned; the child at the index is yielded |
| Red.ChildIter.NextNode | cstree/src/syntax/iter.rs:98-105 | the loop skips exactly the tokens before the next node |
| Preorder.WalkIsTheWord | cstree/src/syntax/node.rs:834-857 | the stackless walk from any element is its recursive Enter/Leave word, and ends there |
| Preorder.NeverStuckInside | cstree/src/syntax/node.rs:834-857 | the `unwrap` of a missing parent fails exactly on leaving a root at which the walk did not start, so never inside it |
| Preorder.NodeWordIsRestriction | cstree/src/syntax/node.rs:810-829 | `preorder` is `preorder_with_tokens` restricted to nodes |
| Preorder.WriteDebug | cstree/src/syntax/node.rs:43-67 | the indentation counter is the element's depth, is never negative and ends at 0 |
| TokenWalk.FirstTokenOpens | cstree/src/syntax/node.rs:752-754 | `first_token` finds the first token exactly if the leftmost path ends in one |
| TokenWalk.LastTokenLeaves | cstree/src/syntax/token.rs:406-415 | from an element's last token the walk goes on exactly if the rightmost path ends in it |
| TokenWalk.WalkCoversIffHollowOnlyAtEnd | cstree/src/syntax/token.rs:406-415 | `next_token` from `first_token` visits every token once, left to right, and stops, if and only if no childless node precedes the last token |
| TokenWalk.NextTokenExactly | cstree/src/syntax/token.rs:406-415 | in any tree, `next_token` goes to the right neighbour of the nearest ancestor-or-self that has one, and finds the first token there if its leftmost path ends in one and nothing otherwise |
| TokenWalk.FirstTokenMissesAToken | cstree/src/syntax/node.rs:752-754 | a tree whose first child is empty and whose second is a token: `first_token` finds nothing |
| TokenWalk.NextTokenStopsAtAnEmptyNode | cstree/src/syntax/token.rs:406-415 | two tokens with an empty node between them: `next_token` of the first finds nothing |
| TokenWalkBack.LastTokenCloses | cstree/src/syntax/node.rs:758-760 | `last_token` finds the last token exactly if the rightmost path ends in one |
| TokenWalkBack.FirstTokenLeaves | cstree/src/syntax/token.rs:420-429 | from an element's first token the walk back goes on exactly if the leftmost path ends in it |
| TokenWalkBack.WalkBackCoversIffHollowOnlyAtStart | cstree/src/syntax/token.rs:420-429 | `prev_token` from `last_token` visits every token once, right to left, and stops, if and only if no childless node follows the first token |
| TokenWalkBack.PrevTokenExactly | cstree/src/syntax/token.rs:420-429 | in any tree, `prev_token` likewise to the left |
| TokenWalkBack.PrevTokenRetraces | cstree/src/syntax/token.rs:420-429 | without childless nodes `prev_token` takes every token to the one before |
| TokenWalkBack.TokenStepsAreInverse | cstree/src/syntax/token.rs:406-429 | without childless nodes the two steps are inverse |
| OffsetSearch.TokenAtOffsetIsExact | cstree/src/syntax/node.rs:861-891 | none of the asserts, the `unwrap` and the unreachable arm is hit, and the result is, in order, the non-empty tokens whose closed range contains the offset |
| OffsetSearch.TokenAtOffsetFailsOutside | cstree/src/syntax/node.rs:866-869 | the assert on the offset fails exactly outside the closed range, and nothing else ever does |
| OffsetSearch.SearchAgreesWithTokens | cstree/src/syntax/element.rs:342-348 | for a non-empty element that is one or two tokens, one at either end |
| OffsetSearch.CoveringElement | cstree/src/syntax/node.rs:897-919 | terminates; its assert fails exactly on a range outside the start element; every step down takes the first child that contains the range, empty ranges included, and no child of the result does; for a non-empty range every element that contains it is the result or an ancestor of it |
| Replace.ReplacesInPlace | cstree/src/syntax/node.rs:507-524 | the assert on kinds fails only at the element itself, and the substitute ends up at its place |
| Replace.ReplacingByItself | cstree/src/syntax/node.rs:507-524 | replacing by an equal element gives an equal tree |
| Replace.LaterReplacementWins | cstree/src/syntax/node.rs:507-524 | a later replacement at the same place overrides an earlier one |
| Replace.ReplacingKeepsHeads | cstree/src/syntax/node.rs:507-524 | every node on the rebuilt path has the head of its own children |
| Replace.ReplacedLeaves | cstree/src/syntax/token.rs:136-151 | the tokens are the old ones before, the substitute's, the old ones after |
| Replace.OthersStayOrShift | cstree/src/syntax/node.rs:507-524 | everything off the path is the same element, in place to the left and shifted by the difference in length to the right |
| Replace.SpineRebuilt | cstree/src/syntax/token.rs:136-151 | every ancestor keeps its place, and only its child towards the element changes |
| SyntaxText.WalkEntersTokens | cstree/src/syntax/text.rs:317-322 | the tokens a walk over the descendants enters are the tokens of the flat list |
| SyntaxText.Intersect | cstree/src/syntax/text.rs:323-326 | a range meets a token's range unless one ends before the other starts, and then its part lies inside the token |
| SyntaxText.ChunksDenote | cstree/src/syntax/text.rs:270-276 | the chunks of a text, empty ones included, spell its range of the joined token texts |
| SyntaxText.RootTextIsText | cstree/src/syntax/text.rs:177-180 | the text of a built root is the text of the plain tree it stands for |
| SyntaxText.SliceDenotes | cstree/src/syntax/text.rs:235-260 | slicing is accepted exactly inside the text, wrap-around notwithstanding, and denotes that part |
| SyntaxText.SlicesCompose | cstree/src/syntax/text.rs:52-66 | a slice of a slice is a slice |
| SyntaxText.ZipTexts | cstree/src/syntax/text.rs:404-438 | terminates; reports a difference exactly when neither text is a prefix of the other; otherwise one of the iterators has run out |
| SyntaxText.TextsEqual | cstree/src/syntax/text.rs:385-402 | equality of two texts is equality of their bytes, however each is split |
| SyntaxText.TextEqualsStr | cstree/src/syntax/text.rs:353-365 | equality with a string is equality of bytes |
| SyntaxText.FoldsIffOnCharacters | cstree/src/syntax/text.rs:270-276 | a text can be folded over without a panic exactly when neither of its ends is inside a character of its node's text, however the tokens split it |
| SyntaxText.FindChar | cstree/src/syntax/text.rs:200-210 | the position found is that of the character's first occurrence in the whole text, and none is found exactly when there is none |
| SyntaxText.CharAt | cstree/src/syntax/text.rs:215-226 | the whole character that begins at an offset of the whole text, nothing past its end, and a panic exactly inside a character |
| SyntaxText.InsideACharacter | cstree/src/syntax/text.rs:213-226 | every character of more than one byte has offsets at which that is so |
| RefCount.ParentStepsTakeRoutes | cstree/src/syntax/node.rs:624-658 | the first and last child steps, over elements and over nodes, ask for the offset of the routes from either end |
| RefCount.SiblingStepsTakeRoutes | cstree/src/syntax/node.rs:702-748 | the sibling steps ask for the offset of the routes from that sibling |
| RefCount.RouteIsCanonical | cstree/src/syntax/node.rs:624-748 | whichever way a caller runs, from either end or from any sibling it holds, adding or subtracting one length at a time, it arrives at the one offset of the slot |
| RefCount.NewTreeInv | cstree/src/syntax/node.rs:307-327 | a new tree over any green node satisfies the invariant, with count 1 for its one handle |
| RefCount.ApplyKeepsCount | cstree/src/syntax/node.rs:137-170 | through every step the count is handles plus outstanding compensation, modulo 2^32: 2 for a losing node, 1 for a losing token |
| RefCount.ApplyKeepsInv | cstree/src/syntax/node.rs:418-502 | every step of every thread keeps every pointer, slot, owner and stored offset in order |
| RefCount.RunKeepsInv | cstree/src/syntax/node.rs:418-502 | so does every interleaving of any number of threads |
| RefCount.ThreadsNeverStick | cstree/src/syntax/node.rs:487-502 | no thread follows a dangling pointer, and the final `unwrap` finds an element |
| RefCount.CallsReturn | cstree/src/syntax/node.rs:487-502 | a call takes at most six steps of its own thread |
| RefCount.TeardownStartsExactly | cstree/src/syntax/node.rs:148-156 | one is owed exactly at the drop of the last handle, and a `fetch_sub` observes 1 exactly when one is owed modulo 2^32 |
| RefCount.OnlyTheLastDropTearsDown | cstree/src/syntax/node.rs:148-156 | below 2^32 handles and debts no `fetch_sub` but the last drop's observes 1, the losers' included |
| RefCount.LastHandleIsQuiet | cstree/src/syntax/node.rs:148-156 | while the last handle is dropped nobody is inside a call |
| RefCount.TearsDownOnce | cstree/src/syntax/node.rs:137-170 | in every bounded interleaving the teardown starts when the last handle is gone, once, and no step follows it |
| RefCount.SlotsAreWriteOnce | cstree/src/syntax/node.rs:427-466 | once filled, a slot keeps the same element through every interleaving |
| RefCount.ReadersAgree | cstree/src/syntax/node.rs:469-502 | the element in a slot is the one child there at its one offset, which is the offset any reader came with |
| Handles.ClonesExactly | cstree/src/syntax/node.rs:137-145 | a handle can be cloned onto any published node under an unused name, refers to that node, and every other handle is as before |
| Handles.DropsExactly | cstree/src/syntax/node.rs:148-170 | a handle can be dropped exactly when no thread inside a call borrows it, and exactly that handle is gone |
| Handles.VisitsExactly | cstree/src/syntax/node.rs:487-502 | an idle thread can ask any published node for any child, by any route whose sibling is there, comes with that child's one offset, and changes nothing else |
| Handles.CallStaysOnItsSlot | cstree/src/syntax/node.rs:487-502 | a call stays on its slot, touches no handle and no other thread, and returns when the slot holds the one child there |
| Handles.RunTellsHandles | cstree/src/syntax/node.rs:137-170 | over every interleaving the handle table is the one the clones and drops alone tell |
| Handles.HandleKeepsItsElement | cstree/src/syntax/node.rs:137-145 | until it is dropped a handle names the same element, whatever the threads do |
| Handles.RunStaysOnTree | cstree/src/syntax/node.rs:307-327 | in every interleaving on a new tree over a green node: the root record is the root of that node with a slot for each of its children, every record and so every handle is a node of it, the threads stay, and the first handle names the root until it is dropped |
| Handles.FinishCall | cstree/src/syntax/node.rs:487-502 | a thread left alone finishes its call, with its element in the slot |
| Handles.EveryNodeGetsAHandle | cstree/src/syntax/node.rs:307-502 | any node of the green tree is in reach: some run on a new tree ends with a handle that names it |
| Teardown.QuietHeapIsWhole | cstree/src/syntax/node.rs:148-156 | when the last handle is dropped every record is in its parent's slot and none is private |
| Teardown.ReentersIffTooMany | cstree/src/syntax/node.rs:153-168 | decrementing below zero observes 1 again exactly when there are 2^32 decrements or more |
| Teardown.Arena.FetchSub | cstree/src/syntax/node.rs:153-154 | one decrement, through data and counter that must still be there |
| Teardown.Arena.DropRef | cstree/src/syntax/node.rs:148-156 | dropping an internal reference does not observe 1 |
| Teardown.Arena.FreeData | cstree/src/syntax/node.rs:211-217 | freeing a node's data drops its parent pointer while the parent is still there |
| Teardown.Arena.DropSlot | cstree/src/syntax/node.rs:208-217 | a node in a slot costs two decrements |
| Teardown.Arena.DropRecursive | cstree/src/syntax/node.rs:194-221 | everything below the node is freed once and nothing else, its slots are empty, and the decrements are two per node and one per token |
| Teardown.Arena.FindRoot | cstree/src/syntax/node.rs:186-192 | following parents ends at the root |
| Teardown.Arena.DropLast | cstree/src/syntax/node.rs:148-169 | the whole teardown: all node data freed exactly once, the counter last, 2N + T + 1 decrements, never re-entered below 2^32 of them |
| Teardown.ObservingOneIsTheLastDrop | cstree/src/syntax/node.rs:148-156 | after any interleaving on a new tree, with fewer than 2^32 owed, a step that observes 1 is the drop of a handle into a whole heap whose count is 1 |
| Teardown.TearDownAfter | cstree/src/syntax/node.rs:148-169 | protocol and teardown together: the teardown run from the heap and count that such an interleaving left ends with everything freed, in 2N + T + 1 more decrements |
| Serde.Record | cstree/src/serde_impls.rs:50-68 | one walk event gives its stream event and pushes the node's data if there is some |
| Serde.Serialize | cstree/src/serde_impls.rs:47-78 | the two lists are the events of the preorder word and the data of its nodes, in order |
| Serde.EventsAreCalls | cstree/src/serde_impls.rs:50-68 | the stream spells the builder calls of the plain tree |
| Serde.StreamBuilds | cstree/src/serde_impls.rs:262-283 | a stream that spells a whole tree is built into that tree |
| Serde.SucceedsIffCountsAgree | cstree/src/serde_impls.rs:301-320 | on such a stream deserialising never panics and succeeds exactly when as many nodes are flagged as there are data |
| Serde.RoundTrip | cstree/src/serde_impls.rs:47-320 | out and back is the identity on structure, kinds, bytes and every node's data, from any node |
| Serde.RangesAreRebased | cstree/src/serde_impls.rs:279-281 | all ranges in the restored tree are the old ones less the start of the node serialised |
| Serde.UnbalancedIsAccepted | cstree/src/serde_impls.rs:262-283 | a concrete stream that never leaves its first node is accepted, and that node's data lands on another one |
| Streams.CompletedStreamSpells | cstree/src/serde_impls.rs:262-283 | every stream the builder completes without a collision spells one tree, up to nodes entered around it and never left, and is built into that tree |
| Streams.NodesAndOpenNodes | cstree/src/serde_impls.rs:262-283 | on all of them every EnterNode event is a node of the tree or still open, and there are as many nodes as LeaveNode events |
| Streams.FlagsMatchNodesIffBalanced | cstree/src/serde_impls.rs:262-312 | flags and nodes match one to one if and only if no node is left open, if and only if there are as many LeaveNode as EnterNode events, if and only if the stream is the calls of a tree |
| Streams.PanicsIffNotOneTree | cstree/src/serde_impls.rs:262-283 | of streams with valid payloads and no collision, deserialising panics on exactly those that do not spell one tree, up to nodes never left |
| Streams.SucceedsExactly | cstree/src/serde_impls.rs:301-320 | on every stream that does not panic, success is equality of the data count with the true flags among the first n, n being the number of LeaveNode events; the i-th node then has data exactly if the i-th flag says so, and the data handed out are all the data, in order |
| Streams.OwnFlagsAreShifted | cstree/src/serde_impls.rs:304-312 | the flags of the tree's own nodes come after those of the nodes entered before it and never left, so that much shifted are the flags the nodes are given |
| Serde.Reattach | cstree/src/serde_impls.rs:304-312 | the zip over the tree's nodes pops one datum per true flag, or reports that they ran out |
| Serde.VisitSeq | cstree/src/serde_impls.rs:262-283 | the event loop ends in the tree and flags of the specification, or in the builder's panic |
| Serde.Deserialize | cstree/src/serde_impls.rs:243-322 | the method's outcome is the specification's |
| SExpr.Parser.constructor | cstree/examples/s_expressions.rs:180-185 | a parser starts with a fresh builder, all tokens and no errors |
| SExpr.Parser.Bump | cstree/examples/s_expressions.rs:163-166 | never pops an empty deque, and pushes that token |
| SExpr.Parser.SkipWs | cstree/examples/s_expressions.rs:173-177 | eats exactly the whitespace in front, as leaves of the open node |
| SExpr.Parser.Sexp | cstree/examples/s_expressions.rs:140-160 | eats whole items, leaves the builder's open nodes alone, closes nothing it did not open, and reports one missing parenthesis for each list the end of the input cuts off; otherwise stops at a closing parenthesis or at the end |
| SExpr.Parser.List | cstree/examples/s_expressions.rs:118-138 | eats one list, closed by its own parenthesis or cut off by the end of the input |
| SExpr.Parser.Parse | cstree/examples/s_expressions.rs:86-116 | total on the five lexical kinds: all tokens eaten, one root of well-formed items whose leaves are the tokens in order, nothing left open; the parentheses a depth scan leaves unmatched are exactly the ones in error nodes and those of lists cut off by the end, and there is exactly one error for each |
| SExprUnique.OneTreePerTokens | cstree/examples/s_expressions.rs:86-160 | two forests of the form that `Parse` promises with the same leaves are equal: the tree returned is the only one of that form over its tokens |
| SExpr.ParsedTreeIsLossless | cstree/examples/s_expressions.rs:105-115 | without a head collision the tree returned is the one built, and its leaves are the input |

## Left out

- Pointer tagging, packed elements and the layout of `ThinArc` and `Arc`: nodes and tokens are a datatype.
- Memory orderings and the lock implementation: sequential consistency and correct read/write locks.
- FxHash, and hashing and equality of red handles.
- `resolved.rs`, the lasso and salsa interners, the derive macro, benches: forwarding, foreign code or generated code.
- The serde wire format and the str-or-bytes encoding of payloads: the model starts and ends at the lists of events and data.
- Formatting: only the indentation counter of the recursive debug printer is modelled.
- `set_data`, `try_set_data`, `get_data` and `clear_data` under their lock: one-line accesses; custom data appears where it is serialised and re-attached.
- `next_child_after` and `prev_child_before` with an index or offset of the caller's own making: only the internal, consistent calls.
- `data_eq`, `text_eq` and the static and dynamic data accessors of tokens: comparisons of keys or kinds.
- `count`, `len` and `size_hint` of the child iterators.
- Which byte strings are UTF-8: a character is a leading byte and its continuation bytes, which every valid encoding is; a search that stops before it reaches a token cut inside a character is not told apart from one that does.
- The lexer and the evaluator of the S-expression example, and the wording of its error messages.
- Cache and interner contents after `revert_to`: the code keeps what was added, and so does the model.
- Red.Handle: a value; that one place has one record, whatever thread made it, is proved in `RefCount.dfy` instead.
- RefCount.Clone: taken as one step, since the handle that is cloned outlives it.
- Serde.Outcome: the data of the restored nodes is a list in preorder rather than cells inside the nodes.
