# Verification of the HybridAI inference core

A Dafny model of the parts of the runtime whose correctness is not visible in any one function, with proofs.

* **Speculative decoding** (`CausalStack`, `Greedy`, `Drafting`, `Caches`, `CacheStack`, `Forwards`, `Proposals`,
  `Rounds`, `Generator`, `Recomputation`). The target is a stack of causal layers over abstract row functions; the
  draft is arbitrary. Caches are heap objects over arrays; cloning reuses buffers and swapping exchanges them. The
  main theorem: whatever the draft proposes, the speculative loop returns exactly what the plain greedy loop returns,
  in rounds that propose as much as the width and the budget allow. It rests on three results: a chunk pushed layer
  by layer equals its rows pushed one at a time; verification and proposals never write a committed cache; and at
  every loop head the committed caches hold exactly the committed text. `Recomputation` says what the caches are
  for: every forward gives the rows computed from the whole text without a cache.
* **Tokenizer** (`Utf8`, `Regex`, `PreTokenizer`, `CaseFolding`, `Bpe`, `ByteLevel`, `SpecialTokens`,
  `TokenizerTables`, `Tokenization`, `Meaning`, `Tokenizer`, `RoundTrip`). The hand-written scanner is the published
  regular expression with ASCII case folding, and with Unicode case folding exactly if no apostrophe, U+017F and
  letter or mark stand in a row at the start of the text or behind neither a space nor a character of no category
  (`CaseFolding`); the one-pair merge loop agrees with the reference script under the rank order that byte-pair
  training yields; `Meaning` describes the ids of a text and the text of a list of ids by relations that determine
  them; and encoding followed by decoding is the identity on a text if and only if the text is canonical UTF-8
  without NUL.
* **Memory pool** (`MemoryPool`), **strided copy** (`StridedCopy`), **layer partition** (`LayerPartition`) and the
  **CPU attention loop over the reals** (`CausalAttention`, `AttentionFormula`). `Basics` holds what several modules
  share.

`dafny verify dfyconfig.toml` checks the whole project.

Where the repository's comments and its code disagree, the model follows the code:

* The comment at `src/generator.cc:670-672` intends equal positions for draft and target. The draft cache falls
  one row behind per round; `Generation.SpeculativeSession.AtLoopHead` states the exact lag. The output does not
  depend on it.
* `benchmark/README.md` describes a target-only fallback after a mismatch; the code recovers the draft cache from a
  prefix checkpoint (`src/generator.cc:973-1003`), and so does the model.
* The guard against a standstill in the bucket table (`src/memory/memory_pool.cc:23-26`) never fires for a positive
  size and does not help a zero minimum: `MemoryPools.GrowsIffPositive`.
* The fallback at `src/tokenizer/qwen_tokenizer.cc:381-383` is unreachable: a text without code points returns
  earlier, and every other text yields a piece.

## Model

| member | source | states |
|---|---|---|
| Generation.GenerateSpeculative | src/generator.cc:545-1032 | for every target, every draft whatever it proposes, every prompt, budget, stop set and width from 1 to 16, the tokens returned are exactly the greedy output; they are those of the rounds and at most one more; every round proposes as many candidates as the width and the budget left allow, or fewer that end with a stop token; the reported counters are the sums over the rounds, and the widest proposal is the smaller of the width and the budget less one; an invalid argument exactly when the budget is not positive or prompt and budget exceed the context, and a backend error exactly for an acceptable prompt without tokens |
| Generation.GeneratePlain | src/generator.cc:1119-1270 | the plain loop, with its caches used directly or through a clone that is swapped in, returns the same greedy output, and refuses the same requests; so both loops return the same |
| Greedy.GreedyTailIsUnique | src/generator.cc:1119-1270 | the greedy output is the one token list that follows the model, holds no stop token before its end, and ends only at the budget or on a stop token |
| Generation.SpeculativeSession.Run | src/generator.cc:720-1028 | the loop ends, with the text complete: the greedy output, at the budget or at the first stop token inclusive, from rounds that each propose as many tokens as width and budget allow or stop at a stop token |
| Generation.SpeculativeSession.AtLoopHead | src/generator.cc:720-732 | at every loop head the target caches hold exactly the state after all of `generated`, the pending token is the target's choice for that history, and every draft cache is shorter than the target caches by the number of completed rounds |
| Generation.SpeculativeSession.RunRound | src/generator.cc:734-1028 | a round on intact, pairwise disjoint storage keeps it so, appends at least two tokens, and re-establishes the loop head or completes the text |
| Generation.SpeculativeSession.Speculate | src/generator.cc:736-916 | proposing and verifying leave both committed cache sets, their storage and their contents unchanged, whatever the draft proposes |
| Generation.SpeculativeSession.CommitAccepted | src/generator.cc:918-930 | after full acceptance the committed caches hold the verified snapshot and the scratch, by exchanging buffers |
| Generation.SpeculativeSession.CommitCorrection | src/generator.cc:935-972 | after a mismatch the committed target caches advance from the old history by exactly the accepted prefix and the correction; no rejected candidate reaches them; the replay also yields the row before the correction |
| Generation.SpeculativeSession.AppendCorrected | src/generator.cc:955-970 | the budget test before the correction is always true: the correction is always appended |
| Generation.SpeculativeSession.Recover | src/generator.cc:973-1008 | the draft caches become the checkpoint of the accepted prefix extended by the correction |
| Generation.SpeculativeSession.FinishAccepted | src/generator.cc:918-934 | a fully accepted round keeps the draft's own rows and re-establishes the loop head or completes the text |
| Generation.SpeculativeSession.FinishCorrected | src/generator.cc:935-1020 | a corrected round re-establishes the loop head or completes the text; unless it ends the text, the draft has been fed the accepted inputs and the correction with the target's row for the text before it |
| Generation.SpeculativeSession.CorrectText | src/generator.cc:935-972 | text, target caches, trace, counters and the two rows the next steps use after a correction |
| Generation.SpeculativeSession.AppendLone | src/generator.cc:722-728 | a pending stop token or the last place in the budget is filled without a round, and the text is complete |
| Generation.SpeculativeSession.Append | src/generator.cc:636-642 | tokens are appended in order |
| Generation.SpeculativeSession.constructor | src/generator.cc:648-718 | after the prefill the target caches hold the prompt, the draft caches one input per prompt token with the target's row for it, and committed caches, scratch and snapshot share no storage |
| Generation.PrefillTarget | src/generator.cc:648-660 | the prompt forward fills the target caches its rows are those of the prompt's prefixes, and the last one picks the first token |
| Generation.PrefillDraft | src/generator.cc:673-699 | the draft is run over the prompt rows in caches of its own that are then swapped in |
| Generation.PlainStep | src/generator.cc:1120-1208 | one plain step moves the caches from a history to the longer one and picks the next token, through a scratch clone or not |
| Rounds.RoundAdvances | src/generator.cc:720-1028 | a round of any outcome moves text, draft tokens and counters to the next loop head or completes the greedy output |
| Rounds.AcceptedOutcome | src/generator.cc:918-934 | the accepted case of the above |
| Rounds.CorrectedOutcome | src/generator.cc:935-972 | the corrected case of the above |
| Rounds.CountedBalances | src/generator.cc:733-962 | proposed = accepted + rejected, appended = accepted + rounds + corrections, draft clones = 2 * rounds + proposed survive every round |
| Rounds.TallyGrows | src/generator.cc:733-962 | the counters stay the sums over the rounds, and every round stays one with as many candidates as the width and the budget allow, or fewer that end with a stop token |
| Rounds.LoneTokenCompletes | src/generator.cc:722-728 | the token appended without a round completes the greedy output |
| Rounds.BetweenRoundsFacts | src/generator.cc:720-732 | the draft lags by one row per round and there is budget for one more token at every loop head |
| Rounds.CompleteIsAccounted | src/generator.cc:1030-1077 | the counters reported with a finished request account for its tokens up to one lone last token; every round produced at least two tokens, every correction but one that ends the text was followed by a recovery, the replayed tokens are the corrections, the pending tokens before them and at most the accepted ones, and the widest proposal is the smaller of width and budget less one |
| Drafting.DraftLag | src/generator.cc:763-845 | the draft cache omits exactly one committed token per round, and a round commits at least two tokens |
| Drafting.RunLengths | src/ops/attention.cc:560-586 | every layer's cache grows by exactly the number of rows fed |
| Drafting.AfterLengths | src/generator.cc:481-482 | after a history every target cache has the history's length |
| Drafting.DraftLengths | src/generator.cc:670-699 | after its inputs every draft cache has their number of rows |
| Drafting.DraftAfterExtends | src/generator.cc:763-795 | draft inputs fed in two calls leave the caches of one call |
| Proposals.Propose | src/generator.cc:738-849 | the proposal ends after `count` candidates or with a stop token, and only then; each candidate and the input after it are what the draft computes from the inputs before, starting from the pending token and the target's row; the scratch holds the draft state after the inputs used; checkpoint k holds the state after the first k of them; no two checkpoints share storage, and nothing else that existed before is written |
| Proposals.ProposeOne | src/generator.cc:763-843 | one draft row goes into the scratch, the candidate is what the draft proposes from it, and a checkpoint is taken |
| Proposals.Checkpoint | src/generator.cc:745-757 | a checkpoint is a copy in fresh storage |
| Proposals.Verify | src/generator.cc:853-916 | one forward on a snapshot shows how far the candidates agree: the agreeing block is what the target would decode by itself, and the prediction after it is the target's next token; the committed caches are not written |
| Proposals.CountAccepted | src/generator.cc:911-916 | counts the candidates before the first disagreement |
| Proposals.RecoverDraft | src/generator.cc:973-1008 | a checkpoint exists for every accepted prefix, so the missing-checkpoint error cannot occur; the draft goes on from it |
| Proposals.Replay | src/generator.cc:940-954 | the replay forwards exactly the accepted prefix and the correction, and yields the next token and the two last hidden rows |
| Greedy.VerifiedRound | src/generator.cc:853-916 | for any candidates, the verification rows decide the longest prefix the target itself would produce and the token after it |
| Greedy.RoundFollows | src/generator.cc:909-916 | the pending token, the agreeing candidates and the correction all follow the target |
| Greedy.GreedyBlock | src/generator.cc:918-962 | a block that follows the target, fits the budget and stops only at its end is a start of the greedy output |
| Greedy.DecodedExtends | src/generator.cc:918-962 | committing such a block keeps the text a start of the greedy output or completes it |
| Greedy.ForwardPredicts | src/generator.cc:909-911 | row i of a forward over a continuation predicts the token after the history and the first i + 1 tokens of it |
| Greedy.TargetForwardIsFeed | src/generator.cc:550-634 | a multi-token forward has the rows and caches of token-by-token decoding |
| Greedy.FeedSplits | src/generator.cc:871-877 | feeding a token list in two calls is feeding it in one |
| Recomputation.NextWithoutCaches | src/generator.cc:550-634 | the token after a history is the argmax of the head on the final norm of the last row that the layers make of the embedded history without any cache |
| Recomputation.StackWithoutCaches | src/generator.cc:553-612 | row after row through the stack with caches gives the rows that the layers give without them |
| Recomputation.CachesRemember | src/generator.cc:553-612 | each cache holds exactly what the rows that enter its layer leave |
| Recomputation.OneAttentionLayer | src/ops/attention.cc:547-586 | for a single attention layer, with input norm, positions, visible keys and values, residual, final norm and head written out |
| Recomputation.OneDeltaNetLayer | src/ops/delta_net.cc:392-519 | for a single DeltaNet layer and two tokens, with window and state written out |
| Recomputation.FollowingWithoutCaches | src/generator.cc:763-795 | the draft proposes from the norm of the last row that its layers make of all fused inputs without any cache |
| Greedy.ArgmaxIsFirstMaximum | src/generator.cc:268-293 | the argmax is the first index that no entry exceeds |
| Greedy.ArgmaxRow | src/generator.cc:268-293 | the host loop returns the first maximum of the row |
| Greedy.ArgmaxRows | src/generator.cc:327-347 | one first maximum per row |
| CausalStack.ChunkIsSequential | src/generator.cc:550-634 | for any stack of causal layers, pushing rows through layer by layer gives the rows and final states of pushing them one row at a time through all layers |
| CausalStack.PeelLayer | src/generator.cc:563-594 | running all rows through the first layer before the others changes nothing |
| CausalStack.RunSplits | src/generator.cc:871-877 | any split of the rows over two calls gives the rows and states of one call |
| CausalStack.BulkAttentionIsRun | src/ops/attention.cc:573-584 | appending all rows before any query is attended is the row-by-row run, because a query sees only rows up to its own |
| CausalStack.TwoPassDeltaNetIsRun | src/ops/delta_net.cc:392-519 | convolving the whole chunk before the recurrence is the row-by-row run |
| Forwards.LookupEmbedding | src/backends/hip/hip_backend.cc:814-822 | the embedding lookup fails exactly on no tokens, because its zero-byte buffer has no storage (`src/memory/memory_pool.cc:42-45`) |
| Forwards.RunTarget | src/generator.cc:550-634 | a target forward succeeds exactly when there are tokens and every attention cache has room, and then moves the caches as token-by-token feeding does |
| Forwards.RunDraft | src/generator.cc:150-183 | the same for the draft |
| Forwards.Extend | src/generator.cc:550-634 | a forward on the caches of a history never overruns the capacity when history and tokens fit, and leaves the caches of the longer history |
| Forwards.ExtendDraft | src/generator.cc:150-183 | the same for the draft |
| Forwards.PredictRows | src/generator.cc:893-902 | one prediction per row |
| CacheStacks.CacheStack.Forward | src/generator.cc:563-607 | one chunk through all layers on caches in the heap; the stack keeps owning disjoint storage |
| CacheStacks.CacheStack.ForwardLayer | src/generator.cc:563-594 | one layer writes only its own slot |
| CacheStacks.CacheStack.Clone | src/generator.cc:185-232 | every cache is copied; only the destination's own and fresh buffers are written |
| CacheStacks.CacheStack.Swap | src/generator.cc:199-244 | two cache sets exchange contents by exchanging buffers and still share nothing |
| CacheStacks.CacheStack.constructor | src/generator.cc:433-438 | default-constructed caches hold nothing and share nothing |
| CacheStacks.CacheStack.OthersKept | src/ops/attention.cc:534-586 | an operation that writes one slot's storage leaves all other slots intact |
| CacheStacks.SlotClone | src/generator.cc:189-195 | an uninitialized source empties the destination, any other is copied into it |
| CacheStacks.SlotSwap | src/generator.cc:199-244 | the two caches exchange buffers and contents |
| CacheStacks.SlotForward | src/generator.cc:575-582 | one mixer on one cache; refused exactly when an attention cache has no room |
| Caches.AttentionKVCache.Truncate | src/ops/attention.cc:19-38 | rewinding keeps the rows below the new length; refused beyond the capacity |
| Caches.AttentionKVCache.Clone | src/ops/attention.cc:40-92 | an independent copy; the destination's buffers are kept when they fit |
| Caches.AttentionKVCache.Swap | src/ops/attention.h:35-41 | all four fields change places |
| Caches.AttentionForward | src/ops/attention.cc:326-586 | refused exactly when the chunk does not fit or the cache was made for another context; otherwise rows and cache are those of the row-by-row run, by either kernel |
| Caches.MixOnBuffers | src/ops/attention.cc:560-585 | on buffers with room either kernel path gives the rows and the contents of the row-by-row run |
| Caches.AppendKvCache | src/ops/attention.cc:573-577 | stated backend contract: the rows behind the length are written |
| Caches.CachedGqa | src/ops/attention.cc:579-584 | stated backend contract: output row i reads the cache rows up to its own position |
| Caches.CachedGqaWithCurrentToken | src/ops/attention.cc:561-571 | stated backend contract: the current row takes part and is stored |
| Caches.DeltaNetCache.Clone | src/ops/delta_net.cc:19-75 | an independent copy of both state tensors; the destination's buffers are kept when they fit |
| Caches.DeltaNetCache.Swap | src/ops/delta_net.h:43-48 | both tensors and the length change places |
| Caches.DeltaNetForward | src/ops/delta_net.cc:392-519 | first use starts from zero states; rows and cache are those of the row-by-row run |
| Caches.GroupedCausalConv | src/ops/delta_net.cc:443-448 | stated backend contract: rows in token order, the window updated in place |
| Caches.Recurrent | src/ops/delta_net.cc:509-516 | stated backend contract: rows in token order, the state updated in place |
| Utf8.Utf8ToCodepoints | src/tokenizer/unicode_utils.cc:105-133 | the decoding loop skips invalid leads, drops zero and broken sequences and tolerates truncation as the recursive decoder does |
| Utf8.GatherSequence | src/tokenizer/unicode_utils.cc:115-127 | the value of one sequence |
| Utf8.CodepointsToUtf8 | src/tokenizer/unicode_utils.cc:135-155 | the encoding loop |
| Utf8.DecodeEncode | src/tokenizer/unicode_utils.cc:105-155 | decoding an encoding gives the code points back if and only if none is zero; zeros alone are lost |
| Utf8.DecodeEncodeThen | src/tokenizer/unicode_utils.cc:105-155 | an encoding decodes the same in front of any other bytes |
| Utf8.EncodeDecode | src/tokenizer/unicode_utils.cc:105-155 | encoding what was decoded gives the text back if and only if it is made of shortest-form sequences of non-zero code points |
| Utf8.WellFormedRoundTrip | src/tokenizer/unicode_utils.cc:105-155 | every NUL-free text in the syntax of section 4 of RFC 3629 comes back, and decodes to scalar values |
| Utf8.UnitDecodes | src/tokenizer/unicode_utils.cc:105-133 | a shortest-form sequence decodes to its positional value, whatever follows it |
| Utf8.EncodingHasValue | src/tokenizer/unicode_utils.cc:135-155 | a code point is encoded by the shortest sequence with its value |
| Utf8.MalformedIsDropped | src/tokenizer/unicode_utils.cc:105-133 | a byte that leads nothing is skipped alone; a sequence with a byte that continues nothing is dropped at its announced length |
| Utf8.CutOffIsKept | src/tokenizer/unicode_utils.cc:105-133 | a sequence cut off by the end of the text keeps the value of the bytes that are there |
| PreTokenizer.PreTokenize | src/tokenizer/qwen_tokenizer.cc:267-380 | the scanner returns the successive matches of the published pattern under a greedy backtracking matcher, for every code point list and every category table |
| PreTokenizer.ScannerIsPattern | scripts/pre_tokenizer_pieces.py:16 | on scalar values these pieces are the isolating split by the pattern with ASCII case folding |
| CaseFolding.ScannerIsFoldedPatternIff | scripts/pre_tokenizer_pieces.py:16 | on scalar values the pieces are the isolating split by the pattern with Unicode case folding if and only if the text has no apostrophe, U+017F and letter or mark in a row that stand at its start or behind neither a space nor a character of no category |
| CaseFolding.ShowsIffClash | src/tokenizer/qwen_tokenizer.cc:267-380 | from any start of a piece on, that condition on the text says exactly whether some piece of the scanner starts with such a row |
| CaseFolding.PieceCuts | src/tokenizer/qwen_tokenizer.cc:271-379 | inside a piece and right behind it, an apostrophe continues the piece exactly if a space or a character of no category stands before it |
| CaseFolding.SamePiecesIff | src/tokenizer/qwen_tokenizer.cc:267-380 | the scanner's loop cuts a text alike under either folding exactly if no piece starts with such a row |
| CaseFolding.SameEndUnlessClash | src/tokenizer/qwen_tokenizer.cc:271-313 | at one position the two patterns end a piece alike exactly if no such row stands there |
| CaseFolding.NoLongS | src/tokenizer/qwen_tokenizer.cc:271-293 | a text without an apostrophe before U+017F is cut the same either way |
| CaseFolding.FoldingMatters | src/tokenizer/qwen_tokenizer.cc:271-313 | the shortest text that is cut differently |
| PreTokenizer.PatternAlwaysMatches | src/tokenizer/qwen_tokenizer.cc:271-379 | at every scalar value the pattern matches at least one code point, so every branch advances |
| PreTokenizer.ScanPiece | src/tokenizer/qwen_tokenizer.cc:268-379 | one step of the scanner ends where the pattern's match ends |
| PreTokenizer.ScanBlanks | src/tokenizer/qwen_tokenizer.cc:342-379 | the three whitespace branches together are the last three alternatives |
| PreTokenizer.ContractionTakes | src/tokenizer/qwen_tokenizer.cc:271-293 | what the contraction alternative matches |
| PreTokenizer.WordTakes | src/tokenizer/qwen_tokenizer.cc:295-313 | what the word alternative matches, with its optional prefix |
| PreTokenizer.SymbolsTakes | src/tokenizer/qwen_tokenizer.cc:322-340 | what the symbol alternative matches, with its optional blank |
| PreTokenizer.LineEndsTakes | src/tokenizer/qwen_tokenizer.cc:343-359 | the line-end alternative takes the blanks up to the last line end of the run |
| PreTokenizer.TrailingBlanksTakes | src/tokenizer/qwen_tokenizer.cc:361-374 | the trailing-blank alternative backs off by one blank before a non-blank |
| Regex.PiecesCover | src/tokenizer/qwen_tokenizer.cc:255-265 | the pieces are not empty and concatenate to the text |
| Regex.SplitWithoutGaps | scripts/pre_tokenizer_pieces.py:16 | a pattern that matches everywhere leaves no gaps |
| Bpe.MergeLeftmost | src/tokenizer/qwen_tokenizer.cc:387-422 | the merge loop ends; its result is reached from the symbols by merging the leftmost listed pair of lowest rank each time, and has no listed pair |
| Bpe.OneByOneResult | src/tokenizer/qwen_tokenizer.cc:402-421 | it stops only when no adjacent pair can be merged, and the symbols still concatenate to the word |
| Bpe.OneByOneIsRun | src/tokenizer/qwen_tokenizer.cc:387-422 | the result is the end of the one run of merges that starts at the word, replaces the leftmost listed pair of lowest rank each time, and cannot go on |
| Bpe.MergeByPasses | scripts/debug_qwen_tokenizer.py:34-65 | the reference script's loop, for any choice among equal minima |
| Bpe.MergePass | scripts/debug_qwen_tokenizer.py:44-61 | one pass merges all occurrences left to right |
| Bpe.OneByOneIsByPasses | scripts/debug_qwen_tokenizer.py:34-65 | the two loops end in the same symbols when every pair containing a merge product ranks after each merge producing it |
| Bpe.OneByOneFinishesPass | src/tokenizer/qwen_tokenizer.cc:402-421 | merging one pair at a time first finishes the whole pass |
| Bpe.OrderMatters | src/tokenizer/qwen_tokenizer.cc:402-421 | without that order the two may differ: a concrete merge list and word on which they do |
| Bpe.GetPairs | scripts/debug_qwen_tokenizer.py:67-74 | the set of adjacent pairs |
| ByteLevel.BuildBytesToUnicode | src/tokenizer/qwen_tokenizer.cc:27-49 | the table is total on bytes, and its code points are the printable byte itself or 256 and up in order |
| ByteLevel.BuildUnicodeToBytes | src/tokenizer/qwen_tokenizer.cc:51-58 | the second table inverts the first |
| ByteLevel.VisibleIsInjective | src/tokenizer/qwen_tokenizer.cc:27-58 | no two bytes share a code point |
| ByteLevel.VisibleCounts | src/tokenizer/qwen_tokenizer.cc:27-49 | a byte outside 33-126, 161-172 and 174-255 gets 256 plus the number of smaller such bytes; the others stand for themselves |
| ByteLevel.ByteEncode | src/tokenizer/qwen_tokenizer.cc:195-207 | a byte string is spelled byte by byte |
| ByteLevel.UnspellSpell | src/tokenizer/qwen_tokenizer.cc:195-207 | reading a spelled byte string back gives the byte string |
| ByteLevel.AppendBytes | src/tokenizer/qwen_tokenizer.cc:471-477 | the bytes behind a token are appended, other code points skipped |
| SpecialTokens.SplitSpecialTokens | src/tokenizer/qwen_tokenizer.cc:209-239 | the loop computes one segmentation, for every order in which the hash map is walked |
| SpecialTokens.LongestTokenAt | src/tokenizer/qwen_tokenizer.cc:214-224 | the longest added token at a position |
| SpecialTokens.SplitIsLeftmostLongest | src/tokenizer/qwen_tokenizer.cc:209-239 | that segmentation is the only one in which every special segment is the longest added token at its place, no added token starts inside a plain segment, and plain segments are not adjacent |
| SpecialTokens.SegmentsSpellText | src/tokenizer/qwen_tokenizer.cc:209-239 | the segments concatenate to the text |
| Tokenizer.QwenTokenizer.Load | src/tokenizer/qwen_tokenizer.cc:102-145 | loading a consistent file yields tables in which every byte string can be spelled and every id means one token |
| TokenizerTables.LoadVocabulary | src/tokenizer/qwen_tokenizer.cc:102-116 | for every order of walking, the id table ends at the largest id, and each position holds a token of that id, or the empty token if there is none |
| TokenizerTables.DistinctIdsInvert | src/tokenizer/qwen_tokenizer.cc:112-115 | such a table inverts a vocabulary whose ids are distinct |
| TokenizerTables.LoadMerges | src/tokenizer/qwen_tokenizer.cc:118-129 | a pair's rank is the index of the last line that lists it, so ranks are distinct; lines without a blank are skipped |
| TokenizerTables.LoadAddedTokens | src/tokenizer/qwen_tokenizer.cc:131-145 | entries without content or with a negative id are skipped; of several entries for a content or an id the last one wins, special flag included; the two tables are inverse when no two entries share a content or id |
| Tokenizer.BpeWord | src/tokenizer/qwen_tokenizer.cc:387-422 | the word's code points become one symbol each, and merging the leftmost listed pair of lowest rank again and again leads from them to the result, which has no listed pair |
| Tokenizer.QwenTokenizer.Encode | src/tokenizer/qwen_tokenizer.cc:424-449 | the text is cut at its added tokens, leftmost longest first; an added token gives its id; the code points between are cut into the pieces of the published pattern, the bytes of a piece become one symbol each, a run of merges that cannot go on leads to its symbols, and the ids are those of the symbols in order |
| Meaning.EncodesIff | src/tokenizer/qwen_tokenizer.cc:424-449 | exactly one list of ids meets that description |
| Tokenizer.QwenTokenizer.Decode | src/tokenizer/qwen_tokenizer.cc:451-481 | the output is the bytes of the ids in order: an added token its content unless it is special and skipped, a vocabulary token the bytes its code points stand for, any other id nothing |
| Meaning.DecodesIff | src/tokenizer/qwen_tokenizer.cc:451-481 | exactly one text meets that description; buffering bytes until the next added token reorders nothing |
| Meaning.SkippingIsLeavingOut | src/tokenizer/qwen_tokenizer.cc:451-481 | with skipping, the text is that of the list without the special ids |
| Meaning.AddedTokenDecodes | src/tokenizer/qwen_tokenizer.cc:459-466 | an added token that is not special decodes to its content under either flag, a special one to nothing when skipped |
| RoundTrip.RoundTripIffCanonical | src/tokenizer/qwen_tokenizer.cc:424-481 | with closed tables, decoding an encoded text gives the text back if and only if it consists of shortest-form sequences of non-zero code points |
| RoundTrip.WellFormedTextComesBack | src/tokenizer/qwen_tokenizer.cc:424-481 | every well-formed NUL-free UTF-8 text comes back unchanged |
| RoundTrip.EncodeThenDecode | src/tokenizer/qwen_tokenizer.cc:424-481 | for every byte string, added tokens come back verbatim and the rest as the lenient codec reads it |
| RoundTrip.ByteFileIsConsistent | src/tokenizer/qwen_tokenizer.cc:102-145 | a file with the 256 byte symbols and nothing else meets all that the round trip asks of a file |
| RoundTrip.WordRoundTrip | src/tokenizer/qwen_tokenizer.cc:387-481 | every byte string survives spelling, merging, lookup and decoding |
| RoundTrip.MergingStaysSound | src/tokenizer/qwen_tokenizer.cc:402-421 | merging keeps every symbol in the vocabulary and a spelling of bytes |
| MemoryPools.MemoryPool.Allocate | src/memory/memory_pool.cc:37-86 | a successful request gets a block nobody holds, at least as large as asked, from the smallest fitting bucket: the oldest cached block of the bucket if there is one, else a new one; errors change nothing |
| MemoryPools.MemoryPool.Deallocate | src/memory/memory_pool.cc:88-127 | an active block goes to the backend if it bypassed the buckets or the limit would be exceeded, else to the end of its bucket's list; an unknown pointer changes nothing |
| MemoryPools.MemoryPool.ReleaseCache | src/memory/memory_pool.cc:129-140 | afterwards the backend has exactly the active blocks outstanding |
| MemoryPools.MemoryPool.constructor | src/memory/memory_pool.cc:12-31 | an empty pool keeps the invariant |
| MemoryPools.MemoryPool.BytesAreConserved | src/memory/memory_pool.cc:37-140 | backend bytes outstanding equal active plus pooled bytes |
| MemoryPools.BucketTable | src/memory/memory_pool.cc:19-30 | the table starts at the minimum, ends at the maximum and increases strictly; every size is the one before times the configured factor, or times two if that is below 1.01, rounded up |
| MemoryPools.GrowsIffPositive | src/memory/memory_pool.cc:19-27 | the table loop advances exactly from a positive size; a zero minimum never ends, despite the guard |
| MemoryPools.BucketIndex | src/memory/memory_pool.cc:142-150 | the smallest bucket that holds the request and is no smaller than the minimum |
| MemoryPools.LowerBound | src/memory/memory_pool.cc:144-146 | the first position not below the request |
| MemoryPools.BucketIsNotDirect | src/memory/memory_pool.cc:50-60 | no bucket index equals the marker of blocks that bypass the buckets |
| MemoryPools.MemoryPool.AllocateNew | src/memory/memory_pool.cc:77-85 | a block from the backend enters the active ones |
| MemoryPools.MemoryPool.Reuse | src/memory/memory_pool.cc:61-75 | a cached block leaves its list and enters the active ones |
| MemoryPools.MemoryPool.Release | src/memory/memory_pool.cc:100-117 | an active block goes back to the backend |
| MemoryPools.PopFront | src/memory/memory_pool.cc:64-66 | taking the front block keeps every cached block in the list of its size once |
| MemoryPools.PushBack | src/memory/memory_pool.cc:119-125 | so does appending one |
| StridedTensors.Tensor.Contiguous | src/core/tensor.cc:78-176 | a contiguous or bufferless tensor is returned itself; else a copy is made exactly when all dimensions are positive, all strides non-negative and the extent fits the buffer; the source is not written |
| StridedTensors.CopiedElement | src/core/tensor.cc:125-173 | the element at the row-major position of every multi-index comes from its strided address, whichever loop copied it |
| StridedTensors.CopyLinear | src/core/tensor.cc:127-134 | the one-dimensional loop writes the elements in row-major order |
| StridedTensors.CopyPlanar | src/core/tensor.cc:135-149 | so does the two-dimensional loop |
| StridedTensors.CopyGeneral | src/core/tensor.cc:150-173 | so does the odometer loop |
| StridedTensors.NextIndex | src/core/tensor.cc:163-170 | the odometer step yields the multi-index of the next position, wrapping at the end |
| StridedTensors.DigitsThenFlat | src/core/tensor.cc:163-170 | each position has one multi-index |
| StridedTensors.FlatThenDigits | src/core/tensor.cc:163-170 | each multi-index has one position |
| StridedTensors.MaximumIndex | src/core/tensor.cc:100-107 | the extent check computes the largest address |
| StridedTensors.AddressWithinExtent | src/core/tensor.cc:100-112 | no multi-index addresses beyond the extent |
| StridedTensors.CoversIff | src/core/tensor.cc:96-112 | the copy is refused exactly for a dimension without elements, a negative stride, or a buffer that ends before the element of some multi-index |
| StridedTensors.FirstDimension | src/core/tensor.cc:11-39 | the first dimension varies slowest: a step in it passes as many positions as the other dimensions have elements, and as many addresses as its stride says |
| StridedTensors.CanonicalIsFlat | src/core/tensor.cc:11-39 | with canonical strides the strided address is the row-major position |
| StridedTensors.Tensor.ComputeStrides | src/core/tensor.cc:11-23 | the loop computes the canonical strides |
| StridedTensors.Tensor.CheckContiguous | src/core/tensor.cc:25-39 | the flag says whether the strides are canonical |
| StridedTensors.Numel | src/core/shape.h:22-26 | the number of elements, zero without dimensions |
| LayerPartitions.PlanDistributed | src/models/qwen3_weights.cc:396-440 | an invalid device exactly if some device is no GPU, an invalid argument exactly if there are none or otherwise too many for the layers; else device i holds the layers l with layers * i < devices * (l + 1) <= layers * (i + 1), and its bytes are those of the tensors of these layers, of the embedding on the first device, and of norm, head and draft tensors on the last |
| LayerPartitions.HoldsIsShare | src/models/qwen3_weights.cc:421-426 | the two truncating divisions of a run, without a division |
| LayerPartitions.DecimalReads | src/models/qwen3_weights.cc:448-459 | the layer number in a prefix is the decimal notation without leading zeros |
| LayerPartitions.EveryLayerHasOneHome | src/models/qwen3_weights.cc:421-426 | the runs are disjoint and cover all layers |
| LayerPartitions.PartitionSize | src/models/qwen3_weights.cc:415-426 | a run has the average number of layers rounded down or up, and at least one when there are no more devices than layers |
| LayerPartitions.EveryTensorOnce | src/models/qwen3_weights.cc:427-437 | no tensor is on two devices, and together the devices hold exactly the planned tensors |
| LayerPartitions.BytesAreConserved | src/models/qwen3_weights.cc:427-437 | the planned bytes count every layer, embedding, norm, head and draft tensor once and nothing else |
| LayerPartitions.LoadDistributed | src/models/qwen3_weights.cc:461-501 | loading succeeds exactly when the plan is accepted and every single load it names succeeds, and passes the plan's error on; then every layer was loaded once, in order, on the device whose run holds it, and the total is the planned tensors' bytes |
| LayerPartitions.NameHasOneLayer | src/models/qwen3_weights.cc:448-459 | a tensor name has at most one layer prefix |
| LayerPartitions.LayerBytes | src/models/qwen3_weights.cc:448-459 | the bytes of the tensors with the layer's prefix |
| LayerPartitions.MtpBytes | src/models/qwen3_weights.cc:382-394 | the bytes of the draft tensors, none without draft layers |
| LayerPartitions.TensorBytes | src/models/qwen3_weights.cc:442-446 | the bytes of one tensor, none if it is missing |
| LayerPartitions.RangeBytes | src/models/qwen3_weights.cc:427-430 | the bytes of a run of layers |
| CausalAttention.Attend | src/ops/attention.cc:607-666 | the loop nest computes the causal output, head by head |
| AttentionFormula.OutputEntry | src/ops/attention.cc:607-666 | every entry of the output, over the flat buffers: its product with the sum of the exponentials of the visible scores is the sum of these times the value entries, times the sigmoid of the gate entry |
| CausalAttention.HeadIsLocal | src/ops/attention.cc:613-657 | a query head depends on its own query and gate head and on the one key/value head of its group of consecutive heads, at the rows up to its own |
| CausalAttention.RowIsCausal | src/ops/attention.cc:607-666 | an output row depends only on the query and gate rows of its position and the key and value rows up to it, even between inputs of different lengths |
| CausalAttention.PrefixOfOutput | src/ops/attention.cc:607-666 | running on the first rows gives the first rows of the output |
| CausalAttention.WeightsAreADistribution | src/ops/attention.cc:631-644 | the visible weights are positive and sum to one |
| CausalAttention.Softmax | src/ops/attention.cc:631-644 | softmax over the whole buffer gives the masked tail weight zero and the others their weight among the visible |
| CausalAttention.FillScores | src/ops/attention.cc:617-629 | scores of visible positions, minus infinity behind them |
| CausalAttention.MaxScore | src/ops/attention.cc:632-635 | the largest visible score |
| CausalAttention.MixValues | src/ops/attention.cc:646-657 | the weighted sum of the visible value rows |
| CausalAttention.ApplyGate | src/ops/attention.cc:658-665 | every entry is multiplied by its sigmoid gate |
| CausalAttention.KvHeadInRange | src/ops/attention.cc:613 | every query head has a key/value head |

## Left out

- `DeltaNetCache::restore`: the generator commits by swapping.
- Accelerator kernels: represented by the stated contracts in `Caches`. The one-token kernel is assumed to store the
  current row, as the comment at `src/ops/attention.cc:562-564` says; the file itself never appends it.
- Device, dtype and memory-type checks of buffer reuse and of cache compatibility: a buffer is an array of rows, and
  a buffer fits when its length does; buffers larger than needed do not arise.
- The generator keeps both an attention and a DeltaNet cache per layer; the model keeps the one the layer uses.
- A DeltaNet state tensor is one array element; its entries are not modelled.
- Floating-point rounding, BF16 and FP8 numerics, RoPE, RMSNorm, GEMM and MLP values: row functions are abstract,
  and the attention loop is over the reals with an arbitrary positive exponential.
- Argmax over rows holding NaN or only minus infinity, and the device argmax kernels.
- The embedding's check that token ids lie in the vocabulary; allocation and backend failures of the
  forwards, other than that of the lookup on no tokens.
- The check that the prompt text is not empty, which comes before tokenizing.
- Parsing of the proposal width from the environment; the width is a parameter from 1 to 16.
- The draft's agreement statistics in the plain loop (`src/generator.cc:1198-1248`), which do not touch the target.
- Timing, profiling, printing, result text, chat template, file and JSON parsing, generation metadata.
- Case folding beyond U+017F: `CaseFolding` takes simple case folding, under which no other character outside ASCII
  folds to a letter of the contractions.
- The Unicode category tables: any classification in which CR, LF and the space are whitespace and nothing outside
  the scalar values has a category; in `CaseFolding` also one in which the ASCII letters and U+017F are letters and
  the apostrophe has no category. Code points of 0x200000 and above, which the decoder cannot produce.
- Tokenizer.QwenTokenizer.Load: requires non-negative vocabulary ids, because a negative one indexes the source's id
  table out of bounds; at most 2^63 - 1 merge lines; malformed files are not modelled.
- TokenizerTables.LoadVocabulary: requires non-negative vocabulary ids, for the same reason.
- MemoryPools.BucketTable: requires a positive minimum bucket size, because the source's loop does not end for zero;
  sizes are unbounded integers and the growth factor a real, so overflow and rounding of the product are not modelled.
- MemoryPools.MemoryPool.Allocate: the null check of the output pointer is not modelled, because the model returns
  the pointer.
- The pool's mutex: every call is one atomic step. Status codes of backend deallocation, which the source ignores.
- StridedTensors.Tensor.Contiguous: the destination buffer is always created, and products do not wrap around.
- Tensor transfer between devices, reshape, and the accelerator's strided copy.
- LayerPartitions.LoadDistributed: tensors themselves are not loaded; two predicates say which single loads succeed.
  The checks for an unopened loader and a null output are not modelled.
- Projections, rotary embedding and the output projection around the attention loop.
