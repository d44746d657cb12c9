/** The two decode loops of the generator: plain greedy decoding, and speculative decoding in which a
    draft proposes tokens, the target verifies the whole proposal in one forward on a snapshot, and the
    committed caches change only by a swap with a verified snapshot or by a replay of accepted tokens. */
module Generation {
  import opened CausalStack
  import opened Greedy
  import opened Drafting
  import opened CacheStacks
  import opened Forwards
  import opened Proposals
  import opened Rounds

  lemma EmptyAfter(m: Model)
    ensures After(m, []) == InitialStates(m.layers)
  {
  }

  lemma EmptyDraftAfter(m: Model, d: Draft)
    ensures DraftAfter(m, d, []) == InitialStates(d.layers)
  {
  }

  // The target over the whole prompt, from empty caches; and an empty snapshot to verify on.
  method PrefillTarget(m: Model, prompt: seq<Token>, capacity: nat)
    returns (target: CacheStack, snapshot: CacheStack, rows: seq<Row>, first: Token)
    requires prompt != [] && |prompt| <= capacity
    ensures target.Valid() && snapshot.Valid() && target.Like(snapshot) && target.Capacity == capacity
    ensures fresh(target.Repr) && fresh(snapshot.Repr) && target.Repr !! snapshot.Repr
    ensures target.Contents == After(m, prompt)
    ensures |rows| == |prompt| && rows[|prompt| - 1] == LastHidden(m, prompt)
    ensures forall i :: 0 <= i < |prompt| ==> rows[i] == LastHidden(m, prompt[..i + 1])
    ensures first == Next(m, prompt)
  {
    hide CacheStack.Valid, After, Feed, InitialStates;
    target := new CacheStack(m.layers, capacity);
    EmptyAfter(m);
    var ok;
    ok, rows := Extend(m, prompt, target, capacity, []);
    assert [] + prompt == prompt;
    forall i | 0 <= i < |prompt|
      ensures rows[i] == LastHidden(m, prompt[..i + 1])
    {
      RowOfPrefix(m, [], prompt, i);
      assert [] + prompt[..i + 1] == prompt[..i + 1];
    }
    var predictions := PredictRows(m, rows);
    first := predictions[|predictions| - 1];
    snapshot := EmptyLike(target, m.layers, capacity);
  }

  // The draft over the prompt rows, built in caches of its own which are then swapped in; and an empty
  // scratch to propose from.
  method PrefillDraft(m: Model, d: Draft, inputs: seq<Input>, capacity: nat)
    returns (draft: CacheStack, scratch: CacheStack)
    requires inputs != [] && |inputs| <= capacity
    ensures draft.Valid() && scratch.Valid() && draft.Like(scratch) && draft.Capacity == capacity
    ensures fresh(draft.Repr) && fresh(scratch.Repr) && draft.Repr !! scratch.Repr
    ensures draft.Contents == DraftAfter(m, d, inputs)
  {
    hide CacheStack.Valid, DraftAfter, DraftFeed, InitialStates;
    draft := new CacheStack(d.layers, capacity);
    var promptCaches := new CacheStack(d.layers, capacity);
    EmptyDraftAfter(m, d);
    var ok, rows := ExtendDraft(m, d, inputs, promptCaches, capacity, []);
    assert [] + inputs == inputs;
    draft.Swap(promptCaches);
    scratch := EmptyLike(draft, d.layers, capacity);
  }

  /** One speculative request. `target` and `draft` are the committed caches; `scratch` and `snapshot` are
      reused by every round. */
  class SpeculativeSession {
    const model: Model
    const drafter: Draft
    const prompt: seq<Token>
    const budget: nat
    const eos: set<Token>
    const width: nat
    const maxSeqLen: nat

    const target: CacheStack
    const draft: CacheStack
    const scratch: CacheStack
    const snapshot: CacheStack

    var generated: seq<Token>
    var nextTarget: Token
    var targetHidden: Row
    var counters: Counters
    var recovered: nat

    // What the draft cache was fed, the rounds so far, and the last token if no round produced it.
    ghost var fed: seq<Input>
    ghost var trace: seq<Round>
    ghost var lone: seq<Token>

    // Committed caches, scratch and snapshot are intact and share no storage.
    ghost predicate Storage()
      reads target, draft, scratch, snapshot, target.Repr, draft.Repr, scratch.Repr, snapshot.Repr
    {
      && target.Valid() && draft.Valid() && scratch.Valid() && snapshot.Valid()
      && target.Repr !! draft.Repr !! scratch.Repr !! snapshot.Repr !! {this}
      && target.Like(snapshot) && draft.Like(scratch)
      && target.Capacity == draft.Capacity == maxSeqLen
    }

    // The committed caches hold exactly what `generated` and `fed` put there.
    ghost predicate Committing()
      requires Storage()
      reads `generated, `fed, target, draft, scratch, snapshot, target.Repr, draft.Repr, scratch.Repr, snapshot.Repr
    {
      && target.Contents == After(model, generated)
      && draft.Contents == DraftAfter(model, drafter, fed)
    }

    ghost predicate Config() {
      prompt != [] && 0 < width <= 16 && 0 < budget && maxSeqLen == |prompt| + budget
    }

    // The head of the decode loop.
    ghost predicate Ready()
      reads this, target, draft, scratch, snapshot, target.Repr, draft.Repr, scratch.Repr, snapshot.Repr
    {
      && Config() && Storage() && Committing() && lone == []
      && BetweenRounds(Rule(model), prompt, budget, eos, width, generated, nextTarget, Tokens(fed), trace, counters)
      && targetHidden == LastHidden(model, generated) && recovered == counters.corrections
    }

    /** Prefill: the target runs over the whole prompt and the draft over the prompt rows it produced, each
        from empty caches. */
    constructor (m: Model, d: Draft, prompt: seq<Token>, budget: nat, eos: set<Token>, width: nat)
      requires prompt != [] && 0 < budget && 0 < width <= 16
      ensures model == m && drafter == d && this.prompt == prompt && this.budget == budget
      ensures this.eos == eos && this.width == width
      ensures Config() && Storage()
      ensures fresh(target.Repr) && fresh(draft.Repr) && fresh(scratch.Repr) && fresh(snapshot.Repr)
      ensures Committing()
      ensures |fed| == |prompt|
      ensures forall i :: 0 <= i < |fed| ==> fed[i] == Input(prompt[i], LastHidden(model, prompt[..i + 1]))
      ensures generated == Tokens(fed) == prompt && trace == [] && lone == [] && counters == NO_COUNTS && recovered == 0
      ensures nextTarget == Next(model, prompt) && targetHidden == LastHidden(model, prompt)
    {
      hide CacheStack.Valid, CacheStack.Like, After, DraftAfter, Next, LastHidden;
      var capacity := |prompt| + budget;
      var target, snapshot, rows, first := PrefillTarget(m, prompt, capacity);
      var inputs := seq(|prompt|, i requires 0 <= i < |prompt| => Input(prompt[i], rows[i]));
      var draft, scratch := PrefillDraft(m, d, inputs, capacity);
      this.target, this.draft, this.scratch, this.snapshot := target, draft, scratch, snapshot;
      this.model, this.drafter, this.prompt, this.budget, this.eos, this.width := m, d, prompt, budget, eos, width;
      this.maxSeqLen := capacity;
      generated, nextTarget, targetHidden := prompt, first, rows[|rows| - 1];
      counters, recovered := NO_COUNTS, 0;
      fed, trace, lone := inputs, [], [];
      assert Tokens(inputs) == prompt;
    }

    lemma Started()
      requires Config() && Storage() && Committing() && generated == Tokens(fed) == prompt
      requires trace == [] && lone == [] && counters == NO_COUNTS && recovered == 0
      requires nextTarget == Next(model, prompt) && targetHidden == LastHidden(model, prompt)
      ensures Ready()
    {
      NothingDecoded(Rule(model), prompt, budget, eos, width);
    }

    method Append(ts: seq<Token>)
      modifies this`generated
      ensures generated == old(generated) + ts
    {
      for i := 0 to |ts|
        invariant generated == old(generated) + ts[..i]
      {
        generated := generated + [ts[i]];
        assert ts[..i + 1] == ts[..i] + [ts[i]];
      }
      assert ts[..|ts|] == ts;
    }

    // The text is the greedy output; the target caches hold all of it but a lone last token.
    ghost predicate Finished()
      reads this, target, draft, scratch, snapshot, target.Repr, draft.Repr, scratch.Repr, snapshot.Repr
    {
      && Storage()
      && Complete(Rule(model), prompt, budget, eos, width, generated, trace, lone, counters)
      && target.Contents == After(model, prompt + Committed(trace))
      && Recoveries(recovered, counters, trace, lone)
    }

    // Propose up to `count` candidates and verify them; the committed caches stay as they are.
    method Speculate(count: nat)
      returns (candidates: seq<Token>, checkpoints: seq<CacheStack>, rows: seq<Row>, predictions: seq<Token>,
               accepted: nat, ghost used: seq<Input>, ghost states: seq<seq<LayerState>>, ghost owned: set<object>)
      requires Storage() && Committing() && generated != [] && nextTarget == Next(model, generated)
      requires 0 < count && |fed| + count <= maxSeqLen && |generated| + 1 + count <= maxSeqLen
      modifies scratch.Repr, snapshot.Repr
      ensures Storage() && fresh(scratch.Repr - old(scratch.Repr)) && fresh(snapshot.Repr - old(snapshot.Repr))
      ensures target.Repr == old(target.Repr) && draft.Repr == old(draft.Repr) && Committing()
      ensures 0 < |candidates| <= count && StopsOnlyAtEnd(candidates, eos)
      ensures |candidates| == count || candidates[|candidates| - 1] in eos
      ensures Proposed(model, drafter, fed, Input(nextTarget, targetHidden), used, candidates)
      ensures |used| == |candidates| && Tokens(used) == ([nextTarget] + candidates)[..|candidates|]
      ensures scratch.Contents == DraftAfter(model, drafter, fed + used)
      ensures Kept(checkpoints, states, draft, owned) && fresh(owned)
      ensures owned !! scratch.Repr && owned !! snapshot.Repr
      ensures snapshot.Contents == After(model, generated + ([nextTarget] + candidates))
      ensures |rows| == |predictions| == |candidates| + 1 && accepted <= |candidates|
      ensures accepted < |states| && states[accepted] == DraftAfter(model, drafter, fed + used[..accepted])
      ensures VerifiedBlock(rows, predictions, candidates, accepted)
      ensures accepted < |candidates| ==> predictions[accepted] != candidates[accepted]
    {
      hide Follows, StopsOnlyAtEnd, Tokens, Kept, Proposed, CacheStack.Valid, CacheStack.Like;
      hide After, DraftAfter, Next, LastHidden;
      var ok;
      ok, candidates, checkpoints, used, owned :=
        Propose(model, drafter, draft, scratch, nextTarget, targetHidden, count, eos, maxSeqLen, fed);
      states := PrefixStates(model, drafter, fed, used);
      rows, predictions, accepted := Verify(model, target, snapshot, nextTarget, candidates, maxSeqLen, generated);
    }

    // What verification established about the accepted block and the prediction after it.
    ghost predicate VerifiedBlock(rows: seq<Row>, predictions: seq<Token>, candidates: seq<Token>, accepted: nat)
      requires |rows| == |predictions| == |candidates| + 1 && accepted <= |candidates| && generated != []
      reads `generated, `nextTarget
    {
      var block := [nextTarget] + candidates[..accepted];
      && Follows(Rule(model), generated, block)
      && predictions[accepted] == Next(model, generated + block)
      && rows[accepted] == LastHidden(model, generated + block)
      && Follows(Rule(model), generated, block + [predictions[accepted]])
    }

    // Full acceptance: the verified snapshot and the scratch become the committed caches.
    method CommitAccepted(candidates: seq<Token>, rows: seq<Row>, predictions: seq<Token>, ghost used: seq<Input>)
      requires Storage() && |rows| == |predictions| == |candidates| + 1
      modifies `generated, `nextTarget, `targetHidden, `fed
      modifies target.Repr, draft.Repr, scratch.Repr, snapshot.Repr
      ensures Storage()
      ensures target.Contents == old(snapshot.Contents) && draft.Contents == old(scratch.Contents)
      ensures target.Repr + snapshot.Repr == old(target.Repr) + old(snapshot.Repr)
      ensures draft.Repr + scratch.Repr == old(draft.Repr) + old(scratch.Repr)
      ensures generated == old(generated) + ([old(nextTarget)] + candidates) && fed == old(fed) + used
      ensures nextTarget == predictions[|candidates|] && targetHidden == rows[|candidates|]
    {
      target.Swap(snapshot);
      draft.Swap(scratch);
      Append([nextTarget] + candidates);
      fed := fed + used;
      nextTarget := predictions[|predictions| - 1];
      targetHidden := rows[|rows| - 1];
    }

    // The budget test on the correction is part of the loop; it always succeeds.
    method AppendCorrected(candidates: seq<Token>, accepted: nat, correction: Token) returns (done: bool)
      requires accepted < |candidates| && |generated| + accepted + 2 <= |prompt| + budget
      modifies this`generated
      ensures generated == old(generated) + ([nextTarget] + candidates[..accepted] + [correction])
      ensures done == (|generated| - |prompt| >= budget || correction in eos)
    {
      Append([nextTarget] + candidates[..accepted]);
      if |generated| - |prompt| < budget {
        Append([correction]);
      }
      done := |generated| - |prompt| >= budget || correction in eos;
    }

    // The draft goes on from the checkpoint of the accepted prefix and the correction.
    method Recover(accepted: nat, input: Input, checkpoints: seq<CacheStack>, ghost states: seq<seq<LayerState>>,
                   ghost kept: seq<Input>, ghost owned: set<object>)
      requires Storage() && Kept(checkpoints, states, draft, owned)
      requires accepted < |states| && states[accepted] == DraftAfter(model, drafter, kept)
      requires owned !! target.Repr && owned !! draft.Repr && owned !! scratch.Repr && owned !! snapshot.Repr
      requires this !in owned && |kept| + 1 <= maxSeqLen
      modifies `fed, draft.Repr, owned
      ensures Storage() && fresh(draft.Repr - old(draft.Repr) - owned)
      ensures target.Repr == old(target.Repr) && target.Contents == old(target.Contents)
      ensures scratch.Repr == old(scratch.Repr) && snapshot.Repr == old(snapshot.Repr)
      ensures fed == kept + [input] && draft.Contents == DraftAfter(model, drafter, fed)
    {
      RecoverDraft(model, drafter, draft, checkpoints, accepted, input, maxSeqLen, states, kept, owned);
      fed := kept + [input];
    }

    // A mismatch: the accepted prefix and the target's correction are replayed on the committed target
    // caches, which no rejected candidate has touched.
    method CommitCorrection(candidates: seq<Token>, accepted: nat, correction: Token,
                            ghost checkpoints: seq<CacheStack>, ghost states: seq<seq<LayerState>>,
                            ghost owned: set<object>)
      returns (done: bool, following: Token, hidden: Row, inputHidden: Row)
      requires Storage() && accepted < |candidates| && maxSeqLen == |prompt| + budget
      requires target.Contents == After(model, generated)
      requires Kept(checkpoints, states, draft, owned) && owned !! target.Repr && this !in owned
      requires |generated| + accepted + 2 <= maxSeqLen
      modifies `generated, target.Repr
      ensures Storage() && fresh(target.Repr - old(target.Repr))
      ensures draft.Repr == old(draft.Repr) && scratch.Repr == old(scratch.Repr) && snapshot.Repr == old(snapshot.Repr)
      ensures Kept(checkpoints, states, draft, owned)
      ensures generated == old(generated) + ([nextTarget] + candidates[..accepted] + [correction])
      ensures target.Contents == After(model, generated)
      ensures following == Next(model, generated) && hidden == LastHidden(model, generated)
      ensures inputHidden == LastHidden(model, old(generated) + ([nextTarget] + candidates[..accepted]))
      ensures done == (|generated| - |prompt| >= budget || correction in eos)
    {
      var replayIds := [nextTarget] + candidates[..accepted] + [correction];
      assert replayIds[..|replayIds| - 1] == [nextTarget] + candidates[..accepted];
      following, hidden, inputHidden := Replay(model, target, replayIds, maxSeqLen, generated);
      done := AppendCorrected(candidates, accepted, correction);
    }

    // A round in which the target confirmed every candidate.
    method FinishAccepted(candidates: seq<Token>, rows: seq<Row>, predictions: seq<Token>, widest: nat,
                          ghost planned: nat, ghost used: seq<Input>)
      returns (done: bool)
      requires Ready() && nextTarget !in eos && |used| == |candidates|
      requires Full(candidates, |generated| - |prompt|, budget, eos, width)
      requires Plans(planned, |generated| - |prompt|, budget, width) && Widens(widest, counters, planned)
      requires Tokens(used) == ([nextTarget] + candidates)[..|candidates|]
      requires scratch.Contents == DraftAfter(model, drafter, fed + used)
      requires snapshot.Contents == After(model, generated + ([nextTarget] + candidates))
      requires |rows| == |predictions| == |candidates| + 1
      requires VerifiedBlock(rows, predictions, candidates, |candidates|)
      modifies this, target.Repr, draft.Repr, scratch.Repr, snapshot.Repr
      ensures target.Repr + snapshot.Repr == old(target.Repr) + old(snapshot.Repr)
      ensures draft.Repr + scratch.Repr == old(draft.Repr) + old(scratch.Repr)
      ensures if done then Finished() else Ready()
      ensures generated == old(generated) + ([old(nextTarget)] + candidates) && fed == old(fed) + used
      ensures counters == Counted(old(counters), |candidates|, |candidates|, widest) && recovered == old(recovered)
    {
      hide BetweenRounds, Complete, AllPlayed, Tallied, Follows, StopsOnlyAtEnd, Tokens, Kept;
      hide CacheStack.Valid, CacheStack.Like, After, DraftAfter, Next, LastHidden;
      var c := Counted(counters, |candidates|, |candidates|, widest);
      AcceptedOutcome(Rule(model), prompt, budget, eos, width, generated, nextTarget, Tokens(fed), trace, counters,
                      candidates, planned, widest);
      TokensAppend(fed, used);
      assert candidates[..|candidates|] == candidates;
      trace := trace + [Round([nextTarget] + candidates, |candidates|, candidates)];
      CommitAccepted(candidates, rows, predictions, used);
      counters := c;
      done := |generated| - |prompt| >= budget || generated[|generated| - 1] in eos;
    }

    // The target's side of a mismatch: replay, text and counters.
    method CorrectText(candidates: seq<Token>, correction: Token, accepted: nat, widest: nat,
                       ghost planned: nat, ghost checkpoints: seq<CacheStack>, ghost states: seq<seq<LayerState>>,
                       ghost owned: set<object>)
      returns (finished: bool, following: Token, hidden: Row, inputHidden: Row)
      requires Ready() && nextTarget !in eos && accepted < |candidates| && correction != candidates[accepted]
      requires Full(candidates, |generated| - |prompt|, budget, eos, width)
      requires Plans(planned, |generated| - |prompt|, budget, width) && Widens(widest, counters, planned)
      requires Kept(checkpoints, states, draft, owned) && owned !! target.Repr && this !in owned
      requires Follows(Rule(model), generated, [nextTarget] + candidates[..accepted] + [correction])
      modifies `generated, `trace, `counters, target.Repr
      ensures Storage() && fresh(target.Repr - old(target.Repr))
      ensures draft.Repr == old(draft.Repr) && scratch.Repr == old(scratch.Repr) && snapshot.Repr == old(snapshot.Repr)
      ensures Kept(checkpoints, states, draft, owned)
      ensures generated == old(generated) + ([nextTarget] + candidates[..accepted] + [correction])
      ensures target.Contents == After(model, generated)
      ensures following == Next(model, generated) && hidden == LastHidden(model, generated)
      ensures inputHidden == LastHidden(model, old(generated) + ([nextTarget] + candidates[..accepted]))
      ensures finished == (|generated| - |prompt| >= budget || generated[|generated| - 1] in eos)
      ensures counters == Counted(old(counters), |candidates|, accepted, widest)
      ensures counters.corrections == old(counters.corrections) + 1
      ensures trace == old(trace) + [Round([nextTarget] + candidates[..accepted] + [correction], accepted, candidates)]
      ensures Outcome(Rule(model), prompt, budget, eos, width, generated,
                      Tokens(fed) + (([nextTarget] + candidates)[..accepted] + [correction]), trace, counters)
    {
      hide BetweenRounds, Complete, AllPlayed, Tallied, Follows, StopsOnlyAtEnd, Tokens, Kept;
      hide CacheStack.Valid, CacheStack.Like, After, DraftAfter, Next, LastHidden;
      var c := Counted(counters, |candidates|, accepted, widest);
      CorrectedOutcome(Rule(model), prompt, budget, eos, width, generated, nextTarget, Tokens(fed), trace, counters,
                       candidates, accepted, correction, planned, widest);
      trace := trace + [Round([nextTarget] + candidates[..accepted] + [correction], accepted, candidates)];
      counters := c;
      finished, following, hidden, inputHidden :=
        CommitCorrection(candidates, accepted, correction, checkpoints, states, owned);
    }

    // A round in which the target disagreed at some candidate.
    method FinishCorrected(candidates: seq<Token>, correction: Token, accepted: nat, widest: nat,
                           checkpoints: seq<CacheStack>, ghost planned: nat, ghost used: seq<Input>,
                           ghost states: seq<seq<LayerState>>, ghost owned: set<object>)
      returns (done: bool)
      requires Ready() && nextTarget !in eos
      requires accepted < |candidates| == |used| && correction != candidates[accepted]
      requires Full(candidates, |generated| - |prompt|, budget, eos, width)
      requires Plans(planned, |generated| - |prompt|, budget, width) && Widens(widest, counters, planned)
      requires |fed| + accepted + 1 <= maxSeqLen
      requires Tokens(used) == ([nextTarget] + candidates)[..|candidates|]
      requires Kept(checkpoints, states, draft, owned) && this !in owned
      requires owned !! target.Repr && owned !! draft.Repr && owned !! scratch.Repr && owned !! snapshot.Repr
      requires accepted < |states| && states[accepted] == DraftAfter(model, drafter, fed + used[..accepted])
      requires Follows(Rule(model), generated, [nextTarget] + candidates[..accepted] + [correction])
      modifies this, target.Repr, draft.Repr, owned
      ensures fresh(target.Repr - old(target.Repr)) && fresh(draft.Repr - old(draft.Repr) - owned)
      ensures scratch.Repr == old(scratch.Repr) && snapshot.Repr == old(snapshot.Repr)
      ensures if done then Finished() else Ready()
      ensures generated == old(generated) + ([old(nextTarget)] + candidates[..accepted] + [correction])
      ensures counters == Counted(old(counters), |candidates|, accepted, widest)
      ensures recovered == old(recovered) + (if done then 0 else 1)
      ensures !done ==>
                var row := LastHidden(model, old(generated) + ([old(nextTarget)] + candidates[..accepted]));
                fed == old(fed) + used[..accepted] + [Input(correction, row)]
    {
      hide BetweenRounds, Complete, AllPlayed, Tallied, Follows, StopsOnlyAtEnd, Tokens, Kept;
      hide Counted, Full, Plans, Widens;
      hide CacheStack.Valid, CacheStack.Like, After, DraftAfter, Next, LastHidden;
      var following, hidden, inputHidden;
      ghost var ids := [nextTarget] + candidates;
      done, following, hidden, inputHidden :=
        CorrectText(candidates, correction, accepted, widest, planned, checkpoints, states, owned);
      assert generated != [] && done == (|generated| >= |prompt| + budget || generated[|generated| - 1] in eos);
      if !done {
        var input := Input(correction, inputHidden);
        TokensOfRecovery(fed, used, ids, accepted, input);
        Recover(accepted, input, checkpoints, states, fed + used[..accepted], owned);
        nextTarget, targetHidden, recovered := following, hidden, recovered + 1;
      }
    }

    /** At every loop head: the target caches hold exactly the state after `generated`, the pending token is
        the target's own choice, and the draft cache is shorter by one row per completed round. */
    lemma AtLoopHead()
      requires Ready()
      ensures target.Contents == After(model, generated) && AllLength(target.Contents, |generated|)
      ensures generated != [] && nextTarget == Next(model, generated)
      ensures |fed| == |generated| - counters.rounds && AllLength(draft.Contents, |generated| - counters.rounds)
      ensures |prompt| <= |generated| < |prompt| + budget && counters.maxWidth <= width
    {
      BetweenRoundsFacts(Rule(model), prompt, budget, eos, width, generated, nextTarget, Tokens(fed), trace, counters);
      AfterLengths(model, generated);
      DraftLengths(model, drafter, fed);
    }

    /** One round: at least two tokens are appended, and the session is ready for the next round or the
        text is complete. */
    method RunRound(count: nat, widest: nat) returns (done: bool)
      requires Ready() && nextTarget !in eos
      requires Plans(count, |generated| - |prompt|, budget, width) && Widens(widest, counters, count)
      modifies this, target.Repr, draft.Repr, scratch.Repr, snapshot.Repr
      ensures fresh(Everything() - old(Everything()))
      ensures if done then Finished() else Ready()
      ensures |generated| >= |old(generated)| + 2
    {
      hide Proposed, Counted;
      hide BetweenRounds, Complete, AllPlayed, Tallied, Follows, StopsOnlyAtEnd, Tokens, Kept;
      hide CacheStack.Valid, CacheStack.Like, After, DraftAfter, Next, LastHidden;
      AtLoopHead();
      var candidates, checkpoints, rows, predictions, accepted;
      ghost var used, states, owned;
      candidates, checkpoints, rows, predictions, accepted, used, states, owned := Speculate(count);
      if accepted == |candidates| {
        done := FinishAccepted(candidates, rows, predictions, widest, count, used);
      } else {
        done := FinishCorrected(candidates, predictions[accepted], accepted, widest, checkpoints, count, used, states,
                                owned);
      }
    }

    ghost function Everything(): set<object>
      reads this, target, draft, scratch, snapshot
    {
      target.Repr + draft.Repr + scratch.Repr + snapshot.Repr
    }

    /** The decode loop. It ends, and the text is then the prompt followed by the greedy output. */
    method Run()
      requires Ready()
      modifies this, Everything()
      ensures Finished()
    {
      hide BetweenRounds, Complete, Tokens;
      hide CacheStack.Valid, CacheStack.Like, After, DraftAfter, Next, LastHidden;
      while |generated| - |prompt| < budget
        invariant Ready() && fresh(Everything() - old(Everything()))
        decreases maxSeqLen - |generated|
      {
        AtLoopHead();
        var remaining := budget - (|generated| - |prompt|);
        if nextTarget in eos || remaining == 1 {
          AppendLone();
          return;
        }
        var count := if width < remaining - 1 then width else remaining - 1;
        var widest := if counters.maxWidth < count then count else counters.maxWidth;
        var done := RunRound(count, widest);
        if done {
          return;
        }
      }
      AtLoopHead();
    }

    // The last token when no round is worth running: the caches do not see it.
    method AppendLone()
      requires Ready()
      requires nextTarget in eos || |generated| - |prompt| + 1 == budget
      modifies `generated, `lone
      ensures Finished()
    {
      hide BetweenRounds, Complete, CacheStack.Valid, CacheStack.Like, After, DraftAfter, Next, LastHidden;
      LoneTokenCompletes(Rule(model), prompt, budget, eos, width, generated, nextTarget, Tokens(fed), trace, counters);
      lone := [nextTarget];
      Append([nextTarget]);
    }
  }

  /* ---------------------------------- requests ---------------------------------- */

  datatype Error = InvalidArgument | BackendError

  datatype Generation = Failed(error: Error) | Generated(tokens: seq<Token>, counters: Counters, recovered: nat)

  /** Speculative decoding with any draft returns exactly the greedy output of the target. A prompt without
      tokens fails in the prefill forward. The tokens are those of the rounds and at most one more; every
      round proposes as many candidates as the width and the budget left allow, or fewer that end with a
      stop token, and the reported counters are the sums over the rounds. */
  method GenerateSpeculative(m: Model, d: Draft, prompt: seq<Token>, maxNewTokens: int, eos: set<Token>,
                             width: nat, maxPositions: nat)
    returns (result: Generation, ghost trace: seq<Round>, ghost lone: seq<Token>)
    requires 0 < width <= 16
    ensures result.Generated? <==> prompt != [] && 0 < maxNewTokens && |prompt| + maxNewTokens <= maxPositions
    ensures result == Failed(InvalidArgument) <==> maxNewTokens <= 0 || maxPositions < |prompt| + maxNewTokens
    ensures result.Generated? ==>
              && result.tokens == GreedyTail(Rule(m), prompt, maxNewTokens, eos)
              && Accounted(result.counters, result.recovered, result.tokens, width)
              && result.tokens == Committed(trace) + lone && |lone| <= 1
              && AllPlayed(trace, maxNewTokens, eos, width) && Tallied(result.counters, trace, maxNewTokens, width)
              && Recoveries(result.recovered, result.counters, trace, lone)
              && result.counters.maxWidth == if result.counters.rounds == 0 then 0
                                             else if width < maxNewTokens - 1 then width else maxNewTokens - 1
  {
    hide BetweenRounds, Complete, Accounted, AllPlayed, Tallied, GreedyTail, CacheStack.Valid, CacheStack.Like;
    hide After, DraftAfter, Next, LastHidden;
    if maxNewTokens <= 0 {
      return Failed(InvalidArgument), [], [];
    }
    if |prompt| + maxNewTokens > maxPositions {
      return Failed(InvalidArgument), [], [];
    }
    var found, _ := LookupEmbedding(m, prompt);
    if !found {
      return Failed(BackendError), [], [];
    }
    var session := new SpeculativeSession(m, d, prompt, maxNewTokens, eos, width);
    session.Started();
    session.Run();
    trace, lone := session.trace, session.lone;
    CompleteIsAccounted(Rule(m), prompt, maxNewTokens, eos, width, session.generated, trace, lone,
                        session.counters, session.recovered);
    result := Generated(session.generated[|prompt|..], session.counters, session.recovered);
  }

  // One step of the plain loop: the new tokens go through the committed caches, or through a clone of
  // them that is swapped in afterwards.
  method PlainStep(m: Model, target: CacheStack, ids: seq<Token>, viaScratch: bool, maxSeqLen: nat,
                   ghost history: seq<Token>)
    returns (next: Token)
    requires target.Valid() && target.Contents == After(m, history) && target.Capacity == maxSeqLen
    requires ids != [] && |history| + |ids| <= maxSeqLen
    modifies target.Repr
    ensures target.Valid() && fresh(target.Repr - old(target.Repr))
    ensures target.Contents == After(m, history + ids)
    ensures next == Next(m, history + ids)
  {
    hide CacheStack.Valid, CacheStack.Like, After, Feed;
    var ok, rows;
    if viaScratch {
      var scratch := EmptyLike(target, m.layers, maxSeqLen);
      target.Clone(scratch);
      ok, rows := Extend(m, ids, scratch, maxSeqLen, history);
      target.Swap(scratch);
    } else {
      ok, rows := Extend(m, ids, target, maxSeqLen, history);
    }
    next := ArgmaxRow(m.lmHead(rows[|rows| - 1]));
  }

  /** Plain greedy decoding: one forward per token. A prompt without tokens fails in the first one. */
  method GeneratePlain(m: Model, prompt: seq<Token>, maxNewTokens: int, eos: set<Token>, viaScratch: bool,
                       maxPositions: nat)
    returns (result: Generation)
    ensures result.Generated? <==> prompt != [] && 0 < maxNewTokens && |prompt| + maxNewTokens <= maxPositions
    ensures result == Failed(InvalidArgument) <==> maxNewTokens <= 0 || maxPositions < |prompt| + maxNewTokens
    ensures result.Generated? ==> result.tokens == GreedyTail(Rule(m), prompt, maxNewTokens, eos)
  {
    hide CacheStack.Valid, After, Next, LastHidden, Decoded, GreedyTail;
    if maxNewTokens <= 0 {
      return Failed(InvalidArgument);
    }
    var maxSeqLen := |prompt| + maxNewTokens;
    if maxSeqLen > maxPositions {
      return Failed(InvalidArgument);
    }
    var found, _ := LookupEmbedding(m, prompt);
    if !found {
      return Failed(BackendError);
    }
    var target := new CacheStack(m.layers, maxSeqLen);
    EmptyAfter(m);
    var generated := prompt;
    ghost var seen: seq<Token>, out: seq<Token> := [], [];
    DecodedNothing(Rule(m), prompt, maxNewTokens, eos);
    var step := 0;
    while step < maxNewTokens
      invariant 0 <= step == |out| <= maxNewTokens && generated == prompt + out
      invariant target.Valid() && fresh(target.Repr) && target.Capacity == maxSeqLen
      invariant target.Contents == After(m, seen)
      invariant generated == seen + (if step == 0 then generated else [generated[|generated| - 1]])
      invariant if step == maxNewTokens then out == GreedyTail(Rule(m), prompt, maxNewTokens, eos)
                else Decoded(Rule(m), prompt, maxNewTokens, eos, out)
    {
      var ids := if step == 0 then generated else [generated[|generated| - 1]];
      var next := PlainStep(m, target, ids, viaScratch, maxSeqLen, seen);
      seen := generated;
      OneToken(Rule(m), prompt, maxNewTokens, eos, out, next);
      out := out + [next];
      generated := generated + [next];
      step := step + 1;
      if next in eos {
        break;
      }
    }
    assert generated[|prompt|..] == out;
    result := Generated(generated[|prompt|..], NO_COUNTS, 0);
  }

  lemma OneToken(rule: NextRule, prompt: seq<Token>, budget: nat, eos: set<Token>, out: seq<Token>, next: Token)
    requires Decoded(rule, prompt, budget, eos, out) && |out| < budget && next == rule(prompt + out)
    ensures (prompt + out) + [next] == prompt + (out + [next])
    ensures if next in eos || |out| + 1 == budget
            then GreedyTail(rule, prompt, budget, eos) == out + [next]
            else Decoded(rule, prompt, budget, eos, out + [next])
  {
    var block := [next];
    assert block[..0] == [] && (prompt + out) + [] == prompt + out;
    DecodedExtends(rule, prompt, budget, eos, out, block);
  }
}
