/** The two halves of a speculative round that leave the committed caches alone: proposing tokens from a
    clone of the draft caches, with a checkpoint of every prefix, and verifying them on a snapshot of the
    target caches. */
module Proposals {
  import opened CausalStack
  import opened Greedy
  import opened Drafting
  import opened CacheStacks
  import opened Forwards

  // Checkpoint k is an intact stack shaped like `like` and holds states[k]; `owned` is all the storage
  // of the checkpoints, no two of which share any of it.
  ghost predicate Kept(checkpoints: seq<CacheStack>, states: seq<seq<LayerState>>, like: CacheStack,
                       owned: set<object>)
    reads owned
  {
    && |checkpoints| == |states|
    && (forall k :: 0 <= k < |checkpoints| ==>
          && checkpoints[k] in owned && checkpoints[k].Repr <= owned
          && checkpoints[k].Valid() && like.Like(checkpoints[k]) && checkpoints[k].Contents == states[k])
    && (forall j, k :: 0 <= j < |checkpoints| && 0 <= k < |checkpoints| && j != k ==>
          checkpoints[j] in owned && checkpoints[k] in owned && checkpoints[j].Repr !! checkpoints[k].Repr)
  }

  lemma KeptAppend(checkpoints: seq<CacheStack>, states: seq<seq<LayerState>>, like: CacheStack,
                   owned: set<object>, checkpoint: CacheStack)
    requires Kept(checkpoints, states, like, owned)
    requires checkpoint.Valid() && like.Like(checkpoint) && checkpoint.Repr !! owned
    ensures Kept(checkpoints + [checkpoint], states + [checkpoint.Contents], like, owned + checkpoint.Repr)
  {
    var all := checkpoints + [checkpoint];
    forall j, k | 0 <= j < |all| && 0 <= k < |all| && j != k
      ensures all[j].Repr !! all[k].Repr
    {
      assert j < |checkpoints| ==> checkpoints[j].Repr <= owned;
      assert k < |checkpoints| ==> checkpoints[k].Repr <= owned;
    }
  }

  // Empty caches that another stack's can be cloned into or swapped with.
  method EmptyLike(stack: CacheStack, layers: seq<Layer>, capacity: nat) returns (empty: CacheStack)
    requires stack.Valid() && Matches(layers, stack.Contents) && stack.Capacity == capacity
    ensures empty.Valid() && fresh(empty.Repr) && stack.Like(empty)
  {
    empty := new CacheStack(layers, capacity);
    SlotKinds(stack, layers);
  }

  // A fresh clone of a stack of draft caches.
  method Checkpoint(d: Draft, source: CacheStack, maxSeqLen: nat) returns (checkpoint: CacheStack)
    requires source.Valid() && Matches(d.layers, source.Contents) && source.Capacity == maxSeqLen
    ensures checkpoint.Valid() && fresh(checkpoint.Repr) && source.Like(checkpoint)
    ensures checkpoint.Contents == source.Contents
    ensures source.Valid()
  {
    checkpoint := EmptyLike(source, d.layers, maxSeqLen);
    source.Clone(checkpoint);
  }

  lemma SlotKinds(stack: CacheStack, layers: seq<Layer>)
    requires stack.Valid() && Matches(layers, stack.Contents)
    ensures |stack.slots| == |layers|
    ensures forall i :: 0 <= i < |layers| ==> stack.slots[i].Kv? == layers[i].mixer.Attention?
  {
    forall i | 0 <= i < |layers|
      ensures stack.slots[i].Kv? == layers[i].mixer.Attention?
    {
      assert stack.Holds(i) && Fits(layers[i].mixer, stack.Contents[i]);
    }
  }

  // One draft step: one row into the scratch caches, then a checkpoint of them.
  method ProposeOne(m: Model, d: Draft, scratch: CacheStack, input: Input, maxSeqLen: nat, ghost base: seq<Input>)
    returns (ok: bool, candidate: Token, row: Row, checkpoint: CacheStack)
    requires scratch.Valid() && scratch.Contents == DraftAfter(m, d, base)
    requires |base| + 1 <= maxSeqLen == scratch.Capacity
    modifies scratch.Repr
    ensures ok
    ensures scratch.Valid() && fresh(scratch.Repr - old(scratch.Repr))
    ensures scratch.Contents == DraftAfter(m, d, base + [input])
    ensures checkpoint.Valid() && fresh(checkpoint.Repr) && scratch.Like(checkpoint)
    ensures checkpoint.Contents == scratch.Contents && checkpoint.Repr !! scratch.Repr
    ensures Input(candidate, row) == Following(m, d, base, input)
  {
    var rows;
    ok, rows := ExtendDraft(m, d, [input], scratch, maxSeqLen, base);
    row := rows[0];
    candidate := d.propose(row);
    checkpoint := Checkpoint(d, scratch, maxSeqLen);
  }

  // The draft states behind the checkpoints: entry k follows the first k inputs of the proposal.
  ghost function PrefixStates(m: Model, d: Draft, base: seq<Input>, used: seq<Input>)
    : (states: seq<seq<LayerState>>)
    ensures |states| == |used| + 1
  {
    seq(|used| + 1, k requires 0 <= k <= |used| => DraftAfter(m, d, base + used[..k]))
  }

  lemma PrefixStatesAppend(m: Model, d: Draft, base: seq<Input>, used: seq<Input>, input: Input)
    ensures PrefixStates(m, d, base, used + [input])
         == PrefixStates(m, d, base, used) + [DraftAfter(m, d, (base + used) + [input])]
  {
    var more := used + [input];
    assert more[..|more|] == more && base + more == (base + used) + [input];
    forall k | 0 <= k <= |used|
      ensures PrefixStates(m, d, base, more)[k] == PrefixStates(m, d, base, used)[k]
    {
      assert more[..k] == used[..k];
    }
  }

  /** A proposal: the draft runs from a clone of its committed caches, one token at a time, each time on its
      last candidate and the row it came from, and after every token a checkpoint of the scratch caches is
      kept. Proposing stops after a stop token or `count` tokens, and only then. Neither the committed draft
      caches nor anything else that existed before, other than the scratch, is written. */
  method Propose(m: Model, d: Draft, draft: CacheStack, scratch: CacheStack, pending: Token, hidden: Row,
                 count: nat, eos: set<Token>, maxSeqLen: nat, ghost base: seq<Input>)
    returns (ok: bool, candidates: seq<Token>, checkpoints: seq<CacheStack>,
             ghost used: seq<Input>, ghost owned: set<object>)
    requires draft.Valid() && scratch.Valid() && draft.Like(scratch) && draft.Repr !! scratch.Repr
    requires draft.Contents == DraftAfter(m, d, base)
    requires 0 < count && |base| + count <= maxSeqLen == draft.Capacity
    modifies scratch.Repr
    ensures ok
    ensures 0 < |candidates| <= count && StopsOnlyAtEnd(candidates, eos)
    ensures |candidates| == count || candidates[|candidates| - 1] in eos
    ensures Proposed(m, d, base, Input(pending, hidden), used, candidates)
    ensures draft.Valid() && draft.Repr == old(draft.Repr) && draft.Contents == old(draft.Contents)
    ensures scratch.Valid() && fresh(scratch.Repr - old(scratch.Repr))
    ensures |used| == |candidates| && Tokens(used) == ([pending] + candidates)[..|candidates|]
    ensures scratch.Contents == DraftAfter(m, d, base + used)
    ensures Kept(checkpoints, PrefixStates(m, d, base, used), draft, owned)
    ensures fresh(owned) && owned !! scratch.Repr
  {
    hide CacheStack.Valid, DraftAfter, Following, Proposed, InputAt;
    draft.Clone(scratch);
    var first := Checkpoint(d, draft, maxSeqLen);
    checkpoints, owned := [first], first.Repr;
    candidates, used := [], [];
    ghost var states := [draft.Contents];
    var proposalHidden, proposalInput := hidden, pending;
    assert base + [] == base;
    assert PrefixStates(m, d, base, []) == states;
    NothingProposed(m, d, base, Input(pending, hidden));
    while |candidates| < count
      invariant |candidates| <= count && forall i :: 0 <= i < |candidates| ==> candidates[i] !in eos
      invariant draft.Valid() && draft.Repr == old(draft.Repr) && draft.Contents == old(draft.Contents)
      invariant scratch.Valid() && fresh(scratch.Repr - old(scratch.Repr)) && draft.Like(scratch)
      invariant |used| == |candidates| && Tokens(used) == ([pending] + candidates)[..|candidates|]
      invariant proposalInput == ([pending] + candidates)[|candidates|]
      invariant Proposed(m, d, base, Input(pending, hidden), used, candidates)
      invariant Input(proposalInput, proposalHidden) == InputAt(m, d, base, Input(pending, hidden), used, |used|)
      invariant scratch.Contents == DraftAfter(m, d, base + used)
      invariant Kept(checkpoints, states, draft, owned) && states == PrefixStates(m, d, base, used)
      invariant fresh(owned) && owned !! scratch.Repr
    {
      var input := Input(proposalInput, proposalHidden);
      var candidate, checkpoint;
      ok, candidate, proposalHidden, checkpoint := ProposeOne(m, d, scratch, input, maxSeqLen, base + used);
      proposalInput := candidate;
      ProposedAppend(m, d, base, Input(pending, hidden), used, candidates, input);
      PrefixStatesAppend(m, d, base, used, input);
      TokensAppend(used, [input]);
      KeptAppend(checkpoints, states, draft, owned, checkpoint);
      assert (base + used) + [input] == base + (used + [input]);
      candidates, used := candidates + [candidate], used + [input];
      checkpoints, states, owned := checkpoints + [checkpoint], states + [checkpoint.Contents], owned + checkpoint.Repr;
      if candidate in eos {
        break;
      }
    }
    ok := true;
  }

  /** Verification: the target forwards the pending token and all candidates on a snapshot of its committed
      caches. The committed caches are not written; `accepted` counts the candidates the target agrees
      with, and the block they form is what the target itself would have decoded. */
  method Verify(m: Model, target: CacheStack, snapshot: CacheStack, pending: Token, candidates: seq<Token>,
                maxSeqLen: nat, ghost history: seq<Token>)
    returns (rows: seq<Row>, predictions: seq<Token>, accepted: nat)
    requires target.Valid() && snapshot.Valid() && target.Like(snapshot) && target.Repr !! snapshot.Repr
    requires history != [] && target.Contents == After(m, history) && pending == Next(m, history)
    requires |history| + 1 + |candidates| <= maxSeqLen == target.Capacity
    modifies snapshot.Repr
    ensures target.Valid() && target.Repr == old(target.Repr) && target.Contents == old(target.Contents)
    ensures snapshot.Valid() && fresh(snapshot.Repr - old(snapshot.Repr))
    ensures snapshot.Contents == After(m, history + ([pending] + candidates))
    ensures |rows| == |predictions| == |candidates| + 1 && accepted <= |candidates|
    ensures accepted < |candidates| ==> predictions[accepted] != candidates[accepted]
    ensures var block := [pending] + candidates[..accepted];
            && Follows(Rule(m), history, block)
            && predictions[accepted] == Next(m, history + block)
            && rows[accepted] == LastHidden(m, history + block)
            && Follows(Rule(m), history, block + [predictions[accepted]])
  {
    hide CacheStack.Valid, After, Feed, Follows, LastHidden;
    target.Clone(snapshot);
    var ok;
    ok, rows := Extend(m, [pending] + candidates, snapshot, maxSeqLen, history);
    predictions := PredictRows(m, rows);
    accepted := CountAccepted(predictions, candidates);
    VerifiedRound(m, history, candidates, rows);
  }

  // How many leading candidates the predictions confirm.
  method CountAccepted(predictions: seq<Token>, candidates: seq<Token>) returns (accepted: nat)
    requires |predictions| > |candidates|
    ensures accepted == Agreement(predictions, candidates)
  {
    accepted := 0;
    while accepted < |candidates| && predictions[accepted] == candidates[accepted]
      invariant accepted <= |candidates|
      invariant forall i :: 0 <= i < accepted ==> predictions[i] == candidates[i]
    {
      accepted := accepted + 1;
    }
    AgreementIs(predictions, candidates, accepted);
  }

  /** After a correction the draft's committed caches become the checkpoint of the accepted prefix, by a
      swap, and are fed the correction; nothing of the rejected candidates remains in them. */
  method RecoverDraft(m: Model, d: Draft, draft: CacheStack, checkpoints: seq<CacheStack>, accepted: nat,
                      input: Input, maxSeqLen: nat, ghost states: seq<seq<LayerState>>, ghost kept: seq<Input>,
                      ghost owned: set<object>)
    requires draft.Valid() && draft.Repr !! owned && draft.Capacity == maxSeqLen
    requires Kept(checkpoints, states, draft, owned)
    requires accepted < |states| && states[accepted] == DraftAfter(m, d, kept) && |kept| + 1 <= maxSeqLen
    modifies draft.Repr, owned
    ensures draft.Valid() && fresh(draft.Repr - old(draft.Repr) - owned)
    ensures draft.Contents == DraftAfter(m, d, kept + [input])
  {
    assert accepted < |checkpoints|;  // a checkpoint for every accepted prefix exists
    var checkpoint := checkpoints[accepted];
    draft.Swap(checkpoint);
    var ok, rows := ExtendDraft(m, d, [input], draft, maxSeqLen, kept);
  }

  /** A replay on the committed target caches: they advance by exactly the replayed tokens. */
  method Replay(m: Model, target: CacheStack, ids: seq<Token>, maxSeqLen: nat, ghost history: seq<Token>)
    returns (next: Token, hidden: Row, inputHidden: Row)
    requires target.Valid() && target.Contents == After(m, history)
    requires |ids| >= 2 && |history| + |ids| <= maxSeqLen == target.Capacity
    modifies target.Repr
    ensures target.Valid() && fresh(target.Repr - old(target.Repr))
    ensures target.Contents == After(m, history + ids)
    ensures next == Next(m, history + ids) && hidden == LastHidden(m, history + ids)
    ensures inputHidden == LastHidden(m, history + ids[..|ids| - 1])
  {
    hide CacheStack.Valid, After, Feed, LastHidden;
    var ok, rows := Extend(m, ids, target, maxSeqLen, history);
    LastRows(m, history, ids, rows);
    var predictions := PredictRows(m, rows);
    next, hidden := predictions[|predictions| - 1], rows[|rows| - 1];
    inputHidden := rows[|ids| - 2];
  }
}
