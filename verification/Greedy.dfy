/** Greedy decoding with a causal model: the token a history predicts, the token list a budget and a stop
    set allow, and what one verification forward over a guessed continuation reveals about both. */
module Greedy {
  import opened CausalStack

  type Token = int

  // How a history is continued by one token.
  type NextRule = seq<Token> -> Token

  // `finalNorm` and `lmHead` act on one row; `embed` is the embedding table.
  datatype Model = Model(embed: Token -> Row, layers: seq<Layer>, finalNorm: Row -> Row, lmHead: Row -> Row)

  /* ---------------------------------- argmax ---------------------------------- */

  // The first index holding the largest value; 0 for an empty row.
  function Argmax(row: Row): (best: nat)
    ensures row != [] ==> best < |row|
  {
    if |row| <= 1 then 0
    else
      var init := row[..|row| - 1];
      var b := Argmax(init);
      if row[|row| - 1] > row[b] then |row| - 1 else b
  }

  /** No entry is larger than the chosen one and every earlier entry is strictly smaller. */
  lemma {:induction false} ArgmaxIsFirstMaximum(row: Row, best: nat)
    requires row != [] && best < |row|
    ensures best == Argmax(row) <==>
            && (forall k :: 0 <= k < |row| ==> row[k] <= row[best])
            && (forall k :: 0 <= k < best ==> row[k] < row[best])
  {
    var last := |row| - 1;
    var init := row[..last];
    if init != [] {
      var b := Argmax(init);
      ArgmaxIsFirstMaximum(init, b);
      assert forall k :: 0 <= k < last ==> init[k] == row[k];
    }
  }

  datatype Best = NegativeInfinity | Value(v: real)

  // The host loop over the columns of one logits row.
  method ArgmaxRow(row: Row) returns (result: nat)
    ensures result == Argmax(row)
  {
    var best := NegativeInfinity;
    result := 0;
    for id := 0 to |row|
      invariant result == Argmax(row[..id])
      invariant best == if id == 0 then NegativeInfinity else Value(row[result])
      invariant id > 0 ==> result < id
    {
      assert row[..id + 1][..id] == row[..id];
      if best.NegativeInfinity? || row[id] > best.v {
        best := Value(row[id]);
        result := id;
      }
    }
    assert row[..|row|] == row;
  }

  ghost function Predictions(m: Model, rows: seq<Row>): (ts: seq<Token>)
    ensures |ts| == |rows|
  {
    seq(|rows|, i requires 0 <= i < |rows| => Argmax(m.lmHead(rows[i])))
  }

  method ArgmaxRows(logits: seq<Row>) returns (results: seq<Token>)
    ensures |results| == |logits|
    ensures forall i :: 0 <= i < |logits| ==> results[i] == Argmax(logits[i])
  {
    results := [];
    for row := 0 to |logits|
      invariant |results| == row
      invariant forall i :: 0 <= i < row ==> results[i] == Argmax(logits[i])
    {
      var best := ArgmaxRow(logits[row]);
      results := results + [best];
    }
  }

  /* ---------------------------------- feeding tokens ---------------------------------- */

  ghost function Embedded(m: Model, ts: seq<Token>): (hs: seq<Row>)
    ensures |hs| == |ts|
  {
    seq(|ts|, i requires 0 <= i < |ts| => m.embed(ts[i]))
  }

  ghost function FinalRows(m: Model, hs: seq<Row>): (rows: seq<Row>)
    ensures |rows| == |hs|
  {
    seq(|hs|, i requires 0 <= i < |hs| => m.finalNorm(hs[i]))
  }

  // The tokens fed one at a time through the whole stack: caches afterwards and final hidden rows.
  ghost function Feed(m: Model, ss: seq<LayerState>, ts: seq<Token>): (r: (seq<LayerState>, seq<Row>))
    requires Matches(m.layers, ss)
    ensures Matches(m.layers, r.0) && |r.1| == |ts|
  {
    var (ss', hs) := StackRun(m.layers, ss, Embedded(m, ts));
    (ss', FinalRows(m, hs))
  }

  // The same tokens as one chunk, layer by layer.
  ghost function TargetForward(m: Model, ss: seq<LayerState>, ts: seq<Token>): (r: (seq<LayerState>, seq<Row>))
    requires Matches(m.layers, ss)
    ensures Matches(m.layers, r.0) && |r.1| == |ts|
  {
    var (ss', hs) := StackChunk(m.layers, ss, Embedded(m, ts));
    (ss', FinalRows(m, hs))
  }

  /** One multi-token forward has the rows and the caches of token-by-token decoding. */
  lemma TargetForwardIsFeed(m: Model, ss: seq<LayerState>, ts: seq<Token>)
    requires Matches(m.layers, ss)
    ensures TargetForward(m, ss, ts) == Feed(m, ss, ts)
  {
    ChunkIsSequential(m.layers, ss, Embedded(m, ts));
  }

  /** Feeding in two calls is feeding once, for any split. */
  lemma FeedSplits(m: Model, ss: seq<LayerState>, a: seq<Token>, b: seq<Token>)
    requires Matches(m.layers, ss)
    ensures var (s1, ya) := Feed(m, ss, a);
            var (s2, yb) := Feed(m, s1, b);
            Feed(m, ss, a + b) == (s2, ya + yb)
  {
    assert Embedded(m, a + b) == Embedded(m, a) + Embedded(m, b);
    RunSplits(m.layers, ss, Embedded(m, a), Embedded(m, b));
    var (s1, ha) := StackRun(m.layers, ss, Embedded(m, a));
    var (s2, hb) := StackRun(m.layers, s1, Embedded(m, b));
    assert FinalRows(m, ha + hb) == FinalRows(m, ha) + FinalRows(m, hb);
  }

  // The caches after a history, starting from nothing.
  ghost function After(m: Model, history: seq<Token>): (ss: seq<LayerState>)
    ensures Matches(m.layers, ss)
  {
    Feed(m, InitialStates(m.layers), history).0
  }

  // The final hidden row of the last token of a history.
  ghost function LastHidden(m: Model, history: seq<Token>): Row {
    if history == [] then [] else Feed(m, InitialStates(m.layers), history).1[|history| - 1]
  }

  // The token the model picks after a history.
  ghost function Next(m: Model, history: seq<Token>): Token {
    if history == [] then 0 else Argmax(m.lmHead(LastHidden(m, history)))
  }

  // The model as a rule for continuing a history.
  ghost function Rule(m: Model): (next: NextRule)
    ensures forall h :: next(h) == Next(m, h)
  {
    h => Next(m, h)
  }

  /** Row i of a forward over `ts` on the caches of `history` is the hidden row, and predicts the token,
      of `history` followed by ts[0..i]; the caches become those of `history + ts`. */
  lemma ForwardPredicts(m: Model, history: seq<Token>, ts: seq<Token>)
    ensures var (ss, rows) := Feed(m, After(m, history), ts);
            && ss == After(m, history + ts)
            && forall i :: 0 <= i < |ts| ==>
                 && rows[i] == LastHidden(m, history + ts[..i + 1])
                 && Predictions(m, rows)[i] == Next(m, history + ts[..i + 1])
  {
    var init := InitialStates(m.layers);
    var (ss, rows) := Feed(m, After(m, history), ts);
    FeedSplits(m, init, history, ts);
    forall i | 0 <= i < |ts|
      ensures rows[i] == LastHidden(m, history + ts[..i + 1])
    {
      RowOfPrefix(m, history, ts, i);
    }
  }

  lemma RowOfPrefix(m: Model, history: seq<Token>, ts: seq<Token>, i: nat)
    requires i < |ts|
    ensures Feed(m, After(m, history), ts).1[i] == LastHidden(m, history + ts[..i + 1])
  {
    var init := InitialStates(m.layers);
    var head, tail := ts[..i + 1], ts[i + 1..];
    assert head + tail == ts;
    FeedSplits(m, After(m, history), head, tail);
    FeedSplits(m, init, history, head);
  }

  /* ---------------------------------- greedy decoding ---------------------------------- */

  /** What plain greedy decoding appends to a history: stop after the first stop token or at the budget. */
  ghost function GreedyTail(next: NextRule, history: seq<Token>, budget: nat, eos: set<Token>): (out: seq<Token>)
    ensures |out| <= budget
    decreases budget
  {
    if budget == 0 then []
    else
      var t := next(history);
      if t in eos then [t] else [t] + GreedyTail(next, history + [t], budget - 1, eos)
  }

  // Every token of `block` is the model's choice after what precedes it.
  ghost predicate Follows(next: NextRule, history: seq<Token>, block: seq<Token>)
  {
    forall i :: 0 <= i < |block| ==> block[i] == next(history + block[..i])
  }

  lemma FollowsUncons(next: NextRule, history: seq<Token>, block: seq<Token>)
    requires block != []
    ensures Follows(next, history, block)
       <==> block[0] == next(history) && Follows(next, history + [block[0]], block[1..])
  {
    var rest := block[1..];
    assert history + block[..0] == history;
    forall i | 0 <= i < |rest|
      ensures (history + [block[0]]) + rest[..i] == history + block[..i + 1] && rest[i] == block[i + 1]
    {
      assert [block[0]] + rest[..i] == block[..i + 1];
    }
    if block[0] == next(history) && Follows(next, history + [block[0]], rest) {
      forall i | 0 <= i < |block| ensures block[i] == next(history + block[..i]) {
        if i > 0 {
          assert rest[i - 1] == next((history + [block[0]]) + rest[..i - 1]);
        }
      }
    }
  }

  // No stop token before the last position.
  ghost predicate StopsOnlyAtEnd(out: seq<Token>, eos: set<Token>) {
    forall i :: 0 <= i < |out| - 1 ==> out[i] !in eos
  }

  lemma StopsOnlyAtEndUncons(out: seq<Token>, eos: set<Token>)
    requires |out| > 1
    ensures StopsOnlyAtEnd(out, eos) <==> out[0] !in eos && StopsOnlyAtEnd(out[1..], eos)
  {
    var rest := out[1..];
    if out[0] !in eos && StopsOnlyAtEnd(rest, eos) {
      forall i | 0 <= i < |out| - 1 ensures out[i] !in eos {
        if i > 0 { assert rest[i - 1] !in eos; }
      }
    }
    if StopsOnlyAtEnd(out, eos) {
      forall i | 0 <= i < |rest| - 1 ensures rest[i] !in eos {
        assert out[i + 1] !in eos;
      }
    }
  }

  // Ends because the budget is used up or because of a stop token.
  ghost predicate EndsProperly(out: seq<Token>, budget: nat, eos: set<Token>) {
    |out| == budget || (out != [] && out[|out| - 1] in eos)
  }

  /** The greedy output is the one token list that follows the model, has no stop token before its end,
      and ends only at the budget or on a stop token. */
  lemma {:induction false} GreedyTailIsUnique(next: NextRule, history: seq<Token>, budget: nat, eos: set<Token>,
                                              out: seq<Token>)
    ensures out == GreedyTail(next, history, budget, eos) <==>
            && |out| <= budget
            && Follows(next, history, out)
            && StopsOnlyAtEnd(out, eos)
            && EndsProperly(out, budget, eos)
    decreases budget
  {
    if out == [] || budget == 0 {
    } else if |out| == 1 {
      FollowsUncons(next, history, out);
      assert out == [out[0]];
      if budget > 1 {
        assert GreedyTail(next, history + [out[0]], budget - 1, eos) != [];
      }
    } else {
      FollowsUncons(next, history, out);
      StopsOnlyAtEndUncons(out, eos);
      GreedyTailIsUnique(next, history + [out[0]], budget - 1, eos, out[1..]);
      Uncons(out, GreedyTail(next, history, budget, eos));
    }
  }

  lemma Uncons(a: seq<Token>, b: seq<Token>)
    requires a != []
    ensures a == b <==> b != [] && a[0] == b[0] && a[1..] == b[1..]
  {
    if b != [] && a[0] == b[0] && a[1..] == b[1..] {
      assert a == [a[0]] + a[1..];
      assert b == [b[0]] + b[1..];
    }
  }

  // One step of greedy decoding.
  lemma GreedyStep(next: NextRule, history: seq<Token>, budget: nat, eos: set<Token>)
    requires budget > 0
    ensures var t := next(history);
            GreedyTail(next, history, budget, eos)
            == [t] + (if t in eos then [] else GreedyTail(next, history + [t], budget - 1, eos))
  {
  }

  lemma NoBudget(next: NextRule, history: seq<Token>, eos: set<Token>)
    ensures GreedyTail(next, history, 0, eos) == []
  {
  }

  /** A block that follows the model, fits the budget and has no stop token before its end is the start of
      the greedy output; the rest of the output continues after the block. */
  lemma {:induction false} GreedyBlock(next: NextRule, history: seq<Token>, block: seq<Token>, budget: nat,
                                       eos: set<Token>)
    requires block != [] && |block| <= budget
    requires Follows(next, history, block) && StopsOnlyAtEnd(block, eos)
    ensures GreedyTail(next, history, budget, eos)
         == block + (if block[|block| - 1] in eos then []
                     else GreedyTail(next, history + block, budget - |block|, eos))
    decreases |block|
  {
    hide GreedyTail, Follows;
    FollowsUncons(next, history, block);
    GreedyStep(next, history, budget, eos);
    var first, rest := [block[0]], block[1..];
    assert block == first + rest;
    if |block| == 1 {
      assert block == first;
    } else {
      StopsOnlyAtEndUncons(block, eos);
      GreedyBlock(next, history + first, rest, budget - 1, eos);
      Regroup(history, first, rest, if block[|block| - 1] in eos then []
                                    else GreedyTail(next, history + block, budget - |block|, eos));
    }
  }

  // `out` is a proper start of the greedy output for the prompt: decoding continues after it.
  ghost predicate Decoded(next: NextRule, prompt: seq<Token>, budget: nat, eos: set<Token>, out: seq<Token>) {
    && |out| <= budget
    && GreedyTail(next, prompt, budget, eos) == out + GreedyTail(next, prompt + out, budget - |out|, eos)
  }

  lemma DecodedNothing(next: NextRule, prompt: seq<Token>, budget: nat, eos: set<Token>)
    ensures Decoded(next, prompt, budget, eos, [])
  {
    assert prompt + [] == prompt;
  }

  lemma DecodedExtends(next: NextRule, prompt: seq<Token>, budget: nat, eos: set<Token>, out: seq<Token>,
                       block: seq<Token>)
    requires Decoded(next, prompt, budget, eos, out)
    requires block != [] && |out| + |block| <= budget
    requires Follows(next, prompt + out, block) && StopsOnlyAtEnd(block, eos)
    ensures if block[|block| - 1] in eos || |out| + |block| == budget
            then GreedyTail(next, prompt, budget, eos) == out + block
            else Decoded(next, prompt, budget, eos, out + block)
  {
    hide GreedyTail, Follows, StopsOnlyAtEnd;
    var text, left := prompt + out, budget - |out|;
    var rest := if block[|block| - 1] in eos then [] else GreedyTail(next, text + block, left - |block|, eos);
    GreedyBlock(next, text, block, left, eos);
    NoBudget(next, text + block, eos);
    Regroup(prompt, out, block, rest);
  }

  lemma Regroup(prompt: seq<Token>, out: seq<Token>, block: seq<Token>, rest: seq<Token>)
    ensures (prompt + out) + block == prompt + (out + block)
    ensures out + (block + rest) == (out + block) + rest
    ensures rest == [] ==> out + (block + rest) == out + block
  {
  }

  /* ---------------------------------- one speculative round ---------------------------------- */

  // How many candidates agree with the target's predictions before the first disagreement.
  ghost function Agreement(predictions: seq<Token>, candidates: seq<Token>): (n: nat)
    requires |predictions| > |candidates|
    ensures n <= |candidates|
    ensures forall i :: 0 <= i < n ==> predictions[i] == candidates[i]
    ensures n < |candidates| ==> predictions[n] != candidates[n]
  {
    if candidates == [] || predictions[0] != candidates[0] then 0
    else 1 + Agreement(predictions[1..], candidates[1..])
  }

  // Prediction i is what the rule says after the first i + 1 ids.
  ghost predicate Predicts(next: NextRule, history: seq<Token>, ids: seq<Token>, predictions: seq<Token>) {
    |predictions| == |ids| && forall i :: 0 <= i < |ids| ==> predictions[i] == next(history + ids[..i + 1])
  }

  lemma AgreeingFollow(next: NextRule, history: seq<Token>, candidates: seq<Token>, predictions: seq<Token>, n: nat)
    requires Predicts(next, history, [next(history)] + candidates, predictions) && n <= |candidates|
    requires forall i :: 0 <= i < n ==> predictions[i] == candidates[i]
    ensures Follows(next, history, ([next(history)] + candidates)[..n + 1])
  {
    var ids := [next(history)] + candidates;
    var block := ids[..n + 1];
    forall i | 0 <= i < |block| ensures block[i] == next(history + block[..i]) {
      assert block[..i] == ids[..i];
      if i == 0 {
        assert history + ids[..0] == history;
      } else {
        var p := i - 1;
        assert ids[i] == candidates[p] == predictions[p] == next(history + ids[..p + 1]);
      }
    }
  }

  /** If row i of the predictions continues the history by the rule after ids[0..i], the pending token, the
      agreeing candidates and the prediction after them all follow the rule. */
  lemma RoundFollows(next: NextRule, history: seq<Token>, candidates: seq<Token>, predictions: seq<Token>)
    requires Predicts(next, history, [next(history)] + candidates, predictions)
    ensures var n := Agreement(predictions, candidates);
            var block := [next(history)] + candidates[..n];
            && Follows(next, history, block)
            && predictions[n] == next(history + block)
            && Follows(next, history, block + [predictions[n]])
  {
    hide Follows, Agreement;
    var ids := [next(history)] + candidates;
    var n := Agreement(predictions, candidates);
    AgreeingFollow(next, history, candidates, predictions, n);
    assert ids[..n + 1] == [next(history)] + candidates[..n];
    FollowsAppend(next, history, ids[..n + 1]);
  }

  lemma FollowsAppend(next: NextRule, history: seq<Token>, block: seq<Token>)
    requires Follows(next, history, block)
    ensures Follows(next, history, block + [next(history + block)])
  {
    var more := block + [next(history + block)];
    forall i | 0 <= i < |more| ensures more[i] == next(history + more[..i]) {
      assert more[..i] == block[..i];
    }
    assert block[..|block|] == block;
  }

  /** For ANY candidates: verifying them on the caches of `history` yields tokens the model itself would
      have produced, namely the pending token, the agreeing candidates and the target's next prediction. */
  lemma VerifiedRound(m: Model, history: seq<Token>, candidates: seq<Token>, rows: seq<Row>)
    requires history != []
    requires rows == Feed(m, After(m, history), [Next(m, history)] + candidates).1
    ensures var predictions := Predictions(m, rows);
            var n := Agreement(predictions, candidates);
            var block := [Next(m, history)] + candidates[..n];
            && Follows(Rule(m), history, block)
            && predictions[n] == Next(m, history + block)
            && rows[n] == LastHidden(m, history + block)
            && Follows(Rule(m), history, block + [predictions[n]])
  {
    hide Follows, Feed;
    var ids := [Next(m, history)] + candidates;
    var predictions := Predictions(m, rows);
    var n := Agreement(predictions, candidates);
    ForwardPredicts(m, history, ids);
    RoundFollows(Rule(m), history, candidates, predictions);
    assert ids[..n + 1] == [Next(m, history)] + candidates[..n];
  }

  lemma AgreementIs(predictions: seq<Token>, candidates: seq<Token>, n: nat)
    requires |predictions| > |candidates| && n <= |candidates|
    requires forall i :: 0 <= i < n ==> predictions[i] == candidates[i]
    requires n < |candidates| ==> predictions[n] != candidates[n]
    ensures Agreement(predictions, candidates) == n
  {
  }
}
