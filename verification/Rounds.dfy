/** Bookkeeping of speculative rounds, on values: what the text, the draft's tokens and the counters look
    like between rounds, and how one round of any outcome moves them. */
module Rounds {
  import opened Greedy
  import opened Drafting

  // The counters the generation result reports.
  datatype Counters = Counters(
    rounds: nat, proposed: nat, accepted: nat, rejected: nat, corrections: nat, replayed: nat,
    maxWidth: nat, draftClones: nat, targetClones: nat)

  const NO_COUNTS := Counters(0, 0, 0, 0, 0, 0, 0, 0, 0)

  // The books balance when every round has been committed and `appended` tokens were produced.
  ghost predicate Balanced(c: Counters, appended: nat, width: nat) {
    && c.proposed == c.accepted + c.rejected
    && appended == c.accepted + c.rounds + c.corrections
    && c.corrections <= c.rejected && c.corrections <= c.rounds <= c.proposed <= c.rounds * width
    && 2 * c.corrections <= c.replayed <= 2 * c.corrections + c.accepted
    && c.draftClones == 2 * c.rounds + c.proposed && c.targetClones == c.rounds
    && c.maxWidth <= width
  }

  // Candidates proposed when `before` tokens are committed: as many as the width and the budget allow, or
  // fewer that end with a stop token.
  ghost predicate Full(candidates: seq<Token>, before: int, budget: nat, eos: set<Token>, width: nat) {
    && 0 < |candidates| <= width && before + 1 + |candidates| <= budget && StopsOnlyAtEnd(candidates, eos)
    && (|candidates| == width || before + 1 + |candidates| == budget || candidates[|candidates| - 1] in eos)
  }

  // A round committed its first token, the accepted candidates, and after a mismatch the correction.
  ghost predicate Played(r: Round, before: int, budget: nat, eos: set<Token>, width: nat) {
    && Full(r.candidates, before, budget, eos, width) && r.omitted <= |r.candidates|
    && |r.block| == r.omitted + (if r.omitted < |r.candidates| then 2 else 1)
    && r.block[1..r.omitted + 1] == r.candidates[..r.omitted]
    && (r.omitted < |r.candidates| ==> r.block[r.omitted + 1] != r.candidates[r.omitted])
  }

  ghost predicate AllPlayed(trace: seq<Round>, budget: nat, eos: set<Token>, width: nat) {
    forall i :: 0 <= i < |trace| ==> Played(trace[i], |Committed(trace[..i])|, budget, eos, width)
  }

  // One number per round, added up.
  ghost function SumOver(trace: seq<Round>, count: Round -> nat): nat {
    if trace == [] then 0 else SumOver(trace[..|trace| - 1], count) + count(trace[|trace| - 1])
  }

  // The counters are the sums over the rounds; the widest proposal was planned in the first one.
  ghost predicate Tallied(c: Counters, trace: seq<Round>, budget: nat, width: nat) {
    && c.rounds == |trace|
    && c.proposed == SumOver(trace, (r: Round) => |r.candidates|)
    && c.accepted == SumOver(trace, (r: Round) => r.omitted)
    && c.corrections == SumOver(trace, (r: Round) => if r.omitted < |r.candidates| then 1 else 0)
    && c.replayed == SumOver(trace, (r: Round) => if r.omitted < |r.candidates| then |r.block| else 0)
    && if trace == [] then c.maxWidth == 0
       else c.maxWidth <= width && c.maxWidth < budget && (c.maxWidth == width || c.maxWidth == budget - 1)
  }

  // What the next round relies on, as values: the committed text, the pending token, the tokens the draft
  // cache has rows for, and the counters.
  ghost predicate BetweenRounds(next: NextRule, prompt: seq<Token>, budget: nat, eos: set<Token>, width: nat,
                                generated: seq<Token>, pending: Token, drafted: seq<Token>,
                                trace: seq<Round>, c: Counters)
  {
    && ValidTrace(trace)
    && generated == prompt + Committed(trace)
    && drafted == prompt + Drafted(trace)
    && Decoded(next, prompt, budget, eos, Committed(trace))
    && |Committed(trace)| < budget
    && pending == next(generated)
    && Balanced(c, |Committed(trace)|, width) && c.rounds == |trace|
    && AllPlayed(trace, budget, eos, width) && Tallied(c, trace, budget, width)
  }

  // The text is the greedy output; a lone last token is one no cache has seen.
  ghost predicate Complete(next: NextRule, prompt: seq<Token>, budget: nat, eos: set<Token>, width: nat,
                           generated: seq<Token>, trace: seq<Round>, lone: seq<Token>, c: Counters)
  {
    && ValidTrace(trace) && |lone| <= 1
    && generated == prompt + (Committed(trace) + lone)
    && Committed(trace) + lone == GreedyTail(next, prompt, budget, eos)
    && Balanced(c, |Committed(trace)|, width) && c.rounds == |trace|
    && AllPlayed(trace, budget, eos, width) && Tallied(c, trace, budget, width)
  }

  // The counters after one more round of k proposals, a of them accepted.
  function Counted(c: Counters, k: nat, a: nat, maxWidth: nat): Counters
    requires a <= k
  {
    var missed := if a < k then 1 else 0;
    Counters(c.rounds + 1, c.proposed + k, c.accepted + a, c.rejected + (k - a), c.corrections + missed,
             c.replayed + missed * (a + 2), maxWidth,
             c.draftClones + 2 + k, c.targetClones + 1)
  }

  lemma CountedBalances(c: Counters, appended: nat, width: nat, k: nat, a: nat, maxWidth: nat)
    requires Balanced(c, appended, width) && 0 < k <= width && a <= k && maxWidth <= width
    ensures Balanced(Counted(c, k, a, maxWidth), appended + 1 + a + (if a < k then 1 else 0), width)
  {
    OneMore(c.rounds, width);
    Replayed(if a < k then 1 else 0, a);
  }

  lemma OneMore(rounds: nat, width: nat)
    ensures (rounds + 1) * width == rounds * width + width
  {
  }

  lemma Replayed(missed: nat, a: nat)
    requires missed <= 1
    ensures 2 * missed <= missed * (a + 2) <= 2 * missed + a
  {
  }

  // One round on values: the block committed, and the tokens whose rows the draft keeps.
  ghost function Block(pending: Token, candidates: seq<Token>, a: nat, correction: Token): (block: seq<Token>)
    requires a <= |candidates|
    ensures |block| == 1 + a + (if a < |candidates| then 1 else 0)
  {
    [pending] + candidates[..a] + (if a < |candidates| then [correction] else [])
  }

  lemma BlockStops(pending: Token, candidates: seq<Token>, a: nat, correction: Token, eos: set<Token>)
    requires 0 < |candidates| && a <= |candidates| && pending !in eos && StopsOnlyAtEnd(candidates, eos)
    ensures StopsOnlyAtEnd(Block(pending, candidates, a, correction), eos)
  {
    var block := Block(pending, candidates, a, correction);
    forall i | 0 <= i < |block| - 1 ensures block[i] !in eos {
      if i > 0 {
        assert block[i] == candidates[i - 1];
      }
    }
  }

  lemma BlockOmits(pending: Token, candidates: seq<Token>, a: nat, correction: Token)
    requires 0 < |candidates| && a <= |candidates|
    ensures Omit(Block(pending, candidates, a, correction), a)
         == ([pending] + candidates)[..a] + (if a < |candidates| then [correction] else [])
  {
  }

  // The widest proposal planned so far, with one of `planned` tokens.
  ghost predicate Widens(widest: nat, c: Counters, planned: nat) {
    widest == if c.maxWidth < planned then planned else c.maxWidth
  }

  // Planned is as many tokens as the width and the budget allow.
  ghost predicate Plans(planned: nat, before: int, budget: nat, width: nat) {
    && 0 < planned <= width && before + 1 + planned <= budget
    && (planned == width || before + 1 + planned == budget)
  }

  lemma TallyGrows(c: Counters, trace: seq<Round>, budget: nat, eos: set<Token>, width: nat, r: Round, planned: nat,
                   widest: nat)
    requires Tallied(c, trace, budget, width) && AllPlayed(trace, budget, eos, width)
    requires Played(r, |Committed(trace)|, budget, eos, width)
    requires Plans(planned, |Committed(trace)|, budget, width) && Widens(widest, c, planned)
    ensures AllPlayed(trace + [r], budget, eos, width)
    ensures Tallied(Counted(c, |r.candidates|, r.omitted, widest), trace + [r], budget, width)
  {
    hide Played, Committed, AllPlayed;
    var more := trace + [r];
    assert more[..|trace|] == trace && more[|trace|] == r;
    PlayedGrows(trace, budget, eos, width, r);
    FullFits(r, |Committed(trace)|, budget, eos, width);
    NothingCommitted();
  }

  lemma NothingCommitted()
    ensures Committed([]) == []
  {
  }

  lemma PlayedGrows(trace: seq<Round>, budget: nat, eos: set<Token>, width: nat, r: Round)
    requires AllPlayed(trace, budget, eos, width) && Played(r, |Committed(trace)|, budget, eos, width)
    ensures AllPlayed(trace + [r], budget, eos, width)
  {
    hide Played, Committed;
    var more := trace + [r];
    assert more[..|trace|] == trace;
    forall i | 0 <= i < |trace| ensures more[..i] == trace[..i] && more[i] == trace[i] {
    }
  }

  // What a round's own numbers say.
  lemma FullFits(r: Round, before: int, budget: nat, eos: set<Token>, width: nat)
    requires Played(r, before, budget, eos, width)
    ensures r.omitted <= |r.candidates| && |r.block| == r.omitted + (if r.omitted < |r.candidates| then 2 else 1)
  {
  }

  lemma GrownText(prompt: seq<Token>, trace: seq<Round>, r: Round)
    requires ValidTrace(trace) && |r.block| >= 2 && r.omitted < |r.block|
    ensures ValidTrace(trace + [r])
    ensures Committed(trace + [r]) == Committed(trace) + r.block
    ensures (prompt + Committed(trace)) + r.block == prompt + Committed(trace + [r])
    ensures prompt + Drafted(trace + [r]) == (prompt + Drafted(trace)) + Omit(r.block, r.omitted)
    ensures Committed(trace + [r]) + [] == Committed(trace + [r])
  {
    hide ValidTrace, Committed, Drafted, Omit;
    TraceAppend(trace, r);
    Regroup(prompt, Committed(trace), r.block, []);
    Regroup(prompt, Drafted(trace), Omit(r.block, r.omitted), []);
  }

  /** After a round of any outcome the text is either complete or ready for the next round. */
  lemma RoundAdvances(next: NextRule, prompt: seq<Token>, budget: nat, eos: set<Token>, width: nat,
                      generated: seq<Token>, pending: Token, drafted: seq<Token>, trace: seq<Round>,
                      c: Counters, candidates: seq<Token>, a: nat, correction: Token, planned: nat, widest: nat)
    requires BetweenRounds(next, prompt, budget, eos, width, generated, pending, drafted, trace, c)
    requires pending !in eos && a <= |candidates| && (a < |candidates| ==> correction != candidates[a])
    requires Full(candidates, |Committed(trace)|, budget, eos, width)
    requires Plans(planned, |Committed(trace)|, budget, width) && Widens(widest, c, planned)
    requires Follows(next, generated, Block(pending, candidates, a, correction))
    ensures var block := Block(pending, candidates, a, correction);
            var trace' := trace + [Round(block, a, candidates)];
            var c' := Counted(c, |candidates|, a, widest);
            && |generated + block| <= |prompt| + budget
            && if block[|block| - 1] in eos || |generated + block| == |prompt| + budget
               then Complete(next, prompt, budget, eos, width, generated + block, trace', [], c')
               else BetweenRounds(next, prompt, budget, eos, width, generated + block, next(generated + block),
                                  drafted + Omit(block, a), trace', c')
  {
    hide GreedyTail, Follows, StopsOnlyAtEnd, Committed, Drafted, ValidTrace, Omit, Balanced, Decoded, Block;
    hide AllPlayed, Tallied, Played;
    var block := Block(pending, candidates, a, correction);
    var r := Round(block, a, candidates);
    BlockStops(pending, candidates, a, correction, eos);
    WidestFits(c, |Committed(trace)|, width, planned, widest);
    CountedBalances(c, |Committed(trace)|, width, |candidates|, a, widest);
    DecodedExtends(next, prompt, budget, eos, Committed(trace), block);
    GrownText(prompt, trace, r);
    BlockIsPlayed(pending, candidates, a, correction, |Committed(trace)|, budget, eos, width);
    TallyGrows(c, trace, budget, eos, width, r, planned, widest);
  }

  lemma BlockIsPlayed(pending: Token, candidates: seq<Token>, a: nat, correction: Token, before: nat, budget: nat,
                      eos: set<Token>, width: nat)
    requires Full(candidates, before, budget, eos, width) && a <= |candidates|
    requires a < |candidates| ==> correction != candidates[a]
    ensures Played(Round(Block(pending, candidates, a, correction), a, candidates), before, budget, eos, width)
  {
  }

  lemma WidestFits(c: Counters, appended: nat, width: nat, planned: nat, widest: nat)
    requires Balanced(c, appended, width) && planned <= width && Widens(widest, c, planned)
    ensures widest <= width
  {
  }

  // The outcome of a round as the session's fields show it.
  ghost predicate Outcome(next: NextRule, prompt: seq<Token>, budget: nat, eos: set<Token>, width: nat,
                          generated: seq<Token>, drafted: seq<Token>, trace: seq<Round>, c: Counters)
  {
    if generated != [] && (generated[|generated| - 1] in eos || |generated| >= |prompt| + budget) then
      && Complete(next, prompt, budget, eos, width, generated, trace, [], c)
      && generated == prompt + Committed(trace)
    else
      BetweenRounds(next, prompt, budget, eos, width, generated, next(generated), drafted, trace, c)
  }

  lemma AcceptedOutcome(next: NextRule, prompt: seq<Token>, budget: nat, eos: set<Token>, width: nat,
                        generated: seq<Token>, pending: Token, drafted: seq<Token>, trace: seq<Round>,
                        c: Counters, candidates: seq<Token>, planned: nat, widest: nat)
    requires BetweenRounds(next, prompt, budget, eos, width, generated, pending, drafted, trace, c)
    requires pending !in eos && Full(candidates, |generated| - |prompt|, budget, eos, width)
    requires Plans(planned, |generated| - |prompt|, budget, width) && Widens(widest, c, planned)
    requires Follows(next, generated, [pending] + candidates[..|candidates|])
    ensures var trace' := trace + [Round([pending] + candidates, |candidates|, candidates)];
            var c' := Counted(c, |candidates|, |candidates|, widest);
            Outcome(next, prompt, budget, eos, width, generated + ([pending] + candidates),
                    drafted + ([pending] + candidates)[..|candidates|], trace', c')
  {
    hide AllPlayed, Tallied, Played, Decoded, Balanced, Follows, GreedyTail;
    var k := |candidates|;
    assert Block(pending, candidates, k, 0) == [pending] + candidates[..k] == [pending] + candidates;
    RoundAdvances(next, prompt, budget, eos, width, generated, pending, drafted, trace, c, candidates, k, 0,
                  planned, widest);
    BlockOmits(pending, candidates, k, 0);
    assert ([pending] + candidates)[..k] + [] == ([pending] + candidates)[..k];
    GrownText(prompt, trace, Round([pending] + candidates, k, candidates));
  }

  lemma CorrectedOutcome(next: NextRule, prompt: seq<Token>, budget: nat, eos: set<Token>, width: nat,
                         generated: seq<Token>, pending: Token, drafted: seq<Token>, trace: seq<Round>,
                         c: Counters, candidates: seq<Token>, a: nat, correction: Token, planned: nat, widest: nat)
    requires BetweenRounds(next, prompt, budget, eos, width, generated, pending, drafted, trace, c)
    requires pending !in eos && a < |candidates| && correction != candidates[a]
    requires Full(candidates, |generated| - |prompt|, budget, eos, width)
    requires Plans(planned, |generated| - |prompt|, budget, width) && Widens(widest, c, planned)
    requires Follows(next, generated, [pending] + candidates[..a] + [correction])
    ensures var block := [pending] + candidates[..a] + [correction];
            var c' := Counted(c, |candidates|, a, widest);
            Outcome(next, prompt, budget, eos, width, generated + block,
                    drafted + (([pending] + candidates)[..a] + [correction]), trace + [Round(block, a, candidates)], c')
  {
    hide AllPlayed, Tallied, Played, Decoded, Balanced, Follows, GreedyTail;
    var block := [pending] + candidates[..a] + [correction];
    assert Block(pending, candidates, a, correction) == block;
    RoundAdvances(next, prompt, budget, eos, width, generated, pending, drafted, trace, c, candidates, a, correction,
                  planned, widest);
    BlockOmits(pending, candidates, a, correction);
    GrownText(prompt, trace, Round(block, a, candidates));
  }

  /** A stop token or the last place in the budget is filled without a round. */
  lemma LoneTokenCompletes(next: NextRule, prompt: seq<Token>, budget: nat, eos: set<Token>, width: nat,
                           generated: seq<Token>, pending: Token, drafted: seq<Token>, trace: seq<Round>, c: Counters)
    requires BetweenRounds(next, prompt, budget, eos, width, generated, pending, drafted, trace, c)
    requires pending in eos || |generated| + 1 == |prompt| + budget
    ensures generated == prompt + Committed(trace)
    ensures Complete(next, prompt, budget, eos, width, generated + [pending], trace, [pending], c)
  {
    var block := [pending];
    assert block[..0] == [] && generated + [] == generated;
    DecodedExtends(next, prompt, budget, eos, Committed(trace), block);
    Regroup(prompt, Committed(trace), block, []);
  }

  // Right after the prefill.
  lemma NothingDecoded(next: NextRule, prompt: seq<Token>, budget: nat, eos: set<Token>, width: nat)
    requires 0 < budget
    ensures BetweenRounds(next, prompt, budget, eos, width, prompt, next(prompt), prompt, [], NO_COUNTS)
  {
    assert prompt + [] == prompt;
    DecodedNothing(next, prompt, budget, eos);
  }

  /** Between rounds the draft lags by one row per round, and there is room for at least one more token. */
  lemma BetweenRoundsFacts(next: NextRule, prompt: seq<Token>, budget: nat, eos: set<Token>, width: nat,
                           generated: seq<Token>, pending: Token, drafted: seq<Token>, trace: seq<Round>, c: Counters)
    requires BetweenRounds(next, prompt, budget, eos, width, generated, pending, drafted, trace, c)
    ensures pending == next(generated)
    ensures |prompt| <= |generated| < |prompt| + budget
    ensures |drafted| == |generated| - c.rounds
    ensures c.maxWidth <= width
  {
    DraftLag(trace);
  }

  // Every correction is followed by a recovery of the draft, but one that ends the text.
  ghost predicate Recoveries(recovered: nat, c: Counters, trace: seq<Round>, lone: seq<Token>) {
    var last := |trace| - 1;
    c.corrections == recovered
      + if lone == [] && trace != [] && trace[last].omitted < |trace[last].candidates| then 1 else 0
  }

  /** What the reported counters of a finished request say about the reported tokens. Only a correction that
      ends the text goes without a recovery. */
  ghost predicate Accounted(c: Counters, recovered: nat, tokens: seq<Token>, width: nat) {
    && c.proposed == c.accepted + c.rejected
    && c.accepted + c.rounds + c.corrections <= |tokens| <= c.accepted + c.rounds + c.corrections + 1
    && c.corrections <= c.rounds && c.corrections <= c.rejected && c.rounds <= c.proposed <= c.rounds * width
    && 2 * c.rounds <= |tokens|
    && recovered <= c.corrections <= recovered + 1
    && 2 * c.corrections <= c.replayed <= 2 * c.corrections + c.accepted
    && c.draftClones == 2 * c.rounds + c.proposed && c.targetClones == c.rounds && c.maxWidth <= width
  }

  lemma CompleteIsAccounted(next: NextRule, prompt: seq<Token>, budget: nat, eos: set<Token>, width: nat,
                            generated: seq<Token>, trace: seq<Round>, lone: seq<Token>, c: Counters, recovered: nat)
    requires Complete(next, prompt, budget, eos, width, generated, trace, lone, c)
    requires Recoveries(recovered, c, trace, lone)
    ensures |prompt| <= |generated|
    ensures generated[|prompt|..] == GreedyTail(next, prompt, budget, eos)
    ensures generated[|prompt|..] == Committed(trace) + lone && |lone| <= 1
    ensures Accounted(c, recovered, generated[|prompt|..], width)
    ensures AllPlayed(trace, budget, eos, width) && Tallied(c, trace, budget, width)
    ensures c.maxWidth == if c.rounds == 0 then 0 else if width < budget - 1 then width else budget - 1
  {
    DraftLag(trace);
  }
}
