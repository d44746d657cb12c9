/** The draft (multi-token prediction) model, on values, and what its cache remembers across rounds. */
module Drafting {
  import opened CausalStack
  import opened Greedy

  // `fuse` combines a token embedding with a hidden row, `layers` are attention layers, `propose` turns
  // the final row into a candidate. Nothing is assumed about any of them.
  datatype Draft = Draft(fuse: (Row, Row) -> Row, layers: seq<Layer>, norm: Row -> Row, propose: Row -> Token)

  // One draft input: a token and the hidden row it is fused with.
  datatype Input = Input(token: Token, hidden: Row)

  ghost function Fused(m: Model, d: Draft, inputs: seq<Input>): (hs: seq<Row>)
    ensures |hs| == |inputs|
  {
    seq(|inputs|, i requires 0 <= i < |inputs| => d.fuse(m.embed(inputs[i].token), inputs[i].hidden))
  }

  ghost function NormedRows(d: Draft, hs: seq<Row>): (rows: seq<Row>)
    ensures |rows| == |hs|
  {
    seq(|hs|, i requires 0 <= i < |hs| => d.norm(hs[i]))
  }

  ghost function DraftFeed(m: Model, d: Draft, ss: seq<LayerState>, inputs: seq<Input>)
    : (r: (seq<LayerState>, seq<Row>))
    requires Matches(d.layers, ss)
    ensures Matches(d.layers, r.0) && |r.1| == |inputs|
  {
    var (ss', hs) := StackRun(d.layers, ss, Fused(m, d, inputs));
    (ss', NormedRows(d, hs))
  }

  // The draft caches after a list of inputs, starting from nothing.
  ghost function DraftAfter(m: Model, d: Draft, inputs: seq<Input>): (ss: seq<LayerState>)
    ensures Matches(d.layers, ss)
  {
    DraftFeed(m, d, InitialStates(d.layers), inputs).0
  }

  lemma DraftAfterExtends(m: Model, d: Draft, a: seq<Input>, b: seq<Input>)
    ensures DraftFeed(m, d, DraftAfter(m, d, a), b).0 == DraftAfter(m, d, a + b)
  {
    assert Fused(m, d, a + b) == Fused(m, d, a) + Fused(m, d, b);
    RunSplits(d.layers, InitialStates(d.layers), Fused(m, d, a), Fused(m, d, b));
  }

  // What the draft proposes from its caches and one input, with the row it proposes from: the input after.
  ghost function Following(m: Model, d: Draft, base: seq<Input>, input: Input): Input {
    var row := DraftFeed(m, d, DraftAfter(m, d, base), [input]).1[0];
    Input(d.propose(row), row)
  }

  // A proposal: `first` and then, each time, the candidate the draft just chose with the row it came from.
  ghost predicate Proposed(m: Model, d: Draft, base: seq<Input>, first: Input, used: seq<Input>,
                           candidates: seq<Token>)
  {
    && |used| == |candidates|
    && forall i :: 0 <= i < |used| ==> used[i] == InputAt(m, d, base, first, used, i)
                                       && candidates[i] == Following(m, d, base + used[..i], used[i]).token
  }

  // Input i of a proposal, from the inputs before it.
  ghost function InputAt(m: Model, d: Draft, base: seq<Input>, first: Input, used: seq<Input>, i: nat): Input
    requires i <= |used|
  {
    if i == 0 then first else Following(m, d, base + used[..i - 1], used[i - 1])
  }

  lemma NothingProposed(m: Model, d: Draft, base: seq<Input>, first: Input)
    ensures Proposed(m, d, base, first, [], []) && InputAt(m, d, base, first, [], 0) == first
  {
  }

  lemma ProposedAppend(m: Model, d: Draft, base: seq<Input>, first: Input, used: seq<Input>,
                       candidates: seq<Token>, input: Input)
    requires Proposed(m, d, base, first, used, candidates) && input == InputAt(m, d, base, first, used, |used|)
    ensures var following := Following(m, d, base + used, input);
            && Proposed(m, d, base, first, used + [input], candidates + [following.token])
            && following == InputAt(m, d, base, first, used + [input], |used| + 1)
  {
    hide Following;
    var more := used + [input];
    forall i | 0 <= i <= |used|
      ensures more[..i] == used[..i]
    {
    }
    assert used[..|used|] == used;
  }

  ghost function Tokens(inputs: seq<Input>): (ts: seq<Token>)
    ensures |ts| == |inputs|
  {
    seq(|inputs|, i requires 0 <= i < |inputs| => inputs[i].token)
  }

  lemma TokensAppend(a: seq<Input>, b: seq<Input>)
    ensures Tokens(a + b) == Tokens(a) + Tokens(b)
  {
  }

  lemma TokensOfRecovery(fed: seq<Input>, used: seq<Input>, ids: seq<Token>, accepted: nat, input: Input)
    requires accepted <= |used| <= |ids| && Tokens(used) == ids[..|used|]
    ensures Tokens(fed + used[..accepted] + [input]) == Tokens(fed) + (ids[..accepted] + [input.token])
  {
    assert Tokens(used)[..accepted] == ids[..accepted];
    assert Tokens(fed + used[..accepted] + [input]) == Tokens(fed) + Tokens(used)[..accepted] + [input.token];
  }

  /* ---------------------------------- cache lengths ---------------------------------- */

  // Every layer has seen exactly n rows.
  ghost predicate AllLength(ss: seq<LayerState>, n: nat) {
    forall i :: 0 <= i < |ss| ==> LengthOf(ss[i]) == n
  }

  lemma StepLengths(layers: seq<Layer>, ss: seq<LayerState>, h: Row, n: nat)
    requires Matches(layers, ss) && AllLength(ss, n)
    ensures AllLength(StackStep(layers, ss, h).0, n + 1)
  {
    if layers != [] {
      var (s', h') := LayerStep(layers[0], ss[0], h);
      StepLengths(layers[1..], ss[1..], h', n);
    }
  }

  /** Every layer's cache grows by exactly the number of rows fed. */
  lemma {:induction false} RunLengths(layers: seq<Layer>, ss: seq<LayerState>, hs: seq<Row>, n: nat)
    requires Matches(layers, ss) && AllLength(ss, n)
    ensures AllLength(StackRun(layers, ss, hs).0, n + |hs|)
    decreases |hs|
  {
    if hs != [] {
      StepLengths(layers, ss, hs[0], n);
      RunLengths(layers, StackStep(layers, ss, hs[0]).0, hs[1..], n + 1);
    }
  }

  lemma AfterLengths(m: Model, history: seq<Token>)
    ensures AllLength(After(m, history), |history|)
  {
    RunLengths(m.layers, InitialStates(m.layers), Embedded(m, history), 0);
  }

  lemma DraftLengths(m: Model, d: Draft, inputs: seq<Input>)
    ensures AllLength(DraftAfter(m, d, inputs), |inputs|)
  {
    RunLengths(d.layers, InitialStates(d.layers), Fused(m, d, inputs), 0);
  }

  /* ---------------------------------- the trace of rounds ---------------------------------- */

  // What one speculative round committed, the index of the one committed token that the draft cache has no
  // row for, which is the number of accepted candidates, and all candidates it proposed.
  datatype Round = Round(block: seq<Token>, omitted: nat, candidates: seq<Token>)

  ghost predicate ValidTrace(trace: seq<Round>) {
    forall r :: r in trace ==> |r.block| >= 2 && r.omitted < |r.block|
  }

  ghost function Omit<T>(block: seq<T>, i: nat): seq<T>
    requires i < |block|
  {
    block[..i] + block[i + 1..]
  }

  // Everything the rounds committed to the target.
  ghost function Committed(trace: seq<Round>): seq<Token> {
    if trace == [] then [] else Committed(trace[..|trace| - 1]) + trace[|trace| - 1].block
  }

  // Everything the rounds left in the draft cache.
  ghost function Drafted(trace: seq<Round>): seq<Token>
    requires ValidTrace(trace)
  {
    if trace == [] then []
    else
      var last := trace[|trace| - 1];
      assert last in trace;
      Drafted(trace[..|trace| - 1]) + Omit(last.block, last.omitted)
  }

  /** The draft cache falls one row behind the target per round, exactly. */
  lemma {:induction false} DraftLag(trace: seq<Round>)
    requires ValidTrace(trace)
    ensures |Drafted(trace)| == |Committed(trace)| - |trace|
    ensures |Committed(trace)| >= 2 * |trace|
  {
    if trace != [] {
      assert trace[|trace| - 1] in trace;
      DraftLag(trace[..|trace| - 1]);
    }
  }

  lemma TraceAppend(trace: seq<Round>, r: Round)
    requires ValidTrace(trace) && |r.block| >= 2 && r.omitted < |r.block|
    ensures ValidTrace(trace + [r])
    ensures Committed(trace + [r]) == Committed(trace) + r.block
    ensures Drafted(trace + [r]) == Drafted(trace) + Omit(r.block, r.omitted)
  {
    var more := trace + [r];
    assert more[..|more| - 1] == trace && more[|more| - 1] == r;
    assert ValidTrace(more);
  }
}
