/** The caches are only a memory: the rows of a forward on the caches of a history are the rows computed
    from the whole text without any cache, one layer after the other. */
module Recomputation {
  import opened CausalStack
  import opened Greedy
  import opened Drafting

  /* ---------------------------------- one layer without a cache ---------------------------------- */

  // The DeltaNet window and state behind a list of normed rows.
  ghost function WindowAfter(m: Mixer, xs: seq<Row>): Row
    requires m.DeltaNet?
  {
    var last := |xs| - 1;
    if xs == [] then m.zeroWindow else m.convolve(WindowAfter(m, xs[..last]), xs[last]).0
  }

  ghost function StateAfter(m: Mixer, xs: seq<Row>): Row
    requires m.DeltaNet?
  {
    var last := |xs| - 1;
    if xs == [] then m.zeroState
    else m.recur(StateAfter(m, xs[..last]), m.convolve(WindowAfter(m, xs[..last]), xs[last]).1, xs[last]).0
  }

  // The mixed row at the end of a list of normed rows.
  ghost function MixLast(m: Mixer, xs: seq<Row>): Row
    requires xs != []
  {
    var last := |xs| - 1;
    var x := xs[last];
    match m
    case Attention(project, attend) =>
      attend(x, last, seq(|xs|, i requires 0 <= i < |xs| => project(xs[i], i).0),
             seq(|xs|, i requires 0 <= i < |xs| => project(xs[i], i).1))
    case DeltaNet(_, _, convolve, recur) =>
      recur(StateAfter(m, xs[..last]), convolve(WindowAfter(m, xs[..last]), x).1, x).1
  }

  // What a layer makes of the rows of a whole text; row i looks at the rows up to its own.
  ghost function LayerRows(l: Layer, hs: seq<Row>): (ys: seq<Row>)
    ensures |ys| == |hs|
  {
    var xs := seq(|hs|, i requires 0 <= i < |hs| => l.normalize(hs[i]));
    seq(|hs|, i requires 0 <= i < |hs| => l.finish(hs[i], MixLast(l.mixer, xs[..i + 1])))
  }

  ghost function StackRows(layers: seq<Layer>, hs: seq<Row>): (ys: seq<Row>)
    ensures |ys| == |hs|
  {
    if layers == [] then hs else StackRows(layers[1..], LayerRows(layers[0], hs))
  }

  /* ---------------------------------- the caches hold what they should ---------------------------------- */

  // The cache of a layer after a list of normed rows.
  ghost function Remembered(m: Mixer, xs: seq<Row>): (s: LayerState)
    ensures Fits(m, s)
  {
    if m.Attention? then
      KV(seq(|xs|, i requires 0 <= i < |xs| => m.project(xs[i], i).0),
         seq(|xs|, i requires 0 <= i < |xs| => m.project(xs[i], i).1))
    else if xs == [] then Unstarted
    else Started(WindowAfter(m, xs), StateAfter(m, xs), |xs|)
  }

  lemma StepRemembers(m: Mixer, xs: seq<Row>, x: Row)
    ensures MixStep(m, Remembered(m, xs), x) == (Remembered(m, xs + [x]), MixLast(m, xs + [x]))
  {
    var more := xs + [x];
    assert more[..|xs|] == xs;
    if m.Attention? {
      assert Remembered(m, more).keys == Remembered(m, xs).keys + [m.project(x, |xs|).0];
      assert Remembered(m, more).values == Remembered(m, xs).values + [m.project(x, |xs|).1];
    }
  }

  lemma {:induction false} RunRemembers(m: Mixer, before: seq<Row>, xs: seq<Row>)
    ensures var (s, ys) := MixRun(m, Remembered(m, before), xs);
            && s == Remembered(m, before + xs)
            && forall i :: 0 <= i < |xs| ==> ys[i] == MixLast(m, before + xs[..i + 1])
    decreases |xs|
  {
    hide MixStep, Remembered, MixLast;
    if xs == [] {
      assert before + xs == before;
    } else {
      var x, rest := xs[0], xs[1..];
      StepRemembers(m, before, x);
      RunRemembers(m, before + [x], rest);
      assert (before + [x]) + rest == before + xs;
      var ys := MixRun(m, Remembered(m, before), xs).1;
      forall i | 0 <= i < |xs| ensures ys[i] == MixLast(m, before + xs[..i + 1]) {
        if i == 0 {
          assert before + xs[..1] == before + [x];
        } else {
          assert (before + [x]) + rest[..i] == before + xs[..i + 1];
        }
      }
    }
  }

  lemma LayerWithoutCache(l: Layer, hs: seq<Row>)
    ensures LayerChunk(l, InitialState(l.mixer), hs).1 == LayerRows(l, hs)
  {
    hide MixLast;
    var xs := Normalized(l, hs);
    StartsEmpty(l.mixer);
    RunRemembers(l.mixer, [], xs);
    var mixed := MixRun(l.mixer, InitialState(l.mixer), xs).1;
    forall i | 0 <= i < |hs| ensures mixed[i] == MixLast(l.mixer, xs[..i + 1]) {
      assert [] + xs[..i + 1] == xs[..i + 1];
    }
  }

  lemma StartsEmpty(m: Mixer)
    ensures InitialState(m) == Remembered(m, [])
  {
  }

  /** Row after row through the stack with caches gives what the layers give without them. */
  lemma {:induction false} StackWithoutCaches(layers: seq<Layer>, hs: seq<Row>)
    ensures StackRun(layers, InitialStates(layers), hs).1 == StackRows(layers, hs)
    decreases |layers|
  {
    hide LayerRows, LayerChunk;
    ChunkIsSequential(layers, InitialStates(layers), hs);
    if layers != [] {
      assert InitialStates(layers)[1..] == InitialStates(layers[1..]);
      LayerWithoutCache(layers[0], hs);
      var mid := LayerRows(layers[0], hs);
      ChunkIsSequential(layers[1..], InitialStates(layers[1..]), mid);
      StackWithoutCaches(layers[1..], mid);
    }
  }

  // The first layer's cache, and the caches of the others as those of a stack that starts behind it.
  lemma PeelCaches(layers: seq<Layer>, hs: seq<Row>)
    requires layers != []
    ensures var first := layers[0];
            var ss := StackRun(layers, InitialStates(layers), hs).0;
            && ss[0] == Remembered(first.mixer, Normalized(first, hs))
            && ss[1..] == StackRun(layers[1..], InitialStates(layers[1..]), LayerRows(first, hs)).0
  {
    hide LayerRows, Remembered, LayerStep, MixLast, MixRun, StackRun, StackRows;
    var first := layers[0];
    PeelLayer(layers, InitialStates(layers), hs);
    LayerWithoutCache(first, hs);
    assert InitialStates(layers)[1..] == InitialStates(layers[1..]);
    StartsEmpty(first.mixer);
    RunRemembers(first.mixer, [], Normalized(first, hs));
    assert [] + Normalized(first, hs) == Normalized(first, hs);
  }

  lemma RowsBehindFirst(layers: seq<Layer>, hs: seq<Row>, l: nat)
    requires 0 < l <= |layers|
    ensures StackRows(layers[..l], hs) == StackRows(layers[1..][..l - 1], LayerRows(layers[0], hs))
  {
    hide LayerRows;
    assert layers[..l][1..] == layers[1..][..l - 1] && layers[..l][0] == layers[0];
  }

  /** The cache of layer l holds what the rows that enter the layer leave, and nothing else. */
  lemma {:induction false} CachesRemember(layers: seq<Layer>, hs: seq<Row>, l: nat)
    requires l < |layers|
    ensures var entering := StackRows(layers[..l], hs);
            var xs := seq(|hs|, i requires 0 <= i < |hs| => layers[l].normalize(entering[i]));
            StackRun(layers, InitialStates(layers), hs).0[l] == Remembered(layers[l].mixer, xs)
    decreases l
  {
    hide LayerRows, Remembered, StackRun, StackRows, InitialStates;
    PeelCaches(layers, hs);
    if l == 0 {
      NothingEntered(layers, hs);
      assert Normalized(layers[0], hs) == seq(|hs|, i requires 0 <= i < |hs| => layers[0].normalize(hs[i]));
    } else {
      CachesRemember(layers[1..], LayerRows(layers[0], hs), l - 1);
      RowsBehindFirst(layers, hs, l);
    }
  }

  lemma NothingEntered(layers: seq<Layer>, hs: seq<Row>)
    ensures StackRows(layers[..0], hs) == hs
  {
  }

  /* ---------------------------------- the two models ---------------------------------- */

  /** The token after a history is the argmax of the head on the final norm of the last row that the layers
      make of the embedded history, whatever chunks it was fed in. */
  lemma NextWithoutCaches(m: Model, history: seq<Token>)
    requires history != []
    ensures var hs := seq(|history|, i requires 0 <= i < |history| => m.embed(history[i]));
            && LastHidden(m, history) == m.finalNorm(StackRows(m.layers, hs)[|history| - 1])
            && Next(m, history) == Argmax(m.lmHead(m.finalNorm(StackRows(m.layers, hs)[|history| - 1])))
  {
    hide StackRows;
    var hs := seq(|history|, i requires 0 <= i < |history| => m.embed(history[i]));
    assert hs == Embedded(m, history);
    StackWithoutCaches(m.layers, hs);
  }

  /** The draft proposes from the norm of the last row that its layers make of the fused inputs. */
  lemma FollowingWithoutCaches(m: Model, d: Draft, base: seq<Input>, input: Input)
    ensures var all := base + [input];
            var hs := seq(|all|, i requires 0 <= i < |all| => d.fuse(m.embed(all[i].token), all[i].hidden));
            var row := d.norm(StackRows(d.layers, hs)[|base|]);
            Following(m, d, base, input) == Input(d.propose(row), row)
  {
    hide StackRows;
    var all := base + [input];
    var hs := seq(|all|, i requires 0 <= i < |all| => d.fuse(m.embed(all[i].token), all[i].hidden));
    var before, one := Fused(m, d, base), Fused(m, d, [input]);
    assert hs == before + one;
    RunSplits(d.layers, InitialStates(d.layers), before, one);
    StackWithoutCaches(d.layers, hs);
  }

  lemma OneLayerStack(l: Layer, hs: seq<Row>)
    ensures StackRows([l], hs) == LayerRows(l, hs)
  {
    hide LayerRows;
    assert [l][1..] == [];
  }

  lemma LastLayerRow(l: Layer, hs: seq<Row>, xs: seq<Row>)
    requires hs != [] && |hs| == |xs| && forall j :: 0 <= j < |hs| ==> xs[j] == l.normalize(hs[j])
    ensures LayerRows(l, hs)[|hs| - 1] == l.finish(hs[|hs| - 1], MixLast(l.mixer, xs))
  {
    hide MixLast;
    assert xs == seq(|hs|, j requires 0 <= j < |hs| => l.normalize(hs[j]));
    assert xs[..|hs|] == xs;
  }

  // The last row that a single layer makes.
  lemma OneLayer(m: Model, l: Layer, history: seq<Token>)
    requires m.layers == [l] && history != []
    ensures var xs := seq(|history|, i requires 0 <= i < |history| => l.normalize(m.embed(history[i])));
            Next(m, history) == Argmax(m.lmHead(m.finalNorm(
              l.finish(m.embed(history[|history| - 1]), MixLast(l.mixer, xs)))))
  {
    hide MixLast, Next, Argmax, LayerRows, StackRows;
    var hs := seq(|history|, i requires 0 <= i < |history| => m.embed(history[i]));
    NextWithoutCaches(m, history);
    OneLayerStack(l, hs);
    LastLayerRow(l, hs, seq(|history|, i requires 0 <= i < |history| => l.normalize(m.embed(history[i]))));
  }

  /** With a single attention layer, written out. */
  lemma OneAttentionLayer(m: Model, l: Layer, history: seq<Token>)
    requires m.layers == [l] && l.mixer.Attention? && history != []
    ensures var last := |history| - 1;
            var xs := seq(|history|, i requires 0 <= i < |history| => l.normalize(m.embed(history[i])));
            var keys := seq(|xs|, i requires 0 <= i < |xs| => l.mixer.project(xs[i], i).0);
            var values := seq(|xs|, i requires 0 <= i < |xs| => l.mixer.project(xs[i], i).1);
            var mixed := l.mixer.attend(xs[last], last, keys, values);
            Next(m, history) == Argmax(m.lmHead(m.finalNorm(l.finish(m.embed(history[last]), mixed))))
  {
    hide Next, Argmax;
    OneLayer(m, l, history);
  }

  /** With a single DeltaNet layer and two tokens, written out: the second row sees the window and the state
      that the first one left. */
  lemma OneDeltaNetLayer(m: Model, l: Layer, a: Token, b: Token)
    requires m.layers == [l] && l.mixer.DeltaNet?
    ensures var (x, y) := (l.normalize(m.embed(a)), l.normalize(m.embed(b)));
            var (window, first) := l.mixer.convolve(l.mixer.zeroWindow, x);
            var (state, _) := l.mixer.recur(l.mixer.zeroState, first, x);
            var mixed := l.mixer.recur(state, l.mixer.convolve(window, y).1, y).1;
            Next(m, [a, b]) == Argmax(m.lmHead(m.finalNorm(l.finish(m.embed(b), mixed))))
  {
    hide Next, Argmax;
    var history := [a, b];
    OneLayer(m, l, history);
    var (x, y) := (l.normalize(m.embed(a)), l.normalize(m.embed(b)));
    assert seq(|history|, i requires 0 <= i < |history| => l.normalize(m.embed(history[i]))) == [x, y];
    assert [x, y][..1] == [x] && [x][..0] == [];
    assert WindowAfter(l.mixer, [x]) == l.mixer.convolve(l.mixer.zeroWindow, x).0;
    assert StateAfter(l.mixer, [x])
        == l.mixer.recur(l.mixer.zeroState, l.mixer.convolve(l.mixer.zeroWindow, x).1, x).0;
    assert MixLast(l.mixer, [x, y])
        == l.mixer.recur(StateAfter(l.mixer, [x]), l.mixer.convolve(WindowAfter(l.mixer, [x]), y).1, y).1;
  }
}
