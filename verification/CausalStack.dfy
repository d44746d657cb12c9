/** The target model as a stack of causal layers, on values.

    A layer turns one hidden row into the next and remembers what later rows may look at: an attention
    layer keeps every key and value row, a DeltaNet layer keeps a convolution window and a recurrent
    state. The numeric content of a row is left to function-typed fields, so everything proved here
    holds for every choice of weights.

    The point of the module is `ChunkIsSequential`: pushing several rows through the stack one layer at a
    time gives the same rows and the same final caches as pushing them one row at a time. */
module CausalStack {

  type Row = seq<real>

  datatype Mixer =
    // `project(x, position)` is the rotated key row and the value row of x; `attend` reads the key and
    // value rows it is given, the last of which is x's own.
    | Attention(project: (Row, nat) -> (Row, Row),
                attend: (Row, nat, seq<Row>, seq<Row>) -> Row)
    // `convolve(window, x)` is the next window and the mixed q/k/v row; `recur(state, qkv, x)` is the
    // next recurrent state and the output row.
    | DeltaNet(zeroWindow: Row, zeroState: Row,
               convolve: (Row, Row) -> (Row, Row),
               recur: (Row, Row, Row) -> (Row, Row))

  // `normalize` is the input norm, `finish(hidden, mixed)` both residual additions and the MLP.
  datatype Layer = Layer(normalize: Row -> Row, mixer: Mixer, finish: (Row, Row) -> Row)

  // What a layer's cache holds. A DeltaNet layer that has not run yet owns no state tensors.
  datatype LayerState =
    | KV(keys: seq<Row>, values: seq<Row>)
    | Unstarted
    | Started(window: Row, state: Row, length: nat)

  ghost predicate Fits(m: Mixer, s: LayerState) {
    if m.Attention? then s.KV? && |s.keys| == |s.values| else !s.KV?
  }

  ghost predicate Matches(layers: seq<Layer>, ss: seq<LayerState>) {
    && |layers| == |ss|
    && forall i :: 0 <= i < |layers| ==> Fits(layers[i].mixer, ss[i])
  }

  ghost function InitialState(m: Mixer): (s: LayerState)
    ensures Fits(m, s)
  {
    if m.Attention? then KV([], []) else Unstarted
  }

  ghost function InitialStates(layers: seq<Layer>): (ss: seq<LayerState>)
    ensures Matches(layers, ss)
  {
    seq(|layers|, i requires 0 <= i < |layers| => InitialState(layers[i].mixer))
  }

  /* ---------------------------------- one row at a time ---------------------------------- */

  // The states before a DeltaNet layer's next row: zero-filled when the tensors do not exist yet.
  ghost function WindowOf(m: Mixer, s: LayerState): Row
    requires m.DeltaNet? && Fits(m, s)
  {
    if s.Started? then s.window else m.zeroWindow
  }

  ghost function StateOf(m: Mixer, s: LayerState): Row
    requires m.DeltaNet? && Fits(m, s)
  {
    if s.Started? then s.state else m.zeroState
  }

  ghost function LengthOf(s: LayerState): nat {
    match s
    case KV(keys, _) => |keys|
    case Unstarted => 0
    case Started(_, _, length) => length
  }

  ghost function MixStep(m: Mixer, s: LayerState, x: Row): (r: (LayerState, Row))
    requires Fits(m, s)
    ensures Fits(m, r.0)
  {
    match m
    case Attention(project, attend) =>
      var position := |s.keys|;
      var (k, v) := project(x, position);
      var keys, values := s.keys + [k], s.values + [v];
      (KV(keys, values), attend(x, position, keys, values))
    case DeltaNet(_, _, convolve, recur) =>
      var (window, qkv) := convolve(WindowOf(m, s), x);
      var (state, out) := recur(StateOf(m, s), qkv, x);
      (Started(window, state, LengthOf(s) + 1), out)
  }

  // The rows of a sequence mixed in order, each seeing the cache the previous ones left.
  ghost function MixRun(m: Mixer, s: LayerState, xs: seq<Row>): (r: (LayerState, seq<Row>))
    requires Fits(m, s)
    ensures Fits(m, r.0) && |r.1| == |xs|
    decreases |xs|
  {
    if xs == [] then (s, [])
    else
      var (s1, y) := MixStep(m, s, xs[0]);
      var (s2, ys) := MixRun(m, s1, xs[1..]);
      (s2, [y] + ys)
  }

  ghost function LayerStep(l: Layer, s: LayerState, h: Row): (r: (LayerState, Row))
    requires Fits(l.mixer, s)
    ensures Fits(l.mixer, r.0)
  {
    var (s', mixed) := MixStep(l.mixer, s, l.normalize(h));
    (s', l.finish(h, mixed))
  }

  ghost function StackStep(layers: seq<Layer>, ss: seq<LayerState>, h: Row): (r: (seq<LayerState>, Row))
    requires Matches(layers, ss)
    ensures Matches(layers, r.0)
  {
    if layers == [] then ([], h)
    else
      var (s', h') := LayerStep(layers[0], ss[0], h);
      var (rest, out) := StackStep(layers[1..], ss[1..], h');
      ([s'] + rest, out)
  }

  // Every row goes through the whole stack before the next one starts.
  ghost function StackRun(layers: seq<Layer>, ss: seq<LayerState>, hs: seq<Row>)
    : (r: (seq<LayerState>, seq<Row>))
    requires Matches(layers, ss)
    ensures Matches(layers, r.0) && |r.1| == |hs|
    decreases |hs|
  {
    if hs == [] then (ss, [])
    else
      var (s1, y) := StackStep(layers, ss, hs[0]);
      var (s2, ys) := StackRun(layers, s1, hs[1..]);
      (s2, [y] + ys)
  }

  /* ---------------------------------- one layer at a time ---------------------------------- */

  ghost function Normalized(l: Layer, hs: seq<Row>): (xs: seq<Row>)
    ensures |xs| == |hs|
  {
    seq(|hs|, i requires 0 <= i < |hs| => l.normalize(hs[i]))
  }

  ghost function Finished(l: Layer, hs: seq<Row>, mixed: seq<Row>): (ys: seq<Row>)
    requires |hs| == |mixed|
    ensures |ys| == |hs|
  {
    seq(|hs|, i requires 0 <= i < |hs| => l.finish(hs[i], mixed[i]))
  }

  // The whole chunk goes through one layer: norm all rows, mix them in order, finish all rows.
  ghost function LayerChunk(l: Layer, s: LayerState, hs: seq<Row>): (r: (LayerState, seq<Row>))
    requires Fits(l.mixer, s)
    ensures Fits(l.mixer, r.0) && |r.1| == |hs|
  {
    var (s', mixed) := MixRun(l.mixer, s, Normalized(l, hs));
    (s', Finished(l, hs, mixed))
  }

  ghost function StackChunk(layers: seq<Layer>, ss: seq<LayerState>, hs: seq<Row>)
    : (r: (seq<LayerState>, seq<Row>))
    requires Matches(layers, ss)
    ensures Matches(layers, r.0) && |r.1| == |hs|
  {
    if layers == [] then ([], hs)
    else
      var (s', mid) := LayerChunk(layers[0], ss[0], hs);
      var (rest, out) := StackChunk(layers[1..], ss[1..], mid);
      ([s'] + rest, out)
  }

  /* ---------------------------------- the two orders agree ---------------------------------- */

  lemma LayerChunkUnrolls(l: Layer, s: LayerState, hs: seq<Row>)
    requires Fits(l.mixer, s) && hs != []
    ensures var (s1, y) := LayerStep(l, s, hs[0]);
            var (s2, ys) := LayerChunk(l, s1, hs[1..]);
            LayerChunk(l, s, hs) == (s2, [y] + ys)
  {
    var xs := Normalized(l, hs);
    assert xs[1..] == Normalized(l, hs[1..]);
    var (s1, m) := MixStep(l.mixer, s, xs[0]);
    var (s2, ms) := MixRun(l.mixer, s1, xs[1..]);
    assert Finished(l, hs, [m] + ms) == [l.finish(hs[0], m)] + Finished(l, hs[1..], ms);
  }

  // Running the rows through layer 0 first and through the other layers afterwards is running each row
  // through all of them.
  lemma {:induction false} PeelLayer(layers: seq<Layer>, ss: seq<LayerState>, hs: seq<Row>)
    requires Matches(layers, ss) && layers != []
    ensures var (s', mid) := LayerChunk(layers[0], ss[0], hs);
            var (rest, out) := StackRun(layers[1..], ss[1..], mid);
            StackRun(layers, ss, hs) == ([s'] + rest, out)
    decreases |hs|
  {
    if hs == [] {
      assert [ss[0]] + ss[1..] == ss;
    } else {
      LayerChunkUnrolls(layers[0], ss[0], hs);
      var (s1, y) := LayerStep(layers[0], ss[0], hs[0]);
      var (r1, z) := StackStep(layers[1..], ss[1..], y);
      var next := [s1] + r1;
      assert StackStep(layers, ss, hs[0]) == (next, z);
      PeelLayer(layers, next, hs[1..]);
      assert next[1..] == r1;
      var (s2, mid) := LayerChunk(layers[0], s1, hs[1..]);
      assert ([y] + mid)[1..] == mid;
    }
  }

  /** A chunk pushed layer by layer gives the rows and the caches of feeding its rows one at a time. */
  lemma {:induction false} ChunkIsSequential(layers: seq<Layer>, ss: seq<LayerState>, hs: seq<Row>)
    requires Matches(layers, ss)
    ensures StackChunk(layers, ss, hs) == StackRun(layers, ss, hs)
    decreases |layers|
  {
    if layers == [] {
      EmptyStackRun(ss, hs);
    } else {
      PeelLayer(layers, ss, hs);
      var (s', mid) := LayerChunk(layers[0], ss[0], hs);
      ChunkIsSequential(layers[1..], ss[1..], mid);
    }
  }

  lemma {:induction false} EmptyStackRun(ss: seq<LayerState>, hs: seq<Row>)
    requires ss == []
    ensures StackRun([], ss, hs) == ([], hs)
  {
    if hs != [] {
      assert StackStep([], ss, hs[0]) == ([], hs[0]);
      EmptyStackRun([], hs[1..]);
      assert [hs[0]] + hs[1..] == hs;
    }
  }

  /** Any split of the rows over two calls gives the same rows and caches as one call. */
  lemma {:induction false} RunSplits(layers: seq<Layer>, ss: seq<LayerState>, a: seq<Row>, b: seq<Row>)
    requires Matches(layers, ss)
    ensures var (s1, ya) := StackRun(layers, ss, a);
            var (s2, yb) := StackRun(layers, s1, b);
            StackRun(layers, ss, a + b) == (s2, ya + yb)
    decreases |a|
  {
    if a == [] {
      assert a + b == b;
      var (s2, yb) := StackRun(layers, ss, b);
      assert [] + yb == yb;
    } else {
      assert (a + b)[0] == a[0] && (a + b)[1..] == a[1..] + b;
      var (s1, y) := StackStep(layers, ss, a[0]);
      RunSplits(layers, s1, a[1..], b);
      var (s2, ya) := StackRun(layers, s1, a[1..]);
      var (s3, yb) := StackRun(layers, s2, b);
      assert [y] + (ya + yb) == ([y] + ya) + yb;
    }
  }

  /* ---------------------------------- the kernels' bulk forms ---------------------------------- */

  // Key and value rows of a chunk whose first row sits at position `base`.
  ghost function ProjectAll(m: Mixer, base: nat, xs: seq<Row>): (r: (seq<Row>, seq<Row>))
    requires m.Attention?
    ensures |r.0| == |r.1| == |xs|
  {
    (seq(|xs|, i requires 0 <= i < |xs| => m.project(xs[i], base + i).0),
     seq(|xs|, i requires 0 <= i < |xs| => m.project(xs[i], base + i).1))
  }

  // The multi-token attention kernel on a cache that already holds every row: the query at position
  // `base + i` may look only at the rows up to and including its own.
  ghost function VisibleAttention(m: Mixer, base: nat, xs: seq<Row>, keys: seq<Row>, values: seq<Row>)
    : (ys: seq<Row>)
    requires m.Attention? && |keys| == |values| == base + |xs|
    ensures |ys| == |xs|
  {
    seq(|xs|, i requires 0 <= i < |xs| =>
          m.attend(xs[i], base + i, keys[..base + i + 1], values[..base + i + 1]))
  }

  lemma VisibleAttentionUnrolls(m: Mixer, base: nat, xs: seq<Row>, keys: seq<Row>, values: seq<Row>)
    requires m.Attention? && |keys| == |values| == base + |xs| && xs != []
    ensures VisibleAttention(m, base, xs, keys, values)
         == [m.attend(xs[0], base, keys[..base + 1], values[..base + 1])]
          + VisibleAttention(m, base + 1, xs[1..], keys, values)
  {
  }

  lemma ProjectAllUnrolls(m: Mixer, base: nat, xs: seq<Row>)
    requires m.Attention? && xs != []
    ensures ProjectAll(m, base, xs).0 == [m.project(xs[0], base).0] + ProjectAll(m, base + 1, xs[1..]).0
    ensures ProjectAll(m, base, xs).1 == [m.project(xs[0], base).1] + ProjectAll(m, base + 1, xs[1..]).1
  {
  }

  /** Appending every row before any attention is the row-by-row run, because of the per-row visibility. */
  lemma {:induction false} BulkAttentionIsRun(m: Mixer, s: LayerState, xs: seq<Row>)
    requires m.Attention? && Fits(m, s)
    ensures var (ks, vs) := ProjectAll(m, |s.keys|, xs);
            MixRun(m, s, xs) == (KV(s.keys + ks, s.values + vs),
                                 VisibleAttention(m, |s.keys|, xs, s.keys + ks, s.values + vs))
    decreases |xs|
  {
    var (ks, vs) := ProjectAll(m, |s.keys|, xs);
    if xs == [] {
      assert s.keys + ks == s.keys && s.values + vs == s.values;
    } else {
      var s1 := MixStep(m, s, xs[0]).0;
      BulkAttentionIsRun(m, s1, xs[1..]);
      ProjectAllUnrolls(m, |s.keys|, xs);
      var (ks1, vs1) := ProjectAll(m, |s1.keys|, xs[1..]);
      Seam(s.keys, ks[0], ks1);
      Seam(s.values, vs[0], vs1);
      VisibleAttentionUnrolls(m, |s.keys|, xs, s.keys + ks, s.values + vs);
    }
  }

  lemma Seam<T>(a: seq<T>, x: T, b: seq<T>)
    ensures a + ([x] + b) == (a + [x]) + b
    ensures (a + ([x] + b))[..|a| + 1] == a + [x]
  {
  }

  // The convolution kernel over a whole chunk.
  ghost function ConvolveAll(m: Mixer, window: Row, xs: seq<Row>): (r: (Row, seq<Row>))
    requires m.DeltaNet?
    ensures |r.1| == |xs|
    decreases |xs|
  {
    if xs == [] then (window, [])
    else
      var (w, q) := m.convolve(window, xs[0]);
      var (w', qs) := ConvolveAll(m, w, xs[1..]);
      (w', [q] + qs)
  }

  // The recurrent kernel over a whole chunk of convolved rows.
  ghost function RecurAll(m: Mixer, state: Row, qs: seq<Row>, xs: seq<Row>): (r: (Row, seq<Row>))
    requires m.DeltaNet? && |qs| == |xs|
    ensures |r.1| == |xs|
    decreases |xs|
  {
    if xs == [] then (state, [])
    else
      var (t, y) := m.recur(state, qs[0], xs[0]);
      var (t', ys) := RecurAll(m, t, qs[1..], xs[1..]);
      (t', [y] + ys)
  }

  /** Convolving the whole chunk before the recurrence starts is the row-by-row run. */
  lemma {:induction false} TwoPassDeltaNetIsRun(m: Mixer, s: LayerState, xs: seq<Row>)
    requires m.DeltaNet? && Fits(m, s) && xs != []
    ensures var (w, qs) := ConvolveAll(m, WindowOf(m, s), xs);
            var (t, ys) := RecurAll(m, StateOf(m, s), qs, xs);
            MixRun(m, s, xs) == (Started(w, t, LengthOf(s) + |xs|), ys)
    decreases |xs|
  {
    var (w, q) := m.convolve(WindowOf(m, s), xs[0]);
    var (t, y) := m.recur(StateOf(m, s), q, xs[0]);
    var s1 := MixStep(m, s, xs[0]).0;
    var qs1 := ConvolveAll(m, w, xs[1..]).1;
    assert ([q] + qs1)[1..] == qs1;
    if |xs| > 1 {
      TwoPassDeltaNetIsRun(m, s1, xs[1..]);
    }
  }
}
