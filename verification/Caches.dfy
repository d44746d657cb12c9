/** The per-layer decoder caches as objects over device buffers.

    A buffer is an array of rows. Cloning copies into the destination's own buffers when they have the
    right shape and allocates otherwise; swapping exchanges buffers between two caches without copying.
    The accelerator kernels are represented by methods whose loops state what each of them is relied on
    to read and write. */
module Caches {
  import opened CausalStack

  // Device-to-device copy of a whole buffer.
  method CopyBuffer(destination: array<Row>, source: array<Row>)
    requires destination.Length == source.Length
    modifies destination
    ensures destination[..] == old(source[..])
  {
    forall i | 0 <= i < source.Length {
      destination[i] := source[i];
    }
  }

  /* ---------------------------------- attention ---------------------------------- */

  class AttentionKVCache {
    var key: array?<Row>
    var value: array?<Row>
    var length: nat
    var capacity: nat

    constructor ()
      ensures Valid() && !Initialized()
    {
      key, value, length, capacity := null, null, 0, 0;
    }

    predicate Initialized()
      reads this
    {
      key != null && value != null
    }

    ghost predicate Valid()
      reads this
    {
      if Initialized() then
        key != value && key.Length == value.Length == capacity && length <= capacity
      else
        key == null && value == null && length == 0 && capacity == 0
    }

    ghost function Footprint(): set<object>
      reads this
    {
      {this} + (if Initialized() then {key, value} else {})
    }

    // The logical content: the rows below `length`.
    ghost function Contents(): (s: LayerState)
      requires Valid()
      reads this, key, value
    {
      if Initialized() then KV(key[..length], value[..length]) else KV([], [])
    }

    // Rewind the logical prefix; the storage stays.
    method Truncate(newLength: int) returns (ok: bool)
      requires Valid()
      modifies this`length
      ensures Valid()
      ensures ok == (0 <= newLength <= capacity && (Initialized() || newLength == 0))
      ensures !ok ==> length == old(length)
      ensures ok ==> length == newLength
      ensures ok && newLength <= old(length) && Initialized() ==>
                Contents() == KV(old(Contents()).keys[..newLength], old(Contents()).values[..newLength])
    {
      if newLength < 0 || newLength > capacity {
        return false;
      }
      if !Initialized() {
        return newLength == 0;
      }
      length := newLength;
      ok := true;
    }

    // An independent copy. The destination's buffers are reused when their shape fits.
    method Clone(destination: AttentionKVCache) returns (ok: bool)
      requires Valid() && destination.Valid()
      requires Footprint() !! destination.Footprint()
      modifies destination, destination.key, destination.value
      ensures Valid() && destination.Valid()
      ensures ok == Initialized()
      ensures fresh(destination.Footprint() - old(destination.Footprint()))
      ensures ok ==> destination.Contents() == Contents() && destination.capacity == capacity
      ensures ok ==> destination.Initialized()
      ensures ok && old(destination.Initialized()) && old(destination.capacity) == capacity ==>
                destination.key == old(destination.key) && destination.value == old(destination.value)
      ensures !ok ==> destination.key == old(destination.key) && destination.length == old(destination.length)
    {
      if !Initialized() {
        return false;
      }
      var keyBuffer, valueBuffer := destination.key, destination.value;
      if !(destination.Initialized() && destination.key.Length == key.Length
           && destination.value.Length == value.Length) {
        keyBuffer := new Row[key.Length];
        valueBuffer := new Row[value.Length];
      }
      CopyBuffer(keyBuffer, key);
      CopyBuffer(valueBuffer, value);
      destination.key, destination.value := keyBuffer, valueBuffer;
      destination.length, destination.capacity := length, capacity;
      ok := true;
    }

    // Exchange everything with another cache; no row is copied.
    method Swap(other: AttentionKVCache)
      requires Valid() && other.Valid() && this != other
      modifies this, other
      ensures Valid() && other.Valid()
      ensures key == old(other.key) && other.key == old(key)
      ensures value == old(other.value) && other.value == old(value)
      ensures length == old(other.length) && other.length == old(length)
      ensures capacity == old(other.capacity) && other.capacity == old(capacity)
    {
      key, other.key := other.key, key;
      value, other.value := other.value, value;
      length, other.length := other.length, length;
      capacity, other.capacity := other.capacity, capacity;
    }

    // Back to the state of a default-constructed cache.
    method Clear()
      modifies this
      ensures Valid() && !Initialized()
    {
      key, value, length, capacity := null, null, 0, 0;
    }
  }

  // Writes the chunk's key and value rows at `at`, and nothing else.
  method AppendKvCache(key: array<Row>, value: array<Row>, ks: seq<Row>, vs: seq<Row>, at: nat)
    requires key != value && |ks| == |vs| && at + |ks| <= key.Length == value.Length
    modifies key, value
    ensures key[..at + |ks|] == old(key[..at]) + ks
    ensures value[..at + |ks|] == old(value[..at]) + vs
  {
    forall i | 0 <= i < |ks| {
      key[at + i] := ks[i];
    }
    forall i | 0 <= i < |vs| {
      value[at + i] := vs[i];
    }
  }

  // Row i of the output reads the cache rows up to and including row base + i, and no later one.
  method CachedGqa(m: Mixer, xs: seq<Row>, key: array<Row>, value: array<Row>, base: nat)
    returns (ys: seq<Row>)
    requires m.Attention? && base + |xs| <= key.Length == value.Length
    ensures ys == VisibleAttention(m, base, xs, key[..base + |xs|], value[..base + |xs|])
  {
    ys := [];
    for i := 0 to |xs|
      invariant |ys| == i
      invariant forall j :: 0 <= j < i ==>
        ys[j] == m.attend(xs[j], base + j, key[..base + |xs|][..base + j + 1], value[..base + |xs|][..base + j + 1])
    {
      assert key[..base + |xs|][..base + i + 1] == key[..base + i + 1];
      assert value[..base + |xs|][..base + i + 1] == value[..base + i + 1];
      ys := ys + [m.attend(xs[i], base + i, key[..base + i + 1], value[..base + i + 1])];
    }
  }

  // One token: attention over the stored rows and the current one, which is stored at `at`.
  method CachedGqaWithCurrentToken(m: Mixer, x: Row, key: array<Row>, value: array<Row>, k: Row, v: Row, at: nat)
    returns (y: Row)
    requires m.Attention? && key != value && at < key.Length == value.Length
    modifies key, value
    ensures key[..at + 1] == old(key[..at]) + [k] && value[..at + 1] == old(value[..at]) + [v]
    ensures y == m.attend(x, at, old(key[..at]) + [k], old(value[..at]) + [v])
  {
    y := m.attend(x, at, key[..at] + [k], value[..at] + [v]);
    key[at], value[at] := k, v;
  }

  method Project(m: Mixer, base: nat, xs: seq<Row>) returns (ks: seq<Row>, vs: seq<Row>)
    requires m.Attention?
    ensures (ks, vs) == ProjectAll(m, base, xs)
  {
    ks, vs := [], [];
    for i := 0 to |xs|
      invariant |ks| == |vs| == i
      invariant forall j :: 0 <= j < i ==> (ks[j], vs[j]) == m.project(xs[j], base + j)
    {
      var (k, v) := m.project(xs[i], base + i);
      ks, vs := ks + [k], vs + [v];
    }
    assert ks == ProjectAll(m, base, xs).0 && vs == ProjectAll(m, base, xs).1;
  }

  // Mixes a chunk on buffers that have room for it, by the kernel that serves its length.
  method MixOnBuffers(m: Mixer, xs: seq<Row>, key: array<Row>, value: array<Row>, base: nat) returns (ys: seq<Row>)
    requires m.Attention? && key != value && xs != [] && base + |xs| <= key.Length == value.Length
    modifies key, value
    ensures (KV(key[..base + |xs|], value[..base + |xs|]), ys)
         == MixRun(m, KV(old(key[..base]), old(value[..base])), xs)
  {
    hide MixRun, VisibleAttention, MixStep;
    ghost var before := KV(key[..base], value[..base]);
    var ks, vs := Project(m, base, xs);
    if |xs| == 1 {
      var y := CachedGqaWithCurrentToken(m, xs[0], key, value, ks[0], vs[0], base);
      ys := [y];
      OneRowAttention(m, before, xs);
    } else {
      AppendKvCache(key, value, ks, vs, base);
      ys := CachedGqa(m, xs, key, value, base);
      BulkAttentionIsRun(m, before, xs);
    }
  }

  /** Attention over a cache: refuses a chunk that does not fit, allocates the buffers on first use, and
      otherwise is the row-by-row run, whichever of the two kernels serves the chunk. */
  method AttentionForward(m: Mixer, xs: seq<Row>, maxSeqLen: nat, cache: AttentionKVCache)
    returns (ok: bool, ys: seq<Row>)
    requires m.Attention? && cache.Valid() && xs != []
    modifies cache, cache.key, cache.value
    ensures cache.Valid() && fresh(cache.Footprint() - old(cache.Footprint()))
    ensures ok == (0 < maxSeqLen && old(cache.length) + |xs| <= maxSeqLen
                   && (old(cache.Initialized()) ==> old(cache.capacity) == maxSeqLen))
    ensures ok ==> (cache.Contents(), ys) == MixRun(m, old(cache.Contents()), xs)
    ensures ok ==> cache.Initialized() && cache.capacity == maxSeqLen
    ensures !ok ==> cache.Contents() == old(cache.Contents()) && cache.capacity == old(cache.capacity)
    ensures !ok ==> cache.Initialized() == old(cache.Initialized())
  {
    hide MixRun, VisibleAttention;
    ys := [];
    if maxSeqLen == 0 || cache.length + |xs| > maxSeqLen {
      return false, [];
    }
    var base := cache.length;
    if !cache.Initialized() {
      cache.key := new Row[maxSeqLen];
      cache.value := new Row[maxSeqLen];
      cache.capacity := maxSeqLen;
    } else if cache.capacity != maxSeqLen {
      return false, [];
    }
    assert KV(cache.key[..base], cache.value[..base]) == old(cache.Contents());
    ys := MixOnBuffers(m, xs, cache.key, cache.value, base);
    cache.length := base + |xs|;
    ok := true;
  }

  lemma OneRowAttention(m: Mixer, s: LayerState, xs: seq<Row>)
    requires m.Attention? && Fits(m, s) && |xs| == 1
    ensures var (ks, vs) := ProjectAll(m, |s.keys|, xs);
            var keys, values := s.keys + [ks[0]], s.values + [vs[0]];
            MixRun(m, s, xs) == (KV(keys, values), [m.attend(xs[0], |s.keys|, keys, values)])
  {
    OneRowRun(m, s, xs);
  }

  lemma OneRowRun(m: Mixer, s: LayerState, xs: seq<Row>)
    requires Fits(m, s) && |xs| == 1
    ensures var (s', y) := MixStep(m, s, xs[0]);
            MixRun(m, s, xs) == (s', [y])
  {
    var (s', y) := MixStep(m, s, xs[0]);
    assert MixRun(m, s', xs[1..]) == (s', []);
    assert [y] + [] == [y];
  }

  /* ---------------------------------- DeltaNet ---------------------------------- */

  // Each state tensor is one buffer whose single element is the whole tensor.
  class DeltaNetCache {
    var convState: array?<Row>
    var recurrentState: array?<Row>
    var length: nat

    constructor ()
      ensures Valid() && !Initialized()
    {
      convState, recurrentState, length := null, null, 0;
    }

    predicate Initialized()
      reads this
    {
      convState != null && recurrentState != null
    }

    ghost predicate Valid()
      reads this
    {
      if Initialized() then
        convState != recurrentState && convState.Length == recurrentState.Length == 1
      else
        convState == null && recurrentState == null && length == 0
    }

    ghost function Footprint(): set<object>
      reads this
    {
      {this} + (if Initialized() then {convState, recurrentState} else {})
    }

    ghost function Contents(): (s: LayerState)
      requires Valid()
      reads this, convState, recurrentState
    {
      if Initialized() then Started(convState[0], recurrentState[0], length) else Unstarted
    }

    // An independent copy of both state tensors (`checkpoint` is the same operation).
    method Clone(destination: DeltaNetCache) returns (ok: bool)
      requires Valid() && destination.Valid()
      requires Footprint() !! destination.Footprint()
      modifies destination, destination.convState, destination.recurrentState
      ensures Valid() && destination.Valid()
      ensures ok == Initialized()
      ensures fresh(destination.Footprint() - old(destination.Footprint()))
      ensures ok ==> destination.Contents() == Contents() && destination.Initialized()
      ensures ok && old(destination.Initialized()) ==>
                destination.convState == old(destination.convState)
                && destination.recurrentState == old(destination.recurrentState)
      ensures !ok ==> destination.convState == old(destination.convState)
                      && destination.length == old(destination.length)
    {
      if !Initialized() {
        return false;
      }
      var convBuffer, recurrentBuffer := destination.convState, destination.recurrentState;
      if !(destination.Initialized() && destination.convState.Length == convState.Length
           && destination.recurrentState.Length == recurrentState.Length) {
        convBuffer := new Row[convState.Length];
        recurrentBuffer := new Row[recurrentState.Length];
      }
      CopyBuffer(convBuffer, convState);
      CopyBuffer(recurrentBuffer, recurrentState);
      assert convBuffer[..][0] == convState[..][0] && recurrentBuffer[..][0] == recurrentState[..][0];
      destination.convState, destination.recurrentState := convBuffer, recurrentBuffer;
      destination.length := length;
      ok := true;
    }

    method Swap(other: DeltaNetCache)
      requires Valid() && other.Valid() && this != other
      modifies this, other
      ensures Valid() && other.Valid()
      ensures convState == old(other.convState) && other.convState == old(convState)
      ensures recurrentState == old(other.recurrentState) && other.recurrentState == old(recurrentState)
      ensures length == old(other.length) && other.length == old(length)
    {
      convState, other.convState := other.convState, convState;
      recurrentState, other.recurrentState := other.recurrentState, recurrentState;
      length, other.length := other.length, length;
    }

    // Both states cannot be rewound by length alone: drop them.
    method Clear()
      modifies this
      ensures Valid() && !Initialized()
    {
      convState, recurrentState, length := null, null, 0;
    }
  }

  // After i rows of the convolution: the window and the rows so far complete to the whole chunk.
  ghost predicate Convolved(m: Mixer, start: Row, xs: seq<Row>, i: nat, window: Row, qs: seq<Row>)
    requires m.DeltaNet? && i <= |xs|
  {
    var (w, rest) := ConvolveAll(m, window, xs[i..]);
    ConvolveAll(m, start, xs) == (w, qs + rest)
  }

  lemma ConvolvedStarts(m: Mixer, start: Row, xs: seq<Row>)
    requires m.DeltaNet?
    ensures Convolved(m, start, xs, 0, start, [])
  {
    assert xs[0..] == xs;
    assert [] + ConvolveAll(m, start, xs).1 == ConvolveAll(m, start, xs).1;
  }

  lemma ConvolvedSteps(m: Mixer, start: Row, xs: seq<Row>, i: nat, window: Row, qs: seq<Row>)
    requires m.DeltaNet? && i < |xs| && Convolved(m, start, xs, i, window, qs)
    ensures var (w, q) := m.convolve(window, xs[i]);
            Convolved(m, start, xs, i + 1, w, qs + [q])
  {
    var (w, q) := m.convolve(window, xs[i]);
    assert xs[i..][1..] == xs[i + 1..];
    Seam(qs, q, ConvolveAll(m, w, xs[i + 1..]).1);
  }

  lemma ConvolvedEnds(m: Mixer, start: Row, xs: seq<Row>, window: Row, qs: seq<Row>)
    requires m.DeltaNet? && Convolved(m, start, xs, |xs|, window, qs)
    ensures ConvolveAll(m, start, xs) == (window, qs)
  {
    assert qs + [] == qs;
  }

  // The convolution kernel: rows in token order, the window updated in place.
  method GroupedCausalConv(m: Mixer, xs: seq<Row>, window: array<Row>) returns (qs: seq<Row>)
    requires m.DeltaNet? && window.Length == 1
    modifies window
    ensures (window[0], qs) == ConvolveAll(m, old(window[0]), xs)
  {
    hide ConvolveAll, Convolved;
    qs := [];
    ConvolvedStarts(m, window[0], xs);
    for i := 0 to |xs|
      invariant Convolved(m, old(window[0]), xs, i, window[0], qs)
    {
      ConvolvedSteps(m, old(window[0]), xs, i, window[0], qs);
      var (w, q) := m.convolve(window[0], xs[i]);
      window[0] := w;
      qs := qs + [q];
    }
    ConvolvedEnds(m, old(window[0]), xs, window[0], qs);
  }

  // After i rows of the recurrence, likewise.
  ghost predicate Recurred(m: Mixer, start: Row, qs: seq<Row>, xs: seq<Row>, i: nat, state: Row, ys: seq<Row>)
    requires m.DeltaNet? && |qs| == |xs| && i <= |xs|
  {
    var (t, rest) := RecurAll(m, state, qs[i..], xs[i..]);
    RecurAll(m, start, qs, xs) == (t, ys + rest)
  }

  lemma RecurredStarts(m: Mixer, start: Row, qs: seq<Row>, xs: seq<Row>)
    requires m.DeltaNet? && |qs| == |xs|
    ensures Recurred(m, start, qs, xs, 0, start, [])
  {
    assert xs[0..] == xs && qs[0..] == qs;
    assert [] + RecurAll(m, start, qs, xs).1 == RecurAll(m, start, qs, xs).1;
  }

  lemma RecurredSteps(m: Mixer, start: Row, qs: seq<Row>, xs: seq<Row>, i: nat, state: Row, ys: seq<Row>)
    requires m.DeltaNet? && |qs| == |xs| && i < |xs| && Recurred(m, start, qs, xs, i, state, ys)
    ensures var (t, y) := m.recur(state, qs[i], xs[i]);
            Recurred(m, start, qs, xs, i + 1, t, ys + [y])
  {
    var (t, y) := m.recur(state, qs[i], xs[i]);
    assert xs[i..][1..] == xs[i + 1..] && qs[i..][1..] == qs[i + 1..];
    Seam(ys, y, RecurAll(m, t, qs[i + 1..], xs[i + 1..]).1);
  }

  lemma RecurredEnds(m: Mixer, start: Row, qs: seq<Row>, xs: seq<Row>, state: Row, ys: seq<Row>)
    requires m.DeltaNet? && |qs| == |xs| && Recurred(m, start, qs, xs, |xs|, state, ys)
    ensures RecurAll(m, start, qs, xs) == (state, ys)
  {
    assert ys + [] == ys;
  }

  // The recurrent kernel: rows in token order, the state updated in place.
  method Recurrent(m: Mixer, qs: seq<Row>, xs: seq<Row>, state: array<Row>) returns (ys: seq<Row>)
    requires m.DeltaNet? && state.Length == 1 && |qs| == |xs|
    modifies state
    ensures (state[0], ys) == RecurAll(m, old(state[0]), qs, xs)
  {
    hide RecurAll, Recurred;
    ys := [];
    RecurredStarts(m, state[0], qs, xs);
    for i := 0 to |xs|
      invariant Recurred(m, old(state[0]), qs, xs, i, state[0], ys)
    {
      RecurredSteps(m, old(state[0]), qs, xs, i, state[0], ys);
      var (t, y) := m.recur(state[0], qs[i], xs[i]);
      state[0] := t;
      ys := ys + [y];
    }
    RecurredEnds(m, old(state[0]), qs, xs, state[0], ys);
  }

  /** DeltaNet over a cache: both state tensors are created zero-filled on first use; the whole chunk is
      convolved before the recurrence starts, and the result is the row-by-row run. */
  method DeltaNetForward(m: Mixer, xs: seq<Row>, cache: DeltaNetCache) returns (ys: seq<Row>)
    requires m.DeltaNet? && cache.Valid() && xs != []
    modifies cache, cache.convState, cache.recurrentState
    ensures cache.Valid() && fresh(cache.Footprint() - old(cache.Footprint()))
    ensures (cache.Contents(), ys) == MixRun(m, old(cache.Contents()), xs)
    ensures cache.Initialized()
  {
    TwoPassDeltaNetIsRun(m, cache.Contents(), xs);
    if cache.convState == null {
      cache.convState := new Row[1] [m.zeroWindow];
    }
    var qs := GroupedCausalConv(m, xs, cache.convState);
    if cache.recurrentState == null {
      cache.recurrentState := new Row[1] [m.zeroState];
    }
    ys := Recurrent(m, qs, xs, cache.recurrentState);
    cache.length := cache.length + |xs|;
  }
}
