/** All the caches of one decoder: one per layer, each owning its storage.

    Committed caches, proposal scratch, verification snapshot and prefix checkpoints are all objects of
    this class. `Repr` is the storage a stack owns; every operation says how it changes, so that the
    caller can see that two stacks never share a buffer. */
module CacheStacks {
  import opened CausalStack
  import opened Caches

  // The cache of one layer, of the kind the layer needs.
  datatype Slot = Kv(kv: AttentionKVCache) | Delta(delta: DeltaNetCache)
  {
    ghost function Handle(): object {
      if Kv? then kv else delta
    }

    ghost predicate Valid()
      reads Handle()
    {
      if Kv? then kv.Valid() else delta.Valid()
    }

    ghost function Footprint(): set<object>
      reads Handle()
    {
      if Kv? then kv.Footprint() else delta.Footprint()
    }

    lemma HandleIsOwn()
      ensures Handle() in Footprint()
    {
    }

    ghost function Contents(): LayerState
      requires Valid()
      reads Handle(), Footprint()
    {
      if Kv? then kv.Contents() else delta.Contents()
    }

    // Buffers of an attention slot, once they exist, hold `capacity` rows.
    ghost predicate HasCapacity(capacity: nat)
      reads Handle()
    {
      Kv? && kv.Initialized() ==> kv.capacity == capacity
    }
  }

  // `count` more rows fit into the cache, if it is one with a capacity at all.
  ghost predicate RoomFor(s: LayerState, count: nat, capacity: nat) {
    s.KV? ==> 0 < capacity && LengthOf(s) + count <= capacity
  }

  ghost predicate Room(ss: seq<LayerState>, count: nat, capacity: nat) {
    forall i :: 0 <= i < |ss| ==> RoomFor(ss[i], count, capacity)
  }

  // Dispatch of one layer's mixer to its cache.
  method SlotForward(m: Mixer, xs: seq<Row>, capacity: nat, slot: Slot) returns (ok: bool, ys: seq<Row>)
    requires slot.Valid() && slot.HasCapacity(capacity) && Fits(m, slot.Contents()) && xs != []
    modifies slot.Footprint()
    ensures slot.Valid() && slot.HasCapacity(capacity)
    ensures fresh(slot.Footprint() - old(slot.Footprint()))
    ensures ok == RoomFor(old(slot.Contents()), |xs|, capacity)
    ensures ok ==> (slot.Contents(), ys) == MixRun(m, old(slot.Contents()), xs)
    ensures !ok ==> slot.Contents() == old(slot.Contents())
  {
    match slot
    case Kv(kv) =>
      ok, ys := AttentionForward(m, xs, capacity, kv);
    case Delta(delta) =>
      ys := DeltaNetForward(m, xs, delta);
      ok := true;
  }

  // An uninitialized source resets the destination; otherwise the destination becomes a copy.
  method SlotClone(source: Slot, destination: Slot, ghost capacity: nat)
    requires source.Valid() && destination.Valid() && source.Kv? == destination.Kv?
    requires source.Footprint() !! destination.Footprint()
    requires source.HasCapacity(capacity) && destination.HasCapacity(capacity)
    modifies destination.Footprint()
    ensures destination.Valid() && destination.HasCapacity(capacity)
    ensures fresh(destination.Footprint() - old(destination.Footprint()))
    ensures source.Valid() && destination.Contents() == source.Contents() == old(source.Contents())
  {
    match source
    case Kv(kv) =>
      if !kv.Initialized() {
        destination.kv.Clear();
      } else {
        var _ := kv.Clone(destination.kv);
      }
    case Delta(delta) =>
      if !delta.Initialized() {
        destination.delta.Clear();
      } else {
        var _ := delta.Clone(destination.delta);
      }
  }

  method SlotSwap(a: Slot, b: Slot, ghost capacity: nat)
    requires a.Valid() && b.Valid() && a.Kv? == b.Kv?
    requires a.Footprint() !! b.Footprint()
    requires a.HasCapacity(capacity) && b.HasCapacity(capacity)
    modifies a.Handle(), b.Handle()
    ensures a.Valid() && b.Valid() && a.HasCapacity(capacity) && b.HasCapacity(capacity)
    ensures a.Footprint() == {a.Handle()} + (old(b.Footprint()) - {b.Handle()})
    ensures b.Footprint() == {b.Handle()} + (old(a.Footprint()) - {a.Handle()})
    ensures a.Contents() == old(b.Contents()) && b.Contents() == old(a.Contents())
  {
    match a
    case Kv(kv) => kv.Swap(b.kv);
    case Delta(delta) => delta.Swap(b.delta);
  }

  // A default-constructed cache of the kind the mixer needs.
  method NewSlot(m: Mixer, ghost capacity: nat) returns (slot: Slot)
    ensures fresh(slot.Handle()) && slot.Footprint() == {slot.Handle()} && slot.Kv? == m.Attention?
    ensures slot.Valid() && slot.HasCapacity(capacity) && slot.Contents() == InitialState(m)
  {
    if m.Attention? {
      var kv := new AttentionKVCache();
      slot := Kv(kv);
    } else {
      var delta := new DeltaNetCache();
      slot := Delta(delta);
    }
  }

  class CacheStack {
    const slots: seq<Slot>
    ghost const Capacity: nat
    ghost var Repr: set<object>
    ghost var Contents: seq<LayerState>

    // Slot i is intact, lies inside `Repr` and holds Contents[i].
    ghost predicate Holds(i: nat)
      requires i < |slots| == |Contents|
      reads this, Repr
    {
      && slots[i].Handle() in Repr && slots[i].Footprint() <= Repr && this !in slots[i].Footprint()
      && slots[i].Valid() && slots[i].HasCapacity(Capacity)
      && slots[i].Contents() == Contents[i]
    }

    ghost predicate Valid()
      reads this, Repr
      ensures Valid() ==> this in Repr && |Contents| == |slots|
    {
      && this in Repr
      && |Contents| == |slots|
      && (forall i :: 0 <= i < |slots| ==> Holds(i))
      && (forall i, j :: 0 <= i < |slots| && 0 <= j < |slots| && i != j && Holds(i) && Holds(j) ==>
            slots[i].Footprint() !! slots[j].Footprint())
    }

    twostate predicate OnlyWrote(li: nat)
      requires li < |slots|
      reads this, Repr
    {
      && unchanged(this)
      && forall o :: o in old(Repr) && o !in old(slots[li].Footprint()) ==> unchanged(o)
    }

    // Slot li may be taken over: the other slots hold their contents and share nothing with its old
    // storage `dropped` or its present one.
    ghost predicate Adoptable(li: nat, dropped: set<object>)
      requires li < |slots| == |Contents|
      reads this, Repr, slots[li].Handle()
    {
      && this in Repr && this !in dropped && this !in slots[li].Footprint()
      && (forall i :: 0 <= i < |slots| && i != li ==>
            Holds(i) && slots[i].Footprint() !! slots[li].Footprint() && slots[i].Footprint() !! dropped)
      && (forall i, j :: 0 <= i < |slots| && 0 <= j < |slots| && i != j && i != li && j != li
                         && Holds(i) && Holds(j) ==>
            slots[i].Footprint() !! slots[j].Footprint())
    }

    // Only slot li's storage was written, and whatever it newly holds came from outside this stack.
    twostate lemma OthersKept(li: nat)
      requires old(Valid()) && li < |slots|
      requires OnlyWrote(li)
      requires this !in slots[li].Footprint()
      requires slots[li].Footprint() * old(Repr) <= old(slots[li].Footprint())
      ensures Adoptable(li, old(slots[li].Footprint()))
    {
      assert old(Holds(li));
      forall i | 0 <= i < |slots| && i != li
        ensures Holds(i) && slots[i].Footprint() == old(slots[i].Footprint())
      {
        assert old(Holds(i));
        assert unchanged(slots[i].Handle());
        assert forall o :: o in old(slots[i].Footprint()) ==> unchanged(o);
      }
      forall i | 0 <= i < |slots| && i != li
        ensures slots[i].Footprint() !! slots[li].Footprint()
        ensures slots[i].Footprint() !! old(slots[li].Footprint())
      {
        assert old(Holds(i));
      }
      assert forall i :: 0 <= i < |slots| ==> old(Holds(i));
    }

    // Take over slot li after an operation that wrote only its storage: the buffers it gave up leave
    // `Repr`, the ones it holds now enter it.
    ghost method Adopt(li: nat, dropped: set<object>)
      requires li < |slots| == |Contents| && Adoptable(li, dropped)
      requires slots[li].Valid() && slots[li].HasCapacity(Capacity)
      modifies this
      ensures Valid()
      ensures Repr == (old(Repr) - dropped) + slots[li].Footprint()
      ensures slots[li].Valid() && slots[li].Contents() == old(slots[li].Contents())
      ensures Contents == old(Contents)[li := slots[li].Contents()]
    {
      hide Slot.Contents, Slot.Valid, Slot.HasCapacity, Slot.Footprint;
      forall i | 0 <= i < |slots| ensures slots[i].Handle() in slots[i].Footprint() {
        slots[i].HandleIsOwn();
      }
      Repr := (Repr - dropped) + slots[li].Footprint();
      Contents := Contents[li := slots[li].Contents()];
      assert forall i :: 0 <= i < |slots| ==> Holds(i);
    }

    // Same number of layers of the same kinds, sized for the same context.
    ghost predicate Like(other: CacheStack) {
      && Capacity == other.Capacity
      && |slots| == |other.slots|
      && forall i :: 0 <= i < |slots| ==> slots[i].Kv? == other.slots[i].Kv?
    }

    // Default-constructed caches for the given layers.
    constructor (layers: seq<Layer>, ghost capacity: nat)
      ensures Valid() && fresh(Repr)
      ensures Contents == InitialStates(layers) && Capacity == capacity
      ensures |slots| == |layers| && forall i :: 0 <= i < |slots| ==> slots[i].Kv? == layers[i].mixer.Attention?
    {
      hide Slot.Valid, Slot.Footprint, Slot.Contents, Slot.HasCapacity, InitialState;
      var made: seq<Slot> := [];
      ghost var owned: set<object> := {};
      for i := 0 to |layers|
        invariant |made| == i
        invariant fresh(owned)
        invariant forall j :: 0 <= j < i ==>
          && made[j].Handle() in owned && made[j].Footprint() == {made[j].Handle()} && made[j].Valid()
          && made[j].HasCapacity(capacity)
          && made[j].Contents() == InitialState(layers[j].mixer)
          && made[j].Kv? == layers[j].mixer.Attention?
        invariant forall j, k :: 0 <= j < k < i ==> made[j].Handle() != made[k].Handle()
      {
        var slot := NewSlot(layers[i].mixer, capacity);
        made, owned := made + [slot], owned + {slot.Handle()};
      }
      slots := made;
      Capacity := capacity;
      Contents := InitialStates(layers);
      Repr := owned + {this};
    }

    // One layer of a forward: norm, mix on the layer's cache, finish.
    method ForwardLayer(li: nat, l: Layer, hs: seq<Row>, maxSeqLen: nat) returns (ok: bool, out: seq<Row>)
      requires Valid() && li < |slots| && Fits(l.mixer, Contents[li]) && hs != [] && maxSeqLen == Capacity
      modifies Repr
      ensures Valid() && fresh(Repr - old(Repr))
      ensures ok == RoomFor(old(Contents)[li], |hs|, Capacity)
      ensures ok ==> (Contents[li], out) == LayerChunk(l, old(Contents)[li], hs)
                     && Contents == old(Contents)[li := Contents[li]]
      ensures !ok ==> Contents == old(Contents)
    {
      hide MixRun, Adoptable, Slot.Contents, Slot.Valid, Slot.HasCapacity, Slot.Footprint;
      assert Holds(li);
      slots[li].HandleIsOwn();
      var xs := Normalize(l, hs);
      var mixed;
      ok, mixed := SlotForward(l.mixer, xs, maxSeqLen, slots[li]);
      OthersKept(li);
      Adopt(li, old(slots[li].Footprint()));
      out := [];
      if ok {
        out := Finish(l, hs, mixed);
      }
    }

    /** One forward of a chunk through all layers: succeeds exactly when every attention cache has room,
        and then is `StackChunk` on the contents. */
    method Forward(layers: seq<Layer>, hs: seq<Row>, maxSeqLen: nat) returns (ok: bool, out: seq<Row>)
      requires Valid() && Matches(layers, Contents) && hs != [] && maxSeqLen == Capacity
      modifies Repr
      ensures Valid() && fresh(Repr - old(Repr))
      ensures ok == Room(old(Contents), |hs|, Capacity)
      ensures ok ==> (Contents, out) == StackChunk(layers, old(Contents), hs)
    {
      hide Valid, StackChunk, Progress;
      ghost var before := Contents;
      out := hs;
      ProgressStart(layers, before, hs);
      for li := 0 to |layers|
        invariant Valid() && fresh(Repr - old(Repr)) && |out| == |hs|
        invariant |Contents| == |before| && Contents[li..] == before[li..]
        invariant Room(before[..li], |hs|, Capacity)
        invariant Progress(layers, before, hs, li, Contents[..li], out)
      {
        assert Contents[li] == Contents[li..][0] == before[li];
        ghost var done, mid := Contents[..li], out;
        ok, out := ForwardLayer(li, layers[li], out, maxSeqLen);
        if !ok {
          return false, [];
        }
        ProgressStep(layers, before, hs, li, done, mid);
        assert Contents[..li + 1] == done + [Contents[li]];
        assert before[..li + 1] == before[..li] + [before[li]];
      }
      assert Contents[..|layers|] == Contents && before[..|layers|] == before;
      ProgressEnd(layers, before, hs, Contents, out);
      ok := true;
    }

    method CloneSlot(li: nat, destination: CacheStack)
      requires Valid() && destination.Valid() && Like(destination) && Repr !! destination.Repr && li < |slots|
      modifies destination.Repr
      ensures Valid() && Contents == old(Contents) && Repr == old(Repr)
      ensures destination.Valid() && fresh(destination.Repr - old(destination.Repr))
      ensures destination.Contents == old(destination.Contents)[li := Contents[li]]
    {
      hide Adoptable, Slot.Contents, Slot.Valid, Slot.HasCapacity, Slot.Footprint;
      assert Holds(li) && destination.Holds(li);
      slots[li].HandleIsOwn();
      destination.slots[li].HandleIsOwn();
      SlotClone(slots[li], destination.slots[li], Capacity);
      destination.OthersKept(li);
      destination.Adopt(li, old(destination.slots[li].Footprint()));
    }

    /** An independent copy of every cache; only the destination's own and fresh buffers are written. */
    method Clone(destination: CacheStack)
      requires Valid() && destination.Valid() && Like(destination) && Repr !! destination.Repr
      modifies destination.Repr
      ensures Valid() && Contents == old(Contents) && Repr == old(Repr)
      ensures destination.Valid() && fresh(destination.Repr - old(destination.Repr))
      ensures destination.Contents == Contents
    {
      for li := 0 to |slots|
        invariant Valid() && Contents == old(Contents) && Repr == old(Repr)
        invariant destination.Valid() && fresh(destination.Repr - old(destination.Repr))
        invariant destination.Contents[..li] == Contents[..li]
      {
        ghost var was := destination.Contents;
        CloneSlot(li, destination);
        assert destination.Contents[..li + 1] == was[..li] + [Contents[li]];
        assert Contents[..li + 1] == Contents[..li] + [Contents[li]];
      }
      assert destination.Contents[..|slots|] == destination.Contents && Contents[..|slots|] == Contents;
    }

    method SwapSlot(li: nat, other: CacheStack)
      requires Valid() && other.Valid() && Like(other) && Repr !! other.Repr && li < |slots|
      modifies Repr, other.Repr
      ensures Valid() && other.Valid() && Repr !! other.Repr
      ensures Repr + other.Repr == old(Repr) + old(other.Repr)
      ensures Contents == old(Contents)[li := old(other.Contents)[li]]
      ensures other.Contents == old(other.Contents)[li := old(Contents)[li]]
    {
      hide Adoptable, Slot.Contents, Slot.Valid, Slot.HasCapacity, Slot.Footprint;
      assert Holds(li) && other.Holds(li);
      slots[li].HandleIsOwn();
      other.slots[li].HandleIsOwn();
      ghost var mine, theirs := slots[li].Footprint(), other.slots[li].Footprint();
      ExchangeKeepsOwners(Repr, other.Repr, mine, theirs, slots[li].Handle(), other.slots[li].Handle());
      SlotSwap(slots[li], other.slots[li], Capacity);
      OthersKept(li);
      other.OthersKept(li);
      Adopt(li, mine);
      other.Adopt(li, theirs);
    }

    /** The two stacks exchange their contents by exchanging buffers: nothing is copied or allocated, and
        they still share nothing. */
    method Swap(other: CacheStack)
      requires Valid() && other.Valid() && Like(other) && Repr !! other.Repr
      modifies Repr, other.Repr
      ensures Valid() && other.Valid() && Repr !! other.Repr
      ensures Repr + other.Repr == old(Repr) + old(other.Repr)
      ensures Contents == old(other.Contents) && other.Contents == old(Contents)
    {
      ghost var a, b := Contents, other.Contents;
      for li := 0 to |slots|
        invariant Valid() && other.Valid() && Repr !! other.Repr
        invariant Repr + other.Repr == old(Repr) + old(other.Repr)
        invariant |Contents| == |other.Contents| == |slots|
        invariant forall i :: 0 <= i < |slots| ==>
          && Contents[i] == (if i < li then b[i] else a[i])
          && other.Contents[i] == (if i < li then a[i] else b[i])
      {
        SwapSlot(li, other);
      }
    }
  }

  // Two owners that exchange the buffers of one cache each, keeping the cache objects themselves.
  lemma ExchangeKeepsOwners(r: set<object>, q: set<object>, mine: set<object>, theirs: set<object>,
                            h: object, g: object)
    requires r !! q && mine <= r && theirs <= q && h in mine && g in theirs
    ensures var r' := (r - mine) + ({h} + (theirs - {g}));
            var q' := (q - theirs) + ({g} + (mine - {h}));
            r' !! q' && r' + q' == r + q
  {
  }

  // After li layers: the caches done so far and the rows reached complete to the whole chunk.
  ghost predicate Progress(layers: seq<Layer>, before: seq<LayerState>, hs: seq<Row>, li: nat,
                           done: seq<LayerState>, mid: seq<Row>)
    requires Matches(layers, before) && li <= |layers|
  {
    var (rest, final) := StackChunk(layers[li..], before[li..], mid);
    StackChunk(layers, before, hs) == (done + rest, final)
  }

  lemma ProgressStart(layers: seq<Layer>, before: seq<LayerState>, hs: seq<Row>)
    requires Matches(layers, before)
    ensures Progress(layers, before, hs, 0, [], hs)
  {
    assert layers[0..] == layers && before[0..] == before;
    assert [] + StackChunk(layers, before, hs).0 == StackChunk(layers, before, hs).0;
  }

  lemma ProgressEnd(layers: seq<Layer>, before: seq<LayerState>, hs: seq<Row>, done: seq<LayerState>, out: seq<Row>)
    requires Matches(layers, before) && Progress(layers, before, hs, |layers|, done, out)
    ensures StackChunk(layers, before, hs) == (done, out)
  {
    assert done + [] == done;
  }

  lemma ProgressStep(layers: seq<Layer>, before: seq<LayerState>, hs: seq<Row>, li: nat,
                     done: seq<LayerState>, mid: seq<Row>)
    requires Matches(layers, before) && li < |layers|
    requires Progress(layers, before, hs, li, done, mid)
    ensures var (s', out) := LayerChunk(layers[li], before[li], mid);
            Progress(layers, before, hs, li + 1, done + [s'], out)
  {
    var (s', out) := LayerChunk(layers[li], before[li], mid);
    assert layers[li..][1..] == layers[li + 1..] && before[li..][1..] == before[li + 1..];
    var rest := StackChunk(layers[li + 1..], before[li + 1..], out).0;
    assert done + ([s'] + rest) == (done + [s']) + rest;
  }

  method Normalize(l: Layer, hs: seq<Row>) returns (xs: seq<Row>)
    ensures xs == Normalized(l, hs)
  {
    xs := seq(|hs|, i requires 0 <= i < |hs| => l.normalize(hs[i]));
  }

  method Finish(l: Layer, hs: seq<Row>, mixed: seq<Row>) returns (ys: seq<Row>)
    requires |hs| == |mixed|
    ensures ys == Finished(l, hs, mixed)
  {
    ys := seq(|hs|, i requires 0 <= i < |hs| => l.finish(hs[i], mixed[i]));
  }
}
