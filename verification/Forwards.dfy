/** Target and draft forwards on cache stacks, as the decode loops call them. */
module Forwards {
  import opened CausalStack
  import opened Greedy
  import opened Drafting
  import opened CacheStacks

  lemma RoomByLength(ss: seq<LayerState>, n: nat, count: nat, capacity: nat)
    requires AllLength(ss, n) && 0 < capacity && n + count <= capacity
    ensures Room(ss, count, capacity)
  {
  }

  // No tokens, no embedding: a buffer of zero bytes has no storage, and the gather kernel refuses it.
  method LookupEmbedding(m: Model, ids: seq<Token>) returns (ok: bool, rows: seq<Row>)
    ensures ok <==> ids != []
    ensures ok ==> rows == Embedded(m, ids)
  {
    if ids == [] {
      return false, [];
    }
    ok, rows := true, seq(|ids|, i requires 0 <= i < |ids| => m.embed(ids[i]));
  }

  /** One target forward: refuses an empty chunk and one that would overrun a cache; otherwise the rows and
      the caches are those of feeding the tokens one at a time. */
  method RunTarget(m: Model, ids: seq<Token>, caches: CacheStack, maxSeqLen: nat)
    returns (ok: bool, rows: seq<Row>)
    requires caches.Valid() && Matches(m.layers, caches.Contents) && maxSeqLen == caches.Capacity
    modifies caches.Repr
    ensures caches.Valid() && fresh(caches.Repr - old(caches.Repr))
    ensures ok == (ids != [] && Room(old(caches.Contents), |ids|, maxSeqLen))
    ensures ok ==> (caches.Contents, rows) == Feed(m, old(caches.Contents), ids)
  {
    var embedded;
    ok, embedded := LookupEmbedding(m, ids);
    if !ok {
      return false, [];
    }
    TargetForwardIsFeed(m, caches.Contents, ids);
    var hidden;
    ok, hidden := caches.Forward(m.layers, embedded, maxSeqLen);
    rows := seq(|hidden|, i requires 0 <= i < |hidden| => m.finalNorm(hidden[i]));
    if ok {
      assert rows == FinalRows(m, hidden);
    }
  }

  method RunDraft(m: Model, d: Draft, inputs: seq<Input>, caches: CacheStack, maxSeqLen: nat)
    returns (ok: bool, rows: seq<Row>)
    requires caches.Valid() && Matches(d.layers, caches.Contents) && inputs != [] && maxSeqLen == caches.Capacity
    modifies caches.Repr
    ensures caches.Valid() && fresh(caches.Repr - old(caches.Repr))
    ensures ok == Room(old(caches.Contents), |inputs|, maxSeqLen)
    ensures ok ==> (caches.Contents, rows) == DraftFeed(m, d, old(caches.Contents), inputs)
  {
    var fused := seq(|inputs|, i requires 0 <= i < |inputs| => d.fuse(m.embed(inputs[i].token), inputs[i].hidden));
    assert fused == Fused(m, d, inputs);
    ChunkIsSequential(d.layers, caches.Contents, fused);
    var hidden;
    ok, hidden := caches.Forward(d.layers, fused, maxSeqLen);
    rows := seq(|hidden|, i requires 0 <= i < |hidden| => d.norm(hidden[i]));
    if ok {
      assert rows == NormedRows(d, hidden);
    }
  }

  // The LM head and the argmax over every row.
  method PredictRows(m: Model, rows: seq<Row>) returns (predictions: seq<Token>)
    ensures predictions == Predictions(m, rows)
  {
    var logits := seq(|rows|, i requires 0 <= i < |rows| => m.lmHead(rows[i]));
    predictions := ArgmaxRows(logits);
  }

  // The last two rows of a forward on the caches of a history.
  lemma LastRows(m: Model, history: seq<Token>, ids: seq<Token>, rows: seq<Row>)
    requires |ids| >= 2 && rows == Feed(m, After(m, history), ids).1
    ensures |rows| == |ids|
    ensures rows[|ids| - 1] == LastHidden(m, history + ids)
    ensures rows[|ids| - 2] == LastHidden(m, history + ids[..|ids| - 1])
    ensures Argmax(m.lmHead(rows[|ids| - 1])) == Next(m, history + ids)
  {
    var last := |ids| - 1;
    RowOfPrefix(m, history, ids, last);
    RowOfPrefix(m, history, ids, last - 1);
    assert ids[..last + 1] == ids;
  }

  /** A target forward on the caches of a history, within the capacity, never fails; it moves the caches
      to the longer history, and its rows are the hidden rows behind each prediction. */
  method Extend(m: Model, ids: seq<Token>, caches: CacheStack, maxSeqLen: nat, ghost history: seq<Token>)
    returns (ok: bool, rows: seq<Row>)
    requires caches.Valid() && caches.Contents == After(m, history)
    requires ids != [] && |history| + |ids| <= maxSeqLen == caches.Capacity
    modifies caches.Repr
    ensures caches.Valid() && fresh(caches.Repr - old(caches.Repr))
    ensures ok && caches.Contents == After(m, history + ids)
    ensures |rows| == |ids| && rows == Feed(m, After(m, history), ids).1
    ensures rows[|ids| - 1] == LastHidden(m, history + ids)
  {
    AfterLengths(m, history);
    RoomByLength(caches.Contents, |history|, |ids|, maxSeqLen);
    ok, rows := RunTarget(m, ids, caches, maxSeqLen);
    ForwardPredicts(m, history, ids);
    assert ids[..|ids| - 1 + 1] == ids;
  }

  // The same for the draft.
  method ExtendDraft(m: Model, d: Draft, inputs: seq<Input>, caches: CacheStack, maxSeqLen: nat, ghost base: seq<Input>)
    returns (ok: bool, rows: seq<Row>)
    requires caches.Valid() && caches.Contents == DraftAfter(m, d, base)
    requires inputs != [] && |base| + |inputs| <= maxSeqLen == caches.Capacity
    modifies caches.Repr
    ensures caches.Valid() && fresh(caches.Repr - old(caches.Repr))
    ensures ok && caches.Contents == DraftAfter(m, d, base + inputs)
    ensures |rows| == |inputs| && rows == DraftFeed(m, d, DraftAfter(m, d, base), inputs).1
  {
    DraftLengths(m, d, base);
    RoomByLength(caches.Contents, |base|, |inputs|, maxSeqLen);
    ok, rows := RunDraft(m, d, inputs, caches, maxSeqLen);
    DraftAfterExtends(m, d, base, inputs);
  }
}
