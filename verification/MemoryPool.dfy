/** The caching bucket allocator: requests are rounded up to bucket sizes, freed blocks are kept in one free
    list per bucket, and a limit bounds the bytes kept. */
module MemoryPools {

  // Zero is the null pointer.
  type Pointer = nat

  const SIZE_MAX: nat := 0xFFFF_FFFF_FFFF_FFFF
  // The bucket of a block that did not come from a bucket.
  const DIRECT: nat := SIZE_MAX

  type Size = n: int | 0 <= n <= SIZE_MAX

  datatype Status = OK | InvalidArgument | BackendFailure
  datatype Options = Options(minBucketSize: Size, maxBucketSize: Size, bucketGrowth: real, maxPooledBytes: Size)
  datatype Block = Block(ptr: Pointer, size: nat, active: bool)
  datatype ActiveBlock = ActiveBlock(bucket: nat, size: nat)

  /* ---------------------------------- byte totals ---------------------------------- */

  type Sizes = map<Pointer, nat>

  ghost function Total(m: Sizes): nat {
    if m == map[] then 0
    else
      var p :| p in m;
      m[p] + Total(m - {p})
  }

  lemma {:induction false} TotalWithout(m: Sizes, p: Pointer)
    requires p in m
    ensures Total(m) == m[p] + Total(m - {p})
    decreases |m|
  {
    var q :| q in m && Total(m) == m[q] + Total(m - {q});
    if p != q {
      TotalWithout(m - {q}, p);
      TotalWithout(m - {p}, q);
      assert m - {q} - {p} == m - {p} - {q};
    }
  }

  lemma TotalWith(m: Sizes, p: Pointer, size: nat)
    requires p !in m
    ensures Total(m[p := size]) == Total(m) + size
  {
    TotalWithout(m[p := size], p);
    assert m[p := size] - {p} == m;
  }

  lemma {:induction false} TotalOfUnion(a: Sizes, b: Sizes)
    requires a.Keys !! b.Keys
    ensures Total(a + b) == Total(a) + Total(b)
    decreases |a|
  {
    if a == map[] {
      assert a + b == b;
    } else {
      var p :| p in a;
      TotalWithout(a, p);
      TotalOfUnion(a - {p}, b);
      UnionWithout(a, b, p);
      TotalWithout(a + b, p);
    }
  }

  lemma UnionWithout(a: Sizes, b: Sizes, p: Pointer)
    requires p in a && p !in b
    ensures (a + b)[p] == a[p] && a + b - {p} == (a - {p}) + b
  {
  }

  /* ---------------------------------- the bucket table ---------------------------------- */

  function Ceil(x: real): int {
    -((-x).Floor)
  }

  ghost predicate Increasing(sizes: seq<Size>) {
    forall i, j :: 0 <= i < j < |sizes| ==> sizes[i] < sizes[j]
  }

  // The size after this one, before the guard against a standstill.
  function Grown(size: nat, growth: real): int {
    Ceil(size as real * growth)
  }

  function NextSize(size: nat, growth: real): int {
    if Grown(size, growth) <= size then size * 2 else Grown(size, growth)
  }

  lemma GrowthIsStrict(size: nat, g: real)
    requires size > 0 && g >= 1.01
    ensures Grown(size, g) > size
  {
    assert size as real * g >= size as real * 1.01;
    assert size as real * 1.01 > size as real;
  }

  // Every size is the product of the one before and the factor, rounded up; the last one may be less.
  ghost predicate GrowsBy(sizes: seq<Size>, g: real) {
    forall i :: 0 <= i < |sizes| - 1 ==>
      var product := sizes[i] as real * g;
      sizes[i + 1] as real < product + 1.0 && (i < |sizes| - 2 ==> product <= sizes[i + 1] as real)
  }

  lemma GrownGrowsBy(sizes: seq<Size>, g: real)
    requires forall i :: 0 <= i < |sizes| - 1 ==> sizes[i + 1] <= Grown(sizes[i], g)
    requires forall i :: 0 <= i < |sizes| - 2 ==> sizes[i + 1] == Grown(sizes[i], g)
    ensures GrowsBy(sizes, g)
  {
    hide Grown;
    forall i | 0 <= i < |sizes| - 1
      ensures var product := sizes[i] as real * g;
              sizes[i + 1] as real < product + 1.0 && (i < |sizes| - 2 ==> product <= sizes[i + 1] as real)
    {
      GrownIsCeiling(sizes[i], g);
    }
  }

  lemma GrownIsCeiling(size: nat, g: real)
    ensures size as real * g <= Grown(size, g) as real < size as real * g + 1.0
  {
  }

  /** The table loop moves on exactly from a positive size: the guard cannot rescue a minimum bucket size
      of zero, from which the loop never gets away. */
  lemma GrowsIffPositive(size: nat, growth: real)
    ensures var g := if growth < 1.01 then 2.0 else growth;
            && (NextSize(size, g) > size <==> size > 0)
            && NextSize(0, g) == 0
  {
    var g := if growth < 1.01 then 2.0 else growth;
    assert Grown(0, g) == 0 by {
      assert 0 as real * g == 0.0;
    }
    if size > 0 {
      GrowthIsStrict(size, g);
    }
  }

  /** The table grows strictly by the factor and ends at the largest bucket size, whatever the options. */
  method BucketTable(options: Options) returns (sizes: seq<Size>)
    requires options.minBucketSize > 0
    ensures sizes != [] && sizes[|sizes| - 1] == options.maxBucketSize && Increasing(sizes)
    ensures sizes[0] == if options.minBucketSize <= options.maxBucketSize then options.minBucketSize
                        else options.maxBucketSize
    ensures options.minBucketSize > options.maxBucketSize ==> |sizes| == 1
    ensures GrowsBy(sizes, if options.bucketGrowth < 1.01 then 2.0 else options.bucketGrowth)
  {
    hide Grown, GrowsBy, Growing, Increasing;
    var g := options.bucketGrowth;
    if g < 1.01 {
      g := 2.0;
    }
    sizes := [];
    var size: int := options.minBucketSize;
    NoSizes(size, g);
    while size <= options.maxBucketSize
      invariant size > 0 && Growing(sizes, options.minBucketSize, g, size)
      invariant sizes != [] ==> sizes[|sizes| - 1] <= options.maxBucketSize
      invariant if sizes == [] then size == options.minBucketSize else options.minBucketSize <= options.maxBucketSize
      decreases options.maxBucketSize - size
    {
      var last := size;
      OneMoreSize(sizes, options.minBucketSize, g, last);
      sizes := sizes + [last];
      size := Grown(last, g);
      if size <= last {
        size := last * 2;
      }
    }
    LastSize(sizes, options, g, size);
    if sizes == [] || sizes[|sizes| - 1] < options.maxBucketSize {
      sizes := sizes + [options.maxBucketSize];
    }
  }

  // The sizes so far and the one after them.
  ghost predicate Growing(sizes: seq<Size>, first: nat, g: real, next: int) {
    && Increasing(sizes)
    && (if sizes == [] then next == first
        else sizes[0] == first && sizes[|sizes| - 1] < next == Grown(sizes[|sizes| - 1], g))
    && forall i :: 0 <= i < |sizes| - 1 ==> sizes[i + 1] == Grown(sizes[i], g)
  }

  lemma NoSizes(first: nat, g: real)
    ensures Growing([], first, g, first)
  {
  }

  lemma OneMoreSize(sizes: seq<Size>, first: nat, g: real, next: Size)
    requires Growing(sizes, first, g, next) && next > 0 && g >= 1.01
    ensures Grown(next, g) > next && Growing(sizes + [next], first, g, Grown(next, g))
  {
    hide Grown;
    GrowthIsStrict(next, g);
  }

  // The largest bucket size closes the table.
  lemma LastSize(sizes: seq<Size>, options: Options, g: real, next: int)
    requires Growing(sizes, options.minBucketSize, g, next) && next > options.maxBucketSize
    requires sizes != [] ==> sizes[|sizes| - 1] <= options.maxBucketSize
    ensures var closed := if sizes == [] || sizes[|sizes| - 1] < options.maxBucketSize
                          then sizes + [options.maxBucketSize] else sizes;
            && Increasing(closed) && GrowsBy(closed, g)
            && closed[0] == (if sizes == [] then options.maxBucketSize else options.minBucketSize)
  {
    hide Grown, GrowsBy;
    var closed := if sizes == [] || sizes[|sizes| - 1] < options.maxBucketSize
                  then sizes + [options.maxBucketSize] else sizes;
    GrownGrowsBy(closed, g);
  }

  // The first position whose size is at least x.
  method LowerBound(sizes: seq<Size>, x: nat) returns (i: nat)
    requires Increasing(sizes)
    ensures i <= |sizes| && (forall k :: 0 <= k < i ==> sizes[k] < x)
    ensures i < |sizes| ==> sizes[i] >= x
  {
    i := 0;
    var end := |sizes|;
    while i < end
      invariant i <= end <= |sizes|
      invariant forall k :: 0 <= k < i ==> sizes[k] < x
      invariant forall k :: end <= k < |sizes| ==> sizes[k] >= x
    {
      var mid := (i + end) / 2;
      if sizes[mid] < x {
        i := mid + 1;
      } else {
        end := mid;
      }
    }
  }

  ghost predicate TableFor(sizes: seq<Size>, options: Options) {
    && options.minBucketSize > 0 && Increasing(sizes)
    && sizes != [] && sizes[|sizes| - 1] == options.maxBucketSize
    && (|sizes| == 1 || sizes[0] > 0)
  }

  ghost predicate SmallestBucket(sizes: seq<Size>, options: Options, size: Size, bucket: nat) {
    forall k :: 0 <= k < |sizes| && size <= sizes[k] && options.minBucketSize <= sizes[k] ==> bucket <= k
  }

  /** The smallest bucket that holds the request and is no smaller than the minimum; the last one if there
      is none. */
  method BucketIndex(sizes: seq<Size>, options: Options, size: Size) returns (bucket: nat)
    requires TableFor(sizes, options)
    ensures bucket < |sizes| && SmallestBucket(sizes, options, size, bucket)
    ensures size <= options.maxBucketSize ==> size <= sizes[bucket]
    ensures options.minBucketSize <= options.maxBucketSize && size <= options.maxBucketSize ==>
              options.minBucketSize <= sizes[bucket]
  {
    var requested := if size < options.minBucketSize then options.minBucketSize else size;
    var i := LowerBound(sizes, requested);
    bucket := if i == |sizes| then |sizes| - 1 else i;
  }

  // Sizes start at one or more and increase, so there are too few buckets for an index to be DIRECT.
  lemma {:induction false} TableIsShort(sizes: seq<Size>)
    requires Increasing(sizes) && sizes != [] && sizes[0] > 0
    ensures sizes[|sizes| - 1] >= |sizes|
  {
    if |sizes| > 1 {
      TableIsShort(sizes[..|sizes| - 1]);
    }
  }

  lemma TableIncreases(sizes: seq<Size>, options: Options)
    requires TableFor(sizes, options)
    ensures Increasing(sizes)
  {
  }

  lemma BucketIsNotDirect(sizes: seq<Size>, options: Options, bucket: nat)
    requires TableFor(sizes, options) && bucket < |sizes|
    ensures bucket != DIRECT
  {
    if |sizes| > 1 {
      TableIsShort(sizes);
    }
  }

  /* ---------------------------------- the backend ---------------------------------- */

  lemma {:induction false} FreshExists(s: set<Pointer>) returns (p: Pointer)
    ensures p != 0 && forall q :: q in s ==> q < p
    decreases |s|
  {
    if s == {} {
      p := 1;
    } else {
      var q :| q in s;
      var r := FreshExists(s - {q});
      p := if r > q then r else q + 1;
      assert forall x :: x in s ==> x == q || x in s - {q};
    }
  }

  /** The allocator underneath: it may fail, and hands out any non-null pointer it has not handed out. */
  class Backend {
    var outstanding: Sizes

    constructor ()
      ensures outstanding == map[]
    {
      outstanding := map[];
    }

    method Allocate(size: Size) returns (ok: bool, ptr: Pointer)
      modifies this
      ensures !ok ==> outstanding == old(outstanding)
      ensures ok ==> ptr != 0 && ptr !in old(outstanding) && outstanding == old(outstanding)[ptr := size]
    {
      ok := *;
      ptr := 0;
      if ok {
        ghost var unused := FreshExists(outstanding.Keys);
        assert unused !in outstanding;
        ptr :| ptr != 0 && ptr !in outstanding;
        outstanding := outstanding[ptr := size];
      }
    }

    method Deallocate(ptr: Pointer)
      requires ptr in outstanding
      modifies this
      ensures outstanding == old(outstanding) - {ptr}
    {
      outstanding := outstanding - {ptr};
    }
  }

  /* ---------------------------------- the pool ---------------------------------- */

  type FreeLists = map<nat, seq<Block>>

  ghost predicate Listed(free: FreeLists, p: Pointer) {
    exists b, i :: b in free && 0 <= i < |free[b]| && free[b][i].ptr == p
  }

  // The free lists hold exactly the cached blocks, each once, in the list of its size.
  ghost predicate Lists(free: FreeLists, sizes: seq<Size>, cached: Sizes) {
    && (forall b :: b in free ==> b < |sizes|)
    && (forall b, i :: b in free && 0 <= i < |free[b]| ==>
          free[b][i].ptr in cached && cached[free[b][i].ptr] == free[b][i].size == sizes[b])
    && (forall b, i, j :: b in free && 0 <= i < j < |free[b]| ==> free[b][i].ptr != free[b][j].ptr)
    && forall p :: p in cached ==> Listed(free, p)
  }

  ghost function ActiveSizes(active: map<Pointer, ActiveBlock>): Sizes {
    map p | p in active :: active[p].size
  }

  // An active block is large enough, and a bucketed one has its bucket's size.
  ghost predicate Serves(active: map<Pointer, ActiveBlock>, sizes: seq<Size>, requested: map<Pointer, nat>) {
    && requested.Keys == active.Keys
    && forall p :: p in active ==>
         && 0 < requested[p] <= active[p].size
         && (active[p].bucket != DIRECT ==> active[p].bucket < |sizes| && active[p].size == sizes[active[p].bucket])
  }

  lemma ServesMore(active: map<Pointer, ActiveBlock>, sizes: seq<Size>, requested: map<Pointer, nat>, p: Pointer,
                   block: ActiveBlock, asked: nat)
    requires Serves(active, sizes, requested) && 0 < asked <= block.size
    requires block.bucket != DIRECT ==> block.bucket < |sizes| && block.size == sizes[block.bucket]
    ensures Serves(active[p := block], sizes, requested[p := asked])
  {
  }

  lemma ServesLess(active: map<Pointer, ActiveBlock>, sizes: seq<Size>, requested: map<Pointer, nat>, p: Pointer)
    requires Serves(active, sizes, requested)
    ensures Serves(active - {p}, sizes, requested - {p})
    ensures p in active && active[p].bucket != DIRECT ==>
              active[p].bucket < |sizes| && active[p].size == sizes[active[p].bucket]
  {
  }

  function ListOf(free: FreeLists, b: nat): seq<Block> {
    if b in free then free[b] else []
  }

  lemma PopFront(free: FreeLists, sizes: seq<Size>, cached: Sizes, b: nat)
    requires Lists(free, sizes, cached) && Increasing(sizes) && b in free && free[b] != []
    ensures Lists(free[b := free[b][1..]], sizes, cached - {free[b][0].ptr})
  {
    var gone, popped: FreeLists := free[b][0].ptr, free[b := free[b][1..]];
    forall c, i | c in popped && 0 <= i < |popped[c]| ensures popped[c][i].ptr != gone {
      if c != b {
        assert sizes[c] != sizes[b];
      }
    }
    forall p | p in cached && p != gone ensures Listed(popped, p) {
      var c, i :| c in free && 0 <= i < |free[c]| && free[c][i].ptr == p;
      assert c == b ==> popped[b][i - 1] == free[b][i];
      assert c != b ==> popped[c][i] == free[c][i];
    }
  }

  lemma FrontBlock(free: FreeLists, sizes: seq<Size>, cached: Sizes, b: nat)
    requires Lists(free, sizes, cached) && b in free && free[b] != []
    ensures b < |sizes|
    ensures var block := free[b][0]; block.ptr in cached && cached[block.ptr] == block.size == sizes[b]
  {
  }

  lemma PushBack(free: FreeLists, sizes: seq<Size>, cached: Sizes, b: nat, block: Block)
    requires Lists(free, sizes, cached)
    requires b < |sizes| && block.size == sizes[b] && block.ptr !in cached
    ensures Lists(free[b := ListOf(free, b) + [block]], sizes, cached[block.ptr := block.size])
  {
    var kept := ListOf(free, b);
    var pushed: FreeLists := free[b := kept + [block]];
    assert pushed[b][|kept|] == block;
    forall c, i | c in pushed && 0 <= i < |pushed[c]|
      ensures if c == b && i == |kept| then pushed[c][i] == block
              else c in free && i < |free[c]| && pushed[c][i] == free[c][i]
    {
    }
    forall p | p in cached ensures Listed(pushed, p) {
      var c, i :| c in free && 0 <= i < |free[c]| && free[c][i].ptr == p;
      assert pushed[c][i] == free[c][i];
    }
  }

  // Every byte the backend has handed out is in an active block or a cached one, never in both, and the
  // counters are the totals.
  ghost predicate Accounts(outstanding: Sizes, active: map<Pointer, ActiveBlock>, cached: Sizes,
                           activeBytes: nat, pooledBytes: nat) {
    && active.Keys !! cached.Keys
    && 0 !in active && 0 !in cached
    && outstanding == ActiveSizes(active) + cached
    && activeBytes == Total(ActiveSizes(active)) && pooledBytes == Total(cached)
  }

  lemma ActiveSizesWith(active: map<Pointer, ActiveBlock>, p: Pointer, block: ActiveBlock)
    ensures ActiveSizes(active[p := block]) == ActiveSizes(active)[p := block.size]
    ensures ActiveSizes(active - {p}) == ActiveSizes(active) - {p}
  {
  }

  // The ways a block moves between the backend, the caller and the free lists.
  lemma NewBlock(outstanding: Sizes, active: map<Pointer, ActiveBlock>, cached: Sizes, activeBytes: nat,
                 pooledBytes: nat, p: Pointer, block: ActiveBlock)
    requires Accounts(outstanding, active, cached, activeBytes, pooledBytes) && p != 0 && p !in outstanding
    ensures p !in active && p !in cached
    ensures Accounts(outstanding[p := block.size], active[p := block], cached, activeBytes + block.size, pooledBytes)
  {
    hide Total;
    ActiveSizesWith(active, p, block);
    TotalWith(ActiveSizes(active), p, block.size);
    assert outstanding[p := block.size] == ActiveSizes(active)[p := block.size] + cached;
  }

  lemma ReusedBlock(outstanding: Sizes, active: map<Pointer, ActiveBlock>, cached: Sizes, activeBytes: nat,
                    pooledBytes: nat, p: Pointer, block: ActiveBlock)
    requires Accounts(outstanding, active, cached, activeBytes, pooledBytes) && p in cached && block.size == cached[p]
    ensures p != 0 && p in outstanding && p !in active && block.size <= pooledBytes
    ensures Accounts(outstanding, active[p := block], cached - {p}, activeBytes + block.size, pooledBytes - block.size)
  {
    hide Total;
    ActiveSizesWith(active, p, block);
    TotalWith(ActiveSizes(active), p, block.size);
    TotalWithout(cached, p);
    assert ActiveSizes(active) + cached == ActiveSizes(active)[p := block.size] + (cached - {p});
  }

  lemma ReleasedBlock(outstanding: Sizes, active: map<Pointer, ActiveBlock>, cached: Sizes, activeBytes: nat,
                      pooledBytes: nat, p: Pointer)
    requires Accounts(outstanding, active, cached, activeBytes, pooledBytes) && p in active
    ensures p in outstanding && active[p].size <= activeBytes
    ensures Accounts(outstanding - {p}, active - {p}, cached, activeBytes - active[p].size, pooledBytes)
  {
    hide Total;
    ActiveSizesWith(active, p, active[p]);
    TotalWithout(ActiveSizes(active), p);
    assert ActiveSizes(active) + cached - {p} == (ActiveSizes(active) - {p}) + cached;
  }

  lemma KeptBlock(outstanding: Sizes, active: map<Pointer, ActiveBlock>, cached: Sizes, activeBytes: nat,
                  pooledBytes: nat, p: Pointer)
    requires Accounts(outstanding, active, cached, activeBytes, pooledBytes) && p in active
    ensures p !in cached && active[p].size <= activeBytes
    ensures var size := active[p].size;
            Accounts(outstanding, active - {p}, cached[p := size], activeBytes - size, pooledBytes + size)
  {
    hide Total;
    var size := active[p].size;
    ActiveSizesWith(active, p, active[p]);
    TotalWithout(ActiveSizes(active), p);
    TotalWith(cached, p, size);
    assert ActiveSizes(active) + cached == (ActiveSizes(active) - {p}) + cached[p := size];
  }

  lemma DroppedBlock(outstanding: Sizes, active: map<Pointer, ActiveBlock>, cached: Sizes, activeBytes: nat,
                     pooledBytes: nat, p: Pointer)
    requires Accounts(outstanding, active, cached, activeBytes, pooledBytes) && p in cached
    ensures p in outstanding && cached[p] <= pooledBytes
    ensures Accounts(outstanding - {p}, active, cached - {p}, activeBytes, pooledBytes - cached[p])
  {
    hide Total;
    TotalWithout(cached, p);
    assert ActiveSizes(active) + cached - {p} == ActiveSizes(active) + (cached - {p});
  }

  lemma EmptyLists(free: FreeLists, sizes: seq<Size>, cached: Sizes)
    requires Lists(free, sizes, cached) && forall b :: b in free ==> free[b] == []
    ensures cached == map[] && Lists(map[], sizes, map[])
  {
    assert forall p :: !Listed(free, p);
    assert forall p :: p in cached ==> Listed(free, p);
  }

  class MemoryPool {
    const backend: Backend?
    const options: Options
    const bucketSizes: seq<Size>
    var freeBlocks: FreeLists
    var activeBlocks: map<Pointer, ActiveBlock>
    var pooledBytes: nat
    var activeBytes: nat
    var totalAllocs: nat
    var cacheHits: nat
    // The blocks in the free lists with their sizes, and what was asked for each active block.
    ghost var cached: Sizes
    ghost var requested: map<Pointer, nat>

    ghost predicate Valid()
      reads this, backend
    {
      && TableFor(bucketSizes, options)
      && Lists(freeBlocks, bucketSizes, cached)
      && Serves(activeBlocks, bucketSizes, requested)
      && Accounts(if backend == null then map[] else backend.outstanding, activeBlocks, cached, activeBytes,
                  pooledBytes)
      && (options.maxPooledBytes > 0 ==> pooledBytes <= options.maxPooledBytes)
    }

    constructor (backend: Backend?, options: Options)
      requires options.minBucketSize > 0
      requires backend != null ==> backend.outstanding == map[]
      ensures Valid() && this.backend == backend && this.options == options
      ensures activeBlocks == map[] && cached == map[] && totalAllocs == cacheHits == 0
    {
      var sizes := BucketTable(options);
      this.backend, this.options, bucketSizes := backend, options, sizes;
      freeBlocks, activeBlocks := map[], map[];
      pooledBytes, activeBytes, totalAllocs, cacheHits := 0, 0, 0, 0;
      cached, requested := map[], map[];
      new;
      assert ActiveSizes(activeBlocks) == map[];
    }

    /** The counters add up to the bytes the backend has outstanding. */
    lemma BytesAreConserved()
      requires Valid() && backend != null
      ensures Total(backend.outstanding) == activeBytes + pooledBytes
    {
      hide Total;
      TotalOfUnion(ActiveSizes(activeBlocks), cached);
    }

    ghost predicate Untouched(free: FreeLists, active: map<Pointer, ActiveBlock>, pooled: nat, bytes: nat,
                              allocs: nat, hits: nat)
      reads this
    {
      && freeBlocks == free && activeBlocks == active && pooledBytes == pooled && activeBytes == bytes
      && totalAllocs == allocs && cacheHits == hits
    }

    /** A successful request gets a block nobody else holds, of at least the size asked for: a cached one
        of the request's bucket when there is one, else a new one. */
    method Allocate(size: Size) returns (status: Status, ptr: Pointer)
      requires Valid()
      modifies this, backend
      ensures Valid()
      ensures backend == null ==> status == InvalidArgument
      ensures backend != null && size == 0 ==> status == OK && ptr == 0
      ensures backend != null && size > 0 ==> status != InvalidArgument
      ensures status != OK || size == 0 ==>
                Untouched(old(freeBlocks), old(activeBlocks), old(pooledBytes), old(activeBytes),
                          old(totalAllocs), old(cacheHits))
      ensures status == OK && size > 0 ==>
                && ptr != 0 && ptr !in old(activeBlocks)
                && ptr in activeBlocks && activeBlocks == old(activeBlocks)[ptr := activeBlocks[ptr]]
                && requested == old(requested)[ptr := size as nat]
                && activeBytes == old(activeBytes) + activeBlocks[ptr].size
                && totalAllocs == old(totalAllocs) + 1
      ensures status == OK && size > options.maxBucketSize ==>
                && activeBlocks[ptr] == ActiveBlock(DIRECT, size)
                && freeBlocks == old(freeBlocks) && cacheHits == old(cacheHits)
      ensures status == OK && 0 < size <= options.maxBucketSize ==>
                var b := activeBlocks[ptr].bucket;
                && b < |bucketSizes| && activeBlocks[ptr].size == bucketSizes[b]
                && SmallestBucket(bucketSizes, options, size, b)
                && var kept := ListOf(old(freeBlocks), b);
                   if kept != [] then
                     && ptr == kept[0].ptr && cacheHits == old(cacheHits) + 1
                     && freeBlocks == old(freeBlocks)[b := kept[1..]]
                   else cacheHits == old(cacheHits) && freeBlocks == old(freeBlocks)
    {
      ptr := 0;
      if backend == null {
        return InvalidArgument, ptr;
      }
      if size == 0 {
        return OK, ptr;
      }
      if size > options.maxBucketSize {
        status, ptr := AllocateNew(DIRECT, size, size);
        return;
      }
      var bucket := BucketIndex(bucketSizes, options, size);
      BucketIsNotDirect(bucketSizes, options, bucket);
      if bucket in freeBlocks && freeBlocks[bucket] != [] {
        ptr := Reuse(bucket, size);
        return OK, ptr;
      }
      status, ptr := AllocateNew(bucket, bucketSizes[bucket], size);
    }

    method AllocateNew(bucket: nat, size: Size, ghost asked: nat) returns (status: Status, ptr: Pointer)
      requires Valid() && backend != null && 0 < asked <= size
      requires bucket != DIRECT ==> bucket < |bucketSizes| && size == bucketSizes[bucket]
      modifies this, backend
      ensures Valid() && status != InvalidArgument
      ensures status != OK ==>
                Untouched(old(freeBlocks), old(activeBlocks), old(pooledBytes), old(activeBytes),
                          old(totalAllocs), old(cacheHits))
      ensures status == OK ==>
                && ptr != 0 && ptr !in old(backend.outstanding)
                && ptr !in old(activeBlocks) && activeBlocks == old(activeBlocks)[ptr := ActiveBlock(bucket, size)]
                && requested == old(requested)[ptr := asked]
                && activeBytes == old(activeBytes) + size && totalAllocs == old(totalAllocs) + 1
                && freeBlocks == old(freeBlocks) && cacheHits == old(cacheHits)
    {
      hide TableFor, Lists, Accounts, ActiveSizes, Serves;
      var ok, made := backend.Allocate(size);
      if !ok {
        return BackendFailure, 0;
      }
      ghost var block := ActiveBlock(bucket, size);
      NewBlock(old(backend.outstanding), activeBlocks, cached, activeBytes, pooledBytes, made, block);
      ServesMore(activeBlocks, bucketSizes, requested, made, block, asked);
      status, ptr := OK, made;
      activeBlocks := activeBlocks[ptr := ActiveBlock(bucket, size)];
      requested := requested[ptr := asked];
      activeBytes := activeBytes + size;
      totalAllocs := totalAllocs + 1;
    }

    method Reuse(bucket: nat, ghost asked: nat) returns (ptr: Pointer)
      requires Valid() && backend != null
      requires bucket in freeBlocks && freeBlocks[bucket] != [] && bucket < |bucketSizes| && bucket != DIRECT
      requires 0 < asked <= bucketSizes[bucket]
      modifies this
      ensures Valid() && ptr == old(freeBlocks[bucket][0].ptr)
      ensures ptr != 0 && ptr in old(backend.outstanding) && ptr !in old(activeBlocks)
      ensures activeBlocks == old(activeBlocks)[ptr := ActiveBlock(bucket, bucketSizes[bucket])]
      ensures requested == old(requested)[ptr := asked]
      ensures activeBytes == old(activeBytes) + bucketSizes[bucket]
      ensures pooledBytes == old(pooledBytes) - bucketSizes[bucket]
      ensures totalAllocs == old(totalAllocs) + 1 && cacheHits == old(cacheHits) + 1
      ensures freeBlocks == old(freeBlocks)[bucket := old(freeBlocks[bucket][1..])]
    {
      hide TableFor, Lists, Accounts, ActiveSizes, Serves;
      TableIncreases(bucketSizes, options);
      var block := freeBlocks[bucket][0];
      FrontBlock(freeBlocks, bucketSizes, cached, bucket);
      PopFront(freeBlocks, bucketSizes, cached, bucket);
      ptr := block.ptr;
      var active := ActiveBlock(bucket, block.size);
      ReusedBlock(backend.outstanding, activeBlocks, cached, activeBytes, pooledBytes, ptr, active);
      ServesMore(activeBlocks, bucketSizes, requested, ptr, active, asked);
      freeBlocks := freeBlocks[bucket := freeBlocks[bucket][1..]];
      cached := cached - {ptr};
      activeBlocks := activeBlocks[ptr := active];
      requested := requested[ptr := asked];
      activeBytes := activeBytes + block.size;
      pooledBytes := pooledBytes - block.size;
      totalAllocs := totalAllocs + 1;
      cacheHits := cacheHits + 1;
    }

    /** An active block goes back to the backend when it did not come from a bucket or keeping it would
        exceed the limit; otherwise to the end of its bucket's free list. Any other pointer is an error. */
    method Deallocate(ptr: Pointer) returns (status: Status)
      requires Valid()
      modifies this, backend
      ensures Valid()
      ensures status == if ptr == 0 || ptr in old(activeBlocks) then OK else InvalidArgument
      ensures ptr !in old(activeBlocks) ==>
                Untouched(old(freeBlocks), old(activeBlocks), old(pooledBytes), old(activeBytes),
                          old(totalAllocs), old(cacheHits))
      ensures ptr in old(activeBlocks) ==>
                var block := old(activeBlocks[ptr]);
                && activeBlocks == old(activeBlocks) - {ptr} && requested == old(requested) - {ptr}
                && activeBytes == old(activeBytes) - block.size
                && totalAllocs == old(totalAllocs) && cacheHits == old(cacheHits)
                && if block.bucket == DIRECT
                      || 0 < options.maxPooledBytes < old(pooledBytes) + block.size then
                     freeBlocks == old(freeBlocks) && pooledBytes == old(pooledBytes)
                   else
                     && pooledBytes == old(pooledBytes) + block.size
                     && freeBlocks == old(freeBlocks)[block.bucket :=
                          ListOf(old(freeBlocks), block.bucket) + [Block(ptr, block.size, false)]]
    {
      hide TableFor, Lists, Accounts, ActiveSizes, Serves;
      if ptr == 0 {
        NullIsNotActive();
        return OK;
      }
      if ptr !in activeBlocks {
        return InvalidArgument;
      }
      var block := activeBlocks[ptr];
      if block.bucket == DIRECT {
        Release(ptr);
        return OK;
      }
      if options.maxPooledBytes > 0 && pooledBytes + block.size > options.maxPooledBytes {
        Release(ptr);
        return OK;
      }
      ghost var outstanding := if backend == null then map[] else backend.outstanding;
      KeptBlock(outstanding, activeBlocks, cached, activeBytes, pooledBytes, ptr);
      ServesLess(activeBlocks, bucketSizes, requested, ptr);
      var free := Block(ptr, block.size, false);
      PushBack(freeBlocks, bucketSizes, cached, block.bucket, free);
      freeBlocks := freeBlocks[block.bucket := ListOf(freeBlocks, block.bucket) + [free]];
      cached := cached[ptr := block.size];
      Deactivate(ptr, block.size);
      pooledBytes := pooledBytes + block.size;
      return OK;
    }

    lemma NullIsNotActive()
      requires Valid()
      ensures 0 !in activeBlocks
    {
    }

    method Deactivate(ptr: Pointer, size: nat)
      requires size <= activeBytes
      modifies `activeBlocks, `requested, `activeBytes
      ensures activeBlocks == old(activeBlocks) - {ptr} && requested == old(requested) - {ptr}
      ensures activeBytes == old(activeBytes) - size
    {
      activeBlocks := activeBlocks - {ptr};
      requested := requested - {ptr};
      activeBytes := activeBytes - size;
    }

    // Gives an active block back to the backend.
    method Release(ptr: Pointer)
      requires Valid() && ptr in activeBlocks
      modifies `activeBlocks, `requested, `activeBytes, backend
      ensures Valid() && backend != null && backend.outstanding == old(backend.outstanding) - {ptr}
      ensures activeBlocks == old(activeBlocks) - {ptr} && requested == old(requested) - {ptr}
      ensures activeBytes == old(activeBytes) - old(activeBlocks[ptr]).size
    {
      hide TableFor, Lists, Accounts, ActiveSizes, Serves;
      ghost var outstanding := if backend == null then map[] else backend.outstanding;
      ServesLess(activeBlocks, bucketSizes, requested, ptr);
      ReleasedBlock(outstanding, activeBlocks, cached, activeBytes, pooledBytes, ptr);
      var size := activeBlocks[ptr].size;
      backend.Deallocate(ptr);
      Deactivate(ptr, size);
    }

    /** Every cached block goes back to the backend, which is left with the active ones. */
    method ReleaseCache()
      requires Valid()
      modifies this, backend
      ensures Valid() && freeBlocks == map[] && pooledBytes == 0
      ensures activeBlocks == old(activeBlocks) && requested == old(requested) && activeBytes == old(activeBytes)
      ensures totalAllocs == old(totalAllocs) && cacheHits == old(cacheHits)
      ensures backend != null ==> backend.outstanding == ActiveSizes(activeBlocks)
    {
      hide TableFor, Lists, Accounts, ActiveSizes, Total, Serves;
      StartsDraining();
      // What is still in the lists.
      ghost var free := freeBlocks;
      var buckets := freeBlocks.Keys;
      while buckets != {}
        invariant buckets <= freeBlocks.Keys == free.Keys
        invariant forall b :: b in free ==> free[b] == if b in buckets then freeBlocks[b] else []
        invariant Draining(free, old(activeBytes))
        invariant unchanged(`freeBlocks) && unchanged(`activeBlocks) && unchanged(`activeBytes) && unchanged(`requested)
        invariant unchanged(`totalAllocs) && unchanged(`cacheHits)
        decreases |buckets|
      {
        var b :| b in buckets;
        buckets := buckets - {b};
        free := DrainList(freeBlocks[b], b, free);
      }
      NothingCached(free);
      freeBlocks := map[];
      pooledBytes := 0;
    }

    // The invariant while the lists are being emptied; the counter is reset at the end.
    ghost predicate Draining(free: FreeLists, bytes: nat)
      reads this, backend
    {
      && TableFor(bucketSizes, options)
      && Lists(free, bucketSizes, cached)
      && Serves(activeBlocks, bucketSizes, requested)
      && Accounts(if backend == null then map[] else backend.outstanding, activeBlocks, cached, bytes, Total(cached))
    }

    lemma StartsDraining()
      requires Valid()
      ensures Draining(freeBlocks, activeBytes)
    {
      hide Total, Lists, Serves, TableFor, ActiveSizes;
    }

    lemma NothingCached(free: FreeLists)
      requires Draining(free, activeBytes) && forall b :: b in free ==> free[b] == []
      ensures cached == map[] && Lists(map[], bucketSizes, map[])
      ensures Accounts(if backend == null then map[] else backend.outstanding, activeBlocks, map[], activeBytes, 0)
      ensures backend != null ==> backend.outstanding == ActiveSizes(activeBlocks)
    {
      EmptyLists(free, bucketSizes, cached);
    }

    // Gives one list back, front to end.
    method DrainList(blocks: seq<Block>, ghost b: nat, ghost free: FreeLists) returns (ghost rest: FreeLists)
      requires Draining(free, activeBytes) && b in free && free[b] == blocks
      modifies `cached, backend
      ensures rest == free[b := []] && Draining(rest, activeBytes)
    {
      hide Draining;
      rest := free;
      assert blocks[0..] == blocks && free[b := blocks] == free;
      for i := 0 to |blocks|
        invariant rest == free[b := blocks[i..]] && Draining(rest, activeBytes)
      {
        rest := DropFront(rest, b, blocks[i].ptr);
        assert blocks[i..][1..] == blocks[i + 1..];
      }
      assert blocks[|blocks|..] == [];
    }

    method DropFront(ghost free: FreeLists, ghost b: nat, ptr: Pointer) returns (ghost rest: FreeLists)
      requires Draining(free, activeBytes) && b in free && free[b] != [] && ptr == free[b][0].ptr
      modifies `cached, backend
      ensures rest == free[b := free[b][1..]] && Draining(rest, activeBytes)
    {
      hide Lists, Accounts, ActiveSizes, Total;
      ghost var outstanding := if backend == null then map[] else backend.outstanding;
      FrontBlock(free, bucketSizes, cached, b);
      PopFront(free, bucketSizes, cached, b);
      DroppedBlock(outstanding, activeBlocks, cached, activeBytes, Total(cached), ptr);
      TotalWithout(cached, ptr);
      rest := free[b := free[b][1..]];
      backend.Deallocate(ptr);
      cached := cached - {ptr};
    }
  }
}
