/** Strided tensors: canonical strides, the contiguity test, and the copy of a strided tensor to a
    contiguous one. */
module StridedTensors {
  import opened Basics

  /* ---------------------------------- row-major positions ---------------------------------- */

  ghost function Product(dims: seq<int>): int {
    if dims == [] then 1 else Product(dims[..|dims| - 1]) * dims[|dims| - 1]
  }

  ghost predicate Positive(dims: seq<int>) {
    forall i :: 0 <= i < |dims| ==> dims[i] > 0
  }

  // A multi-index of a shape.
  ghost predicate Within(index: seq<int>, dims: seq<int>) {
    |index| == |dims| && forall i :: 0 <= i < |dims| ==> 0 <= index[i] < dims[i]
  }

  ghost function Dot(index: seq<int>, strides: seq<int>): int
    requires |index| == |strides|
  {
    if index == [] then 0
    else
      var l := |index| - 1;
      Dot(index[..l], strides[..l]) + index[l] * strides[l]
  }

  // The row-major position of a multi-index.
  ghost function Flat(dims: seq<int>, index: seq<int>): int
    requires |index| == |dims|
  {
    if dims == [] then 0
    else
      var l := |dims| - 1;
      Flat(dims[..l], index[..l]) * dims[l] + index[l]
  }

  // The multi-index at a row-major position, starting over after the last one.
  ghost function Digits(dims: seq<int>, k: nat): (index: seq<int>)
    requires Positive(dims)
    ensures |index| == |dims|
  {
    if dims == [] then []
    else
      var l := |dims| - 1;
      Digits(dims[..l], k / dims[l]) + [k % dims[l]]
  }

  lemma {:induction false} ProductIsPositive(dims: seq<int>)
    requires Positive(dims)
    ensures Product(dims) > 0
  {
    if dims != [] {
      ProductIsPositive(dims[..|dims| - 1]);
    }
  }

  /** Every position below the number of elements belongs to one multi-index, and every multi-index to one
      position. */
  lemma {:induction false} DigitsThenFlat(dims: seq<int>, k: nat)
    requires Positive(dims) && k < Product(dims)
    ensures Within(Digits(dims, k), dims) && Flat(dims, Digits(dims, k)) == k
  {
    hide Product, Flat, Digits, Within;
    if dims == [] {
      NoDigits(k);
    } else {
      var l := |dims| - 1;
      var rest, d := dims[..l], dims[l];
      assert rest + [d] == dims;
      LastDigit(rest, d, k);
      QuotientBelow(k, Product(rest), d);
      DigitsThenFlat(rest, k / d);
      AppendIndex(rest, d, Digits(rest, k / d), k % d);
    }
  }

  lemma NoDigits(k: nat)
    requires k < Product([])
    ensures Within(Digits([], k), []) && Flat([], Digits([], k)) == k
  {
  }

  lemma LastDigit(rest: seq<int>, d: int, k: nat)
    requires Positive(rest + [d])
    ensures d > 0 && Positive(rest)
    ensures Product(rest + [d]) == Product(rest) * d
    ensures Digits(rest + [d], k) == Digits(rest, k / d) + [k % d]
  {
    var dims := rest + [d];
    assert dims[..|rest|] == rest && dims[|rest|] == d;
  }

  lemma AppendIndex(rest: seq<int>, d: int, index: seq<int>, i: int)
    requires |index| == |rest|
    ensures Flat(rest + [d], index + [i]) == Flat(rest, index) * d + i
    ensures Within(index, rest) && 0 <= i < d ==> Within(index + [i], rest + [d])
  {
    assert (rest + [d])[..|rest|] == rest && (index + [i])[..|rest|] == index;
  }

  lemma QuotientBelow(k: nat, n: int, d: int)
    requires d > 0 && k < n * d
    ensures k / d < n
  {
    var q := k / d;
    assert q * d <= k;
    assert q >= n ==> q * d >= n * d;
  }

  lemma {:induction false} FlatThenDigits(dims: seq<int>, index: seq<int>)
    requires Positive(dims) && Within(index, dims)
    ensures 0 <= Flat(dims, index) < Product(dims) && Digits(dims, Flat(dims, index)) == index
  {
    if dims != [] {
      var l := |dims| - 1;
      var rest, d := dims[..l], dims[l];
      FlatThenDigits(rest, index[..l]);
      var f := Flat(rest, index[..l]);
      PositionBelow(f, Product(rest), d, index[l]);
      DivisionIs(Flat(dims, index), d, f, index[l]);
      assert index == index[..l] + [index[l]];
    }
  }

  lemma PositionBelow(f: int, n: int, d: int, r: int)
    requires 0 <= f < n && 0 <= r < d
    ensures 0 <= f * d + r < n * d
  {
    assert f * d >= 0;
    assert (f + 1) * d <= n * d;
  }

  /* ---------------------------------- canonical strides ---------------------------------- */

  ghost function Canonical(dims: seq<int>): (strides: seq<int>)
    ensures |strides| == |dims|
  {
    seq(|dims|, i requires 0 <= i < |dims| => Product(dims[i + 1..]))
  }

  lemma {:induction false} ProductFront(dims: seq<int>)
    requires dims != []
    ensures Product(dims) == dims[0] * Product(dims[1..])
  {
    var l := |dims| - 1;
    if l > 0 {
      ProductFront(dims[..l]);
      assert dims[..l][1..] == dims[1..][..l - 1];
    } else {
      assert dims[..0] == dims[1..] == [];
    }
  }

  ghost function Scaled(strides: seq<int>, c: int): (r: seq<int>)
    ensures |r| == |strides|
  {
    seq(|strides|, i requires 0 <= i < |strides| => strides[i] * c)
  }

  lemma {:induction false} DotScales(index: seq<int>, strides: seq<int>, c: int)
    requires |index| == |strides|
    ensures Dot(index, Scaled(strides, c)) == Dot(index, strides) * c
  {
    if index != [] {
      var l := |index| - 1;
      DotScales(index[..l], strides[..l], c);
      assert Scaled(strides, c)[..l] == Scaled(strides[..l], c);
      Distribute(Dot(index[..l], strides[..l]), index[l], strides[l], c);
    }
  }

  lemma Distribute(a: int, x: int, s: int, c: int)
    ensures a * c + x * (s * c) == (a + x * s) * c
  {
  }

  // One more dimension behind the others scales their strides by its size.
  lemma CanonicalOfLonger(dims: seq<int>)
    requires dims != []
    ensures Canonical(dims)[..|dims| - 1] == Scaled(Canonical(dims[..|dims| - 1]), dims[|dims| - 1])
    ensures Canonical(dims)[|dims| - 1] == 1
  {
    hide Product;
    var l := |dims| - 1;
    var rest, d := dims[..l], dims[l];
    forall i | 0 <= i < l ensures Canonical(dims)[i] == Canonical(rest)[i] * d {
      ProductBack(dims[i + 1..]);
      assert dims[i + 1..][..l - i - 1] == rest[i + 1..];
    }
    LastStride(dims);
  }

  lemma ProductBack(dims: seq<int>)
    requires dims != []
    ensures Product(dims) == Product(dims[..|dims| - 1]) * dims[|dims| - 1]
  {
  }

  // The strides from the last dimension to the first.
  lemma LastStride(dims: seq<int>)
    requires dims != []
    ensures Canonical(dims)[|dims| - 1] == 1
  {
    assert dims[|dims|..] == [];
  }

  // One unfolding of each of the two sums.
  lemma DotBack(index: seq<int>, strides: seq<int>)
    requires |index| == |strides| && index != []
    ensures var l := |index| - 1;
            Dot(index, strides) == Dot(index[..l], strides[..l]) + index[l] * strides[l]
  {
  }

  lemma FlatBack(dims: seq<int>, index: seq<int>)
    requires |index| == |dims| && dims != []
    ensures var l := |dims| - 1;
            Flat(dims, index) == Flat(dims[..l], index[..l]) * dims[l] + index[l]
  {
  }

  lemma NoDimensions()
    ensures Dot([], Canonical([])) == 0 == Flat([], [])
  {
  }

  /** With canonical strides the strided address of a multi-index is its row-major position. */
  lemma {:induction false} CanonicalIsFlat(dims: seq<int>, index: seq<int>)
    requires |index| == |dims|
    ensures Dot(index, Canonical(dims)) == Flat(dims, index)
    decreases |dims|
  {
    hide Dot, Flat, Canonical, Scaled;
    if dims == [] {
      NoDimensions();
    } else {
      var l := |dims| - 1;
      CanonicalIsFlat(dims[..l], index[..l]);
      DotScales(index[..l], Canonical(dims[..l]), dims[l]);
      CanonicalOfLonger(dims);
      DotBack(index, Canonical(dims));
      FlatBack(dims, index);
    }
  }

  lemma StrideBefore(dims: seq<int>, i: nat)
    requires i < |dims|
    ensures i > 0 ==> Canonical(dims)[i - 1] == Canonical(dims)[i] * dims[i]
  {
    ProductFront(dims[i..]);
    assert dims[i..][1..] == dims[i + 1..];
  }

  // The largest address of a strided tensor.
  ghost function Extent(dims: seq<int>, strides: seq<int>): int
    requires |dims| == |strides|
  {
    Dot(seq(|dims|, i requires 0 <= i < |dims| => dims[i] - 1), strides)
  }

  lemma {:induction false} DotIsMonotone(a: seq<int>, b: seq<int>, strides: seq<int>)
    requires |a| == |b| == |strides|
    requires forall i :: 0 <= i < |a| ==> 0 <= a[i] <= b[i] && strides[i] >= 0
    ensures 0 <= Dot(a, strides) <= Dot(b, strides)
  {
    if a != [] {
      var l := |a| - 1;
      DotIsMonotone(a[..l], b[..l], strides[..l]);
      assert 0 <= a[l] * strides[l] <= b[l] * strides[l];
    }
  }

  /** Every address of a multi-index lies within the extent. */
  lemma AddressWithinExtent(dims: seq<int>, strides: seq<int>, index: seq<int>)
    requires |strides| == |dims| && Within(index, dims)
    requires forall i :: 0 <= i < |strides| ==> strides[i] >= 0
    ensures 0 <= Dot(index, strides) <= Extent(dims, strides)
  {
    DotIsMonotone(index, seq(|dims|, i requires 0 <= i < |dims| => dims[i] - 1), strides);
  }

  // The dimensions the copy accepts.
  ghost predicate Walkable(dims: seq<int>, strides: seq<int>)
    requires |dims| == |strides|
  {
    forall i :: 0 <= i < |dims| ==> dims[i] > 0 && strides[i] >= 0
  }

  method MaximumIndex(dims: seq<int>, strides: seq<int>) returns (ok: bool, maximum: int)
    requires |dims| == |strides|
    ensures ok <==> Walkable(dims, strides)
    ensures ok ==> maximum == Extent(dims, strides)
  {
    maximum := 0;
    ghost var last := seq(|dims|, i requires 0 <= i < |dims| => dims[i] - 1);
    for d := 0 to |strides|
      invariant Walkable(dims[..d], strides[..d])
      invariant maximum == Dot(last[..d], strides[..d])
    {
      if dims[d] <= 0 || strides[d] < 0 {
        return false, 0;
      }
      assert last[..d + 1][..d] == last[..d] && strides[..d + 1][..d] == strides[..d];
      maximum := maximum + (dims[d] - 1) * strides[d];
    }
    assert last[..|dims|] == last && strides[..|dims|] == strides && dims[..|dims|] == dims;
    ok := true;
  }

  /* ---------------------------------- the copies ---------------------------------- */

  // Element a of a buffer.
  ghost function Element(bytes: seq<Byte>, a: int, size: nat): seq<Byte> {
    if 0 <= a * size && a * size + size <= |bytes| then bytes[a * size..a * size + size] else []
  }

  // The first k elements in row-major order.
  ghost function Gathered(bytes: seq<Byte>, dims: seq<int>, strides: seq<int>, size: nat, k: nat): seq<Byte>
    requires Positive(dims) && |strides| == |dims|
  {
    if k == 0 then []
    else
      Gathered(bytes, dims, strides, size, k - 1) + Element(bytes, Dot(Digits(dims, k - 1), strides), size)
  }

  // A buffer large enough for every address.
  ghost predicate Covers(bytes: seq<Byte>, dims: seq<int>, strides: seq<int>, size: nat) {
    |strides| == |dims| && Walkable(dims, strides) && (Extent(dims, strides) + 1) * size <= |bytes|
  }

  /** The copy is refused exactly for a dimension without elements, a negative stride, or a buffer that ends
      before the element of some multi-index. */
  lemma CoversIff(bytes: seq<Byte>, dims: seq<int>, strides: seq<int>, size: nat)
    requires |strides| == |dims|
    ensures Covers(bytes, dims, strides, size) <==>
              && (forall i :: 0 <= i < |dims| ==> dims[i] >= 1 && strides[i] >= 0)
              && forall index :: Within(index, dims) ==> (Dot(index, strides) + 1) * size <= |bytes|
  {
    hide Dot;
    if Walkable(dims, strides) {
      var last := seq(|dims|, i requires 0 <= i < |dims| => dims[i] - 1);
      assert Within(last, dims);
      forall index | Within(index, dims)
        ensures (Dot(index, strides) + 1) * size <= (Extent(dims, strides) + 1) * size
      {
        AddressWithinExtent(dims, strides, index);
        Fits(Dot(index, strides), Extent(dims, strides), size);
      }
    }
  }

  /** The first dimension varies slowest: one step in it passes as many positions as the other dimensions have
      elements, and as many addresses as its stride says. */
  lemma {:induction false} FirstDimension(d: int, dims: seq<int>, i: int, index: seq<int>, s: int, strides: seq<int>)
    requires |dims| == |index| == |strides|
    ensures Product([d] + dims) == d * Product(dims) && Product([]) == 1
    ensures Flat([d] + dims, [i] + index) == i * Product(dims) + Flat(dims, index) && Flat([], []) == 0
    ensures Dot([i] + index, [s] + strides) == i * s + Dot(index, strides) && Dot([], []) == 0
    decreases |dims|
  {
    assert ([d] + dims)[1..] == dims;
    ProductFront([d] + dims);
    if dims == [] {
      OneDimension(d, i, s);
    } else {
      hide Dot, Flat, Product;
      var l := |dims| - 1;
      FirstDimension(d, dims[..l], i, index[..l], s, strides[..l]);
      FlatBack([d] + dims, [i] + index);
      FlatBack(dims, index);
      DotBack([i] + index, [s] + strides);
      DotBack(index, strides);
      ProductBack(dims);
      assert ([d] + dims)[..l + 1] == [d] + dims[..l] && ([i] + index)[..l + 1] == [i] + index[..l];
      assert ([s] + strides)[..l + 1] == [s] + strides[..l];
      OneMoreFactor(i, Product(dims[..l]), Flat(dims[..l], index[..l]), dims[l], index[l]);
    }
  }

  lemma OneDimension(d: int, i: int, s: int)
    ensures Flat([d] + [], [i] + []) == i * Product([]) + Flat([], []) && Flat([], []) == 0
    ensures Dot([i] + [], [s] + []) == i * s + Dot([], []) && Dot([], []) == 0 && Product([]) == 1
  {
    assert [d] + [] == [d] && [i] + [] == [i] && [s] + [] == [s];
    assert [d][..0] == [] && [i][..0] == [] && [s][..0] == [];
  }

  lemma OneMoreFactor(i: int, p: int, f: int, d: int, x: int)
    ensures (i * p + f) * d + x == i * (p * d) + (f * d + x)
  {
  }

  lemma ElementInBounds(bytes: seq<Byte>, dims: seq<int>, strides: seq<int>, size: nat, k: nat)
    requires Covers(bytes, dims, strides, size) && k < Product(dims)
    ensures var a := Dot(Digits(dims, k), strides);
            && 0 <= a * size && a * size + size <= |bytes|
            && Element(bytes, a, size) == bytes[a * size..a * size + size]
  {
    var index := Digits(dims, k);
    DigitsThenFlat(dims, k);
    AddressWithinExtent(dims, strides, index);
    Fits(Dot(index, strides), Extent(dims, strides), size);
  }

  lemma Fits(a: int, extent: int, size: nat)
    requires 0 <= a <= extent
    ensures 0 <= a * size && a * size + size <= (extent + 1) * size
  {
    assert (a + 1) * size <= (extent + 1) * size;
  }

  lemma {:induction false} GatheredAt(bytes: seq<Byte>, dims: seq<int>, strides: seq<int>, size: nat, k: nat, j: nat)
    requires Covers(bytes, dims, strides, size) && j < k <= Product(dims)
    ensures |Gathered(bytes, dims, strides, size, k)| == k * size
    ensures Element(Gathered(bytes, dims, strides, size, k), j, size)
            == Element(bytes, Dot(Digits(dims, j), strides), size)
    decreases k
  {
    hide Dot, Digits, Product, Element, Gathered;
    if k == 1 {
      NothingGathered(bytes, dims, strides, size);
    }
    var before := Gathered(bytes, dims, strides, size, k - 1);
    var last := Element(bytes, Dot(Digits(dims, k - 1), strides), size);
    ElementInBounds(bytes, dims, strides, size, k - 1);
    GatheredNext(bytes, dims, strides, size, k - 1);
    if k > 1 {
      GatheredAt(bytes, dims, strides, size, k - 1, if j == k - 1 then 0 else j);
    }
    ElementOfAppended(before, last, k - 1, j, size);
  }

  lemma NothingGathered(bytes: seq<Byte>, dims: seq<int>, strides: seq<int>, size: nat)
    requires Positive(dims) && |strides| == |dims|
    ensures Gathered(bytes, dims, strides, size, 0) == []
  {
  }

  // Element j of k elements with one more behind them.
  lemma ElementOfAppended(before: seq<Byte>, last: seq<Byte>, k: nat, j: nat, size: nat)
    requires |before| == k * size && |last| == size && j <= k
    ensures |before + last| == (k + 1) * size
    ensures Element(before + last, j, size) == if j == k then last else Element(before, j, size)
  {
    Fits(j, k, size);
    if j < k {
      Fits(j, k - 1, size);
    }
  }

  method Numel(dims: seq<int>) returns (n: int)
    ensures n == if dims == [] then 0 else Product(dims)
  {
    if dims == [] {
      return 0;
    }
    n := 1;
    for i := 0 to |dims|
      invariant n == Product(dims[..i])
    {
      assert dims[..i + 1][..i] == dims[..i];
      n := n * dims[i];
    }
    assert dims[..|dims|] == dims;
  }

  method CopyBytes(dst: array<Byte>, at: nat, src: array<Byte>, from: nat, size: nat)
    requires dst != src && at + size <= dst.Length && from + size <= src.Length
    modifies dst
    ensures dst[..at] == old(dst[..at]) && dst[at..at + size] == src[from..from + size]
  {
    for i := 0 to size
      invariant dst[..at] == old(dst[..at])
      invariant dst[at..at + i] == src[from..from + i]
    {
      dst[at + i] := src[from + i];
    }
  }

  // The state of a destination that holds the first k elements.
  ghost predicate Filled(dst: seq<Byte>, bytes: seq<Byte>, dims: seq<int>, strides: seq<int>, size: nat, k: int) {
    && Covers(bytes, dims, strides, size) && 0 <= k <= Product(dims) && |dst| == Product(dims) * size
    && k * size <= |dst| && dst[..k * size] == Gathered(bytes, dims, strides, size, k)
  }

  lemma NothingFilled(dst: seq<Byte>, bytes: seq<Byte>, dims: seq<int>, strides: seq<int>, size: nat)
    requires Covers(bytes, dims, strides, size) && |dst| == Product(dims) * size
    ensures Filled(dst, bytes, dims, strides, size, 0)
  {
    ProductIsPositive(dims);
  }

  // Where element k is read and written.
  lemma ElementPlaces(dst: seq<Byte>, bytes: seq<Byte>, dims: seq<int>, strides: seq<int>, size: nat, k: nat)
    requires Filled(dst, bytes, dims, strides, size, k) && k < Product(dims)
    ensures 0 <= k * size && k * size + size <= |dst|
    ensures var from := Dot(Digits(dims, k), strides) * size; 0 <= from && from + size <= |bytes|
  {
    hide Dot, Digits, Product, Gathered;
    ElementInBounds(bytes, dims, strides, size, k);
    Fits(k, Product(dims) - 1, size);
  }

  lemma OneMoreFilled(dst: seq<Byte>, next: seq<Byte>, bytes: seq<Byte>, dims: seq<int>, strides: seq<int>,
                      size: nat, k: nat)
    requires Filled(dst, bytes, dims, strides, size, k) && k < Product(dims) && |next| == |dst|
    requires 0 <= k * size && k * size + size <= |dst| && next[..k * size] == dst[..k * size]
    requires var from := Dot(Digits(dims, k), strides) * size;
             && 0 <= from && from + size <= |bytes|
             && next[k * size..k * size + size] == bytes[from..from + size]
    ensures Filled(next, bytes, dims, strides, size, k + 1)
  {
    hide Dot, Digits, Product, Gathered;
    assert (k + 1) * size == k * size + size;
    assert next[..k * size + size] == next[..k * size] + next[k * size..k * size + size];
    GatheredNext(bytes, dims, strides, size, k);
  }

  lemma GatheredNext(bytes: seq<Byte>, dims: seq<int>, strides: seq<int>, size: nat, k: nat)
    requires Positive(dims) && |strides| == |dims|
    ensures Gathered(bytes, dims, strides, size, k + 1) ==
            Gathered(bytes, dims, strides, size, k) + Element(bytes, Dot(Digits(dims, k), strides), size)
  {
  }

  // Appends element k, whose address the caller has computed.
  method Put(dst: array<Byte>, at: int, src: array<Byte>, from: int, size: nat,
             ghost dims: seq<int>, ghost strides: seq<int>, ghost k: int)
    requires dst != src && Filled(dst[..], src[..], dims, strides, size, k) && k < Product(dims)
    requires at == k * size && from == Dot(Digits(dims, k), strides) * size
    modifies dst
    ensures Filled(dst[..], src[..], dims, strides, size, k + 1)
  {
    hide Dot, Digits, Product, Gathered, Filled;
    ghost var before := dst[..];
    FilledShape(before, src[..], dims, strides, size, k);
    ElementPlaces(before, src[..], dims, strides, size, k);
    CopyBytes(dst, at, src, from, size);
    assert dst[..][..at] == dst[..at] && before[..at] == old(dst[..at]);
    assert dst[..][at..at + size] == dst[at..at + size] && src[..][from..from + size] == src[from..from + size];
    OneMoreFilled(before, dst[..], src[..], dims, strides, size, k);
  }

  lemma FilledShape(dst: seq<Byte>, bytes: seq<Byte>, dims: seq<int>, strides: seq<int>, size: nat, k: int)
    requires Filled(dst, bytes, dims, strides, size, k)
    ensures 0 <= k && Positive(dims) && |strides| == |dims|
  {
  }

  lemma LinearAddress(d: int, stride: int, i: nat)
    requires 0 <= i < d
    ensures Product([d]) == d && Digits([d], i) == [i] && Dot([i], [stride]) == i * stride
  {
    hide Product, Digits;
    assert [] + [d] == [d];
    LastDigit([], d, i);
    EmptyShape(i / d);
    assert [d][..0] == [] && [i][..0] == [] && [stride][..0] == [];
  }

  lemma EmptyShape(k: nat)
    ensures Product([]) == 1 && Digits([], k) == []
  {
  }

  method CopyLinear(dst: array<Byte>, src: array<Byte>, dims: seq<int>, strides: seq<int>, size: nat)
    requires |dims| == 1 && dst != src
    requires Covers(src[..], dims, strides, size) && dst.Length == Product(dims) * size
    modifies dst
    ensures Filled(dst[..], src[..], dims, strides, size, Product(dims))
  {
    hide Dot, Digits, Product, Gathered;
    var n := Numel(dims);
    var stride := strides[0] * size;
    NothingFilled(dst[..], src[..], dims, strides, size);
    assert dims == [dims[0]] && strides == [strides[0]];
    ProductIsPositive(dims);
    for i := 0 to n
      invariant Filled(dst[..], src[..], dims, strides, size, i)
    {
      LinearAddress(dims[0], strides[0], 0);
      LinearAddress(dims[0], strides[0], i);
      AssociateProduct(i, strides[0], size);
      Put(dst, i * size, src, i * stride, size, dims, strides, i);
    }
  }

  lemma AssociateProduct(i: int, s: int, size: int)
    ensures i * (s * size) == (i * s) * size
  {
  }

  lemma PlanarAddress(d0: int, d1: int, s0: int, s1: int, i: nat, j: nat)
    requires i < d0 && j < d1
    ensures Product([d0, d1]) == d0 * d1 && 0 <= i * d1 + j < d0 * d1
    ensures Digits([d0, d1], i * d1 + j) == [i, j] && Dot([i, j], [s0, s1]) == i * s0 + j * s1
  {
    hide Digits;
    var dims, index := [d0, d1], [i, j];
    assert dims[..1] == [d0] && index[..1] == [i] && [s0, s1][..1] == [s0];
    LinearAddress(d0, s0, i);
    assert [d0][..0] == [] && [i][..0] == [];
    assert Flat([d0], [i]) == i;
    assert Flat(dims, index) == i * d1 + j;
    assert Product(dims) == Product([d0]) * d1;
    FlatThenDigits(dims, index);
  }

  method CopyPlanar(dst: array<Byte>, src: array<Byte>, dims: seq<int>, strides: seq<int>, size: nat)
    requires |dims| == 2 && dst != src
    requires Covers(src[..], dims, strides, size) && dst.Length == Product(dims) * size
    modifies dst
    ensures Filled(dst[..], src[..], dims, strides, size, Product(dims))
  {
    hide Dot, Digits, Product, Gathered, Filled;
    var d0, d1, s0, s1 := dims[0], dims[1], strides[0], strides[1];
    NothingFilled(dst[..], src[..], dims, strides, size);
    assert dims == [d0, d1] && strides == [s0, s1];
    PlanarAddress(d0, d1, s0, s1, 0, 0);
    for i := 0 to d0
      invariant i * d1 >= 0 && Filled(dst[..], src[..], dims, strides, size, i * d1)
    {
      for j := 0 to d1
        invariant i * d1 + j >= 0 && Filled(dst[..], src[..], dims, strides, size, i * d1 + j)
      {
        PlanarAddress(d0, d1, s0, s1, i, j);
        var srcIndex, dstIndex := i * s0 + j * s1, i * d1 + j;
        Put(dst, dstIndex * size, src, srcIndex * size, size, dims, strides, dstIndex);
      }
      assert (i + 1) * d1 == i * d1 + d1;
    }
  }

  // The address of the current multi-index.
  method Address(indices: seq<int>, strides: seq<int>) returns (srcIndex: int)
    requires |indices| == |strides|
    ensures srcIndex == Dot(indices, strides)
  {
    srcIndex := 0;
    for d := 0 to |strides|
      invariant srcIndex == Dot(indices[..d], strides[..d])
    {
      assert indices[..d + 1][..d] == indices[..d] && strides[..d + 1][..d] == strides[..d];
      srcIndex := srcIndex + indices[d] * strides[d];
    }
    assert indices[..|strides|] == indices && strides[..|strides|] == strides;
  }

  ghost function Zeros(n: nat): (z: seq<int>)
    ensures |z| == n
  {
    seq(n, _ => 0)
  }

  lemma Carry(q: nat, d: int)
    requires d > 0
    ensures (q + 1) % d == if q % d + 1 < d then q % d + 1 else 0
    ensures (q + 1) / d == if q % d + 1 < d then q / d else q / d + 1
  {
    if q % d + 1 < d {
      DivisionIs(q + 1, d, q / d, q % d + 1);
    } else {
      DivisionIs(q + 1, d, q / d + 1, 0);
    }
  }

  // The odometer with the digits from d on already turned over.
  ghost predicate Turning(indices: seq<int>, dims: seq<int>, k: nat, d: int, q: nat) {
    && Positive(dims) && |indices| == |dims| && 0 <= d <= |dims|
    && indices[..d] == Digits(dims[..d], q)
    && Digits(dims, k + 1) == Digits(dims[..d], q + 1) + indices[d..]
  }

  lemma StartsTurning(indices: seq<int>, dims: seq<int>, k: nat)
    requires Positive(dims) && indices == Digits(dims, k)
    ensures Turning(indices, dims, k, |dims|, k)
  {
    hide Digits;
    assert dims[..|dims|] == dims && indices[..|dims|] == indices;
  }

  lemma DigitTurns(indices: seq<int>, dims: seq<int>, k: nat, d: nat, q: nat)
    requires Turning(indices, dims, k, d + 1, q)
    ensures var digit := indices[d];
            if digit + 1 < dims[d] then indices[d := digit + 1] == Digits(dims, k + 1)
            else Turning(indices[d := 0], dims, k, d, q / dims[d])
  {
    hide Digits;
    var rest := dims[..d];
    assert rest + [dims[d]] == dims[..d + 1];
    LastDigit(rest, dims[d], q);
    LastDigit(rest, dims[d], q + 1);
    Carry(q, dims[d]);
    assert indices[..d + 1][d] == indices[d] == q % dims[d];
    assert indices[..d] == indices[..d + 1][..d] == Digits(rest, q / dims[d]);
    var digit := indices[d];
    if digit + 1 < dims[d] {
      assert indices[d := digit + 1] == indices[..d] + [digit + 1] + indices[d + 1..];
    } else {
      assert indices[d := 0][d..] == [0] + indices[d + 1..];
      assert indices[d := 0][..d] == indices[..d];
    }
  }

  lemma AllTurned(indices: seq<int>, dims: seq<int>, k: nat, q: nat)
    requires Turning(indices, dims, k, 0, q)
    ensures indices == Digits(dims, k + 1)
  {
    assert dims[..0] == [] && indices[0..] == indices;
  }

  /** The odometer step: the multi-index after the one at position k. */
  method NextIndex(indices: array<int>, dims: seq<int>, ghost k: nat)
    requires Positive(dims) && indices.Length == |dims| && indices[..] == Digits(dims, k)
    modifies indices
    ensures indices[..] == Digits(dims, k + 1)
  {
    hide Turning, Digits;
    var d := |dims| - 1;
    ghost var q: nat := k;
    StartsTurning(indices[..], dims, k);
    while d >= 0
      invariant -1 <= d < |dims| && Turning(indices[..], dims, k, d + 1, q)
    {
      DigitTurns(indices[..], dims, k, d, q);
      ghost var before := indices[..];
      indices[d] := indices[d] + 1;
      if indices[d] < dims[d] {
        assert indices[..] == before[d := before[d] + 1];
        return;
      }
      indices[d] := 0;
      assert indices[..] == before[d := 0];
      q := q / dims[d];
      d := d - 1;
    }
    AllTurned(indices[..], dims, k, q);
  }

  method CopyGeneral(dst: array<Byte>, src: array<Byte>, dims: seq<int>, strides: seq<int>, size: nat)
    requires dims != [] && dst != src
    requires Covers(src[..], dims, strides, size) && dst.Length == Product(dims) * size
    modifies dst
    ensures Filled(dst[..], src[..], dims, strides, size, Product(dims))
  {
    hide Dot, Digits, Product, Gathered, Filled;
    var n := Numel(dims);
    var indices := new int[|strides|](_ => 0);
    NothingFilled(dst[..], src[..], dims, strides, size);
    ProductIsPositive(dims);
    DigitsOfZero(dims);
    assert indices[..] == Zeros(|dims|);
    for flat := 0 to n
      invariant Filled(dst[..], src[..], dims, strides, size, flat)
      invariant indices[..] == Digits(dims, flat)
    {
      var srcIndex := Address(indices[..], strides);
      Put(dst, flat * size, src, srcIndex * size, size, dims, strides, flat);
      NextIndex(indices, dims, flat);
    }
  }

  lemma {:induction false} DigitsOfZero(dims: seq<int>)
    requires Positive(dims)
    ensures Digits(dims, 0) == Zeros(|dims|)
  {
    if dims != [] {
      DigitsOfZero(dims[..|dims| - 1]);
      DivisionIs(0, dims[|dims| - 1], 0, 0);
    }
  }

  /* ---------------------------------- tensors ---------------------------------- */

  class Tensor {
    const shape: seq<int>
    const elemSize: nat
    const buffer: array?<Byte>
    var strides: seq<int>
    var isContiguous: bool

    ghost predicate Valid()
      reads this
    {
      |strides| == |shape| && (isContiguous <==> strides == Canonical(shape))
    }

    constructor (shape: seq<int>, elemSize: nat, buffer: array?<Byte>)
      ensures Valid() && isContiguous
      ensures this.shape == shape && this.elemSize == elemSize && this.buffer == buffer
    {
      this.shape, this.elemSize, this.buffer := shape, elemSize, buffer;
      strides, isContiguous := [], true;
      new;
      ComputeStrides();
    }

    constructor View(shape: seq<int>, elemSize: nat, buffer: array?<Byte>, strides: seq<int>)
      requires |strides| == |shape|
      ensures Valid() && this.strides == strides
      ensures this.shape == shape && this.elemSize == elemSize && this.buffer == buffer
    {
      this.shape, this.elemSize, this.buffer := shape, elemSize, buffer;
      this.strides, isContiguous := strides, true;
      new;
      CheckContiguous();
    }

    method ComputeStrides()
      modifies this
      ensures Valid() && isContiguous
    {
      hide Product, Canonical;
      strides := seq(|shape|, _ => 0);
      if |shape| == 0 {
        isContiguous := true;
        return;
      }
      var stride := 1;
      var i := |shape| - 1;
      LastStride(shape);
      while i >= 0
        invariant -1 <= i < |shape| && |strides| == |shape|
        invariant i >= 0 ==> stride == Canonical(shape)[i]
        invariant forall j :: i < j < |shape| ==> strides[j] == Canonical(shape)[j]
      {
        strides := strides[i := stride];
        StrideBefore(shape, i);
        stride := stride * shape[i];
        i := i - 1;
      }
      isContiguous := true;
    }

    // The flag says whether the strides are the canonical ones.
    method CheckContiguous()
      requires |strides| == |shape|
      modifies `isContiguous
      ensures Valid()
    {
      hide Product, Canonical;
      if |shape| == 0 {
        isContiguous := true;
        return;
      }
      var stride := 1;
      var i := |shape| - 1;
      LastStride(shape);
      while i >= 0
        invariant -1 <= i < |shape| && (i >= 0 ==> stride == Canonical(shape)[i])
        invariant forall j :: i < j < |shape| ==> strides[j] == Canonical(shape)[j]
      {
        if strides[i] != stride {
          isContiguous := false;
          return;
        }
        StrideBefore(shape, i);
        stride := stride * shape[i];
        i := i - 1;
      }
      isContiguous := true;
    }

    // What makes the copy give up: a dimension it cannot walk, or a buffer that ends too early.
    ghost predicate Copyable()
      reads this, buffer
    {
      buffer != null && Covers(buffer[..], shape, strides, elemSize)
    }

    /** The contiguous tensor: this one if it is contiguous or has no buffer; else, exactly when the extent
        fits the buffer, a new one whose element at the row-major position of every multi-index is this
        tensor's element at the multi-index's strided address. */
    method Contiguous() returns (result: Tensor?)
      requires Valid()
      ensures isContiguous || buffer == null ==> result == this
      ensures !isContiguous && buffer != null ==> (result != null <==> Copyable())
      ensures !isContiguous && result != null && buffer != null ==>
                && fresh(result) && result.Valid() && result.isContiguous
                && result.shape == shape && result.elemSize == elemSize
                && result.buffer != null && fresh(result.buffer)
                && Filled(result.buffer[..], buffer[..], shape, strides, elemSize, Product(shape))
    {
      hide Product, Gathered, Extent;
      if isContiguous || buffer == null {
        return this;
      }
      var n := Numel(shape);
      var ok, maximum := MaximumIndex(shape, strides);
      if !ok {
        return null;
      }
      ExtentIsNatural(shape, strides);
      var required := (maximum + 1) * elemSize;
      if required > buffer.Length {
        return null;
      }
      NotEmpty();
      ProductIsPositive(shape);
      var dst := new Byte[n * elemSize];
      if |strides| == 1 {
        CopyLinear(dst, buffer, shape, strides, elemSize);
      } else if |strides| == 2 {
        CopyPlanar(dst, buffer, shape, strides, elemSize);
      } else {
        CopyGeneral(dst, buffer, shape, strides, elemSize);
      }
      result := new Tensor(shape, elemSize, dst);
    }

    // A tensor without dimensions is contiguous.
    lemma NotEmpty()
      requires Valid() && !isContiguous
      ensures shape != []
    {
    }
  }

  lemma ExtentIsNatural(dims: seq<int>, strides: seq<int>)
    requires |dims| == |strides| && Walkable(dims, strides)
    ensures Extent(dims, strides) >= 0
  {
    var last := seq(|dims|, i requires 0 <= i < |dims| => dims[i] - 1);
    DotIsMonotone(last, last, strides);
  }

  /** The element at the row-major position of every multi-index comes from the multi-index's strided
      address, whichever of the three loops made the copy. */
  lemma CopiedElement(dst: seq<Byte>, bytes: seq<Byte>, dims: seq<int>, strides: seq<int>, size: nat,
                      index: seq<int>)
    requires Filled(dst, bytes, dims, strides, size, Product(dims)) && Within(index, dims)
    ensures Element(dst, Flat(dims, index), size) == Element(bytes, Dot(index, strides), size)
    ensures |Element(bytes, Dot(index, strides), size)| == size
  {
    hide Product, Gathered, Dot, Digits, Flat;
    var n, j := Product(dims), Flat(dims, index);
    FlatThenDigits(dims, index);
    GatheredAt(bytes, dims, strides, size, n, j);
    assert dst == Gathered(bytes, dims, strides, size, n);
    ElementInBounds(bytes, dims, strides, size, j);
  }
}
