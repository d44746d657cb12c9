/** The CPU loop of causal grouped-query attention, over the reals: masked scores, softmax, weighted sum of
    values, gate. */
module CausalAttention {
  import opened Basics

  // `exp` is any function that is positive everywhere; at minus infinity it is zero.
  datatype Config = Config(heads: nat, kvHeads: nat, dim: nat, scale: real, exp: real -> real, hasGate: bool)

  ghost predicate Sensible(c: Config) {
    && c.heads > 0 && c.kvHeads > 0 && c.heads % c.kvHeads == 0
    && forall x :: c.exp(x) > 0.0
  }

  datatype Score = NegInf | Finite(x: real)

  // Rows of `width` heads with `dim` entries each.
  ghost predicate HasRows(x: seq<real>, rows: nat, width: nat, dim: nat) {
    |x| == rows * width * dim
  }

  // Head number m of a flat buffer.
  ghost function HeadAt(x: seq<real>, m: nat, dim: nat): (h: seq<real>)
    requires m * dim + dim <= |x|
    ensures |h| == dim
  {
    x[m * dim..m * dim + dim]
  }

  lemma HeadInBounds(x: seq<real>, rows: nat, width: nat, dim: nat, row: nat, head: nat)
    requires HasRows(x, rows, width, dim) && row < rows && head < width
    ensures row * width + head < rows * width
    ensures 0 <= (row * width + head) * dim && (row * width + head) * dim + dim <= |x|
  {
    Below(row, rows, width);
    Below(row * width + head, rows * width, dim);
  }

  lemma Below(m: int, n: int, d: int)
    requires 0 <= m < n && 0 <= d
    ensures 0 <= m * d && m * d + d <= n * d
  {
    var k := n - m - 1;
    assert n * d == m * d + d + k * d;
    assert 0 <= k * d && 0 <= m * d;
  }

  // Head `head` of row `row`.
  ghost function RowHead(x: seq<real>, rows: nat, width: nat, dim: nat, row: nat, head: nat): (h: seq<real>)
    requires HasRows(x, rows, width, dim) && row < rows && head < width
    ensures |h| == dim
  {
    HeadInBounds(x, rows, width, dim, row, head);
    HeadAt(x, row * width + head, dim)
  }

  /* ---------------------------------- the mathematics of one head ---------------------------------- */

  ghost function DotUpTo(a: seq<real>, b: seq<real>, n: nat): real
    requires n <= |a| && n <= |b|
  {
    if n == 0 then 0.0 else DotUpTo(a, b, n - 1) + a[n - 1] * b[n - 1]
  }

  ghost function MaxOf(row: seq<real>): (m: real)
    requires row != []
    ensures m in row && forall i :: 0 <= i < |row| ==> row[i] <= m
  {
    var l := |row| - 1;
    if l == 0 then row[0]
    else
      var m := MaxOf(row[..l]);
      assert row == row[..l] + [row[l]];
      if m < row[l] then row[l] else m
  }

  ghost function SumExp(c: Config, row: seq<real>, m: real, n: nat): real
    requires n <= |row|
  {
    if n == 0 then 0.0 else SumExp(c, row, m, n - 1) + c.exp(row[n - 1] - m)
  }

  // The softmax weight of position s in a row of scores.
  ghost function Weight(c: Config, row: seq<real>, s: nat): (w: real)
    requires Sensible(c) && s < |row|
  {
    SumExpIsPositive(c, row, MaxOf(row), |row|);
    c.exp(row[s] - MaxOf(row)) * (1.0 / SumExp(c, row, MaxOf(row), |row|))
  }

  lemma {:induction false} SumExpIsPositive(c: Config, row: seq<real>, m: real, n: nat)
    requires Sensible(c) && n <= |row|
    ensures SumExp(c, row, m, n) >= 0.0 && (n > 0 ==> SumExp(c, row, m, n) > 0.0)
  {
    if n > 0 {
      SumExpIsPositive(c, row, m, n - 1);
      assert c.exp(row[n - 1] - m) > 0.0;
    }
  }

  ghost function SumWeights(c: Config, row: seq<real>, n: nat): real
    requires Sensible(c) && n <= |row|
  {
    if n == 0 then 0.0 else SumWeights(c, row, n - 1) + Weight(c, row, n - 1)
  }

  // One more position in both sums.
  lemma SumsStep(c: Config, row: seq<real>, n: nat)
    requires Sensible(c) && n < |row|
    ensures var m := MaxOf(row);
            var e, total := c.exp(row[n] - m), SumExp(c, row, m, |row|);
            && total > 0.0
            && SumExp(c, row, m, n + 1) == SumExp(c, row, m, n) + e
            && SumWeights(c, row, n + 1) == SumWeights(c, row, n) + e * (1.0 / total)
  {
    hide MaxOf;
    SumExpIsPositive(c, row, MaxOf(row), |row|);
  }

  lemma SumsStart(c: Config, row: seq<real>, m: real)
    requires Sensible(c)
    ensures SumExp(c, row, m, 0) == 0.0 == SumWeights(c, row, 0)
  {
  }

  lemma {:induction false} SumWeightsIs(c: Config, row: seq<real>, n: nat)
    requires Sensible(c) && row != [] && n <= |row|
    ensures SumExp(c, row, MaxOf(row), |row|) > 0.0
    ensures SumWeights(c, row, n) == SumExp(c, row, MaxOf(row), n) * (1.0 / SumExp(c, row, MaxOf(row), |row|))
  {
    hide SumExp, SumWeights, MaxOf;
    var m := MaxOf(row);
    SumExpIsPositive(c, row, m, |row|);
    if n == 0 {
      SumsStart(c, row, m);
    } else {
      SumWeightsIs(c, row, n - 1);
      SumsStep(c, row, n - 1);
      Distribute(SumExp(c, row, m, n - 1), c.exp(row[n - 1] - m), 1.0 / SumExp(c, row, m, |row|));
    }
  }

  lemma Distribute(a: real, b: real, x: real)
    ensures a * x + b * x == (a + b) * x
  {
  }

  /** The weights of the visible positions are positive and add up to one. */
  lemma WeightsAreADistribution(c: Config, row: seq<real>)
    requires Sensible(c) && row != []
    ensures SumWeights(c, row, |row|) == 1.0
    ensures forall s :: 0 <= s < |row| ==> Weight(c, row, s) > 0.0
  {
    hide SumExp, MaxOf, SumWeights, Weight, Sensible;
    SumWeightsIs(c, row, |row|);
    Inverse(SumExp(c, row, MaxOf(row), |row|));
    forall s | 0 <= s < |row| ensures Weight(c, row, s) > 0.0 {
      WeightIsPositive(c, row, s);
    }
  }

  lemma WeightIsPositive(c: Config, row: seq<real>, s: nat)
    requires Sensible(c) && s < |row|
    ensures Weight(c, row, s) > 0.0
  {
    hide SumExp, MaxOf;
    var total := SumExp(c, row, MaxOf(row), |row|);
    SumExpIsPositive(c, row, MaxOf(row), |row|);
    Inverse(total);
    Positive(c.exp(row[s] - MaxOf(row)), 1.0 / total);
  }

  lemma Inverse(x: real)
    requires x > 0.0
    ensures x * (1.0 / x) == 1.0 && 1.0 / x > 0.0
  {
  }

  lemma Positive(a: real, b: real)
    requires a > 0.0 && b > 0.0
    ensures a * b > 0.0
  {
  }

  // The visible scores of query row t: one for each of the rows 0..t.
  ghost function RowScores(c: Config, n: nat, q: seq<real>, k: seq<real>, t: nat, head: nat): (row: seq<real>)
    requires Shaped(c, n, q, k) && t < n && head < c.heads
    ensures |row| == t + 1
  {
    KvHeadInRange(c, head);
    seq(t + 1, s requires 0 <= s <= t =>
      DotUpTo(RowHead(q, n, c.heads, c.dim, t, head), RowHead(k, n, c.kvHeads, c.dim, s, KvHead(c, head)), c.dim)
      * c.scale)
  }

  ghost predicate Shaped(c: Config, n: nat, q: seq<real>, k: seq<real>) {
    Sensible(c) && HasRows(q, n, c.heads, c.dim) && HasRows(k, n, c.kvHeads, c.dim)
  }

  // The key/value head that serves a query head.
  function KvHead(c: Config, head: nat): nat
    requires c.kvHeads > 0 && c.heads / c.kvHeads > 0
  {
    head / (c.heads / c.kvHeads)
  }

  lemma KvHeadInRange(c: Config, head: nat)
    requires c.kvHeads > 0 && c.heads > 0 && c.heads % c.kvHeads == 0
    ensures c.heads / c.kvHeads > 0
    ensures head < c.heads ==> KvHead(c, head) < c.kvHeads
  {
    var g := c.heads / c.kvHeads;
    assert c.heads == g * c.kvHeads;
    assert g == 0 ==> g * c.kvHeads == 0;
    var h := head / g;
    assert h * g <= head;
    assert h >= c.kvHeads ==> h * g >= c.kvHeads * g;
  }

  // Entry d of the weighted sum of the values of rows 0..|row| - 1.
  ghost function MixUpTo(c: Config, n: nat, row: seq<real>, v: seq<real>, kv: nat, d: nat, s: nat): real
    requires Sensible(c) && HasRows(v, n, c.kvHeads, c.dim) && s <= |row| <= n && kv < c.kvHeads && d < c.dim
  {
    if s == 0 then 0.0
    else
      MixUpTo(c, n, row, v, kv, d, s - 1) + Weight(c, row, s - 1) * RowHead(v, n, c.kvHeads, c.dim, s - 1, kv)[d]
  }

  ghost function Gate(c: Config, g: real): real
    requires Sensible(c)
  {
    1.0 / (1.0 + c.exp(-g))
  }

  // Gates are given for every query head when there are any.
  ghost predicate Inputs(c: Config, n: nat, q: seq<real>, k: seq<real>, v: seq<real>, gate: seq<real>) {
    Shaped(c, n, q, k) && HasRows(v, n, c.kvHeads, c.dim) && (c.hasGate ==> HasRows(gate, n, c.heads, c.dim))
  }

  // One head of one output row.
  ghost function HeadOut(c: Config, n: nat, q: seq<real>, k: seq<real>, v: seq<real>, gate: seq<real>, t: nat,
                         head: nat)
    : (out: seq<real>)
    requires Inputs(c, n, q, k, v, gate) && t < n && head < c.heads
    ensures |out| == c.dim
  {
    KvHeadInRange(c, head);
    var row := RowScores(c, n, q, k, t, head);
    seq(c.dim, d requires 0 <= d < c.dim =>
      MixUpTo(c, n, row, v, KvHead(c, head), d, t + 1)
      * (if c.hasGate then Gate(c, RowHead(gate, n, c.heads, c.dim, t, head)[d]) else 1.0))
  }

  /* ---------------------------------- causality ---------------------------------- */

  ghost predicate SameRow(x: seq<real>, n: nat, y: seq<real>, m: nat, width: nat, dim: nat, row: nat)
    requires HasRows(x, n, width, dim) && HasRows(y, m, width, dim) && row < n && row < m
  {
    forall h :: 0 <= h < width ==> RowHead(x, n, width, dim, row, h) == RowHead(y, m, width, dim, row, h)
  }

  // One head agrees at a row of two buffers.
  ghost predicate SameHead(x: seq<real>, n: nat, y: seq<real>, m: nat, width: nat, dim: nat, row: nat, head: nat)
    requires HasRows(x, n, width, dim) && HasRows(y, m, width, dim) && row < n && row < m && head < width
  {
    RowHead(x, n, width, dim, row, head) == RowHead(y, m, width, dim, row, head)
  }

  // The groups of query heads are consecutive and of equal size.
  ghost predicate Serving(c: Config, head: nat, kv: nat)
    requires c.kvHeads > 0
  {
    var size := c.heads / c.kvHeads;
    kv * size <= head < (kv + 1) * size
  }

  lemma ServingIsKvHead(c: Config, head: nat, kv: nat)
    requires Sensible(c) && Serving(c, head, kv)
    ensures c.heads / c.kvHeads > 0 && KvHead(c, head) == kv
    ensures head < c.heads ==> kv < c.kvHeads
  {
    var size := c.heads / c.kvHeads;
    KvHeadInRange(c, head);
    assert (kv + 1) * size == kv * size + size;
    DivisionIs(head, size, kv, head - kv * size);
  }

  /** A head of an output row depends only on the same query and gate head of its own position and on the one
      key/value head that serves its group, at the rows up to its own. */
  lemma HeadIsLocal(c: Config, n: nat, q: seq<real>, k: seq<real>, v: seq<real>, gate: seq<real>,
                    m: nat, q': seq<real>, k': seq<real>, v': seq<real>, gate': seq<real>, t: nat, head: nat, kv: nat)
    requires Inputs(c, n, q, k, v, gate) && Inputs(c, m, q', k', v', gate') && t < n && t < m && head < c.heads
    requires kv < c.kvHeads && Serving(c, head, kv)
    requires SameHead(q, n, q', m, c.heads, c.dim, t, head)
    requires c.hasGate ==> SameHead(gate, n, gate', m, c.heads, c.dim, t, head)
    requires forall s :: 0 <= s <= t ==> SameHead(k, n, k', m, c.kvHeads, c.dim, s, kv)
    requires forall s :: 0 <= s <= t ==> SameHead(v, n, v', m, c.kvHeads, c.dim, s, kv)
    ensures HeadOut(c, n, q, k, v, gate, t, head) == HeadOut(c, m, q', k', v', gate', t, head)
  {
    hide RowHead, HasRows, Weight, Gate, KvHead, Serving;
    ServingIsKvHead(c, head, kv);
    ScoresAreLocal(c, n, q, k, m, q', k', t, head, kv);
    var row := RowScores(c, n, q, k, t, head);
    var here, there := HeadOut(c, n, q, k, v, gate, t, head), HeadOut(c, m, q', k', v', gate', t, head);
    forall d | 0 <= d < c.dim ensures here[d] == there[d] {
      MixIsLocal(c, n, v, m, v', row, kv, d, t + 1);
    }
  }

  lemma ScoresAreLocal(c: Config, n: nat, q: seq<real>, k: seq<real>, m: nat, q': seq<real>, k': seq<real>,
                       t: nat, head: nat, kv: nat)
    requires Shaped(c, n, q, k) && Shaped(c, m, q', k') && t < n && t < m && head < c.heads
    requires c.heads / c.kvHeads > 0 && kv < c.kvHeads && kv == KvHead(c, head)
    requires SameHead(q, n, q', m, c.heads, c.dim, t, head)
    requires forall s :: 0 <= s <= t ==> SameHead(k, n, k', m, c.kvHeads, c.dim, s, kv)
    ensures RowScores(c, n, q, k, t, head) == RowScores(c, m, q', k', t, head)
  {
    hide RowHead, HasRows, DotUpTo;
    forall s | 0 <= s <= t ensures RowScores(c, n, q, k, t, head)[s] == RowScores(c, m, q', k', t, head)[s] {
      assert SameHead(k, n, k', m, c.kvHeads, c.dim, s, kv);
    }
  }

  lemma {:induction false} MixIsLocal(c: Config, n: nat, v: seq<real>, m: nat, v': seq<real>, row: seq<real>,
                                      kv: nat, d: nat, s: nat)
    requires Sensible(c) && HasRows(v, n, c.kvHeads, c.dim) && HasRows(v', m, c.kvHeads, c.dim)
    requires s <= |row| && |row| <= n && |row| <= m && kv < c.kvHeads && d < c.dim
    requires forall i :: 0 <= i < |row| ==> SameHead(v, n, v', m, c.kvHeads, c.dim, i, kv)
    ensures MixUpTo(c, n, row, v, kv, d, s) == MixUpTo(c, m, row, v', kv, d, s)
  {
    hide RowHead, HasRows, Sensible, Weight;
    if s > 0 {
      MixIsLocal(c, n, v, m, v', row, kv, d, s - 1);
      assert SameHead(v, n, v', m, c.kvHeads, c.dim, s - 1, kv);
    }
  }

  /** An output row depends only on the query and gate rows of its own position and on the key and value
      rows up to it, even between inputs of different lengths. */
  lemma RowIsCausal(c: Config, n: nat, q: seq<real>, k: seq<real>, v: seq<real>, gate: seq<real>,
                    m: nat, q': seq<real>, k': seq<real>, v': seq<real>, gate': seq<real>, t: nat, head: nat)
    requires Inputs(c, n, q, k, v, gate) && Inputs(c, m, q', k', v', gate') && t < n && t < m && head < c.heads
    requires SameRow(q, n, q', m, c.heads, c.dim, t)
    requires c.hasGate ==> SameRow(gate, n, gate', m, c.heads, c.dim, t)
    requires forall s :: 0 <= s <= t ==> SameRow(k, n, k', m, c.kvHeads, c.dim, s)
    requires forall s :: 0 <= s <= t ==> SameRow(v, n, v', m, c.kvHeads, c.dim, s)
    ensures HeadOut(c, n, q, k, v, gate, t, head) == HeadOut(c, m, q', k', v', gate', t, head)
  {
    hide RowHead, HasRows;
    KvHeadInRange(c, head);
    var kv := KvHead(c, head);
    KvHeadServes(c, head);
    assert SameHead(q, n, q', m, c.heads, c.dim, t, head);
    assert c.hasGate ==> SameHead(gate, n, gate', m, c.heads, c.dim, t, head);
    forall s | 0 <= s <= t
      ensures SameHead(k, n, k', m, c.kvHeads, c.dim, s, kv) && SameHead(v, n, v', m, c.kvHeads, c.dim, s, kv)
    {
      assert SameRow(k, n, k', m, c.kvHeads, c.dim, s) && SameRow(v, n, v', m, c.kvHeads, c.dim, s);
    }
    HeadIsLocal(c, n, q, k, v, gate, m, q', k', v', gate', t, head, kv);
  }

  lemma KvHeadServes(c: Config, head: nat)
    requires Sensible(c)
    ensures c.heads / c.kvHeads > 0 && Serving(c, head, KvHead(c, head))
  {
    KvHeadInRange(c, head);
    var size := c.heads / c.kvHeads;
    var kv := head / size;
    assert head == kv * size + head % size;
    assert (kv + 1) * size == kv * size + size;
  }

  /* ---------------------------------- the whole output ---------------------------------- */

  // Heads 0..count - 1 of the output, row after row.
  ghost function HeadsOut(c: Config, n: nat, q: seq<real>, k: seq<real>, v: seq<real>, gate: seq<real>, count: nat)
    : (out: seq<real>)
    requires Inputs(c, n, q, k, v, gate) && count <= n * c.heads
  {
    if count == 0 then []
    else
      HeadOfRow(c, n, count - 1);
      HeadsOut(c, n, q, k, v, gate, count - 1)
      + HeadOut(c, n, q, k, v, gate, (count - 1) / c.heads, (count - 1) % c.heads)
  }

  lemma HeadOfRow(c: Config, n: nat, h: nat)
    requires c.heads > 0 && h < n * c.heads
    ensures h / c.heads < n
  {
    var t := h / c.heads;
    assert t * c.heads <= h;
    assert t >= n ==> t * c.heads >= n * c.heads;
  }

  ghost function Output(c: Config, n: nat, q: seq<real>, k: seq<real>, v: seq<real>, gate: seq<real>): seq<real>
    requires Inputs(c, n, q, k, v, gate)
  {
    HeadsOut(c, n, q, k, v, gate, n * c.heads)
  }

  // The first m rows of a buffer.
  ghost function FirstRows(x: seq<real>, n: nat, width: nat, dim: nat, m: nat): (y: seq<real>)
    requires HasRows(x, n, width, dim) && m <= n
    ensures HasRows(y, m, width, dim)
    ensures forall row :: 0 <= row < m ==> SameRow(y, m, x, n, width, dim, row)
  {
    Shorter(m, n, width, dim);
    var y := x[..m * width * dim];
    assert forall row :: 0 <= row < m ==> SameRow(y, m, x, n, width, dim, row) by {
      forall row, h | 0 <= row < m && 0 <= h < width
        ensures RowHead(y, m, width, dim, row, h) == RowHead(x, n, width, dim, row, h)
      {
        HeadInBounds(y, m, width, dim, row, h);
        HeadInBounds(x, n, width, dim, row, h);
      }
    }
    y
  }

  lemma Shorter(m: nat, n: nat, width: nat, dim: nat)
    requires m <= n
    ensures m * width <= n * width && 0 <= m * width * dim <= n * width * dim
  {
    assert m * width <= n * width;
    assert m * width * dim <= n * width * dim;
  }

  /** Running on the first m rows gives the first m rows of the output. */
  lemma PrefixOfOutput(c: Config, n: nat, q: seq<real>, k: seq<real>, v: seq<real>, gate: seq<real>, m: nat)
    requires Inputs(c, n, q, k, v, gate) && m <= n
    ensures var gate' := if c.hasGate then FirstRows(gate, n, c.heads, c.dim, m) else gate;
            Output(c, m, FirstRows(q, n, c.heads, c.dim, m), FirstRows(k, n, c.kvHeads, c.dim, m),
                   FirstRows(v, n, c.kvHeads, c.dim, m), gate') <= Output(c, n, q, k, v, gate)
  {
    hide HasRows, HeadsOut, FirstRows;
    Shorter(m, n, c.heads, c.dim);
    var gate' := if c.hasGate then FirstRows(gate, n, c.heads, c.dim, m) else gate;
    PrefixOfHeads(c, n, q, k, v, gate, m, FirstRows(q, n, c.heads, c.dim, m), FirstRows(k, n, c.kvHeads, c.dim, m),
                  FirstRows(v, n, c.kvHeads, c.dim, m), gate', m * c.heads);
    HeadsOutGrow(c, n, q, k, v, gate, m * c.heads, n * c.heads);
  }

  lemma {:induction false} HeadsOutGrow(c: Config, n: nat, q: seq<real>, k: seq<real>, v: seq<real>,
                                        gate: seq<real>, a: nat, b: nat)
    requires Inputs(c, n, q, k, v, gate) && a <= b <= n * c.heads
    ensures HeadsOut(c, n, q, k, v, gate, a) <= HeadsOut(c, n, q, k, v, gate, b)
    decreases b
  {
    hide HeadOut, HasRows;
    if a < b {
      HeadsOutGrow(c, n, q, k, v, gate, a, b - 1);
      HeadOfRow(c, n, b - 1);
    }
  }

  lemma {:induction false} PrefixOfHeads(c: Config, n: nat, q: seq<real>, k: seq<real>, v: seq<real>, gate: seq<real>,
                                         m: nat, q': seq<real>, k': seq<real>, v': seq<real>, gate': seq<real>,
                                         count: nat)
    requires Inputs(c, n, q, k, v, gate) && Inputs(c, m, q', k', v', gate') && m <= n
    requires count <= m * c.heads && count <= n * c.heads
    requires forall s :: 0 <= s < m ==> SameRow(q', m, q, n, c.heads, c.dim, s)
    requires forall s :: 0 <= s < m ==> SameRow(k', m, k, n, c.kvHeads, c.dim, s)
    requires forall s :: 0 <= s < m ==> SameRow(v', m, v, n, c.kvHeads, c.dim, s)
    requires c.hasGate ==> forall s :: 0 <= s < m ==> SameRow(gate', m, gate, n, c.heads, c.dim, s)
    ensures HeadsOut(c, m, q', k', v', gate', count) == HeadsOut(c, n, q, k, v, gate, count)
    decreases count
  {
    hide HeadOut, HasRows, SameRow, HeadsOut;
    if count == 0 {
      NoHeadsOut(c, n, q, k, v, gate);
      NoHeadsOut(c, m, q', k', v', gate');
    } else {
      var t, head := (count - 1) / c.heads, (count - 1) % c.heads;
      PrefixOfHeads(c, n, q, k, v, gate, m, q', k', v', gate', count - 1);
      LastHeadOut(c, n, q, k, v, gate, count, t, head);
      LastHeadOut(c, m, q', k', v', gate', count, t, head);
      RowIsCausal(c, m, q', k', v', gate', n, q, k, v, gate, t, head);
    }
  }

  lemma NoHeadsOut(c: Config, n: nat, q: seq<real>, k: seq<real>, v: seq<real>, gate: seq<real>)
    requires Inputs(c, n, q, k, v, gate)
    ensures HeadsOut(c, n, q, k, v, gate, 0) == []
  {
  }

  lemma LastHeadOut(c: Config, n: nat, q: seq<real>, k: seq<real>, v: seq<real>, gate: seq<real>, count: nat,
                    t: nat, head: nat)
    requires Inputs(c, n, q, k, v, gate) && 0 < count <= n * c.heads
    requires t == (count - 1) / c.heads && head == (count - 1) % c.heads
    ensures t < n && head < c.heads
    ensures HeadsOut(c, n, q, k, v, gate, count)
            == HeadsOut(c, n, q, k, v, gate, count - 1) + HeadOut(c, n, q, k, v, gate, t, head)
  {
    hide HeadOut, HasRows;
    HeadOfRow(c, n, count - 1);
  }

  /* ---------------------------------- the loops ---------------------------------- */

  // Scores of the visible positions, minus infinity behind them.
  ghost predicate Masked(scores: seq<Score>, row: seq<real>) {
    && 0 < |row| <= |scores|
    && (forall s :: 0 <= s < |row| ==> scores[s] == Finite(row[s]))
    && forall s :: |row| <= s < |scores| ==> scores[s] == NegInf
  }

  method DotHeads(q: seq<real>, qBase: nat, k: seq<real>, kBase: nat, dim: nat) returns (dot: real)
    requires qBase + dim <= |q| && kBase + dim <= |k|
    ensures dot == DotUpTo(q[qBase..qBase + dim], k[kBase..kBase + dim], dim)
  {
    dot := 0.0;
    for d := 0 to dim
      invariant dot == DotUpTo(q[qBase..qBase + dim], k[kBase..kBase + dim], d)
    {
      dot := dot + q[qBase + d] * k[kBase + d];
    }
  }

  // The scaled product of one query head and one visible key head.
  method ScoreOne(c: Config, n: nat, q: seq<real>, k: seq<real>, t: nat, head: nat, kv: nat, s: nat)
    returns (score: real)
    requires Shaped(c, n, q, k) && t < n && head < c.heads && s <= t
    requires c.heads / c.kvHeads > 0 && kv == KvHead(c, head)
    ensures score == RowScores(c, n, q, k, t, head)[s]
  {
    hide DotUpTo, HasRows;
    KvHeadInRange(c, head);
    HeadInBounds(q, n, c.heads, c.dim, t, head);
    HeadInBounds(k, n, c.kvHeads, c.dim, s, kv);
    var dot := DotHeads(q, (t * c.heads + head) * c.dim, k, (s * c.kvHeads + kv) * c.dim, c.dim);
    score := dot * c.scale;
  }

  method FillScores(c: Config, n: nat, q: seq<real>, k: seq<real>, t: nat, head: nat, scores: array<Score>)
    requires Shaped(c, n, q, k) && t < n && head < c.heads && scores.Length == n
    modifies scores
    ensures Masked(scores[..], RowScores(c, n, q, k, t, head))
  {
    hide RowScores, HasRows;
    KvHeadInRange(c, head);
    ghost var row := RowScores(c, n, q, k, t, head);
    var kv := head / (c.heads / c.kvHeads);
    for s := 0 to t + 1
      invariant forall i :: 0 <= i < s ==> scores[i] == Finite(row[i])
    {
      var score := ScoreOne(c, n, q, k, t, head, kv, s);
      scores[s] := Finite(score);
    }
    for s := t + 1 to n
      invariant forall i :: 0 <= i <= t ==> scores[i] == Finite(row[i])
      invariant forall i :: t < i < s ==> scores[i] == NegInf
    {
      scores[s] := NegInf;
    }
  }

  function Larger(a: Score, b: Score): Score {
    match (a, b)
    case (NegInf, _) => b
    case (_, NegInf) => a
    case (Finite(x), Finite(y)) => if x < y then b else a
  }

  // exp(score - m) with exp of minus infinity zero.
  function ExpOf(c: Config, score: Score, m: real): real {
    match score case NegInf => 0.0 case Finite(x) => c.exp(x - m)
  }

  // The maximum of the first s scores, once there are any.
  ghost predicate IsMaxOf(best: Score, row: seq<real>, s: nat) {
    if s == 0 || row == [] then best == NegInf
    else best == Finite(MaxOf(if s <= |row| then row[..s] else row))
  }

  lemma MaxGrows(scores: seq<Score>, row: seq<real>, s: nat, best: Score)
    requires Masked(scores, row) && s < |scores| && IsMaxOf(best, row, s)
    ensures IsMaxOf(Larger(best, scores[s]), row, s + 1)
  {
    if s < |row| {
      assert row[..s + 1][..s] == row[..s];
    } else {
      assert row[..|row|] == row;
    }
  }

  method MaxScore(scores: array<Score>, ghost row: seq<real>) returns (m: real)
    requires Masked(scores[..], row)
    ensures m == MaxOf(row)
  {
    hide IsMaxOf, Larger;
    var best := NegInf;
    assert IsMaxOf(best, row, 0) by {
      NoScores(row);
    }
    for s := 0 to scores.Length
      invariant IsMaxOf(best, row, s)
    {
      MaxGrows(scores[..], row, s, best);
      best := Larger(best, scores[s]);
    }
    AllScores(scores[..], row, best);
    m := best.x;
  }

  lemma NoScores(row: seq<real>)
    ensures IsMaxOf(NegInf, row, 0)
  {
  }

  lemma AllScores(scores: seq<Score>, row: seq<real>, best: Score)
    requires Masked(scores, row) && IsMaxOf(best, row, |scores|)
    ensures best == Finite(MaxOf(row))
  {
    assert row[..|row|] == row;
  }

  // exp of every score less the maximum, and the sum of all of them.
  method Exponentials(c: Config, scores: array<Score>, m: real, weights: array<real>, ghost row: seq<real>)
    returns (sum: real)
    requires Masked(scores[..], row) && weights.Length == scores.Length
    modifies weights
    ensures sum == SumExp(c, row, m, |row|)
    ensures forall i :: 0 <= i < |row| ==> weights[i] == c.exp(row[i] - m)
    ensures forall i :: |row| <= i < weights.Length ==> weights[i] == 0.0
  {
    sum := 0.0;
    for s := 0 to scores.Length
      invariant s <= |row| ==> sum == SumExp(c, row, m, s)
      invariant s > |row| ==> sum == SumExp(c, row, m, |row|)
      invariant forall i :: 0 <= i < s && i < |row| ==> weights[i] == c.exp(row[i] - m)
      invariant forall i :: |row| <= i < s ==> weights[i] == 0.0
    {
      assert scores[s] == scores[..][s];
      weights[s] := ExpOf(c, scores[s], m);
      sum := sum + weights[s];
    }
  }

  method Scale(weights: array<real>, factor: real)
    modifies weights
    ensures forall i :: 0 <= i < weights.Length ==> weights[i] == old(weights[i]) * factor
  {
    for s := 0 to weights.Length
      invariant forall i :: 0 <= i < s ==> weights[i] == old(weights[i]) * factor
      invariant forall i :: s <= i < weights.Length ==> weights[i] == old(weights[i])
    {
      weights[s] := weights[s] * factor;
    }
  }

  /** Softmax over the whole buffer: the masked tail gets weight zero and does not change the others. */
  method Softmax(c: Config, scores: array<Score>, weights: array<real>, ghost row: seq<real>)
    requires Sensible(c) && Masked(scores[..], row) && weights.Length == scores.Length
    modifies weights
    ensures forall s :: 0 <= s < |row| ==> weights[s] == Weight(c, row, s)
    ensures forall s :: |row| <= s < weights.Length ==> weights[s] == 0.0
  {
    hide SumExp, MaxOf;
    var m := MaxScore(scores, row);
    var sum := Exponentials(c, scores, m, weights, row);
    SumExpIsPositive(c, row, m, |row|);
    var inverse := 1.0 / sum;
    Scale(weights, inverse);
  }

  method MixValues(c: Config, n: nat, v: seq<real>, weights: array<real>, ghost row: seq<real>, t: nat,
                   kv: nat, out: array<real>, base: nat)
    requires Sensible(c) && HasRows(v, n, c.kvHeads, c.dim) && |row| == t + 1 <= n && kv < c.kvHeads
    requires weights.Length == n && out != weights && base + c.dim <= out.Length
    requires forall s :: 0 <= s < |row| ==> weights[s] == Weight(c, row, s)
    modifies out
    ensures out[..base] == old(out[..base])
    ensures forall i :: base <= i < base + c.dim ==> out[i] == MixUpTo(c, n, row, v, kv, i - base, |row|)
  {
    hide HasRows, Sensible, Weight, MixUpTo, RowHead;
    MixNothing(c, n, row, v, kv);
    for d := 0 to c.dim
      invariant out[..base] == old(out[..base])
      invariant forall i :: base <= i < base + d ==> out[i] == 0.0
    {
      out[base + d] := 0.0;
    }
    for s := 0 to t + 1
      invariant out[..base] == old(out[..base])
      invariant forall i :: base <= i < base + c.dim ==> out[i] == MixUpTo(c, n, row, v, kv, i - base, s)
    {
      HeadInBounds(v, n, c.kvHeads, c.dim, s, kv);
      MixStep(c, n, row, v, kv, s);
      AddValue(v, (s * c.kvHeads + kv) * c.dim, weights[s], c.dim, out, base);
    }
  }

  lemma MixNothing(c: Config, n: nat, row: seq<real>, v: seq<real>, kv: nat)
    requires Sensible(c) && HasRows(v, n, c.kvHeads, c.dim) && |row| <= n && kv < c.kvHeads
    ensures forall d :: 0 <= d < c.dim ==> MixUpTo(c, n, row, v, kv, d, 0) == 0.0
  {
  }

  lemma MixStep(c: Config, n: nat, row: seq<real>, v: seq<real>, kv: nat, s: nat)
    requires Sensible(c) && HasRows(v, n, c.kvHeads, c.dim) && s < |row| <= n && kv < c.kvHeads
    ensures var base, next := (s * c.kvHeads + kv) * c.dim, s + 1;
            && 0 <= base && base + c.dim <= |v|
            && forall d :: 0 <= d < c.dim ==>
                 MixUpTo(c, n, row, v, kv, d, next)
                 == MixUpTo(c, n, row, v, kv, d, s) + Weight(c, row, s) * v[base..base + c.dim][d]
  {
    hide Weight, HasRows, Sensible;
    HeadInBounds(v, n, c.kvHeads, c.dim, s, kv);
  }

  // Adds one weighted value head.
  method AddValue(v: seq<real>, vBase: nat, w: real, dim: nat, out: array<real>, base: nat)
    requires vBase + dim <= |v| && base + dim <= out.Length
    modifies out
    ensures out[..base] == old(out[..base])
    ensures forall i :: base <= i < base + dim ==> out[i] == old(out[i]) + w * v[vBase..vBase + dim][i - base]
  {
    ghost var head := v[vBase..vBase + dim];
    for d := 0 to dim
      invariant out[..base] == old(out[..base])
      invariant forall i :: base <= i < base + d ==> out[i] == old(out[i]) + w * head[i - base]
      invariant forall i :: base + d <= i < base + dim ==> out[i] == old(out[i])
    {
      assert v[vBase + d] == head[d];
      out[base + d] := out[base + d] + w * v[vBase + d];
    }
  }

  method ApplyGate(c: Config, n: nat, gate: seq<real>, t: nat, head: nat, out: array<real>, base: nat)
    requires Sensible(c) && HasRows(gate, n, c.heads, c.dim) && t < n && head < c.heads && base + c.dim <= out.Length
    modifies out
    ensures out[..base] == old(out[..base])
    ensures forall i :: base <= i < base + c.dim ==>
              out[i] == old(out[i]) * Gate(c, RowHead(gate, n, c.heads, c.dim, t, head)[i - base])
  {
    hide HasRows, Gate, Sensible;
    HeadInBounds(gate, n, c.heads, c.dim, t, head);
    ghost var g := RowHead(gate, n, c.heads, c.dim, t, head);
    for d := 0 to c.dim
      invariant out[..base] == old(out[..base])
      invariant forall i :: base <= i < base + d ==> out[i] == old(out[i]) * Gate(c, g[i - base])
      invariant forall i :: base + d <= i < base + c.dim ==> out[i] == old(out[i])
    {
      var value := gate[(t * c.heads + head) * c.dim + d];
      assert value == g[d];
      GateIs(c, value);
      out[base + d] := out[base + d] * (1.0 / (1.0 + c.exp(-value)));
    }
  }

  lemma GateIs(c: Config, g: real)
    requires Sensible(c)
    ensures 1.0 + c.exp(-g) > 0.0 && Gate(c, g) == 1.0 / (1.0 + c.exp(-g))
  {
    assert c.exp(-g) > 0.0;
  }

  // Writes one head of one output row, with the two row buffers as scratch.
  method AttendHead(c: Config, n: nat, q: seq<real>, k: seq<real>, v: seq<real>, gate: seq<real>, t: nat, head: nat,
                    scores: array<Score>, weights: array<real>, out: array<real>, base: nat)
    requires Inputs(c, n, q, k, v, gate) && t < n && head < c.heads
    requires scores.Length == weights.Length == n && out != weights && base + c.dim <= out.Length
    modifies scores, weights, out
    ensures out[..base] == old(out[..base])
    ensures out[base..base + c.dim] == HeadOut(c, n, q, k, v, gate, t, head)
  {
    hide HasRows, Weight, RowHead, Gate, Masked, RowScores, HeadOut;
    KvHeadInRange(c, head);
    ghost var row := RowScores(c, n, q, k, t, head);
    var kv := head / (c.heads / c.kvHeads);
    FillScores(c, n, q, k, t, head, scores);
    MaskedLength(scores[..], row);
    Softmax(c, scores, weights, row);
    MixValues(c, n, v, weights, row, t, kv, out, base);
    if c.hasGate {
      ApplyGate(c, n, gate, t, head, out, base);
    }
    HeadOutIs(c, n, q, k, v, gate, t, head, out[base..base + c.dim]);
  }

  // The factor on entry d.
  ghost function Factor(c: Config, n: nat, gate: seq<real>, t: nat, head: nat, d: nat): real
    requires Sensible(c) && (c.hasGate ==> HasRows(gate, n, c.heads, c.dim)) && t < n && head < c.heads && d < c.dim
  {
    if c.hasGate then Gate(c, RowHead(gate, n, c.heads, c.dim, t, head)[d]) else 1.0
  }

  lemma HeadOutIs(c: Config, n: nat, q: seq<real>, k: seq<real>, v: seq<real>, gate: seq<real>, t: nat, head: nat,
                  block: seq<real>)
    requires Inputs(c, n, q, k, v, gate) && t < n && head < c.heads && |block| == c.dim
    requires c.heads / c.kvHeads > 0 && KvHead(c, head) < c.kvHeads
    requires forall d :: 0 <= d < c.dim ==>
               block[d] == MixUpTo(c, n, RowScores(c, n, q, k, t, head), v, KvHead(c, head), d, t + 1)
                           * Factor(c, n, gate, t, head, d)
    ensures block == HeadOut(c, n, q, k, v, gate, t, head)
  {
    hide HasRows, RowHead, Gate, RowScores, MixUpTo;
    var out := HeadOut(c, n, q, k, v, gate, t, head);
    forall d | 0 <= d < c.dim ensures out[d] == block[d] {
      assert out[d] == MixUpTo(c, n, RowScores(c, n, q, k, t, head), v, KvHead(c, head), d, t + 1)
                       * Factor(c, n, gate, t, head, d);
    }
  }

  lemma MaskedLength(scores: seq<Score>, row: seq<real>)
    requires Masked(scores, row)
    ensures 0 < |row| <= |scores|
  {
  }

  // One row of the output.
  method AttendRow(c: Config, n: nat, q: seq<real>, k: seq<real>, v: seq<real>, gate: seq<real>, t: nat,
                   scores: array<Score>, weights: array<real>, out: array<real>)
    requires Inputs(c, n, q, k, v, gate) && t < n
    requires scores.Length == weights.Length == n && out != weights && out.Length == n * c.heads * c.dim
    requires Done(c, n, q, k, v, gate, out[..], t * c.heads)
    modifies scores, weights, out
    ensures Done(c, n, q, k, v, gate, out[..], (t + 1) * c.heads)
  {
    hide HasRows, HeadOut, HeadsOut, Done, Inputs, Output;
    ghost var first := t * c.heads;
    for head := 0 to c.heads
      invariant Done(c, n, q, k, v, gate, out[..], first + head)
    {
      ghost var before := out[..];
      var base := (t * c.heads + head) * c.dim;
      OutputInBounds(c, n, t, head);
      assert before[..base] == out[..base];
      AttendHead(c, n, q, k, v, gate, t, head, scores, weights, out, base);
      assert out[..][..base] == out[..base] && out[..][base..base + c.dim] == out[base..base + c.dim];
      HeadDone(c, n, q, k, v, gate, before, out[..], t, head);
    }
    NextRow(t, c.heads);
  }

  lemma NextRow(t: nat, heads: nat)
    ensures (t + 1) * heads == t * heads + heads
  {
  }

  /** The whole loop nest computes the causal output. */
  method Attend(c: Config, n: nat, q: seq<real>, k: seq<real>, v: seq<real>, gate: seq<real>)
    returns (out: array<real>)
    requires Inputs(c, n, q, k, v, gate)
    ensures fresh(out) && out[..] == Output(c, n, q, k, v, gate)
  {
    hide HasRows, HeadOut, HeadsOut, Done, Inputs, Output;
    out := new real[n * c.heads * c.dim];
    var scores := new Score[n](_ => NegInf);
    var weights := new real[n](_ => 0.0);
    NoHeads(c, n, q, k, v, gate, out[..]);
    for t := 0 to n
      invariant Done(c, n, q, k, v, gate, out[..], t * c.heads)
    {
      AttendRow(c, n, q, k, v, gate, t, scores, weights, out);
    }
    AllDone(c, n, q, k, v, gate, out[..]);
  }

  // The first `count` heads of the output are in place.
  ghost predicate Done(c: Config, n: nat, q: seq<real>, k: seq<real>, v: seq<real>, gate: seq<real>,
                       out: seq<real>, count: int) {
    && Inputs(c, n, q, k, v, gate) && 0 <= count <= n * c.heads && 0 <= count * c.dim <= |out|
    && |out| == n * c.heads * c.dim && out[..count * c.dim] == HeadsOut(c, n, q, k, v, gate, count)
  }

  lemma NoHeads(c: Config, n: nat, q: seq<real>, k: seq<real>, v: seq<real>, gate: seq<real>, out: seq<real>)
    requires Inputs(c, n, q, k, v, gate) && |out| == n * c.heads * c.dim
    ensures Done(c, n, q, k, v, gate, out, 0)
  {
  }

  lemma OutputInBounds(c: Config, n: nat, t: nat, head: nat)
    requires t < n && head < c.heads
    ensures 0 <= (t * c.heads + head) * c.dim && (t * c.heads + head) * c.dim + c.dim <= n * c.heads * c.dim
    ensures t * c.heads + head < n * c.heads
  {
    Below(t, n, c.heads);
    Below(t * c.heads + head, n * c.heads, c.dim);
  }

  lemma HeadDone(c: Config, n: nat, q: seq<real>, k: seq<real>, v: seq<real>, gate: seq<real>,
                 before: seq<real>, out: seq<real>, t: nat, head: nat)
    requires t < n && head < c.heads && Done(c, n, q, k, v, gate, before, t * c.heads + head) && |out| == |before|
    requires var base := (t * c.heads + head) * c.dim;
             && 0 <= base && base + c.dim <= |out| && out[..base] == before[..base]
             && out[base..base + c.dim] == HeadOut(c, n, q, k, v, gate, t, head)
    ensures Done(c, n, q, k, v, gate, out, t * c.heads + head + 1)
  {
    hide HasRows, HeadOut, Sensible;
    var m := t * c.heads + head;
    var base := m * c.dim;
    OutputInBounds(c, n, t, head);
    DivisionIs(m, c.heads, t, head);
    assert (m + 1) * c.dim == base + c.dim;
    assert out[..base + c.dim] == out[..base] + out[base..base + c.dim];
  }

  lemma AllDone(c: Config, n: nat, q: seq<real>, k: seq<real>, v: seq<real>, gate: seq<real>, out: seq<real>)
    requires Done(c, n, q, k, v, gate, out, n * c.heads)
    ensures Inputs(c, n, q, k, v, gate) && out == Output(c, n, q, k, v, gate)
  {
    assert out[..|out|] == out;
  }
}
