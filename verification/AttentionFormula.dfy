/** Every entry of the attention output by its textbook formula, over the flat buffers: a softmax-weighted sum
    of the value entries of the visible rows, times the sigmoid of the gate. */
module AttentionFormula {
  import opened Basics
  import opened CausalAttention

  ghost function Sigma(f: nat -> real, n: nat): real {
    if n == 0 then 0.0 else Sigma(f, n - 1) + f(n - 1)
  }

  function Entry(x: seq<real>, i: int): real {
    if 0 <= i < |x| then x[i] else 0.0
  }

  // The products of two stretches, entry by entry.
  ghost function Products(x: seq<real>, xBase: int, y: seq<real>, yBase: int): nat -> real {
    (e: nat) => Entry(x, xBase + e) * Entry(y, yBase + e)
  }

  // The scaled product of query head `head` of row t and key head `kv` of row s.
  ghost function ScoreOf(c: Config, q: seq<real>, k: seq<real>, t: nat, head: nat, kv: nat, s: nat): real {
    Sigma(Products(q, (t * c.heads + head) * c.dim, k, (s * c.kvHeads + kv) * c.dim), c.dim) * c.scale
  }

  // m is the largest visible score.
  ghost predicate IsLargest(c: Config, q: seq<real>, k: seq<real>, t: nat, head: nat, kv: nat, m: real) {
    && (forall s: nat :: s <= t ==> ScoreOf(c, q, k, t, head, kv, s) <= m)
    && exists s: nat :: s <= t && ScoreOf(c, q, k, t, head, kv, s) == m
  }

  lemma SigmaStep(f: nat -> real, n: nat)
    requires n > 0
    ensures Sigma(f, n) == Sigma(f, n - 1) + f(n - 1)
  {
  }

  lemma SigmaNothing(f: nat -> real)
    ensures Sigma(f, 0) == 0.0
  {
  }

  /* ---------------------------------- the sums ---------------------------------- */

  lemma {:induction false} DotIsSigma(x: seq<real>, xBase: nat, y: seq<real>, yBase: nat, dim: nat, n: nat)
    requires xBase + dim <= |x| && yBase + dim <= |y| && n <= dim
    ensures DotUpTo(x[xBase..xBase + dim], y[yBase..yBase + dim], n)
         == Sigma(Products(x, xBase, y, yBase), n)
  {
    if n > 0 {
      var a, b, f := x[xBase..xBase + dim], y[yBase..yBase + dim], Products(x, xBase, y, yBase);
      DotIsSigma(x, xBase, y, yBase, dim, n - 1);
      assert a[n - 1] == Entry(x, xBase + (n - 1)) && b[n - 1] == Entry(y, yBase + (n - 1));
      assert f(n - 1) == a[n - 1] * b[n - 1];
      SigmaStep(f, n);
    }
  }

  lemma ScoresAre(c: Config, n: nat, q: seq<real>, k: seq<real>, t: nat, head: nat, kv: nat, s: nat)
    requires Shaped(c, n, q, k) && s <= t < n && head < c.heads
    requires kv < c.kvHeads && c.heads / c.kvHeads > 0 && KvHead(c, head) == kv
    ensures RowScores(c, n, q, k, t, head)[s] == ScoreOf(c, q, k, t, head, kv, s)
  {
    hide DotUpTo, Sigma, HasRows, KvHead, Products;
    HeadInBounds(q, n, c.heads, c.dim, t, head);
    HeadInBounds(k, n, c.kvHeads, c.dim, s, kv);
    var qBase, kBase := (t * c.heads + head) * c.dim, (s * c.kvHeads + kv) * c.dim;
    assert RowHead(q, n, c.heads, c.dim, t, head) == q[qBase..qBase + c.dim];
    assert RowHead(k, n, c.kvHeads, c.dim, s, kv) == k[kBase..kBase + c.dim];
    DotIsSigma(q, qBase, k, kBase, c.dim, c.dim);
  }

  // The exponential of score s less the largest one.
  ghost function Expo(c: Config, row: seq<real>, m: real): nat -> real {
    (s: nat) => c.exp(Entry(row, s) - m)
  }

  lemma {:induction false} SumExpIsSigma(c: Config, row: seq<real>, m: real, n: nat)
    requires n <= |row|
    ensures SumExp(c, row, m, n) == Sigma(Expo(c, row, m), n)
  {
    if n > 0 {
      SumExpIsSigma(c, row, m, n - 1);
    }
  }

  // Expo times the value entry.
  ghost function Pull(c: Config, row: seq<real>, m: real, v: seq<real>, kv: nat, d: nat): nat -> real {
    (s: nat) => c.exp(Entry(row, s) - m) * Entry(v, (s * c.kvHeads + kv) * c.dim + d)
  }

  lemma Redistribute(mix: real, e: real, x: real, inverse: real, total: real)
    requires inverse * total == 1.0
    ensures (mix + e * inverse * x) * total == mix * total + e * x
  {
    assert e * inverse * x * total == e * x * (inverse * total);
  }

  lemma ValueEntry(c: Config, n: nat, v: seq<real>, s: nat, kv: nat, d: nat)
    requires HasRows(v, n, c.kvHeads, c.dim) && s < n && kv < c.kvHeads && d < c.dim
    ensures RowHead(v, n, c.kvHeads, c.dim, s, kv)[d] == Entry(v, (s * c.kvHeads + kv) * c.dim + d)
  {
    HeadInBounds(v, n, c.kvHeads, c.dim, s, kv);
  }

  lemma {:induction false} MixIsSigma(c: Config, n: nat, row: seq<real>, v: seq<real>, kv: nat, d: nat, s: nat)
    requires Sensible(c) && HasRows(v, n, c.kvHeads, c.dim) && 0 < |row| <= n && s <= |row|
    requires kv < c.kvHeads && d < c.dim
    ensures var m := MaxOf(row);
            MixUpTo(c, n, row, v, kv, d, s) * SumExp(c, row, m, |row|) == Sigma(Pull(c, row, m, v, kv, d), s)
  {
    hide MixUpTo, SumExp, HasRows, MaxOf, Sigma, Pull;
    if s == 0 {
      MixNothing(c, n, row, v, kv);
      SigmaNothing(Pull(c, row, MaxOf(row), v, kv, d));
    } else {
      MixIsSigma(c, n, row, v, kv, d, s - 1);
      SigmaStep(Pull(c, row, MaxOf(row), v, kv, d), s);
      PullStep(c, n, row, v, kv, d, s);
    }
  }

  lemma PullStep(c: Config, n: nat, row: seq<real>, v: seq<real>, kv: nat, d: nat, s: nat)
    requires Sensible(c) && HasRows(v, n, c.kvHeads, c.dim) && 0 < s <= |row| <= n
    requires kv < c.kvHeads && d < c.dim
    ensures var m := MaxOf(row);
            var total := SumExp(c, row, m, |row|);
            MixUpTo(c, n, row, v, kv, d, s) * total
            == MixUpTo(c, n, row, v, kv, d, s - 1) * total + Pull(c, row, m, v, kv, d)(s - 1)
  {
    hide RowHead, HasRows, MaxOf, SumExp, Entry;
    var m := MaxOf(row);
    ValueEntry(c, n, v, s - 1, kv, d);
    EntryAt(row, s - 1);
    SumExpIsPositive(c, row, m, |row|);
    var total := SumExp(c, row, m, |row|);
    CausalAttention.Inverse(total);
    Redistribute(MixUpTo(c, n, row, v, kv, d, s - 1), c.exp(row[s - 1] - m),
                 RowHead(v, n, c.kvHeads, c.dim, s - 1, kv)[d], 1.0 / total, total);
  }

  lemma EntryAt(x: seq<real>, i: nat)
    requires i < |x|
    ensures Entry(x, i) == x[i]
  {
  }

  lemma {:induction false} SigmaSame(f: nat -> real, g: nat -> real, n: nat)
    requires forall i: nat :: i < n ==> f(i) == g(i)
    ensures Sigma(f, n) == Sigma(g, n)
  {
    if n > 0 {
      SigmaSame(f, g, n - 1);
    }
  }

  /* ---------------------------------- one entry ---------------------------------- */

  // The exponentials of the visible scores.
  ghost function Exponential(c: Config, q: seq<real>, k: seq<real>, t: nat, head: nat, kv: nat, m: real): nat -> real {
    (s: nat) => c.exp(ScoreOf(c, q, k, t, head, kv, s) - m)
  }

  // The same, each times the value entry of its row.
  ghost function Weighted(c: Config, q: seq<real>, k: seq<real>, v: seq<real>, t: nat, head: nat, kv: nat, d: nat,
                          m: real): nat -> real {
    (s: nat) => c.exp(ScoreOf(c, q, k, t, head, kv, s) - m) * Entry(v, (s * c.kvHeads + kv) * c.dim + d)
  }

  ghost function Sigmoid(c: Config, x: real): real
    requires Sensible(c)
  {
    assert c.exp(-x) > 0.0;
    1.0 / (1.0 + c.exp(-x))
  }

  lemma SumsAre(c: Config, n: nat, q: seq<real>, k: seq<real>, v: seq<real>, t: nat, head: nat, kv: nat, d: nat,
                m: real)
    requires Shaped(c, n, q, k) && HasRows(v, n, c.kvHeads, c.dim) && t < n && head < c.heads && d < c.dim
    requires kv < c.kvHeads && c.heads / c.kvHeads > 0 && KvHead(c, head) == kv
    requires IsLargest(c, q, k, t, head, kv, m)
    ensures var row := RowScores(c, n, q, k, t, head);
            && m == MaxOf(row)
            && Sigma(Expo(c, row, m), t + 1) == Sigma(Exponential(c, q, k, t, head, kv, m), t + 1)
            && Sigma(Pull(c, row, m, v, kv, d), t + 1) == Sigma(Weighted(c, q, k, v, t, head, kv, d, m), t + 1)
  {
    hide RowScores, ScoreOf, HasRows, Sigma, MaxOf, KvHead;
    var row := RowScores(c, n, q, k, t, head);
    forall s: nat | s <= t ensures row[s] == ScoreOf(c, q, k, t, head, kv, s) == Entry(row, s) {
      ScoresAre(c, n, q, k, t, head, kv, s);
    }
    SigmaSame(Expo(c, row, m), Exponential(c, q, k, t, head, kv, m), t + 1);
    SigmaSame(Pull(c, row, m, v, kv, d), Weighted(c, q, k, v, t, head, kv, d, m), t + 1);
  }

  // Gating commutes with the division by the sum of the weights.
  lemma Gated(mix: real, factor: real, total: real, sum: real)
    requires mix * total == sum
    ensures (mix * factor) * total == sum * factor
  {
  }

  lemma HeadEntry(c: Config, n: nat, q: seq<real>, k: seq<real>, v: seq<real>, gate: seq<real>, t: nat, head: nat,
                  kv: nat, d: nat, m: real)
    requires Inputs(c, n, q, k, v, gate) && t < n && head < c.heads && d < c.dim
    requires kv < c.kvHeads && c.heads / c.kvHeads > 0 && KvHead(c, head) == kv
    requires IsLargest(c, q, k, t, head, kv, m)
    ensures var total := Sigma(Exponential(c, q, k, t, head, kv, m), t + 1);
            && total > 0.0
            && HeadOut(c, n, q, k, v, gate, t, head)[d] * total
               == Sigma(Weighted(c, q, k, v, t, head, kv, d, m), t + 1)
                  * (if c.hasGate then Sigmoid(c, Entry(gate, (t * c.heads + head) * c.dim + d)) else 1.0)
  {
    hide RowScores, HasRows, Sigma, MaxOf, SumExp, MixUpTo, Expo, Pull, Exponential, Weighted, RowHead, IsLargest;
    hide KvHead;
    var row := RowScores(c, n, q, k, t, head);
    SumsAre(c, n, q, k, v, t, head, kv, d, m);
    SumExpIsSigma(c, row, m, |row|);
    SumExpIsPositive(c, row, m, |row|);
    MixIsSigma(c, n, row, v, kv, d, |row|);
    if c.hasGate {
      GateEntry(c, n, gate, t, head, d);
    }
    var factor := if c.hasGate then Sigmoid(c, Entry(gate, (t * c.heads + head) * c.dim + d)) else 1.0;
    Gated(MixUpTo(c, n, row, v, kv, d, t + 1), factor, SumExp(c, row, m, |row|),
          Sigma(Pull(c, row, m, v, kv, d), t + 1));
  }

  lemma GateEntry(c: Config, n: nat, gate: seq<real>, t: nat, head: nat, d: nat)
    requires Sensible(c) && HasRows(gate, n, c.heads, c.dim) && t < n && head < c.heads && d < c.dim
    ensures Gate(c, RowHead(gate, n, c.heads, c.dim, t, head)[d])
         == Sigmoid(c, Entry(gate, (t * c.heads + head) * c.dim + d))
  {
    HeadInBounds(gate, n, c.heads, c.dim, t, head);
  }

  /* ---------------------------------- where the entry is ---------------------------------- */

  lemma {:induction false} HeadsOutLength(c: Config, n: nat, q: seq<real>, k: seq<real>, v: seq<real>, gate: seq<real>,
                                          count: nat)
    requires Inputs(c, n, q, k, v, gate) && count <= n * c.heads
    ensures |HeadsOut(c, n, q, k, v, gate, count)| == count * c.dim
  {
    hide HeadOut, HasRows;
    if count > 0 {
      HeadsOutLength(c, n, q, k, v, gate, count - 1);
      HeadOfRow(c, n, count - 1);
      assert count * c.dim == (count - 1) * c.dim + c.dim;
    }
  }

  lemma OutputHead(c: Config, n: nat, q: seq<real>, k: seq<real>, v: seq<real>, gate: seq<real>, t: nat, head: nat,
                   d: nat)
    requires Inputs(c, n, q, k, v, gate) && t < n && head < c.heads && d < c.dim
    ensures var at := (t * c.heads + head) * c.dim + d;
            && 0 <= at < |Output(c, n, q, k, v, gate)| == n * c.heads * c.dim
            && Output(c, n, q, k, v, gate)[at] == HeadOut(c, n, q, k, v, gate, t, head)[d]
  {
    hide HeadOut, HasRows, HeadsOut, Inputs;
    var h := t * c.heads + head;
    OutputInBounds(c, n, t, head);
    DivisionIs(h, c.heads, t, head);
    LastHeadOut(c, n, q, k, v, gate, h + 1, t, head);
    HeadsOutLength(c, n, q, k, v, gate, h);
    HeadsOutLength(c, n, q, k, v, gate, n * c.heads);
    HeadsOutGrow(c, n, q, k, v, gate, h + 1, n * c.heads);
  }

  /** The entry of row t, query head `head` and dimension d, for the key/value head kv of the head's group:
      its product with the sum of the exponentials is the sum of the exponentials times the value entries of
      rows 0 to t, times the sigmoid of the gate entry at the same place. */
  lemma OutputEntry(c: Config, n: nat, q: seq<real>, k: seq<real>, v: seq<real>, gate: seq<real>, t: nat, head: nat,
                    kv: nat, d: nat, m: real)
    requires Inputs(c, n, q, k, v, gate) && t < n && head < c.heads && d < c.dim
    requires kv * (c.heads / c.kvHeads) <= head < (kv + 1) * (c.heads / c.kvHeads)
    requires IsLargest(c, q, k, t, head, kv, m)
    ensures var at := (t * c.heads + head) * c.dim + d;
            var total := Sigma(Exponential(c, q, k, t, head, kv, m), t + 1);
            && total > 0.0 && 0 <= at < |Output(c, n, q, k, v, gate)| == n * c.heads * c.dim
            && Output(c, n, q, k, v, gate)[at] * total
               == Sigma(Weighted(c, q, k, v, t, head, kv, d, m), t + 1)
                  * (if c.hasGate then Sigmoid(c, Entry(gate, at)) else 1.0)
  {
    hide HeadOut, HasRows, Sigma, Exponential, Weighted, IsLargest, Output, Entry;
    ServingIsKvHead(c, head, kv);
    HeadEntry(c, n, q, k, v, gate, t, head, kv, d, m);
    OutputHead(c, n, q, k, v, gate, t, head, d);
  }

  /** There is a largest visible score. */
  lemma LargestExists(c: Config, q: seq<real>, k: seq<real>, t: nat, head: nat, kv: nat)
    ensures exists m :: IsLargest(c, q, k, t, head, kv, m)
  {
    hide ScoreOf;
    var row := seq(t + 1, s requires 0 <= s <= t => ScoreOf(c, q, k, t, head, kv, s));
    var m := MaxOf(row);
    var i :| 0 <= i < |row| && row[i] == m;
    forall s: nat | s <= t ensures ScoreOf(c, q, k, t, head, kv, s) <= m {
      assert row[s] <= m;
    }
    assert ScoreOf(c, q, k, t, head, kv, i) == m;
    assert IsLargest(c, q, k, t, head, kv, m);
  }
}
