/** Byte-pair merging: the tokenizer merges the leftmost pair of lowest rank, one pair at a time; the
    reference script merges every occurrence of the best pair in one pass. */
module Bpe {
  import opened Basics

  type Symbol = seq<Byte>
  type Word = seq<Symbol>
  // A pair's rank is its index in the merge list.
  type Merges = map<(Symbol, Symbol), nat>

  const NO_RANK: nat := 0x7FFF_FFFF_FFFF_FFFF

  ghost predicate Ranked(merges: Merges) {
    && (forall p :: p in merges ==> merges[p] < NO_RANK)
    && (forall p, q :: p in merges && q in merges && merges[p] == merges[q] ==> p == q)
  }

  // Every pair that contains a merge product ranks after each merge that makes the product.
  ghost predicate Ordered(merges: Merges) {
    forall p, q :: p in merges && q in merges && (q.0 == p.0 + p.1 || q.1 == p.0 + p.1) ==> merges[p] < merges[q]
  }

  function PairRank(merges: Merges, w: Word, i: nat): nat
    requires i + 1 < |w|
  {
    if (w[i], w[i + 1]) in merges then merges[(w[i], w[i + 1])] else NO_RANK
  }

  // i is the leftmost mergeable pair of lowest rank.
  ghost predicate IsBest(merges: Merges, w: Word, i: nat) {
    && i + 1 < |w| && (w[i], w[i + 1]) in merges
    && forall j :: 0 <= j < |w| - 1 ==>
         PairRank(merges, w, i) <= PairRank(merges, w, j)
         && (j < i ==> PairRank(merges, w, i) < PairRank(merges, w, j))
  }

  ghost predicate Done(merges: Merges, w: Word) {
    forall i :: 0 <= i < |w| - 1 ==> (w[i], w[i + 1]) !in merges
  }

  function MergeAt(w: Word, i: nat): (r: Word)
    requires i + 1 < |w|
    ensures |r| == |w| - 1
  {
    w[..i] + [w[i] + w[i + 1]] + w[i + 2..]
  }

  /* ---------------------------------- one pair at a time ---------------------------------- */

  // The best of the first n pairs, or |w| if none of them is mergeable.
  ghost function BestUpTo(merges: Merges, w: Word, n: nat): (best: nat)
    requires Ranked(merges) && n <= |w| - 1
    ensures best == |w| || best < n
    ensures best == |w| ==> forall j :: 0 <= j < n ==> PairRank(merges, w, j) == NO_RANK
    ensures best < |w| ==> PairRank(merges, w, best) < NO_RANK
    ensures best < |w| ==> forall j :: 0 <= j < n ==> PairRank(merges, w, best) <= PairRank(merges, w, j)
    ensures best < |w| ==> forall j :: 0 <= j < best ==> PairRank(merges, w, best) < PairRank(merges, w, j)
  {
    if n == 0 then |w|
    else
      var b := BestUpTo(merges, w, n - 1);
      if PairRank(merges, w, n - 1) < (if b == |w| then NO_RANK else PairRank(merges, w, b)) then n - 1 else b
  }

  ghost function BestIndex(merges: Merges, w: Word): (best: nat)
    requires Ranked(merges) && !Done(merges, w)
    ensures IsBest(merges, w, best)
  {
    assert exists i :: 0 <= i < |w| - 1 && PairRank(merges, w, i) < NO_RANK by {
      var i :| 0 <= i < |w| - 1 && (w[i], w[i + 1]) in merges;
      assert PairRank(merges, w, i) < NO_RANK;
    }
    BestUpTo(merges, w, |w| - 1)
  }

  lemma BestIsUnique(merges: Merges, w: Word, i: nat, j: nat)
    requires IsBest(merges, w, i) && IsBest(merges, w, j)
    ensures i == j
  {
    assert PairRank(merges, w, i) <= PairRank(merges, w, j);
  }

  // What the tokenizer's loop computes.
  ghost function OneByOne(merges: Merges, w: Word): (r: Word)
    requires Ranked(merges)
    decreases |w|
  {
    if Done(merges, w) then w else OneByOne(merges, MergeAt(w, BestIndex(merges, w)))
  }

  // The scan over all adjacent pairs.
  method BestPair(merges: Merges, w: Word) returns (best: nat)
    requires Ranked(merges) && w != []
    ensures best == BestUpTo(merges, w, |w| - 1)
  {
    hide Ranked;
    var bestRank;
    bestRank, best := NO_RANK, |w|;
    for i := 0 to |w| - 1
      invariant best == BestUpTo(merges, w, i)
      invariant bestRank == if best == |w| then NO_RANK else PairRank(merges, w, best)
    {
      var rank := PairRank(merges, w, i);
      if rank < bestRank {
        bestRank, best := rank, i;
      }
    }
  }

  /** The tokenizer's merge loop: it ends, and merges the leftmost pair of lowest rank each time. */
  method MergeLeftmost(merges: Merges, symbols: Word) returns (w: Word)
    requires Ranked(merges)
    ensures w == OneByOne(merges, symbols) && MergesTo(merges, symbols, w)
  {
    hide BestUpTo, BestIndex, Ranked, MergesTo;
    OneByOneIsRun(merges, symbols, OneByOne(merges, symbols));
    w := symbols;
    if |w| <= 1 {
      return;
    }
    while true
      invariant |w| >= 1 && OneByOne(merges, symbols) == OneByOne(merges, w)
      decreases |w|
    {
      var best := BestPair(merges, w);
      if best >= |w| {
        NothingLeft(merges, w);
        break;
      }
      FoundBest(merges, w);
      w := MergeAt(w, best);
    }
  }

  lemma NothingLeft(merges: Merges, w: Word)
    requires Ranked(merges) && w != [] && BestUpTo(merges, w, |w| - 1) == |w|
    ensures Done(merges, w)
  {
    forall i | 0 <= i < |w| - 1 ensures (w[i], w[i + 1]) !in merges {
      assert PairRank(merges, w, i) == NO_RANK;
    }
  }

  lemma FoundBest(merges: Merges, w: Word)
    requires Ranked(merges) && w != [] && BestUpTo(merges, w, |w| - 1) < |w|
    ensures !Done(merges, w) && BestIndex(merges, w) == BestUpTo(merges, w, |w| - 1)
  {
    var b := BestUpTo(merges, w, |w| - 1);
    assert (w[b], w[b + 1]) in merges;
  }

  /* ---------------------------------- the run, step by step ---------------------------------- */

  // The leftmost occurrence of the listed pair of lowest rank is replaced by its concatenation.
  ghost predicate MergesPair(merges: Merges, w: Word, p: nat, merged: Word) {
    && p + 1 < |w| && (w[p], w[p + 1]) in merges
    && (forall j :: 0 <= j < |w| - 1 && (w[j], w[j + 1]) in merges ==>
          merges[(w[p], w[p + 1])] <= merges[(w[j], w[j + 1])])
    && (forall j :: 0 <= j < p ==> !(w[j] == w[p] && w[j + 1] == w[p + 1]))
    && merged == w[..p] + [w[p] + w[p + 1]] + w[p + 2..]
  }

  // Each word comes from the one before by such a step.
  ghost predicate IsRun(merges: Merges, words: seq<Word>) {
    |words| > 1 ==> (exists p: nat :: MergesPair(merges, words[0], p, words[1])) && IsRun(merges, words[1..])
  }

  // A run of such steps leads from one word to another that has no listed pair.
  ghost predicate MergesTo(merges: Merges, from: Word, to: Word) {
    && (forall i :: 0 <= i < |to| - 1 ==> (to[i], to[i + 1]) !in merges)
    && exists words: seq<Word> ::
         words != [] && words[0] == from && words[|words| - 1] == to && IsRun(merges, words)
  }

  lemma MergesBest(merges: Merges, w: Word, p: nat, merged: Word)
    requires Ranked(merges)
    ensures MergesPair(merges, w, p, merged) <==> IsBest(merges, w, p) && merged == MergeAt(w, p)
  {
    if MergesPair(merges, w, p, merged) {
      forall j | 0 <= j < p ensures PairRank(merges, w, p) < PairRank(merges, w, j) {
        assert (w[j], w[j + 1]) != (w[p], w[p + 1]);
      }
    }
    if IsBest(merges, w, p) {
      forall j | 0 <= j < |w| - 1 && (w[j], w[j + 1]) in merges
        ensures merges[(w[p], w[p + 1])] <= merges[(w[j], w[j + 1])]
      {
        assert PairRank(merges, w, p) <= PairRank(merges, w, j);
      }
      forall j | 0 <= j < p ensures !(w[j] == w[p] && w[j + 1] == w[p + 1]) {
        assert PairRank(merges, w, p) < PairRank(merges, w, j);
      }
    }
  }

  /** The loop's result is the end of the one run of merges that starts from the word and cannot go on. */
  lemma OneByOneIsRun(merges: Merges, w: Word, r: Word)
    requires Ranked(merges)
    ensures r == OneByOne(merges, w) <==> MergesTo(merges, w, r)
  {
    hide OneByOne, IsRun, Ranked;
    if MergesTo(merges, w, r) {
      var words :| words != [] && words[0] == w && words[|words| - 1] == r && IsRun(merges, words);
      RunEnds(merges, words);
    }
    if r == OneByOne(merges, w) {
      OneByOneResult(merges, w);
      var words := RunFrom(merges, w);
    }
  }

  lemma FirstStep(merges: Merges, words: seq<Word>)
    requires Ranked(merges) && |words| > 1 && IsRun(merges, words)
    ensures IsRun(merges, words[1..])
    ensures !Done(merges, words[0]) && words[1] == MergeAt(words[0], BestIndex(merges, words[0]))
  {
    var p: nat :| MergesPair(merges, words[0], p, words[1]);
    MergesBest(merges, words[0], p, words[1]);
    assert (words[0][p], words[0][p + 1]) in merges;
    BestIsUnique(merges, words[0], p, BestIndex(merges, words[0]));
  }

  lemma {:induction false} RunEnds(merges: Merges, words: seq<Word>)
    requires Ranked(merges) && words != [] && IsRun(merges, words) && Done(merges, words[|words| - 1])
    ensures words[|words| - 1] == OneByOne(merges, words[0])
    decreases |words|
  {
    hide IsRun, Ranked, BestIndex;
    if |words| > 1 {
      FirstStep(merges, words);
      RunEnds(merges, words[1..]);
    }
  }

  lemma AddStep(merges: Merges, w: Word, later: seq<Word>)
    requires Ranked(merges) && !Done(merges, w)
    requires later != [] && later[0] == MergeAt(w, BestIndex(merges, w)) && IsRun(merges, later)
    ensures IsRun(merges, [w] + later)
  {
    hide MergesPair;
    var words, p := [w] + later, BestIndex(merges, w);
    MergesBest(merges, w, p, later[0]);
    assert words[1..] == later && MergesPair(merges, words[0], p, words[1]);
  }

  lemma {:induction false} RunFrom(merges: Merges, w: Word) returns (words: seq<Word>)
    requires Ranked(merges)
    ensures words != [] && words[0] == w && words[|words| - 1] == OneByOne(merges, w) && IsRun(merges, words)
    decreases |w|
  {
    hide Ranked, BestIndex;
    if Done(merges, w) {
      words := [w];
    } else {
      var later := RunFrom(merges, MergeAt(w, BestIndex(merges, w)));
      AddStep(merges, w, later);
      words := [w] + later;
    }
  }

  /* ---------------------------------- all occurrences per pass ---------------------------------- */

  // Every occurrence of the pair (a, b), left to right without overlap.
  ghost function MergeAll(w: Word, a: Symbol, b: Symbol): (r: Word)
    ensures |r| <= |w| && (w != [] ==> r != [])
  {
    if |w| < 2 then w
    else if w[0] == a && w[1] == b then [a + b] + MergeAll(w[2..], a, b)
    else [w[0]] + MergeAll(w[1..], a, b)
  }

  ghost predicate Occurs(w: Word, a: Symbol, b: Symbol, i: nat) {
    i + 1 < |w| && w[i] == a && w[i + 1] == b
  }

  lemma {:induction false} MergeAllShrinks(w: Word, a: Symbol, b: Symbol, i: nat)
    requires Occurs(w, a, b, i)
    ensures |MergeAll(w, a, b)| < |w|
  {
    if !(w[0] == a && w[1] == b) {
      MergeAllShrinks(w[1..], a, b, i - 1);
    }
  }

  // What the reference script computes.
  ghost function ByPasses(merges: Merges, w: Word): (r: Word)
    requires Ranked(merges)
    decreases |w|
  {
    if Done(merges, w) then w
    else
      var i := BestIndex(merges, w);
      MergeAllShrinks(w, w[i], w[i + 1], i);
      ByPasses(merges, MergeAll(w, w[i], w[i + 1]))
  }

  // A stretch without `a` is copied as it is.
  lemma {:induction false} MergeAllCopies(w: Word, a: Symbol, b: Symbol, n: nat)
    requires n <= |w| && forall j :: 0 <= j < n ==> w[j] != a
    ensures MergeAll(w, a, b) == w[..n] + MergeAll(w[n..], a, b)
    decreases n
  {
    if n == 0 {
      assert w[0..] == w && w[..0] == [];
    } else if |w| == 1 {
      assert w[..1] == w && w[1..] == [];
    } else {
      MergeAllCopies(w[1..], a, b, n - 1);
      assert w[1..][n - 1..] == w[n..];
      assert [w[0]] + w[1..][..n - 1] == w[..n];
    }
  }

  // The position of the next `first` at or after i, |word| if there is none.
  method IndexFrom(word: Word, first: Symbol, i: nat) returns (j: nat)
    requires i <= |word|
    ensures i <= j <= |word| && (forall k :: i <= k < j ==> word[k] != first)
    ensures j < |word| ==> word[j] == first
  {
    j := i;
    while j < |word| && word[j] != first
      invariant i <= j <= |word| && forall k :: i <= k < j ==> word[k] != first
    {
      j := j + 1;
    }
  }

  // One pass of the script.
  method MergePass(word: Word, first: Symbol, second: Symbol) returns (newWord: Word)
    ensures newWord == MergeAll(word, first, second)
  {
    hide MergeAll;
    newWord := [];
    var i := 0;
    assert word[0..] == word;
    while i < |word|
      invariant 0 <= i <= |word|
      invariant MergeAll(word, first, second) == newWord + MergeAll(word[i..], first, second)
    {
      var j := IndexFrom(word, first, i);
      CopyStretch(word, first, second, i, j);
      Associate(newWord, word[i..j], MergeAll(word[j..], first, second));
      newWord := newWord + word[i..j];
      i := j;
      if j == |word| {
        break;
      }
      PassAt(word, first, second, i);
      if word[i] == first && i < |word| - 1 && word[i + 1] == second {
        Associate(newWord, [first + second], MergeAll(word[i + 2..], first, second));
        newWord := newWord + [first + second];
        i := i + 2;
      } else {
        Associate(newWord, [word[i]], MergeAll(word[i + 1..], first, second));
        newWord := newWord + [word[i]];
        i := i + 1;
      }
    }
    EmptyPass(first, second);
    assert word[i..] == [] && newWord + [] == newWord;
  }

  lemma EmptyPass(a: Symbol, b: Symbol)
    ensures MergeAll([], a, b) == []
  {
  }

  lemma CopyStretch(word: Word, a: Symbol, b: Symbol, i: nat, j: nat)
    requires i <= j <= |word| && forall k :: i <= k < j ==> word[k] != a
    ensures MergeAll(word[i..], a, b) == word[i..j] + MergeAll(word[j..], a, b)
  {
    var w := word[i..];
    forall k | 0 <= k < j - i ensures w[k] != a {
      assert w[k] == word[i + k];
    }
    MergeAllCopies(w, a, b, j - i);
    assert w[..j - i] == word[i..j] && w[j - i..] == word[j..];
  }

  lemma PassAt(word: Word, a: Symbol, b: Symbol, i: nat)
    requires i < |word|
    ensures MergeAll(word[i..], a, b) ==
            if i < |word| - 1 && word[i] == a && word[i + 1] == b then [a + b] + MergeAll(word[i + 2..], a, b)
            else [word[i]] + MergeAll(word[i + 1..], a, b)
  {
    var w := word[i..];
    if |w| == 1 {
      assert w == [word[i]] && MergeAll(word[i + 1..], a, b) == [];
    } else {
      assert w[1..] == word[i + 1..] && w[2..] == word[i + 2..];
    }
  }

  method GetPairs(word: Word) returns (pairs: set<(Symbol, Symbol)>)
    requires word != []
    ensures PairsOf(word, pairs)
  {
    pairs := {};
    var prev := word[0];
    for i := 1 to |word|
      invariant prev == word[i - 1]
      invariant forall p :: p in pairs <==> exists k :: 0 <= k < i - 1 && p == (word[k], word[k + 1])
    {
      assert forall k :: 0 <= k < i - 1 ==> (word[k], word[k + 1]) in pairs;
      pairs := pairs + {(prev, word[i])};
      prev := word[i];
    }
  }

  function Key(merges: Merges, p: (Symbol, Symbol)): nat {
    if p in merges then merges[p] else NO_RANK
  }

  // A pair of smallest rank; the order in which a set is searched is unspecified.
  method SmallestKey(merges: Merges, pairs: set<(Symbol, Symbol)>) returns (bigram: (Symbol, Symbol))
    requires pairs != {}
    ensures bigram in pairs && forall q :: q in pairs ==> Key(merges, bigram) <= Key(merges, q)
  {
    SmallestExists(merges, pairs);
    bigram :| bigram in pairs && forall q :: q in pairs ==> Key(merges, bigram) <= Key(merges, q);
  }

  lemma {:induction false} SmallestExists(merges: Merges, pairs: set<(Symbol, Symbol)>)
    requires pairs != {}
    ensures exists p :: p in pairs && forall q :: q in pairs ==> Key(merges, p) <= Key(merges, q)
    decreases |pairs|
  {
    var x :| x in pairs;
    var rest := pairs - {x};
    if rest == {} {
      assert pairs == {x};
    } else {
      SmallestExists(merges, rest);
      var p :| p in rest && forall q :: q in rest ==> Key(merges, p) <= Key(merges, q);
      var best := if Key(merges, x) < Key(merges, p) then x else p;
      assert forall q :: q in pairs ==> q == x || q in rest;
      assert best in pairs && forall q :: q in pairs ==> Key(merges, best) <= Key(merges, q);
    }
  }

  ghost predicate PairsOf(word: Word, pairs: set<(Symbol, Symbol)>) {
    forall p :: p in pairs <==> exists i :: 0 <= i < |word| - 1 && p == (word[i], word[i + 1])
  }

  lemma BigramIsBest(merges: Merges, word: Word, pairs: set<(Symbol, Symbol)>, bigram: (Symbol, Symbol))
    requires Ranked(merges) && PairsOf(word, pairs) && bigram in pairs && bigram in merges
    requires forall q :: q in pairs ==> Key(merges, bigram) <= Key(merges, q)
    ensures !Done(merges, word)
    ensures var i := BestIndex(merges, word);
            bigram == (word[i], word[i + 1]) && |MergeAll(word, bigram.0, bigram.1)| < |word|
  {
    var j :| 0 <= j < |word| - 1 && bigram == (word[j], word[j + 1]);
    assert (word[j], word[j + 1]) in merges;
    var i := BestIndex(merges, word);
    assert PairRank(merges, word, i) <= PairRank(merges, word, j);
    assert (word[i], word[i + 1]) in pairs;
    MergeAllShrinks(word, word[i], word[i + 1], i);
  }

  lemma NoBigramIsDone(merges: Merges, word: Word, pairs: set<(Symbol, Symbol)>, bigram: (Symbol, Symbol))
    requires Ranked(merges) && PairsOf(word, pairs) && bigram !in merges
    requires forall q :: q in pairs ==> Key(merges, bigram) <= Key(merges, q)
    ensures Done(merges, word)
  {
    forall i | 0 <= i < |word| - 1 ensures (word[i], word[i + 1]) !in merges {
      assert (word[i], word[i + 1]) in pairs;
    }
  }

  /** The reference script's merge loop, for any choice its minimum over the set of pairs may make. */
  method MergeByPasses(merges: Merges, token: Word) returns (word: Word)
    requires Ranked(merges) && token != []
    ensures word == ByPasses(merges, token)
  {
    word := token;
    var pairs := GetPairs(word);
    if pairs == {} {
      assert forall i :: 0 <= i < |word| - 1 ==> (word[i], word[i + 1]) in pairs;
      return;
    }
    while true
      invariant |word| >= 2 && ByPasses(merges, token) == ByPasses(merges, word)
      invariant PairsOf(word, pairs)
      decreases |word|
    {
      assert (word[0], word[1]) in pairs;
      var bigram := SmallestKey(merges, pairs);
      if bigram !in merges {
        NoBigramIsDone(merges, word, pairs, bigram);
        break;
      }
      BigramIsBest(merges, word, pairs, bigram);
      word := MergePass(word, bigram.0, bigram.1);
      if |word| == 1 {
        break;
      }
      pairs := GetPairs(word);
    }
  }

  /* ---------------------------------- the two agree ---------------------------------- */

  lemma {:induction false} NothingToMerge(w: Word, a: Symbol, b: Symbol)
    requires forall j :: 0 <= j < |w| ==> !Occurs(w, a, b, j)
    ensures MergeAll(w, a, b) == w
  {
    if |w| >= 2 {
      assert !Occurs(w, a, b, 0);
      forall j | 0 <= j < |w[1..]| ensures !Occurs(w[1..], a, b, j) {
        assert !Occurs(w, a, b, j + 1);
      }
      NothingToMerge(w[1..], a, b);
    }
  }

  // A first symbol that no occurrence starts at is copied.
  lemma PassHead(w: Word, a: Symbol, b: Symbol)
    requires w != [] && !Occurs(w, a, b, 0)
    ensures MergeAll(w, a, b) == [w[0]] + MergeAll(w[1..], a, b)
  {
    if |w| == 1 {
      assert w == [w[0]] && MergeAll(w[1..], a, b) == [];
    }
  }

  lemma OccurrencesShift(w: Word, a: Symbol, b: Symbol, i: nat)
    requires 0 < i && Occurs(w, a, b, i) && forall j :: 0 <= j < i ==> !Occurs(w, a, b, j)
    ensures Occurs(w[1..], a, b, i - 1) && forall j :: 0 <= j < i - 1 ==> !Occurs(w[1..], a, b, j)
    ensures MergeAt(w, i) == [w[0]] + MergeAt(w[1..], i - 1)
  {
    forall j | 0 <= j < i - 1 ensures !Occurs(w[1..], a, b, j) {
      assert !Occurs(w, a, b, j + 1);
    }
  }

  // Merging the leftmost occurrence first does not change what a whole pass makes of the word.
  lemma {:induction false} PassAfterOne(w: Word, a: Symbol, b: Symbol, i: nat)
    requires Occurs(w, a, b, i) && a + b != a && a + b != b
    requires forall j :: 0 <= j < i ==> !Occurs(w, a, b, j)
    ensures MergeAll(MergeAt(w, i), a, b) == MergeAll(w, a, b)
    decreases i
  {
    hide MergeAll;
    if i == 0 {
      var merged := MergeAt(w, 0);
      assert merged == [a + b] + w[2..] && merged[1..] == w[2..];
      PassHead(merged, a, b);
      PassPair(w, a, b);
    } else {
      OccurrencesShift(w, a, b, i);
      PassAfterOne(w[1..], a, b, i - 1);
      var merged := MergeAt(w, i);
      assert merged[1..] == MergeAt(w[1..], i - 1) && merged[0] == w[0];
      assert merged[1] == if i == 1 then a + b else w[1];
      assert !Occurs(w, a, b, 0) && !Occurs(merged, a, b, 0);
      PassHead(w, a, b);
      PassHead(merged, a, b);
    }
  }

  lemma PassPair(w: Word, a: Symbol, b: Symbol)
    requires Occurs(w, a, b, 0)
    ensures MergeAll(w, a, b) == [a + b] + MergeAll(w[2..], a, b)
  {
  }

  // A merge creates no pair that ranks before the merged one.
  lemma MergedPairsRank(merges: Merges, w: Word, i: nat, k: nat)
    requires Ranked(merges) && Ordered(merges) && IsBest(merges, w, i) && k + 1 < |w| - 1
    ensures PairRank(merges, w, i) <= PairRank(merges, MergeAt(w, i), k)
  {
    var merged := MergeAt(w, i);
    var best, pair := (w[i], w[i + 1]), (merged[k], merged[k + 1]);
    if k + 1 < i {
      assert PairRank(merges, w, k) == PairRank(merges, merged, k);
    } else if k > i {
      assert PairRank(merges, w, k + 1) == PairRank(merges, merged, k);
    } else {
      assert pair.0 == best.0 + best.1 || pair.1 == best.0 + best.1;
    }
  }

  // Until the last occurrence is gone, the same pair stays the best one.
  lemma BestPairStays(merges: Merges, w: Word, i: nat, j: nat, k: nat)
    requires Ranked(merges) && Ordered(merges) && IsBest(merges, w, i)
    requires Occurs(MergeAt(w, i), w[i], w[i + 1], j) && IsBest(merges, MergeAt(w, i), k)
    ensures Occurs(MergeAt(w, i), w[i], w[i + 1], k)
  {
    var merged := MergeAt(w, i);
    MergedPairsRank(merges, w, i, k);
    assert PairRank(merges, merged, k) <= PairRank(merges, merged, j);
  }

  lemma {:induction false} OneByOneFinishesPass(merges: Merges, w: Word)
    requires Ranked(merges) && Ordered(merges) && !Done(merges, w)
    ensures var i := BestIndex(merges, w);
            OneByOne(merges, w) == OneByOne(merges, MergeAll(w, w[i], w[i + 1]))
    decreases |w|
  {
    var i := BestIndex(merges, w);
    var a, b := w[i], w[i + 1];
    var merged := MergeAt(w, i);
    forall j | 0 <= j < i ensures !Occurs(w, a, b, j) {
      assert PairRank(merges, w, i) < PairRank(merges, w, j);
    }
    PassAfterOne(w, a, b, i);
    if exists j :: 0 <= j < |merged| && Occurs(merged, a, b, j) {
      var j :| 0 <= j < |merged| && Occurs(merged, a, b, j);
      assert (merged[j], merged[j + 1]) in merges;
      OneByOneFinishesPass(merges, merged);
      BestPairStays(merges, w, i, j, BestIndex(merges, merged));
    } else {
      NothingToMerge(merged, a, b);
    }
  }

  /** When every pair containing a merge product ranks after each merge producing it, merging one leftmost
      best pair at a time ends in the same symbols as merging all occurrences of the best pair per pass. */
  lemma {:induction false} OneByOneIsByPasses(merges: Merges, w: Word)
    requires Ranked(merges) && Ordered(merges)
    ensures OneByOne(merges, w) == ByPasses(merges, w)
    decreases |w|
  {
    if !Done(merges, w) {
      var i := BestIndex(merges, w);
      OneByOneFinishesPass(merges, w);
      MergeAllShrinks(w, w[i], w[i + 1], i);
      OneByOneIsByPasses(merges, MergeAll(w, w[i], w[i + 1]));
    }
  }

  const A: Symbol := [97]
  const B: Symbol := [98]
  const AB: Symbol := [97, 98]
  const ABA: Symbol := [97, 98, 97]

  // A pair with the product of another that ranks before it.
  ghost function Disordered(): Merges {
    map[(A, B) := 1, (AB, A) := 0]
  }

  lemma DisorderedRanks()
    ensures Ranked(Disordered()) && !Ordered(Disordered())
  {
    assert A + B == AB;
    assert (A, B) in Disordered() && (AB, A) in Disordered();
  }

  lemma OneByOneTakesTheEarlier()
    requires Ranked(Disordered())
    ensures OneByOne(Disordered(), [A, B, A, B]) == [ABA, B]
  {
    hide OneByOne, ByPasses, BestIndex, MergeAll, Ranked;
    var merges := Disordered();
    assert A + B == AB && AB + A == ABA;
    MergesAt(merges, [A, B, A, B], 0);
    assert MergeAt([A, B, A, B], 0) == [AB, A, B];
    MergesAt(merges, [AB, A, B], 0);
    assert MergeAt([AB, A, B], 0) == [ABA, B];
    DoneStays(merges, [ABA, B]);
  }

  lemma ByPassesFinishesFirst()
    requires Ranked(Disordered())
    ensures ByPasses(Disordered(), [A, B, A, B]) == [AB, AB]
  {
    hide OneByOne, ByPasses, BestIndex, MergeAll, Ranked;
    var merges := Disordered();
    assert A + B == AB;
    MergesAt(merges, [A, B, A, B], 0);
    TwoPairs(A, B);
    DoneStays(merges, [AB, AB]);
  }

  /** Without that order the two may differ: on a b a b with ab ranked 1 and (ab, a) ranked 0. */
  lemma OrderMatters()
    ensures Ranked(Disordered()) && !Ordered(Disordered())
    ensures OneByOne(Disordered(), [A, B, A, B]) == [ABA, B]
    ensures ByPasses(Disordered(), [A, B, A, B]) == [AB, AB]
  {
    DisorderedRanks();
    OneByOneTakesTheEarlier();
    ByPassesFinishesFirst();
  }

  lemma TwoPairs(a: Symbol, b: Symbol)
    ensures MergeAll([a, b, a, b], a, b) == [a + b, a + b]
  {
    var w := [a, b, a, b];
    assert w[2..] == [a, b] && [a, b][2..] == [];
    assert MergeAll([a, b], a, b) == [a + b] + MergeAll([], a, b);
  }

  lemma DoneStays(merges: Merges, w: Word)
    requires Ranked(merges) && Done(merges, w)
    ensures OneByOne(merges, w) == w && ByPasses(merges, w) == w
  {
  }

  lemma MergesAt(merges: Merges, w: Word, i: nat)
    requires Ranked(merges) && IsBest(merges, w, i)
    ensures !Done(merges, w) && BestIndex(merges, w) == i
    ensures OneByOne(merges, w) == OneByOne(merges, MergeAt(w, i))
    ensures |MergeAll(w, w[i], w[i + 1])| < |w|
    ensures ByPasses(merges, w) == ByPasses(merges, MergeAll(w, w[i], w[i + 1]))
  {
    assert (w[i], w[i + 1]) in merges;
    BestIsUnique(merges, w, i, BestIndex(merges, w));
    MergeAllShrinks(w, w[i], w[i + 1], i);
  }

  /** The loop stops only when no adjacent pair can be merged, and the symbols spell the same text. */
  lemma {:induction false} OneByOneResult(merges: Merges, w: Word)
    requires Ranked(merges)
    ensures Done(merges, OneByOne(merges, w)) && Joined(OneByOne(merges, w)) == Joined(w)
    decreases |w|
  {
    if !Done(merges, w) {
      var i := BestIndex(merges, w);
      MergeKeepsText(w, i);
      OneByOneResult(merges, MergeAt(w, i));
    }
  }

  lemma {:induction false} MergeKeepsText(w: Word, i: nat)
    requires i + 1 < |w|
    ensures Joined(MergeAt(w, i)) == Joined(w)
    decreases i
  {
    var merged := MergeAt(w, i);
    if i == 0 {
      assert merged[1..] == w[2..] && w[1..][1..] == w[2..];
      assert (w[0] + w[1]) + Joined(w[2..]) == w[0] + (w[1] + Joined(w[2..]));
    } else {
      assert merged[1..] == MergeAt(w[1..], i - 1);
      MergeKeepsText(w[1..], i - 1);
    }
  }
}
