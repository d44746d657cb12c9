/** The tables of a tokenizer file: the vocabulary and its inverse, the ranks of the merges, and the added
    tokens. */
module TokenizerTables {
  import opened Basics
  import opened Utf8
  import ByteLevel
  import opened Bpe
  import opened SpecialTokens

  datatype AddedToken = AddedToken(content: seq<Byte>, special: bool)

  datatype Tables = Tables(
    vocab: map<Symbol, int>,
    idToToken: seq<Symbol>,
    merges: Merges,
    added: Added,
    addedById: map<int, AddedToken>)

  /* ---------------------------------- loading ---------------------------------- */

  datatype AddedEntry = AddedEntry(content: seq<Byte>, id: int, special: bool)

  // The part of a tokenizer file the tables are made from.
  datatype File = File(vocab: map<Symbol, int>, merges: seq<seq<Byte>>, added: seq<AddedEntry>)

  const BLANK: Byte := 32

  ghost predicate Usable(e: AddedEntry) {
    e.content != [] && e.id >= 0
  }

  // The two halves of a merge line, at its first blank.
  ghost predicate Halves(line: seq<Byte>, first: Symbol, second: Symbol) {
    line == first + [32] + second && 32 !in first
  }

  // Some token of the list has id k.
  ghost predicate Named(vocab: map<Symbol, int>, tokens: set<Symbol>, k: int) {
    exists token :: token in tokens && token in vocab && vocab[token] == k
  }

  // Position k holds a token with id k, or the empty token if there is none among the given ones.
  ghost predicate NamesIds(vocab: map<Symbol, int>, tokens: set<Symbol>, idToToken: seq<Symbol>) {
    forall k :: 0 <= k < |idToToken| ==>
      if Named(vocab, tokens, k) then idToToken[k] in vocab && vocab[idToToken[k]] == k else idToToken[k] == []
  }

  method LargestId(vocab: map<Symbol, int>) returns (maxId: nat)
    requires forall token :: token in vocab ==> vocab[token] >= 0
    ensures forall token :: token in vocab ==> vocab[token] <= maxId
    ensures maxId == 0 || Named(vocab, vocab.Keys, maxId)
  {
    maxId := 0;
    var left := vocab.Keys;
    while left != {}
      invariant left <= vocab.Keys
      invariant forall token :: token in vocab && token !in left ==> vocab[token] <= maxId
      invariant maxId == 0 || Named(vocab, vocab.Keys, maxId)
      decreases |left|
    {
      var token :| token in left;
      left := left - {token};
      if maxId < vocab[token] {
        maxId := vocab[token];
      }
    }
  }

  lemma NamesGrow(vocab: map<Symbol, int>, tokens: set<Symbol>, idToToken: seq<Symbol>, token: Symbol)
    requires NamesIds(vocab, tokens, idToToken) && token in vocab && 0 <= vocab[token] < |idToToken|
    ensures NamesIds(vocab, tokens + {token}, idToToken[vocab[token] := token])
  {
    forall k | 0 <= k < |idToToken| && k != vocab[token]
      ensures Named(vocab, tokens + {token}, k) <==> Named(vocab, tokens, k)
    {
    }
  }

  /** The id table, for any order in which the vocabulary is walked: it ends at the largest id, every
      position holds a token of that id, and the empty token where there is none. So where no two tokens
      share an id it inverts the vocabulary. */
  method LoadVocabulary(vocab: map<Symbol, int>) returns (idToToken: seq<Symbol>)
    requires forall token :: token in vocab ==> vocab[token] >= 0
    ensures forall token :: token in vocab ==> vocab[token] < |idToToken|
    ensures |idToToken| == 1 || (|idToToken| > 1 && Named(vocab, vocab.Keys, |idToToken| - 1))
    ensures NamesIds(vocab, vocab.Keys, idToToken)
  {
    hide NamesIds, Named;
    var maxId := LargestId(vocab);
    idToToken := seq(maxId + 1, _ => []);
    NoNames(vocab, idToToken);
    ghost var done: set<Symbol> := {};
    var left := vocab.Keys;
    while left != {}
      invariant left <= vocab.Keys && done == vocab.Keys - left
      invariant |idToToken| == maxId + 1 && NamesIds(vocab, done, idToToken)
      decreases |left|
    {
      var token :| token in left;
      left := left - {token};
      NamesGrow(vocab, done, idToToken, token);
      done := done + {token};
      idToToken := idToToken[vocab[token] := token];
    }
    assert done == vocab.Keys;
  }

  lemma NoNames(vocab: map<Symbol, int>, idToToken: seq<Symbol>)
    requires forall k :: 0 <= k < |idToToken| ==> idToToken[k] == []
    ensures NamesIds(vocab, {}, idToToken)
  {
  }

  lemma DistinctIdsInvert(vocab: map<Symbol, int>, idToToken: seq<Symbol>, token: Symbol)
    requires NamesIds(vocab, vocab.Keys, idToToken) && token in vocab && 0 <= vocab[token] < |idToToken|
    requires forall a, b :: a in vocab && b in vocab && vocab[a] == vocab[b] ==> a == b
    ensures idToToken[vocab[token]] == token
  {
    assert Named(vocab, vocab.Keys, vocab[token]);
  }

  /** A pair's rank is the index of the last line that lists it, so no two pairs share a rank. */
  method LoadMerges(lines: seq<seq<Byte>>) returns (merges: Merges)
    requires |lines| <= NO_RANK
    ensures Ranked(merges)
    ensures forall p :: p in merges ==> merges[p] < |lines| && Halves(lines[merges[p]], p.0, p.1)
    ensures forall i, a, b :: 0 <= i < |lines| && Halves(lines[i], a, b) ==> (a, b) in merges && i <= merges[(a, b)]
  {
    hide Halves;
    merges := map[];
    for i := 0 to |lines|
      invariant forall p :: p in merges ==> merges[p] < i && Halves(lines[merges[p]], p.0, p.1)
      invariant forall p, q :: p in merges && q in merges && merges[p] == merges[q] ==> p == q
      invariant forall j, a, b :: 0 <= j < i && Halves(lines[j], a, b) ==> (a, b) in merges && j <= merges[(a, b)]
    {
      var found, first, second := SplitLine(lines[i]);
      if found {
        merges := merges[(first, second) := i];
      }
    }
  }

  method SplitLine(line: seq<Byte>) returns (found: bool, first: Symbol, second: Symbol)
    ensures found ==> forall a, b :: Halves(line, a, b) <==> a == first && b == second
    ensures !found ==> forall a, b :: !Halves(line, a, b)
  {
    var split := FirstBlank(line);
    if split == |line| {
      return false, [], [];
    }
    found, first, second := true, line[..split], line[split + 1..];
    assert line == first + [BLANK] + second;
    forall a, b | Halves(line, a, b) ensures a == first && b == second {
      HalvesAreUnique(line, a, b, first, second);
    }
  }

  method FirstBlank(line: seq<Byte>) returns (split: nat)
    ensures split <= |line| && BLANK !in line[..split]
    ensures split < |line| ==> line[split] == BLANK
    ensures split == |line| ==> BLANK !in line
  {
    split := 0;
    while split < |line| && line[split] != BLANK
      invariant split <= |line| && BLANK !in line[..split]
    {
      split := split + 1;
    }
    assert split == |line| ==> line[..split] == line;
  }

  lemma HalvesAreUnique(line: seq<Byte>, a: Symbol, b: Symbol, c: Symbol, d: Symbol)
    requires Halves(line, a, b) && Halves(line, c, d)
    ensures a == c && b == d
  {
    assert forall k :: 0 <= k < |a| ==> line[k] == a[k] && a[k] in a;
    assert forall k :: 0 <= k < |c| ==> line[k] == c[k] && c[k] in c;
    assert line[|a|] == line[|c|] == BLANK;
    assert a == line[..|a|] == c && b == line[|a| + 1..] == d;
  }

  ghost predicate HasContent(entries: seq<AddedEntry>, token: seq<Byte>) {
    exists i :: 0 <= i < |entries| && Usable(entries[i]) && entries[i].content == token
  }

  ghost predicate HasId(entries: seq<AddedEntry>, id: int) {
    exists i :: 0 <= i < |entries| && Usable(entries[i]) && entries[i].id == id
  }

  // No later usable entry has this one's content; none has its id.
  ghost predicate LastOfContent(entries: seq<AddedEntry>, i: nat) {
    && i < |entries| && Usable(entries[i])
    && forall j :: i < j < |entries| && Usable(entries[j]) ==> entries[j].content != entries[i].content
  }

  ghost predicate LastOfId(entries: seq<AddedEntry>, i: nat) {
    && i < |entries| && Usable(entries[i])
    && forall j :: i < j < |entries| && Usable(entries[j]) ==> entries[j].id != entries[i].id
  }

  // The last usable entry of a content gives its id.
  ghost predicate ContentsWin(added: Added, entries: seq<AddedEntry>) {
    forall i :: 0 <= i < |entries| && LastOfContent(entries, i) ==>
      entries[i].content in added && added[entries[i].content] == entries[i].id
  }

  // The last usable entry of an id gives its content and whether it is special.
  ghost predicate IdsWin(addedById: map<int, AddedToken>, entries: seq<AddedEntry>) {
    forall i :: 0 <= i < |entries| && LastOfId(entries, i) ==>
      entries[i].id in addedById && addedById[entries[i].id] == AddedToken(entries[i].content, entries[i].special)
  }

  /** Entries without content or with a negative id are skipped, and the last of several entries for a
      content or an id wins, special flag included. Where no two usable entries share a content or an id,
      the two tables are inverse to each other. */
  method LoadAddedTokens(entries: seq<AddedEntry>) returns (added: Added, addedById: map<int, AddedToken>)
    ensures forall token :: token in added <==> HasContent(entries, token)
    ensures forall id :: id in addedById <==> HasId(entries, id)
    ensures forall i :: 0 <= i < |entries| && entries[i].content != [] && entries[i].id >= 0 ==>
              entries[i].content in added && entries[i].id in addedById
    ensures [] !in added && forall id :: id in addedById ==> id >= 0
    ensures ContentsWin(added, entries) && IdsWin(addedById, entries)
    ensures Unambiguous(entries) ==> Inverse(added, addedById, entries)
  {
    hide HasContent, HasId, Inverse, Unambiguous, ContentsWin, IdsWin;
    added, addedById := map[], map[];
    NoEntries();
    assert entries[..0] == [];
    for i := 0 to |entries|
      invariant forall token :: token in added <==> HasContent(entries[..i], token)
      invariant forall id :: id in addedById <==> HasId(entries[..i], id)
      invariant ContentsWin(added, entries[..i]) && IdsWin(addedById, entries[..i])
      invariant Unambiguous(entries) ==> Inverse(added, addedById, entries[..i])
    {
      var e := entries[i];
      OneMoreEntry(entries, i);
      InverseGrows(added, addedById, entries, i);
      ContentsWinGrows(added, entries, i);
      IdsWinGrows(addedById, entries, i);
      if e.content == [] || e.id < 0 {
        continue;
      }
      assert Usable(e);
      assert forall token :: token in added[e.content := e.id] <==> token in added || token == e.content;
      added := added[e.content := e.id];
      addedById := addedById[e.id := AddedToken(e.content, e.special)];
    }
    assert entries[..|entries|] == entries;
    UsableEntries(entries);
  }

  lemma UsableEntries(entries: seq<AddedEntry>)
    ensures forall i :: 0 <= i < |entries| && entries[i].content != [] && entries[i].id >= 0 ==>
              HasContent(entries, entries[i].content) && HasId(entries, entries[i].id)
    ensures !HasContent(entries, []) && forall id :: HasId(entries, id) ==> id >= 0
  {
  }

  lemma EntriesGrow(entries: seq<AddedEntry>, i: nat, j: nat)
    requires j < i < |entries|
    ensures entries[..i + 1][j] == entries[..i][j] == entries[j] && entries[..i + 1][i] == entries[i]
    ensures LastOfContent(entries[..i + 1], j) ==>
              LastOfContent(entries[..i], j) && (Usable(entries[i]) ==> entries[i].content != entries[j].content)
    ensures LastOfId(entries[..i + 1], j) ==>
              LastOfId(entries[..i], j) && (Usable(entries[i]) ==> entries[i].id != entries[j].id)
  {
    var before, after := entries[..i], entries[..i + 1];
    assert forall k :: 0 <= k < i ==> before[k] == after[k];
    assert after[i] == entries[i];
  }

  lemma ContentsWinGrows(added: Added, entries: seq<AddedEntry>, i: nat)
    requires i < |entries| && ContentsWin(added, entries[..i])
    ensures var e := entries[i];
            ContentsWin(if Usable(e) then added[e.content := e.id] else added, entries[..i + 1])
  {
    var e, after := entries[i], entries[..i + 1];
    var more := if Usable(e) then added[e.content := e.id] else added;
    forall j | 0 <= j < |after| && LastOfContent(after, j)
      ensures after[j].content in more && more[after[j].content] == after[j].id
    {
      if j < i {
        EntriesGrow(entries, i, j);
      } else {
        assert after[j] == e;
      }
    }
  }

  lemma IdsWinGrows(addedById: map<int, AddedToken>, entries: seq<AddedEntry>, i: nat)
    requires i < |entries| && IdsWin(addedById, entries[..i])
    ensures var e := entries[i];
            IdsWin(if Usable(e) then addedById[e.id := AddedToken(e.content, e.special)] else addedById,
                   entries[..i + 1])
  {
    var e, after := entries[i], entries[..i + 1];
    var more := if Usable(e) then addedById[e.id := AddedToken(e.content, e.special)] else addedById;
    forall j | 0 <= j < |after| && LastOfId(after, j)
      ensures after[j].id in more && more[after[j].id] == AddedToken(after[j].content, after[j].special)
    {
      if j < i {
        EntriesGrow(entries, i, j);
      } else {
        assert after[j] == e;
      }
    }
  }

  lemma NoEntries()
    ensures forall token :: !HasContent([], token)
    ensures forall id :: !HasId([], id)
    ensures Inverse(map[], map[], []) && ContentsWin(map[], []) && IdsWin(map[], [])
  {
  }

  lemma OneMoreEntry(entries: seq<AddedEntry>, i: nat)
    requires i < |entries|
    ensures forall token :: HasContent(entries[..i + 1], token) <==>
              HasContent(entries[..i], token) || (Usable(entries[i]) && token == entries[i].content)
    ensures forall id :: HasId(entries[..i + 1], id) <==>
              HasId(entries[..i], id) || (Usable(entries[i]) && id == entries[i].id)
  {
    var before, after := entries[..i], entries[..i + 1];
    assert after == before + [entries[i]];
    assert after[i] == entries[i];
    forall token | HasContent(before, token) ensures HasContent(after, token) {
      var j :| 0 <= j < |before| && Usable(before[j]) && before[j].content == token;
      assert after[j] == before[j];
    }
    forall id | HasId(before, id) ensures HasId(after, id) {
      var j :| 0 <= j < |before| && Usable(before[j]) && before[j].id == id;
      assert after[j] == before[j];
    }
  }

  lemma InverseGrows(added: Added, addedById: map<int, AddedToken>, entries: seq<AddedEntry>, i: nat)
    requires i < |entries| && (Unambiguous(entries) ==> Inverse(added, addedById, entries[..i]))
    ensures var e := entries[i];
            Unambiguous(entries) ==>
              if Usable(e) then
                Inverse(added[e.content := e.id], addedById[e.id := AddedToken(e.content, e.special)], entries[..i + 1])
              else Inverse(added, addedById, entries[..i + 1])
  {
    assert entries[..i + 1] == entries[..i] + [entries[i]];
    assert forall j :: 0 <= j < i ==> entries[..i][j] == entries[j];
  }

  ghost predicate Unambiguous(entries: seq<AddedEntry>) {
    forall i, j :: 0 <= i < |entries| && 0 <= j < |entries| && Usable(entries[i]) && Usable(entries[j]) ==>
      (entries[i].content == entries[j].content <==> entries[i].id == entries[j].id)
  }

  ghost predicate Inverse(added: Added, addedById: map<int, AddedToken>, entries: seq<AddedEntry>) {
    forall i :: 0 <= i < |entries| && Usable(entries[i]) ==>
      var e := entries[i];
      e.content in added && added[e.content] == e.id
      && e.id in addedById && addedById[e.id].content == e.content
  }

  // What the round trip needs of a file.
  ghost predicate Consistent(f: File) {
    && |f.merges| <= NO_RANK
    && (forall token :: token in f.vocab ==> f.vocab[token] >= 0)
    && (forall a, b :: a in f.vocab && b in f.vocab && f.vocab[a] == f.vocab[b] ==> a == b)
    && (forall b: Byte :: EncodeOne(ByteLevel.Visible(b)) in f.vocab)
    && (forall i, a, b :: 0 <= i < |f.merges| && Halves(f.merges[i], a, b) && a in f.vocab && b in f.vocab ==>
          a + b in f.vocab)
    && Unambiguous(f.added)
    && (forall i :: 0 <= i < |f.added| ==> Canonical(f.added[i].content))
    && (forall i, token :: 0 <= i < |f.added| && token in f.vocab ==> f.vocab[token] != f.added[i].id)
  }

  // What the round trip needs of the tables.
  ghost predicate Closed(t: Tables) {
    && Ranked(t.merges)
    && (forall token :: token in t.vocab ==>
          0 <= t.vocab[token] < |t.idToToken| && t.idToToken[t.vocab[token]] == token
          && t.vocab[token] !in t.addedById)
    && (forall b: Byte :: EncodeOne(ByteLevel.Visible(b)) in t.vocab)
    && (forall p :: p in t.merges && p.0 in t.vocab && p.1 in t.vocab ==> p.0 + p.1 in t.vocab)
    && (forall token :: token in t.added ==>
          Canonical(token) && t.added[token] in t.addedById && t.addedById[t.added[token]].content == token)
  }

  lemma ConsistentEntries(f: File)
    requires Consistent(f)
    ensures Unambiguous(f.added)
  {
  }

  lemma LoadedAreClosed(f: File, t: Tables)
    requires Consistent(f) && t.vocab == f.vocab && Ranked(t.merges)
    requires forall token :: token in f.vocab ==> f.vocab[token] < |t.idToToken|
    requires NamesIds(f.vocab, f.vocab.Keys, t.idToToken)
    requires forall p :: p in t.merges ==> t.merges[p] < |f.merges| && Halves(f.merges[t.merges[p]], p.0, p.1)
    requires forall token :: token in t.added <==> HasContent(f.added, token)
    requires forall id :: id in t.addedById <==> HasId(f.added, id)
    requires Inverse(t.added, t.addedById, f.added)
    ensures Closed(t)
  {
    hide Halves, ByteLevel.Visible, Ranked, EncodeOne, NamesIds;
    forall token | token in t.vocab ensures t.idToToken[t.vocab[token]] == token {
      DistinctIdsInvert(t.vocab, t.idToToken, token);
    }
    forall token | token in t.added
      ensures Canonical(token) && t.added[token] in t.addedById && t.addedById[t.added[token]].content == token
    {
      assert HasContent(f.added, token);
    }
    forall token | token in t.vocab ensures t.vocab[token] !in t.addedById {
      assert !HasId(f.added, t.vocab[token]);
    }
  }
}
