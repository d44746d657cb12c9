/** What the tokenizer computes, on values: the ids of a text and the bytes of a list of ids. */
module Tokenization {
  import opened Basics
  import opened Utf8
  import ByteLevel
  import opened Bpe
  import Regex
  import PreTokenizer
  import opened SpecialTokens
  import opened TokenizerTables

  /* ---------------------------------- encoding ---------------------------------- */

  ghost function SymbolsOf(cps: seq<CodePoint>): (w: Word)
    ensures |w| == |cps|
  {
    seq(|cps|, i requires 0 <= i < |cps| => EncodeOne(cps[i]))
  }

  // The merged symbols of one byte-level word.
  ghost function BpeOf(merges: Merges, word: seq<Byte>): Word
    requires Ranked(merges)
  {
    OneByOne(merges, SymbolsOf(Decode(word)))
  }

  // Symbols outside the vocabulary are dropped.
  ghost function Ids(vocab: map<Symbol, int>, w: Word): seq<int> {
    if w == [] then []
    else (if w[0] in vocab then [vocab[w[0]]] else []) + Ids(vocab, w[1..])
  }

  ghost function EncodePieces(t: Tables, pieces: seq<Regex.Text>): seq<int>
    requires Ranked(t.merges)
  {
    if pieces == [] then []
    else Ids(t.vocab, BpeOf(t.merges, ByteLevel.Spell(Encode(pieces[0])))) + EncodePieces(t, pieces[1..])
  }

  ghost function EncodePlain(t: Tables, kind: PreTokenizer.Categories, text: seq<Byte>): seq<int>
    requires Ranked(t.merges)
  {
    EncodePieces(t, Regex.Pieces(PreTokenizer.Pattern(kind), Decode(text), 0))
  }

  ghost function EncodeSegment(t: Tables, kind: PreTokenizer.Categories, s: Segment): seq<int>
    requires Ranked(t.merges)
  {
    match s case Special(_, id) => [id] case Plain(text) => EncodePlain(t, kind, text)
  }

  ghost function EncodeSegments(t: Tables, kind: PreTokenizer.Categories, segments: seq<Segment>): seq<int>
    requires Ranked(t.merges)
  {
    if segments == [] then []
    else EncodeSegment(t, kind, segments[0]) + EncodeSegments(t, kind, segments[1..])
  }

  ghost function EncodeText(t: Tables, kind: PreTokenizer.Categories, text: seq<Byte>): seq<int>
    requires Ranked(t.merges)
  {
    EncodeSegments(t, kind, Split(t.added, text))
  }

  lemma SymbolsAre(cps: seq<CodePoint>)
    ensures forall i :: 0 <= i < |cps| ==> SymbolsOf(cps)[i] == EncodeOne(cps[i])
  {
  }

  lemma NoSymbols()
    ensures SymbolsOf([]) == []
  {
  }

  lemma OneMoreSymbol(cps: seq<CodePoint>, i: nat)
    requires i < |cps|
    ensures SymbolsOf(cps[..i + 1]) == SymbolsOf(cps[..i]) + [EncodeOne(cps[i])]
  {
  }

  lemma EncodeSingle(cp: CodePoint)
    ensures Encode([cp]) == EncodeOne(cp)
  {
    assert Encode([]) == [];
  }

  lemma IdsAt(vocab: map<Symbol, int>, tokens: Word, i: nat)
    requires i <= |tokens|
    ensures tokens[0..] == tokens
    ensures Ids(vocab, tokens[i..]) ==
            if i == |tokens| then []
            else (if tokens[i] in vocab then [vocab[tokens[i]]] else []) + Ids(vocab, tokens[i + 1..])
  {
    if i < |tokens| {
      assert tokens[i..][1..] == tokens[i + 1..];
    }
  }

  lemma PiecesAt(t: Tables, pieces: seq<Regex.Text>, i: nat)
    requires Ranked(t.merges) && i <= |pieces|
    ensures pieces[0..] == pieces
    ensures EncodePieces(t, pieces[i..]) ==
            if i == |pieces| then []
            else Ids(t.vocab, BpeOf(t.merges, ByteLevel.Spell(Encode(pieces[i])))) + EncodePieces(t, pieces[i + 1..])
  {
    hide Ranked, BpeOf, Ids, Encode, ByteLevel.Spell;
    if i < |pieces| {
      assert pieces[i..][1..] == pieces[i + 1..];
    }
  }

  lemma SegmentsAt(t: Tables, kind: PreTokenizer.Categories, segments: seq<Segment>, i: nat)
    requires Ranked(t.merges) && i <= |segments|
    ensures segments[0..] == segments
    ensures EncodeSegments(t, kind, segments[i..]) ==
            if i == |segments| then []
            else EncodeSegment(t, kind, segments[i]) + EncodeSegments(t, kind, segments[i + 1..])
  {
    hide Ranked, EncodePlain;
    if i < |segments| {
      assert segments[i..][1..] == segments[i + 1..];
    }
  }

  /* ---------------------------------- decoding ---------------------------------- */

  // The bytes of one id: an added token verbatim unless it is special and skipped, the bytes a vocabulary
  // token spells, nothing for an id outside the table.
  ghost function Render(t: Tables, id: int, skipSpecial: bool): seq<Byte> {
    if id in t.addedById then
      if skipSpecial && t.addedById[id].special then [] else t.addedById[id].content
    else if 0 <= id < |t.idToToken| then ByteLevel.Unspell(t.idToToken[id])
    else []
  }

  ghost function DecodeIds(t: Tables, ids: seq<int>, skipSpecial: bool): seq<Byte> {
    if ids == [] then [] else Render(t, ids[0], skipSpecial) + DecodeIds(t, ids[1..], skipSpecial)
  }

  lemma NothingMore(bytes: seq<Byte>)
    ensures bytes + [] == bytes
  {
  }

  // `done` holds the bytes of the ids before position i.
  ghost predicate DecodedIds(t: Tables, ids: seq<int>, skipSpecial: bool, i: nat, done: seq<Byte>)
    requires i <= |ids|
  {
    DecodeIds(t, ids, skipSpecial) == done + DecodeIds(t, ids[i..], skipSpecial)
  }

  lemma DecodedIdsStart(t: Tables, ids: seq<int>, skipSpecial: bool)
    ensures DecodedIds(t, ids, skipSpecial, 0, [])
  {
    hide DecodeIds;
    assert ids[0..] == ids;
    assert [] + DecodeIds(t, ids, skipSpecial) == DecodeIds(t, ids, skipSpecial);
  }

  lemma DecodedIdsStep(t: Tables, ids: seq<int>, skipSpecial: bool, i: nat, done: seq<Byte>)
    requires i < |ids| && DecodedIds(t, ids, skipSpecial, i, done)
    ensures DecodedIds(t, ids, skipSpecial, i + 1, done + Render(t, ids[i], skipSpecial))
  {
    hide Render;
    assert ids[i..][1..] == ids[i + 1..];
    Associate(done, Render(t, ids[i], skipSpecial), DecodeIds(t, ids[i + 1..], skipSpecial));
  }

  lemma DecodedIdsEnd(t: Tables, ids: seq<int>, skipSpecial: bool, done: seq<Byte>)
    requires DecodedIds(t, ids, skipSpecial, |ids|, done)
    ensures done == DecodeIds(t, ids, skipSpecial)
  {
    hide Render;
    assert done + [] == done;
  }
}
