/** The tokenizer object: loading its tables, encoding a text to token ids, decoding ids to a text. */
module Tokenizer {
  import opened Basics
  import opened Utf8
  import ByteLevel
  import opened Bpe
  import Regex
  import PreTokenizer
  import opened SpecialTokens
  import opened TokenizerTables
  import opened Tokenization
  import opened Meaning

  // Byte-pair merging of one word that is already spelled in the byte-level alphabet.
  method BpeWord(merges: Merges, word: seq<Byte>) returns (tokens: Word)
    requires Ranked(merges)
    ensures tokens == BpeOf(merges, word)
    ensures exists symbols: Word ::
              && |symbols| == |Decode(word)|
              && (forall i :: 0 <= i < |symbols| ==> symbols[i] == EncodeOne(Decode(word)[i]))
              && MergesTo(merges, symbols, tokens)
  {
    hide Encode, Decode, OneByOne, SymbolsOf, Ranked, MergesTo, EncodeOne;
    var cps := Utf8ToCodepoints(word);
    var symbols: Word := [];
    NoSymbols();
    for i := 0 to |cps|
      invariant symbols == SymbolsOf(cps[..i])
    {
      var symbol := CodepointsToUtf8([cps[i]]);
      EncodeSingle(cps[i]);
      OneMoreSymbol(cps, i);
      symbols := symbols + [symbol];
    }
    assert cps[..|cps|] == cps;
    SymbolsAre(cps);
    tokens := MergeLeftmost(merges, symbols);
  }

  method AppendIds(vocab: map<Symbol, int>, tokens: Word, result: seq<int>) returns (ids: seq<int>)
    ensures ids == result + Ids(vocab, tokens)
  {
    hide Ids;
    ids := result;
    IdsAt(vocab, tokens, 0);
    for i := 0 to |tokens|
      invariant result + Ids(vocab, tokens) == ids + Ids(vocab, tokens[i..])
    {
      IdsAt(vocab, tokens, i);
      var found := if tokens[i] in vocab then [vocab[tokens[i]]] else [];
      Associate(ids, found, Ids(vocab, tokens[i + 1..]));
      if tokens[i] in vocab {
        ids := ids + [vocab[tokens[i]]];
      } else {
        assert ids + [] == ids;
      }
    }
    IdsAt(vocab, tokens, |tokens|);
    assert ids + [] == ids;
  }

  method AppendPlain(t: Tables, table: map<Byte, CodePoint>, kind: PreTokenizer.Categories, text: seq<Byte>,
                     result: seq<int>)
    returns (ids: seq<int>)
    requires Ranked(t.merges) && PreTokenizer.Standard(kind)
    requires forall b: Byte :: b in table && table[b] == ByteLevel.Visible(b)
    ensures ids == result + EncodePlain(t, kind, text)
  {
    hide Encode, Decode, BpeOf, Ids, EncodePieces, Regex.Pieces, PreTokenizer.Pattern, ByteLevel.Spell, Ranked;
    var cps := Utf8ToCodepoints(text);
    var pieces := PreTokenizer.PreTokenize(kind, cps);
    ids := result;
    PiecesAt(t, pieces, 0);
    for i := 0 to |pieces|
      invariant result + EncodePieces(t, pieces) == ids + EncodePieces(t, pieces[i..])
    {
      PiecesAt(t, pieces, i);
      var piece := CodepointsToUtf8(pieces[i]);
      var encoded := ByteLevel.ByteEncode(piece, table);
      var tokens := BpeWord(t.merges, encoded);
      Associate(ids, Ids(t.vocab, tokens), EncodePieces(t, pieces[i + 1..]));
      ids := AppendIds(t.vocab, tokens, ids);
    }
    PiecesAt(t, pieces, |pieces|);
    assert ids + [] == ids;
  }

  class QwenTokenizer {
    const kind: PreTokenizer.Categories
    var tables: Tables
    var bytesToUnicode: map<Byte, CodePoint>
    var unicodeToBytes: map<CodePoint, Byte>

    ghost predicate Loaded()
      reads this
    {
      && PreTokenizer.Standard(kind) && Ranked(tables.merges)
      && (forall b: Byte :: b in bytesToUnicode && bytesToUnicode[b] == ByteLevel.Visible(b))
      && (forall b: Byte :: ByteLevel.Visible(b) in unicodeToBytes && unicodeToBytes[ByteLevel.Visible(b)] == b)
      && forall cp :: cp in unicodeToBytes ==> cp == ByteLevel.Visible(unicodeToBytes[cp])
    }

    constructor (kind: PreTokenizer.Categories)
      ensures this.kind == kind
    {
      this.kind := kind;
      tables := Tables(map[], [], map[], map[], map[]);
      bytesToUnicode, unicodeToBytes := map[], map[];
    }

    /** Loading a consistent file gives closed tables: every byte string can be spelled, and every id the
        encoder can produce means one token. */
    method Load(f: File)
      requires PreTokenizer.Standard(kind) && |f.merges| <= NO_RANK
      requires forall token :: token in f.vocab ==> f.vocab[token] >= 0
      modifies this
      ensures Loaded() && tables.vocab == f.vocab
      ensures NamesIds(f.vocab, f.vocab.Keys, tables.idToToken)
      ensures forall token :: token in tables.added <==> HasContent(f.added, token)
      ensures forall id :: id in tables.addedById <==> HasId(f.added, id)
      ensures ContentsWin(tables.added, f.added) && IdsWin(tables.addedById, f.added)
      ensures forall p :: p in tables.merges ==>
                tables.merges[p] < |f.merges| && Halves(f.merges[tables.merges[p]], p.0, p.1)
      ensures forall i, a, b :: 0 <= i < |f.merges| && Halves(f.merges[i], a, b) ==>
                (a, b) in tables.merges && i <= tables.merges[(a, b)]
      ensures Consistent(f) ==> Closed(tables)
    {
      hide HasContent, HasId, ContentsWin, IdsWin, NamesIds, Named, Inverse, Halves, Consistent, Closed;
      hide ByteLevel.Visible;
      var idToToken := LoadVocabulary(f.vocab);
      var merges := LoadMerges(f.merges);
      var added, addedById := LoadAddedTokens(f.added);
      tables := Tables(f.vocab, idToToken, merges, added, addedById);
      bytesToUnicode := ByteLevel.BuildBytesToUnicode();
      unicodeToBytes := ByteLevel.BuildUnicodeToBytes(bytesToUnicode);
      if Consistent(f) {
        ConsistentEntries(f);
        LoadedAreClosed(f, tables);
      }
    }

    /** The encoder: added tokens keep their ids; everything between them is cut into the pattern's pieces, and
        the bytes of every piece are merged step by step until no listed pair is left, and looked up. */
    method Encode(text: seq<Byte>) returns (result: seq<int>)
      requires Loaded()
      ensures result == EncodeText(tables, kind, text) && Encodes(tables, kind, text, result)
    {
      hide Encodes, EncodePlain, EncodeSegments, Split, Ranked, ByteLevel.Visible, PreTokenizer.Standard;
      var t := tables;
      var segments := SplitSpecialTokens(t.added, text);
      result := [];
      SegmentsAt(t, kind, segments, 0);
      assert [] + EncodeSegments(t, kind, segments) == EncodeSegments(t, kind, segments);
      for i := 0 to |segments|
        invariant EncodeSegments(t, kind, segments) == result + EncodeSegments(t, kind, segments[i..])
      {
        var s := segments[i];
        SegmentsAt(t, kind, segments, i);
        Associate(result, EncodeSegment(t, kind, s), EncodeSegments(t, kind, segments[i + 1..]));
        if s.Special? {
          result := result + [s.id];
          continue;
        }
        result := AppendPlain(t, bytesToUnicode, kind, s.text, result);
      }
      SegmentsAt(t, kind, segments, |segments|);
      assert result + [] == result;
      EncodesIff(t, kind, text, result);
    }

    /** The decoder. Buffering bytes until the next added token does not reorder anything: the output is the
        ids' bytes in order, for every list of ids. */
    method Decode(ids: seq<int>, skipSpecial: bool) returns (output: seq<Byte>)
      requires Loaded()
      ensures output == DecodeIds(tables, ids, skipSpecial) && Decodes(tables, ids, skipSpecial, output)
    {
      hide ByteLevel.Unspell, ByteLevel.Visible, DecodeIds, DecodedIds, Decodes, Ranked, PreTokenizer.Standard;
      var t := tables;
      output := [];
      var bytes: seq<Byte> := [];
      DecodedIdsStart(t, ids, skipSpecial);
      NothingMore(output);
      for i := 0 to |ids|
        invariant DecodedIds(t, ids, skipSpecial, i, output + bytes)
      {
        var id := ids[i];
        DecodedIdsStep(t, ids, skipSpecial, i, output + bytes);
        if id in t.addedById {
          output := output + bytes;
          bytes := [];
          NothingMore(output);
          if !skipSpecial || !t.addedById[id].special {
            output := output + t.addedById[id].content;
          }
          NothingMore(output);
          continue;
        }
        if id < 0 || id >= |t.idToToken| {
          NothingMore(output + bytes);
          continue;
        }
        Associate(output, bytes, Render(t, id, skipSpecial));
        bytes := ByteLevel.AppendBytes(bytes, t.idToToken[id], unicodeToBytes);
      }
      output := output + bytes;
      DecodedIdsEnd(t, ids, skipSpecial, output);
      DecodesIff(t, ids, skipSpecial, output);
    }
  }
}
