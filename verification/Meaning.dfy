/** What the ids of a text and the text of a list of ids have to be, as relations that use none of the functions
    the loops are proved against: each determines its result. */
module Meaning {
  import opened Basics
  import opened Utf8
  import ByteLevel
  import opened Bpe
  import Regex
  import PreTokenizer
  import opened SpecialTokens
  import opened TokenizerTables
  import opened Tokenization

  /* ---------------------------------- encoding ---------------------------------- */

  // One symbol per byte.
  ghost predicate Spells(w: Word, bytes: seq<Byte>) {
    |w| == |bytes| && forall i :: 0 <= i < |w| ==> w[i] == EncodeOne(ByteLevel.Visible(bytes[i]))
  }

  // The ids of the symbols in order, those outside the vocabulary left out.
  ghost predicate Numbers(vocab: map<Symbol, int>, w: Word, ids: seq<int>) {
    exists parts: seq<seq<int>> :: NumbersEach(vocab, w, parts) && ids == Joined(parts)
  }

  ghost predicate NumbersEach(vocab: map<Symbol, int>, w: Word, parts: seq<seq<int>>) {
    && |parts| == |w|
    && forall i :: 0 <= i < |w| ==> parts[i] == if w[i] in vocab then [vocab[w[i]]] else []
  }

  // The bytes of a piece, one symbol each, are merged as far as possible and looked up.
  ghost predicate EncodesPiece(t: Tables, piece: Regex.Text, ids: seq<int>) {
    exists symbols: Word, merged: Word ::
      Spells(symbols, Encode(piece)) && MergesTo(t.merges, symbols, merged) && Numbers(t.vocab, merged, ids)
  }

  ghost predicate EncodesPieces(t: Tables, pieces: seq<Regex.Text>, parts: seq<seq<int>>) {
    |parts| == |pieces| && forall i :: 0 <= i < |parts| ==> EncodesPiece(t, pieces[i], parts[i])
  }

  // The pieces of the published pattern: its isolating split when all code points are scalar values.
  ghost predicate CutsInto(kind: PreTokenizer.Categories, cps: seq<CodePoint>, pieces: seq<Regex.Text>) {
    var pattern := PreTokenizer.Pattern(kind);
    && pieces == Regex.Pieces(pattern, cps, 0)
    && ((forall i :: 0 <= i < |cps| ==> cps[i] < 0xD800 || 0xE000 <= cps[i] < 0x11_0000) ==>
          pieces == Regex.Split(pattern, cps, 0, 0))
  }

  ghost predicate EncodesSegment(t: Tables, kind: PreTokenizer.Categories, s: Segment, ids: seq<int>) {
    match s
    case Special(_, id) => ids == [id]
    case Plain(text) =>
      exists pieces: seq<Regex.Text>, parts: seq<seq<int>> ::
        CutsInto(kind, Decode(text), pieces) && EncodesPieces(t, pieces, parts) && ids == Joined(parts)
  }

  ghost predicate EncodesSegments(t: Tables, kind: PreTokenizer.Categories, segments: seq<Segment>,
                                  parts: seq<seq<int>>) {
    |parts| == |segments| && forall i :: 0 <= i < |parts| ==> EncodesSegment(t, kind, segments[i], parts[i])
  }

  // The text is cut at its added tokens, leftmost longest first, and every segment is encoded.
  ghost predicate Encodes(t: Tables, kind: PreTokenizer.Categories, text: seq<Byte>, ids: seq<int>) {
    exists segments: seq<Segment>, parts: seq<seq<int>> ::
      LeftmostLongest(t.added, segments, text) && EncodesSegments(t, kind, segments, parts) && ids == Joined(parts)
  }

  lemma {:induction false} NumbersEachIs(vocab: map<Symbol, int>, w: Word, parts: seq<seq<int>>)
    requires NumbersEach(vocab, w, parts)
    ensures Joined(parts) == Ids(vocab, w)
  {
    if w != [] {
      NumbersEachIs(vocab, w[1..], parts[1..]);
    }
  }

  lemma NumbersIff(vocab: map<Symbol, int>, w: Word, ids: seq<int>)
    ensures Numbers(vocab, w, ids) <==> ids == Ids(vocab, w)
  {
    hide Joined, Ids;
    if parts: seq<seq<int>> :| NumbersEach(vocab, w, parts) && ids == Joined(parts) {
      NumbersEachIs(vocab, w, parts);
    }
    var parts := seq(|w|, i requires 0 <= i < |w| => if w[i] in vocab then [vocab[w[i]]] else []);
    assert NumbersEach(vocab, w, parts);
    NumbersEachIs(vocab, w, parts);
  }

  lemma SpellsIff(w: Word, bytes: seq<Byte>)
    ensures Spells(w, bytes) <==> w == SymbolsOf(ByteLevel.Shown(bytes))
  {
    hide EncodeOne, ByteLevel.Visible;
  }

  lemma PieceIff(t: Tables, piece: Regex.Text, ids: seq<int>)
    requires Ranked(t.merges)
    ensures EncodesPiece(t, piece, ids)
       <==> ids == Ids(t.vocab, BpeOf(t.merges, ByteLevel.Spell(Encode(piece))))
  {
    hide Ranked, Encode, Spells, MergesTo, Numbers, Ids, OneByOne, SymbolsOf, ByteLevel.Shown, ByteLevel.Spell, Decode;
    var bytes := Encode(piece);
    ByteLevel.ShownSurvives(bytes);
    var symbols := SymbolsOf(ByteLevel.Shown(bytes));
    var merged := OneByOne(t.merges, symbols);
    SpellsIff(symbols, bytes);
    OneByOneIsRun(t.merges, symbols, merged);
    NumbersIff(t.vocab, merged, ids);
    if w: Word, r: Word :| Spells(w, bytes) && MergesTo(t.merges, w, r) && Numbers(t.vocab, r, ids) {
      SpellsIff(w, bytes);
      OneByOneIsRun(t.merges, w, r);
    }
  }

  lemma {:induction false} PiecesAre(t: Tables, pieces: seq<Regex.Text>, parts: seq<seq<int>>)
    requires Ranked(t.merges) && EncodesPieces(t, pieces, parts)
    ensures Joined(parts) == EncodePieces(t, pieces)
  {
    hide Ranked, EncodesPiece, Ids, BpeOf, Encode, ByteLevel.Spell;
    if pieces != [] {
      PieceIff(t, pieces[0], parts[0]);
      PiecesAre(t, pieces[1..], parts[1..]);
    }
  }

  lemma PiecesExist(t: Tables, pieces: seq<Regex.Text>) returns (parts: seq<seq<int>>)
    requires Ranked(t.merges)
    ensures EncodesPieces(t, pieces, parts)
  {
    hide Ranked, EncodesPiece, Ids, BpeOf, Encode, ByteLevel.Spell;
    parts := seq(|pieces|, i requires 0 <= i < |pieces| =>
      Ids(t.vocab, BpeOf(t.merges, ByteLevel.Spell(Encode(pieces[i])))));
    forall i | 0 <= i < |parts| ensures EncodesPiece(t, pieces[i], parts[i]) {
      PieceIff(t, pieces[i], parts[i]);
    }
  }

  lemma CutsIff(kind: PreTokenizer.Categories, cps: seq<CodePoint>, pieces: seq<Regex.Text>)
    requires PreTokenizer.Standard(kind)
    ensures CutsInto(kind, cps, pieces) <==> pieces == Regex.Pieces(PreTokenizer.Pattern(kind), cps, 0)
  {
    hide PreTokenizer.Pattern, PreTokenizer.Standard, Regex.Pieces, Regex.Split;
    if forall i :: 0 <= i < |cps| ==> cps[i] < 0xD800 || 0xE000 <= cps[i] < 0x11_0000 {
      PreTokenizer.ScannerIsPattern(kind, cps);
    }
  }

  lemma SegmentIff(t: Tables, kind: PreTokenizer.Categories, s: Segment, ids: seq<int>)
    requires Ranked(t.merges) && PreTokenizer.Standard(kind)
    ensures EncodesSegment(t, kind, s, ids) <==> ids == EncodeSegment(t, kind, s)
  {
    hide Ranked, PreTokenizer.Standard, PreTokenizer.Pattern, CutsInto, EncodesPieces, EncodePieces, Decode, Joined;
    hide Regex.Pieces;
    if s.Plain? {
      var cps := Decode(s.text);
      var pieces := Regex.Pieces(PreTokenizer.Pattern(kind), cps, 0);
      CutsIff(kind, cps, pieces);
      var parts := PiecesExist(t, pieces);
      PiecesAre(t, pieces, parts);
      if pieces': seq<Regex.Text>, parts': seq<seq<int>> :|
        CutsInto(kind, cps, pieces') && EncodesPieces(t, pieces', parts') && ids == Joined(parts') {
        CutsIff(kind, cps, pieces');
        PiecesAre(t, pieces', parts');
      }
    }
  }

  lemma {:induction false} SegmentsAre(t: Tables, kind: PreTokenizer.Categories, segments: seq<Segment>,
                                       parts: seq<seq<int>>)
    requires Ranked(t.merges) && PreTokenizer.Standard(kind) && EncodesSegments(t, kind, segments, parts)
    ensures Joined(parts) == EncodeSegments(t, kind, segments)
  {
    hide Ranked, PreTokenizer.Standard, EncodesSegment, EncodeSegment;
    if segments != [] {
      SegmentIff(t, kind, segments[0], parts[0]);
      SegmentsAre(t, kind, segments[1..], parts[1..]);
    }
  }

  lemma SegmentsExist(t: Tables, kind: PreTokenizer.Categories, segments: seq<Segment>) returns (parts: seq<seq<int>>)
    requires Ranked(t.merges) && PreTokenizer.Standard(kind)
    ensures EncodesSegments(t, kind, segments, parts)
  {
    hide Ranked, PreTokenizer.Standard, EncodesSegment, EncodeSegment;
    parts := seq(|segments|, i requires 0 <= i < |segments| => EncodeSegment(t, kind, segments[i]));
    forall i | 0 <= i < |parts| ensures EncodesSegment(t, kind, segments[i], parts[i]) {
      SegmentIff(t, kind, segments[i], parts[i]);
    }
  }

  /** Exactly one list of ids encodes a text, the one the encoder's loops compute. */
  lemma EncodesIff(t: Tables, kind: PreTokenizer.Categories, text: seq<Byte>, ids: seq<int>)
    requires Ranked(t.merges) && PreTokenizer.Standard(kind)
    ensures Encodes(t, kind, text, ids) <==> ids == EncodeText(t, kind, text)
  {
    hide Ranked, PreTokenizer.Standard, EncodesSegments, EncodeSegments, LeftmostLongest, Split, Joined;
    var segments := Split(t.added, text);
    SplitIsLeftmostLongest(t.added, segments, text);
    var parts := SegmentsExist(t, kind, segments);
    SegmentsAre(t, kind, segments, parts);
    if segments': seq<Segment>, parts': seq<seq<int>> :|
      && LeftmostLongest(t.added, segments', text) && EncodesSegments(t, kind, segments', parts')
      && ids == Joined(parts') {
      SplitIsLeftmostLongest(t.added, segments', text);
      SegmentsAre(t, kind, segments', parts');
    }
  }

  /* ---------------------------------- decoding ---------------------------------- */

  // The byte that each code point of a token stands for; one that stands for none adds nothing.
  ghost predicate ReadsEach(cps: seq<CodePoint>, parts: seq<seq<Byte>>) {
    && |parts| == |cps|
    && forall i :: 0 <= i < |cps| ==> ReadsOne(cps[i], parts[i])
  }

  ghost predicate ReadsOne(cp: CodePoint, bytes: seq<Byte>) {
    if exists b: Byte :: ByteLevel.Visible(b) == cp then |bytes| == 1 && ByteLevel.Visible(bytes[0]) == cp
    else bytes == []
  }

  ghost predicate Reads(token: seq<Byte>, bytes: seq<Byte>) {
    exists parts: seq<seq<Byte>> :: ReadsEach(Decode(token), parts) && bytes == Joined(parts)
  }

  lemma {:induction false} ReadAre(cps: seq<CodePoint>, parts: seq<seq<Byte>>)
    requires ReadsEach(cps, parts)
    ensures Joined(parts) == ByteLevel.Unshown(cps)
  {
    hide ByteLevel.Visible;
    if cps != [] {
      assert ReadsOne(cps[0], parts[0]);
      ReadAre(cps[1..], parts[1..]);
      if ByteLevel.IsVisible(cps[0]) {
        ByteLevel.VisibleIsInjective(ByteLevel.Hiding(cps[0]), parts[0][0]);
        assert parts[0] == [ByteLevel.Hiding(cps[0])];
      }
    }
  }

  lemma {:induction false} ReadsExist(cps: seq<CodePoint>) returns (parts: seq<seq<Byte>>)
    ensures ReadsEach(cps, parts)
  {
    hide ByteLevel.Visible;
    parts := seq(|cps|, i requires 0 <= i < |cps| =>
      if ByteLevel.IsVisible(cps[i]) then [ByteLevel.Hiding(cps[i])] else []);
  }

  lemma ReadsIff(token: seq<Byte>, bytes: seq<Byte>)
    ensures Reads(token, bytes) <==> bytes == ByteLevel.Unspell(token)
  {
    hide Joined, Decode, ReadsEach, ByteLevel.Unshown;
    var cps := Decode(token);
    var parts := ReadsExist(cps);
    ReadAre(cps, parts);
    if parts': seq<seq<Byte>> :| ReadsEach(cps, parts') && bytes == Joined(parts') {
      ReadAre(cps, parts');
    }
  }

  // The bytes of one id.
  ghost predicate Shows(t: Tables, id: int, skipSpecial: bool, bytes: seq<Byte>) {
    if id in t.addedById then
      && (!t.addedById[id].special || !skipSpecial ==> bytes == t.addedById[id].content)
      && (t.addedById[id].special && skipSpecial ==> bytes == [])
    else if 0 <= id < |t.idToToken| then Reads(t.idToToken[id], bytes)
    else bytes == []
  }

  ghost predicate ShowsEach(t: Tables, ids: seq<int>, skipSpecial: bool, parts: seq<seq<Byte>>) {
    |parts| == |ids| && forall i :: 0 <= i < |ids| ==> Shows(t, ids[i], skipSpecial, parts[i])
  }

  // The bytes of the ids, in order.
  ghost predicate Decodes(t: Tables, ids: seq<int>, skipSpecial: bool, output: seq<Byte>) {
    exists parts: seq<seq<Byte>> :: ShowsEach(t, ids, skipSpecial, parts) && output == Joined(parts)
  }

  lemma ShowsIff(t: Tables, id: int, skipSpecial: bool, bytes: seq<Byte>)
    ensures Shows(t, id, skipSpecial, bytes) <==> bytes == Render(t, id, skipSpecial)
  {
    hide Reads, ByteLevel.Unspell;
    if id !in t.addedById && 0 <= id < |t.idToToken| {
      ReadsIff(t.idToToken[id], bytes);
    }
  }

  lemma {:induction false} ShownAre(t: Tables, ids: seq<int>, skipSpecial: bool, parts: seq<seq<Byte>>)
    requires ShowsEach(t, ids, skipSpecial, parts)
    ensures Joined(parts) == DecodeIds(t, ids, skipSpecial)
  {
    hide Shows, Render;
    if ids != [] {
      ShowsIff(t, ids[0], skipSpecial, parts[0]);
      ShownAre(t, ids[1..], skipSpecial, parts[1..]);
    }
  }

  /** Exactly one text decodes a list of ids, the one the decoder's loop computes. */
  lemma DecodesIff(t: Tables, ids: seq<int>, skipSpecial: bool, output: seq<Byte>)
    ensures Decodes(t, ids, skipSpecial, output) <==> output == DecodeIds(t, ids, skipSpecial)
  {
    hide Joined, DecodeIds, Shows, Render;
    var parts := seq(|ids|, i requires 0 <= i < |ids| => Render(t, ids[i], skipSpecial));
    forall i | 0 <= i < |ids| ensures Shows(t, ids[i], skipSpecial, parts[i]) {
      ShowsIff(t, ids[i], skipSpecial, parts[i]);
    }
    assert ShowsEach(t, ids, skipSpecial, parts);
    ShownAre(t, ids, skipSpecial, parts);
    if parts': seq<seq<Byte>> :| ShowsEach(t, ids, skipSpecial, parts') && output == Joined(parts') {
      ShownAre(t, ids, skipSpecial, parts');
    }
  }

  ghost function WithoutSpecials(t: Tables, ids: seq<int>): seq<int> {
    if ids == [] then []
    else
      (if ids[0] in t.addedById && t.addedById[ids[0]].special then [] else [ids[0]]) + WithoutSpecials(t, ids[1..])
  }

  lemma {:induction false} SkippedIds(t: Tables, ids: seq<int>)
    ensures DecodeIds(t, ids, true) == DecodeIds(t, WithoutSpecials(t, ids), false)
  {
    hide ByteLevel.Unspell;
    if ids != [] {
      SkippedIds(t, ids[1..]);
      var kept := WithoutSpecials(t, ids);
      if ids[0] in t.addedById && t.addedById[ids[0]].special {
        assert kept == WithoutSpecials(t, ids[1..]);
      } else {
        assert kept[1..] == WithoutSpecials(t, ids[1..]);
      }
    }
  }

  /** Skipping special tokens is leaving their ids out. */
  lemma SkippingIsLeavingOut(t: Tables, ids: seq<int>, output: seq<Byte>)
    ensures Decodes(t, ids, true, output) <==> Decodes(t, WithoutSpecials(t, ids), false, output)
  {
    hide Decodes, DecodeIds;
    SkippedIds(t, ids);
    DecodesIff(t, ids, true, output);
    DecodesIff(t, WithoutSpecials(t, ids), false, output);
  }

  /** An added token that is not special is never skipped; a special one only on demand. */
  lemma AddedTokenDecodes(t: Tables, id: int, skipSpecial: bool, output: seq<Byte>)
    requires id in t.addedById
    ensures !t.addedById[id].special || !skipSpecial ==>
              (Decodes(t, [id], skipSpecial, output) <==> output == t.addedById[id].content)
    ensures t.addedById[id].special && skipSpecial ==> (Decodes(t, [id], skipSpecial, output) <==> output == [])
  {
    hide Decodes;
    DecodesIff(t, [id], skipSpecial, output);
    assert [id][1..] == [] && DecodeIds(t, [], skipSpecial) == [];
  }
}
