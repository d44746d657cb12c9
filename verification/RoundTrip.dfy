/** What decoding gives back after encoding: the text itself exactly when it is made of shortest-form UTF-8
    sequences without NUL. */
module RoundTrip {
  import opened Basics
  import opened Utf8
  import B = ByteLevel
  import opened Bpe
  import Regex
  import PreTokenizer
  import opened SpecialTokens
  import opened TokenizerTables
  import opened Tokenization

  /* ---------------------------------- one word ---------------------------------- */

  ghost predicate Spelled(token: Symbol) {
    token == B.Spell(B.Unspell(token))
  }

  // Every symbol is in the vocabulary and spells a byte string.
  ghost predicate Sound(t: Tables, w: Word) {
    forall i :: 0 <= i < |w| ==> w[i] in t.vocab && Spelled(w[i])
  }

  ghost function BytesOf(w: Word): seq<Byte> {
    if w == [] then [] else B.Unspell(w[0]) + BytesOf(w[1..])
  }

  lemma SpelledMerge(a: Symbol, b: Symbol)
    requires Spelled(a) && Spelled(b)
    ensures Spelled(a + b)
  {
    hide B.Spell, B.Unspell;
    B.SpellConcat(B.Unspell(a), B.Unspell(b));
    B.UnspellSpell(B.Unspell(a) + B.Unspell(b));
  }

  lemma MergeStaysSound(t: Tables, w: Word, i: nat)
    requires Closed(t) && Sound(t, w) && i + 1 < |w| && (w[i], w[i + 1]) in t.merges
    ensures Sound(t, MergeAt(w, i))
  {
    hide Spelled, Ranked, B.Visible, EncodeOne, Canonical;
    SpelledMerge(w[i], w[i + 1]);
    var p := (w[i], w[i + 1]);
    assert p.0 + p.1 in t.vocab;
  }

  lemma {:induction false} MergingStaysSound(t: Tables, w: Word)
    requires Closed(t) && Ranked(t.merges) && Sound(t, w)
    ensures Sound(t, OneByOne(t.merges, w))
    decreases |w|
  {
    hide Sound, Closed, Ranked;
    if !Done(t.merges, w) {
      var i := BestIndex(t.merges, w);
      MergeStaysSound(t, w, i);
      MergingStaysSound(t, MergeAt(w, i));
    }
  }

  lemma ByteSymbolReadsBack(b: Byte)
    ensures B.Unspell(EncodeOne(B.Visible(b))) == [b] && Spelled(EncodeOne(B.Visible(b)))
  {
    hide Encode, EncodeOne;
    EncodeSingle(B.Visible(b));
    assert B.Shown([b]) == [B.Visible(b)];
    B.UnspellSpell([b]);
  }

  lemma ByteSymbolsAreSound(t: Tables, bytes: seq<Byte>)
    requires Closed(t)
    ensures Sound(t, SymbolsOf(B.Shown(bytes)))
  {
    hide Spelled, EncodeOne, Ranked, B.Visible, Canonical;
    var w := SymbolsOf(B.Shown(bytes));
    forall i | 0 <= i < |w| ensures w[i] in t.vocab && Spelled(w[i]) {
      ByteSymbolReadsBack(bytes[i]);
    }
  }

  lemma {:induction false} SymbolsJoin(cps: seq<CodePoint>)
    ensures Joined(SymbolsOf(cps)) == Encode(cps)
  {
    if cps != [] {
      assert SymbolsOf(cps)[1..] == SymbolsOf(cps[1..]);
      SymbolsJoin(cps[1..]);
    }
  }

  lemma {:induction false} SoundWordSpells(t: Tables, w: Word)
    requires Sound(t, w)
    ensures B.Spell(BytesOf(w)) == Joined(w)
  {
    hide B.Spell, B.Unspell;
    if w == [] {
      B.EmptySpell();
    } else {
      SoundWordSpells(t, w[1..]);
      B.SpellConcat(B.Unspell(w[0]), BytesOf(w[1..]));
    }
  }

  // No symbol of a sound word is dropped, and each id means its symbol.
  lemma {:induction false} SoundWordDecodes(t: Tables, w: Word, skipSpecial: bool)
    requires Closed(t) && Sound(t, w)
    ensures DecodeIds(t, Ids(t.vocab, w), skipSpecial) == BytesOf(w)
  {
    hide Spelled, Ranked, B.Visible, EncodeOne, Canonical, B.Unspell;
    if w != [] {
      var id := t.vocab[w[0]];
      SoundWordDecodes(t, w[1..], skipSpecial);
      assert Ids(t.vocab, w)[1..] == Ids(t.vocab, w[1..]);
    }
  }

  /** Every byte string survives spelling, merging, looking up and decoding. */
  lemma WordRoundTrip(t: Tables, bytes: seq<Byte>, skipSpecial: bool)
    requires Closed(t) && Ranked(t.merges)
    ensures DecodeIds(t, Ids(t.vocab, BpeOf(t.merges, B.Spell(bytes))), skipSpecial) == bytes
  {
    hide Closed, Ranked, Sound, Ids, DecodeIds, OneByOne, Encode, Decode, B.Unspell;
    var symbols := SymbolsOf(B.Shown(bytes));
    B.ShownSurvives(bytes);
    var merged := OneByOne(t.merges, symbols);
    ByteSymbolsAreSound(t, bytes);
    MergingStaysSound(t, symbols);
    SoundWordDecodes(t, merged, skipSpecial);
    SoundWordSpells(t, merged);
    OneByOneResult(t.merges, symbols);
    SymbolsJoin(B.Shown(bytes));
    B.UnspellSpell(bytes);
    B.UnspellSpell(BytesOf(merged));
  }

  /* ---------------------------------- one text ---------------------------------- */

  lemma {:induction false} DecodeConcat(t: Tables, a: seq<int>, b: seq<int>, skipSpecial: bool)
    ensures DecodeIds(t, a + b, skipSpecial) == DecodeIds(t, a, skipSpecial) + DecodeIds(t, b, skipSpecial)
  {
    hide Render;
    if a == [] {
      assert a + b == b;
    } else {
      assert (a + b)[0] == a[0] && (a + b)[1..] == a[1..] + b;
      DecodeConcat(t, a[1..], b, skipSpecial);
    }
  }

  lemma {:induction false} PiecesRoundTrip(t: Tables, pieces: seq<Regex.Text>, skipSpecial: bool)
    requires Closed(t) && Ranked(t.merges)
    ensures DecodeIds(t, EncodePieces(t, pieces), skipSpecial) == Encode(Joined(pieces))
  {
    hide Closed, Ranked, Ids, BpeOf, B.Spell, Encode, DecodeIds;
    if pieces == [] {
      NothingDecodes(t, skipSpecial);
    } else {
      var first := Ids(t.vocab, BpeOf(t.merges, B.Spell(Encode(pieces[0]))));
      WordRoundTrip(t, Encode(pieces[0]), skipSpecial);
      PiecesRoundTrip(t, pieces[1..], skipSpecial);
      DecodeConcat(t, first, EncodePieces(t, pieces[1..]), skipSpecial);
      B.EncodeConcat(pieces[0], Joined(pieces[1..]));
    }
  }

  lemma NothingDecodes(t: Tables, skipSpecial: bool)
    ensures DecodeIds(t, [], skipSpecial) == [] == Encode([])
  {
  }

  // A text without added tokens comes back as the lenient codec reads it.
  lemma PlainRoundTrip(t: Tables, kind: PreTokenizer.Categories, text: seq<Byte>, skipSpecial: bool)
    requires Closed(t) && Ranked(t.merges)
    ensures DecodeIds(t, EncodePlain(t, kind, text), skipSpecial) == Encode(Decode(text))
  {
    hide Closed, Ranked, EncodePieces, Encode, Decode, DecodeIds, Regex.Pieces, PreTokenizer.Pattern;
    var cps := Decode(text);
    var pattern := PreTokenizer.Pattern(kind);
    Regex.PiecesCover(pattern, cps, 0);
    assert cps[0..] == cps;
    PiecesRoundTrip(t, Regex.Pieces(pattern, cps, 0), skipSpecial);
  }

  ghost function RestoredOne(s: Segment): seq<Byte> {
    match s case Special(token, _) => token case Plain(text) => Encode(Decode(text))
  }

  // What is left of a text: special segments as they are, plain ones as the codec reads them.
  ghost function Restored(segments: seq<Segment>): seq<Byte> {
    if segments == [] then []
    else RestoredOne(segments[0]) + Restored(segments[1..])
  }

  lemma {:induction false} SegmentsRoundTrip(t: Tables, kind: PreTokenizer.Categories, segments: seq<Segment>)
    requires Closed(t) && Ranked(t.merges)
    requires forall i :: 0 <= i < |segments| && segments[i].Special? ==>
               segments[i].text in t.added && segments[i].id == t.added[segments[i].text]
    ensures DecodeIds(t, EncodeSegments(t, kind, segments), false) == Restored(segments)
  {
    hide Ranked, EncodePlain, Encode, Decode, DecodeIds, Closed;
    if segments == [] {
      NothingDecodes(t, false);
    } else {
      var s, rest := segments[0], segments[1..];
      SegmentsRoundTrip(t, kind, rest);
      match s {
        case Special(token, id) =>
          AddedRoundTrip(t, token);
          DecodeConcat(t, [id], EncodeSegments(t, kind, rest), false);
        case Plain(text) =>
          PlainRoundTrip(t, kind, text, false);
          DecodeConcat(t, EncodePlain(t, kind, text), EncodeSegments(t, kind, rest), false);
      }
    }
  }

  lemma AddedRoundTrip(t: Tables, token: seq<Byte>)
    requires Closed(t) && token in t.added
    ensures DecodeIds(t, [t.added[token]], false) == token
  {
    hide Ranked, B.Visible, EncodeOne, Canonical;
    assert DecodeIds(t, [], false) == [];
    assert token + [] == token;
  }

  lemma {:induction false} SpecialsAreAdded(added: Added, segments: seq<Segment>, text: seq<Byte>)
    requires LeftmostLongest(added, segments, text)
    ensures forall i :: 0 <= i < |segments| ==> segments[i].text != []
    ensures forall i :: 0 <= i < |segments| && segments[i].Special? ==>
              segments[i].text in added && segments[i].id == added[segments[i].text]
    ensures forall i :: 0 <= i < |segments| - 1 && segments[i].Plain? ==> segments[i + 1].Special?
    decreases segments
  {
    hide NoTokenWithin;
    if segments != [] {
      var rest := segments[1..];
      SpecialsAreAdded(added, rest, text[|segments[0].text|..]);
      assert forall i :: 1 <= i < |segments| ==> segments[i] == rest[i - 1];
    }
  }

  /** For every text at all: added tokens come back verbatim, the text between them as the codec reads it. */
  lemma EncodeThenDecode(t: Tables, kind: PreTokenizer.Categories, text: seq<Byte>)
    requires Closed(t) && Ranked(t.merges)
    ensures DecodeIds(t, EncodeText(t, kind, text), false) == Restored(Split(t.added, text))
  {
    hide Closed, Ranked, DecodeIds, EncodeSegments, LeftmostLongest, Restored;
    var segments := Split(t.added, text);
    SplitIsLeftmostLongest(t.added, segments, text);
    SpecialsAreAdded(t.added, segments, text);
    SegmentsRoundTrip(t, kind, segments);
  }

  /* ---------------------------------- which texts come back ---------------------------------- */

  // A canonical text is a unit and a canonical rest.
  lemma FirstUnit(s: seq<Byte>)
    requires Canonical(s) && s != []
    ensures var n := SequenceLength(s[0]);
            n <= |s| && CanonicalUnit(s[..n]) && Canonical(s[n..]) && s == s[..n] + s[n..]
  {
    CanonicalUnfolds(s);
    hide Canonical, CanonicalUnit, SequenceLength;
  }

  lemma CanonicalUnfolds(s: seq<Byte>)
    requires Canonical(s) && s != []
    ensures var n := SequenceLength(s[0]); n <= |s| && CanonicalUnit(s[..n]) && Canonical(s[n..])
  {
    hide CanonicalUnit, SequenceLength;
  }

  lemma UnitThen(u: seq<Byte>, rest: seq<Byte>)
    requires u != [] && |u| == SequenceLength(u[0]) && CanonicalUnit(u) && Canonical(rest)
    ensures Canonical(u + rest)
  {
    hide CanonicalUnit, SequenceLength;
    var s := u + rest;
    assert s[0] == u[0] && s[..|u|] == u && s[|u|..] == rest;
  }

  lemma NothingIsCanonical()
    ensures Canonical([])
  {
  }

  lemma {:induction false} CanonicalConcat(a: seq<Byte>, b: seq<Byte>)
    requires Canonical(a) && Canonical(b)
    ensures Canonical(a + b)
    decreases |a|
  {
    hide Canonical, CanonicalUnit, SequenceLength;
    if a == [] {
      assert a + b == b;
    } else {
      FirstUnit(a);
      var n := SequenceLength(a[0]);
      CanonicalConcat(a[n..], b);
      UnitThen(a[..n], a[n..] + b);
      Associate(a[..n], a[n..], b);
    }
  }

  lemma CutBehind(s: seq<Byte>, n: nat, k: nat)
    requires n <= k <= |s|
    ensures s[..k] == s[..n] + s[n..][..k - n] && s[k..] == s[n..][k - n..]
    ensures k < |s| ==> s[n..][k - n] == s[k]
  {
  }

  lemma CutOutsideUnit(s: seq<Byte>, k: nat)
    requires Canonical(s) && 0 < k <= |s| && (k < |s| ==> !Tail(s[k]))
    ensures SequenceLength(s[0]) <= k
  {
    hide Canonical, CanonicalUnit, SequenceLength, Tail;
    FirstUnit(s);
    var n := SequenceLength(s[0]);
    UnitTails(s[..n]);
    assert forall j :: 0 < j < n ==> s[..n][j] == s[j];
  }

  // A byte that is no continuation byte begins a sequence.
  lemma {:induction false} CanonicalCut(s: seq<Byte>, k: nat)
    requires Canonical(s) && k <= |s| && (k < |s| ==> !Tail(s[k]))
    ensures Canonical(s[..k]) && Canonical(s[k..])
    decreases |s|
  {
    hide Canonical, CanonicalUnit, SequenceLength, Tail;
    if k == 0 {
      NothingIsCanonical();
      assert s[..0] == [] && s[0..] == s;
    } else {
      FirstUnit(s);
      CutOutsideUnit(s, k);
      var n := SequenceLength(s[0]);
      CutBehind(s, n, k);
      CanonicalCut(s[n..], k - n);
      UnitThen(s[..n], s[n..][..k - n]);
    }
  }

  lemma UnitTails(u: seq<Byte>)
    requires CanonicalUnit(u)
    ensures !Tail(u[0]) && forall j :: 0 < j < |u| ==> Tail(u[j])
  {
  }

  lemma CanonicalStart(s: seq<Byte>)
    requires Canonical(s) && s != []
    ensures !Tail(s[0])
  {
    hide CanonicalUnit, SequenceLength, Tail;
    UnitTails(s[..SequenceLength(s[0])]);
  }

  // What the codec reads is always canonical.
  lemma ReadIsCanonical(s: seq<Byte>)
    ensures Canonical(Encode(Decode(s)))
  {
    DecodedAreNonZero(s);
    EncodingIsCanonical(Decode(s));
  }

  // Special segments are canonical, and a plain one is followed by a special one.
  ghost predicate Cuttable(segments: seq<Segment>) {
    && (forall i :: 0 <= i < |segments| ==>
          segments[i].text != [] && (segments[i].Special? ==> Canonical(segments[i].text)))
    && forall i :: 0 <= i < |segments| - 1 && segments[i].Plain? ==> segments[i + 1].Special?
  }

  lemma CuttableRest(segments: seq<Segment>)
    requires Cuttable(segments) && segments != []
    ensures Cuttable(segments[1..])
  {
    hide Canonical;
    var rest := segments[1..];
    assert forall i :: 1 <= i < |segments| ==> segments[i] == rest[i - 1];
  }

  lemma {:induction false} RestoredIsCanonical(segments: seq<Segment>)
    requires Cuttable(segments)
    ensures Canonical(Restored(segments))
  {
    hide Canonical, Encode, Decode, Cuttable;
    if segments == [] {
      assert Canonical([]) by {
        EncodingIsCanonical([]);
        assert Encode([]) == [] by { NothingEncodes(); }
      }
    } else {
      CuttableRest(segments);
      RestoredIsCanonical(segments[1..]);
      FirstIsCanonical(segments);
      CanonicalConcat(RestoredOne(segments[0]), Restored(segments[1..]));
    }
  }

  lemma NothingEncodes()
    ensures Encode([]) == []
  {
  }

  lemma FirstIsCanonical(segments: seq<Segment>)
    requires Cuttable(segments) && segments != []
    ensures Canonical(RestoredOne(segments[0]))
  {
    hide Canonical, Encode, Decode;
    if segments[0].Plain? {
      ReadIsCanonical(segments[0].text);
    }
  }

  lemma {:induction false} CanonicalIsRestored(segments: seq<Segment>)
    requires Cuttable(segments) && Canonical(Concat(segments))
    ensures Restored(segments) == Concat(segments)
  {
    hide Canonical, Encode, Decode, Cuttable;
    if segments != [] {
      CuttableRest(segments);
      CutAfterFirst(segments);
      CanonicalIsRestored(segments[1..]);
      if segments[0].Plain? {
        EncodeDecode(segments[0].text);
      }
    }
  }

  lemma CutAfterFirst(segments: seq<Segment>)
    requires Cuttable(segments) && segments != [] && Canonical(Concat(segments))
    ensures Canonical(Concat(segments[1..]))
    ensures segments[0].Plain? ==> Canonical(segments[0].text)
  {
    hide Canonical, Tail;
    var s, text, rest := segments[0], Concat(segments), Concat(segments[1..]);
    var k := |s.text|;
    assert text[..k] == s.text && text[k..] == rest;
    if s.Plain? {
      if |segments| > 1 {
        assert segments[1].Special?;
        CanonicalStart(segments[1].text);
        assert text[k] == segments[1].text[0];
      } else {
        assert rest == [];
      }
      CanonicalCut(text, k);
    } else {
      CanonicalDrop(s.text, rest);
      assert text == s.text + rest;
    }
  }

  lemma {:induction false} CanonicalDrop(a: seq<Byte>, b: seq<Byte>)
    requires Canonical(a) && Canonical(a + b)
    ensures Canonical(b)
    decreases |a|
  {
    hide CanonicalUnit, SequenceLength;
    if a == [] {
      assert a + b == b;
    } else {
      var n := SequenceLength(a[0]);
      assert (a + b)[n..] == a[n..] + b;
      CanonicalDrop(a[n..], b);
    }
  }

  /** Encoding and decoding gives a text back if and only if the text consists of shortest-form sequences
      of non-zero code points. */
  lemma RoundTripIffCanonical(t: Tables, kind: PreTokenizer.Categories, text: seq<Byte>)
    requires Closed(t) && Ranked(t.merges)
    ensures DecodeIds(t, EncodeText(t, kind, text), false) == text <==> Canonical(text)
  {
    hide Canonical, Ranked, DecodeIds, EncodeText, LeftmostLongest, Restored, Encode, Decode, Split, Concat, Cuttable;
    var segments := Split(t.added, text);
    EncodeThenDecode(t, kind, text);
    SplitIsLeftmostLongest(t.added, segments, text);
    SegmentsSpellText(t.added, segments, text);
    SegmentsAreCuttable(t, segments, text);
    if Canonical(text) {
      CanonicalIsRestored(segments);
    }
    RestoredIsCanonical(segments);
  }

  lemma SegmentsAreCuttable(t: Tables, segments: seq<Segment>, text: seq<Byte>)
    requires Closed(t) && LeftmostLongest(t.added, segments, text)
    ensures Cuttable(segments)
  {
    hide Canonical, Ranked, LeftmostLongest, B.Visible, EncodeOne;
    SpecialsAreAdded(t.added, segments, text);
  }

  lemma {:induction false} WellFormedIsCanonical(s: seq<Byte>)
    requires WellFormed(s) && 0 !in s
    ensures Canonical(s)
  {
    hide Canonical, Encode, Decode, WellFormed;
    WellFormedRoundTrip(s);
    EncodeDecode(s);
  }

  /** Every well-formed UTF-8 text without NUL comes back unchanged. */
  lemma WellFormedTextComesBack(t: Tables, kind: PreTokenizer.Categories, text: seq<Byte>)
    requires Closed(t) && Ranked(t.merges) && WellFormed(text) && 0 !in text
    ensures DecodeIds(t, EncodeText(t, kind, text), false) == text
  {
    hide Canonical, Ranked, DecodeIds, EncodeText, WellFormed;
    WellFormedIsCanonical(text);
    RoundTripIffCanonical(t, kind, text);
  }

  ghost function ByteSymbols(): set<Symbol> {
    set b: Byte | 0 <= b < 256 :: EncodeOne(B.Visible(b))
  }

  // The bytes alone, each with itself as id.
  ghost function ByteVocabulary(): map<Symbol, int> {
    map token | token in ByteSymbols() :: if B.Unspell(token) != [] then B.Unspell(token)[0] else 0
  }

  /** A consistent file exists: the vocabulary of the 256 bytes, without merges and added tokens. */
  lemma ByteFileIsConsistent()
    ensures Consistent(File(ByteVocabulary(), [], []))
  {
    hide EncodeOne, B.Visible, B.Unspell, B.Spell;
    var vocab := ByteVocabulary();
    forall b: Byte ensures EncodeOne(B.Visible(b)) in vocab {
      assert EncodeOne(B.Visible(b)) in ByteSymbols();
    }
    forall token | token in vocab
      ensures |B.Unspell(token)| == 1 && vocab[token] == B.Unspell(token)[0] && Spelled(token)
    {
      var b: Byte :| token == EncodeOne(B.Visible(b));
      ByteSymbolReadsBack(b);
    }
    forall x, y | x in vocab && y in vocab && vocab[x] == vocab[y] ensures x == y {
      assert B.Unspell(x) == B.Unspell(y);
    }
  }
}
