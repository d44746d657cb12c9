/** The published pattern ignores case by Unicode folding, the scanner by ASCII folding only. One further
    character folds to a letter of the contractions: U+017F, the long s. This module says on exactly which
    texts that shows. */
module CaseFolding {
  import opened Utf8
  import opened Regex
  import opened PreTokenizer

  const LONG_S: CodePoint := 0x17F

  ghost function AnyS(): CharClass {
    (x: CodePoint) => x == 115 || x == 83 || x == 0x17F
  }

  ghost function LongOrShortS(): Regex {
    Then(Char(Exactly(APOSTROPHE)), Char(AnyS()))
  }

  ghost function FoldedContraction(): Regex {
    Or(LongOrShortS(), OtherSuffixes())
  }

  // The pattern with Unicode case folding.
  ghost function FoldedPattern(kind: Categories): Regex {
    Or(FoldedContraction(), NoContraction(kind))
  }

  // An apostrophe and a long s at i.
  predicate LongSuffixS(s: Text, i: nat) {
    i + 1 < |s| && s[i] == APOSTROPHE && s[i + 1] == LONG_S
  }

  // A letter or mark follows them, so that the scanner takes a longer word.
  ghost predicate Clash(kind: Categories, s: Text, i: nat) {
    LongSuffixS(s, i) && At(WordChar(kind), s, i + 2)
  }

  // The tables file the long s and the ASCII letters under the letters, and the apostrophe under none of
  // their kinds.
  ghost predicate Known(kind: Categories) {
    && Standard(kind) && kind(LONG_S) == Letter && kind(APOSTROPHE) == Other
    && forall cp :: 65 <= cp <= 90 || 97 <= cp <= 122 ==> kind(cp) == Letter
  }

  lemma LongOrShortTakes(s: Text, i: nat)
    requires i <= |s|
    ensures Matches(LongOrShortS(), s, i) <==> Matches(Suffix1(115), s, i) || LongSuffixS(s, i)
    ensures Matches(LongOrShortS(), s, i) ==> Takes(LongOrShortS(), s, i, i + 2)
  {
    SuffixTakes(115, 115, s, i);
    assert |Ends(Char(Exactly(APOSTROPHE)), s, i)| <= 1;
    ThenChar(Char(Exactly(APOSTROPHE)), AnyS(), s, i);
  }

  // Away from a long s the two patterns match alike.
  lemma SameMatches(kind: Categories, s: Text, i: nat)
    requires i <= |s| && !LongSuffixS(s, i)
    ensures Matches(FoldedPattern(kind), s, i) <==> Matches(Pattern(kind), s, i)
    ensures Matches(Pattern(kind), s, i) ==> Takes(FoldedPattern(kind), s, i, MatchEnd(Pattern(kind), s, i))
  {
    hide Ends, EndsAfter, Suffix1, LongOrShortS, OtherSuffixes, NoContraction;
    SuffixTakes(115, 115, s, i);
    LongOrShortTakes(s, i);
    OrTakes(Suffix1(115), OtherSuffixes(), s, i);
    OrTakes(LongOrShortS(), OtherSuffixes(), s, i);
    OrTakes(Contraction(), NoContraction(kind), s, i);
    OrTakes(FoldedContraction(), NoContraction(kind), s, i);
  }

  // At a long s the folded pattern takes a contraction and the scanner a word.
  lemma DifferentMatches(kind: Categories, s: Text, i: nat)
    requires Known(kind) && i <= |s| && LongSuffixS(s, i)
    ensures Takes(FoldedPattern(kind), s, i, i + 2)
    ensures Takes(Pattern(kind), s, i, RunEnd(WordChar(kind), s, i + 1))
    ensures RunEnd(WordChar(kind), s, i + 1) >= i + 2
    ensures RunEnd(WordChar(kind), s, i + 1) > i + 2 <==> At(WordChar(kind), s, i + 2)
  {
    hide Ends, EndsAfter, LongOrShortS, OtherSuffixes, NoContraction, Contraction, Word;
    LongOrShortTakes(s, i);
    OrTakes(LongOrShortS(), OtherSuffixes(), s, i);
    OrTakes(FoldedContraction(), NoContraction(kind), s, i);
    ContractionTakes(s, i);
    WordTakes(kind, s, i);
    PatternTakes(kind, s, i);
    assert RunEnd(WordChar(kind), s, i + 1) == RunEnd(WordChar(kind), s, i + 2);
  }

  lemma SameEndUnlessClash(kind: Categories, s: Text, i: nat)
    requires Known(kind) && i < |s|
    ensures PieceEnd(FoldedPattern(kind), s, i) == PieceEnd(Pattern(kind), s, i) <==> !Clash(kind, s, i)
  {
    hide Ends, Pattern, FoldedPattern, RunEnd, WordChar;
    if LongSuffixS(s, i) {
      DifferentMatches(kind, s, i);
    } else {
      SameMatches(kind, s, i);
    }
  }

  // Some piece of the scanner starts with an apostrophe, a long s and a letter or mark.
  ghost predicate FoldingShows(kind: Categories, s: Text, i: nat)
    requires i <= |s|
    decreases |s| - i
  {
    i < |s| && (Clash(kind, s, i) || FoldingShows(kind, s, PieceEnd(Pattern(kind), s, i)))
  }

  lemma PiecesAt(r: Regex, s: Text, i: nat)
    requires i < |s|
    ensures var e := PieceEnd(r, s, i); Pieces(r, s, i) == [s[i..e]] + Pieces(r, s, e)
  {
    hide Ends;
  }

  lemma {:induction false} SamePiecesIff(kind: Categories, s: Text, i: nat)
    requires Known(kind) && i <= |s|
    ensures Pieces(FoldedPattern(kind), s, i) == Pieces(Pattern(kind), s, i) <==> !FoldingShows(kind, s, i)
    decreases |s| - i
  {
    hide Ends, Pattern, FoldedPattern, Clash, PieceEnd;
    if i < |s| {
      var r, q := Pattern(kind), FoldedPattern(kind);
      var e, f := PieceEnd(r, s, i), PieceEnd(q, s, i);
      SameEndUnlessClash(kind, s, i);
      PiecesAt(r, s, i);
      PiecesAt(q, s, i);
      assert Pieces(r, s, i)[0] == s[i..e] && Pieces(q, s, i)[0] == s[i..f];
      assert |s[i..e]| == e - i && |s[i..f]| == f - i;
      if e == f {
        SamePiecesIff(kind, s, e);
        assert Pieces(r, s, i)[1..] == Pieces(r, s, e) && Pieces(q, s, i)[1..] == Pieces(q, s, e);
      }
    }
  }

  lemma FoldedAlwaysMatches(kind: Categories, s: Text, i: nat)
    requires Known(kind) && i < |s| && IsDefined(s[i])
    ensures Matches(FoldedPattern(kind), s, i) && MatchEnd(FoldedPattern(kind), s, i) > i
  {
    hide Ends, Pattern, FoldedPattern, RunEnd, WordChar;
    PatternAlwaysMatches(kind, s, i);
    if LongSuffixS(s, i) {
      DifferentMatches(kind, s, i);
    } else {
      SameMatches(kind, s, i);
    }
  }

  /* ---------------------------------- where an apostrophe starts a piece ---------------------------------- */

  // A space or a character of no category stands before i: an apostrophe at i then continues its piece.
  predicate Continues(kind: Categories, s: Text, i: nat) {
    0 < i < |s| && (s[i - 1] == SPACE || kind(s[i - 1]) == Other)
  }

  // Every apostrophe behind the start of a piece is in the piece or right after it, as `Continues` tells.
  ghost predicate Cut(kind: Categories, s: Text, p: nat, e: nat) {
    forall i :: p < i <= e && i < |s| && s[i] == APOSTROPHE ==> (i < e <==> Continues(kind, s, i))
  }

  predicate Scalars(s: Text) {
    forall i :: 0 <= i < |s| ==> IsDefined(s[i])
  }

  lemma CutContraction(kind: Categories, s: Text, p: nat)
    requires Known(kind)
    ensures ShortSuffix(s, p) ==> Cut(kind, s, p, p + 2)
    ensures LongSuffix(s, p) ==> Cut(kind, s, p, p + 3)
  {
  }

  lemma CutWord(kind: Categories, s: Text, p: nat)
    requires Known(kind) && StartsWord(kind, s, p)
    ensures Cut(kind, s, p, RunEnd(WordChar(kind), s, p + 1))
  {
    var e := RunEnd(WordChar(kind), s, p + 1);
    forall i | p < i <= e && i < |s| && s[i] == APOSTROPHE
      ensures i == e && !Continues(kind, s, i)
    {
      assert !WordChar(kind)(s[i]);
      assert p + 1 < i ==> WordChar(kind)(s[i - 1]);
    }
  }

  lemma CutDigit(kind: Categories, s: Text, p: nat)
    requires Known(kind) && At(Digit(kind), s, p)
    ensures Cut(kind, s, p, p + 1)
  {
  }

  lemma CutSymbols(kind: Categories, s: Text, p: nat)
    requires Known(kind) && Scalars(s) && p < |s| && StartsSymbols(kind, s, p)
    ensures var from := if s[p] == SPACE then p + 1 else p;
            from < |s| && Cut(kind, s, p, RunEnd(Newline(), s, RunEnd(Symbol(kind), s, from)))
  {
    var from := if s[p] == SPACE then p + 1 else p;
    var m := RunEnd(Symbol(kind), s, from);
    var e := RunEnd(Newline(), s, m);
    assert m > from;
    forall i | p < i <= e && i < |s| && s[i] == APOSTROPHE
      ensures i < e <==> Continues(kind, s, i)
    {
      assert Symbol(kind)(s[i]);
      assert !Newline()(s[i]);
      assert from < i <= m ==> Symbol(kind)(s[i - 1]);
      assert m < i ==> Newline()(s[i - 1]);
    }
  }

  // A piece of blanks that does not leave a space right in front of an apostrophe.
  lemma CutBlanks(kind: Categories, s: Text, p: nat, e: nat)
    requires Known(kind) && p < |s| && p < e <= RunEnd(Blank(kind), s, p)
    requires e == RunEnd(Blank(kind), s, p) < |s| && s[e] == APOSTROPHE ==> s[e - 1] != SPACE
    ensures Cut(kind, s, p, e)
  {
    var w := RunEnd(Blank(kind), s, p);
    forall i | p < i <= e && i < |s| && s[i] == APOSTROPHE
      ensures i == e == w && !Continues(kind, s, i)
    {
      assert !Blank(kind)(s[i]) && Blank(kind)(s[i - 1]);
    }
  }

  // The whitespace alternatives take a whole blank run only up to a line end or the end of the text, or if
  // it is a single blank; a single space goes with the apostrophe behind it.
  lemma BlanksEnd(kind: Categories, s: Text, p: nat)
    requires Known(kind) && Scalars(s) && p < |s| && kind(s[p]) == Whitespace
    requires !Matches(Contraction(), s, p) && !Matches(Word(kind), s, p) && !Matches(Symbols(kind), s, p)
    ensures Cut(kind, s, p, PieceEnd(Pattern(kind), s, p))
  {
    hide Ends, EndsAfter, Contraction, Word, Symbols, LineEnds, TrailingBlanks, Pattern, RunEnd, Cut;
    var w := RunEnd(Blank(kind), s, p);
    PatternTakes(kind, s, p);
    SymbolsTakes(kind, s, p);
    TrailingBlanksTakes(kind, s, p);
    if exists k :: p <= k < w && Newline()(s[k]) {
      var k :| p <= k < w && Newline()(s[k]);
      var last := LastNewline(s, k, w);
      LineEndsTakes(kind, s, p, last);
    } else {
      LineEndsFails(kind, s, p);
    }
    CutBlanks(kind, s, p, PieceEnd(Pattern(kind), s, p));
  }

  /** Inside a piece and right behind it, the character before an apostrophe decides on which side of the
      piece's end the apostrophe stands. */
  lemma PieceCuts(kind: Categories, s: Text, p: nat)
    requires Known(kind) && Scalars(s) && p < |s|
    ensures Cut(kind, s, p, PieceEnd(Pattern(kind), s, p))
  {
    hide Ends, EndsAfter, Contraction, Word, Symbols, LineEnds, TrailingBlanks, Pattern, RunEnd, Cut;
    PatternAlwaysMatches(kind, s, p);
    PatternTakes(kind, s, p);
    ContractionTakes(s, p);
    WordTakes(kind, s, p);
    SymbolsTakes(kind, s, p);
    if Matches(Contraction(), s, p) {
      CutContraction(kind, s, p);
    } else if StartsWord(kind, s, p) {
      CutWord(kind, s, p);
    } else if At(Digit(kind), s, p) {
      CutDigit(kind, s, p);
    } else if StartsSymbols(kind, s, p) {
      CutSymbols(kind, s, p);
    } else {
      BlanksEnd(kind, s, p);
    }
  }

  // A clash at i that starts a piece: at `from`, or behind neither a space nor a character of no category.
  ghost predicate StartingClash(kind: Categories, s: Text, from: nat, i: nat) {
    from <= i && Clash(kind, s, i) && (i == from || !Continues(kind, s, i))
  }

  /** Whether the folding shows can be read off the text. */
  lemma {:induction false} ShowsIffClash(kind: Categories, s: Text, p: nat)
    requires Known(kind) && Scalars(s) && p <= |s|
    ensures FoldingShows(kind, s, p) <==> exists i: nat :: StartingClash(kind, s, p, i)
    decreases |s| - p
  {
    hide Pattern, PieceEnd, At;
    if p < |s| {
      var e := PieceEnd(Pattern(kind), s, p);
      PieceCuts(kind, s, p);
      ShowsIffClash(kind, s, e);
      if Clash(kind, s, p) {
        assert StartingClash(kind, s, p, p);
      }
      if i: nat :| StartingClash(kind, s, e, i) {
        assert StartingClash(kind, s, p, i);
      }
      if i: nat :| StartingClash(kind, s, p, i) {
        assert i > p ==> StartingClash(kind, s, e, i);
      }
    }
  }

  /** On Unicode scalar values the scanner's pieces are the isolated matches of the pattern with Unicode
      case folding if and only if the text nowhere has an apostrophe, a long s and a letter or mark that
      stand at its start or behind neither a space nor a character of no category. */
  lemma ScannerIsFoldedPatternIff(kind: Categories, s: Text)
    requires Known(kind) && Scalars(s)
    ensures Pieces(Pattern(kind), s, 0) == Split(FoldedPattern(kind), s, 0, 0)
       <==> !exists i: nat :: Clash(kind, s, i) && (i == 0 || (s[i - 1] != SPACE && kind(s[i - 1]) != Other))
  {
    hide Ends, Pattern, FoldedPattern, FoldingShows, Pieces;
    ShowsIffClash(kind, s, 0);
    assert forall i: nat :: StartingClash(kind, s, 0, i) <==>
      Clash(kind, s, i) && (i == 0 || (s[i - 1] != SPACE && kind(s[i - 1]) != Other));
    forall k | 0 <= k < |s|
      ensures Matches(FoldedPattern(kind), s, k) && MatchEnd(FoldedPattern(kind), s, k) > k
    {
      FoldedAlwaysMatches(kind, s, k);
    }
    SplitWithoutGaps(FoldedPattern(kind), s, 0);
    SamePiecesIff(kind, s, 0);
  }

  /** So a text without an apostrophe before a long s is cut the same either way. */
  lemma {:induction false} NoLongS(kind: Categories, s: Text, i: nat)
    requires i <= |s| && forall k :: 0 <= k < |s| ==> !LongSuffixS(s, k)
    ensures !FoldingShows(kind, s, i)
    decreases |s| - i
  {
    hide Pattern, PieceEnd;
    if i < |s| {
      NoLongS(kind, s, PieceEnd(Pattern(kind), s, i));
    }
  }

  /** The shortest text on which it shows: an apostrophe, a long s and the letter a. */
  lemma FoldingMatters(kind: Categories)
    requires Known(kind)
    ensures FoldingShows(kind, [APOSTROPHE, LONG_S, 97], 0)
    ensures PieceEnd(Pattern(kind), [APOSTROPHE, LONG_S, 97], 0) == 3
    ensures PieceEnd(FoldedPattern(kind), [APOSTROPHE, LONG_S, 97], 0) == 2
  {
    hide Ends, Pattern, FoldedPattern;
    DifferentMatches(kind, [APOSTROPHE, LONG_S, 97], 0);
  }
}
