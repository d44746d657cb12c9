/** The hand-written pre-tokenizer scanner, against the published pattern
    (?i:'s|'t|'re|'ve|'m|'ll|'d)|[^\r\n\p{L}\p{N}]?[\p{L}\p{M}]+|\p{N}| ?[^\s\p{L}\p{M}\p{N}]+[\r\n]*
    |\s*[\r\n]+|\s+(?!\S)|\s+ */
module PreTokenizer {
  import opened Basics
  import opened Utf8
  import opened Regex

  const APOSTROPHE: CodePoint := 39
  const SPACE: CodePoint := 32
  const CR: CodePoint := 13
  const LF: CodePoint := 10

  // The category tables give every code point at most one of four categories.
  datatype Kind = Letter | Number | Mark | Whitespace | Other
  type Categories = CodePoint -> Kind

  // Line ends and the space are whitespace; the tables list no surrogate and nothing beyond Unicode.
  ghost predicate Standard(kind: Categories) {
    && kind(13) == kind(10) == kind(32) == Whitespace
    && forall cp :: !(cp < 0xD800 || 0xE000 <= cp < 0x11_0000) ==> kind(cp) == Other
  }

  // The flags of the code point at a position; all clear beyond the end.
  datatype Flags = Flags(isLetter: bool, isNumber: bool, isMark: bool, isWhitespace: bool, isDefined: bool)

  function IsDefined(cp: CodePoint): bool {
    cp < 0x11_0000 && (cp < 0xD800 || cp > 0xDFFF)
  }

  function FlagsAt(kind: Categories, s: Text, pos: nat): Flags {
    if pos >= |s| then Flags(false, false, false, false, false)
    else
      var k := kind(s[pos]);
      Flags(k == Letter, k == Number, k == Mark, k == Whitespace, IsDefined(s[pos]))
  }

  function Lower(cp: CodePoint): CodePoint {
    if 65 <= cp <= 90 then cp + 32 else cp
  }

  /* ---------------------------------- the pattern ---------------------------------- */

  ghost function Exactly(c: CodePoint): CharClass {
    (x: CodePoint) => x == c
  }

  // A lower-case ASCII letter c in either case.
  ghost function AnyCase(c: CodePoint): CharClass {
    (x: CodePoint) => x == c || x == c - 32
  }

  ghost function WordChar(kind: Categories): CharClass {
    (x: CodePoint) => kind(x) == Letter || kind(x) == Mark
  }

  ghost function WordPrefix(kind: Categories): CharClass {
    (x: CodePoint) => x != 13 && x != 10 && kind(x) != Letter && kind(x) != Number
  }

  ghost function Digit(kind: Categories): CharClass {
    (x: CodePoint) => kind(x) == Number
  }

  // [^\s\p{L}\p{M}\p{N}], over the code points that are characters at all.
  ghost function Symbol(kind: Categories): CharClass {
    (x: CodePoint) => kind(x) == Other && (x < 0xD800 || 0xE000 <= x < 0x11_0000)
  }

  ghost function Newline(): CharClass {
    (x: CodePoint) => x == 13 || x == 10
  }

  ghost function Blank(kind: Categories): CharClass {
    (x: CodePoint) => kind(x) == Whitespace
  }

  ghost function NonBlank(kind: Categories): CharClass {
    (x: CodePoint) => kind(x) != Whitespace
  }

  ghost function Suffix1(a: CodePoint): Regex {
    Then(Char(Exactly(39)), Char(AnyCase(a)))
  }

  ghost function Suffix2(a: CodePoint, b: CodePoint): Regex {
    Then(Suffix1(a), Char(AnyCase(b)))
  }

  // 's|'t|'re|'ve|'m|'ll|'d, ignoring ASCII case.
  ghost function Contraction(): Regex {
    Or(Suffix1(115), OtherSuffixes())
  }

  ghost function OtherSuffixes(): Regex {
    Or(Suffix1(116), Or(Suffix2(114, 101), Or(Suffix2(118, 101),
      Or(Suffix1(109), Or(Suffix2(108, 108), Suffix1(100))))))
  }

  ghost function Word(kind: Categories): Regex {
    Then(Optional(Char(WordPrefix(kind))), Plus(WordChar(kind)))
  }

  ghost function Symbols(kind: Categories): Regex {
    Then(Then(Optional(Char(Exactly(32))), Plus(Symbol(kind))), Star(Newline()))
  }

  ghost function LineEnds(kind: Categories): Regex {
    Then(Star(Blank(kind)), Plus(Newline()))
  }

  ghost function TrailingBlanks(kind: Categories): Regex {
    Then(Plus(Blank(kind)), NotFollowedBy(NonBlank(kind)))
  }

  ghost function Pattern(kind: Categories): Regex {
    Or(Contraction(), NoContraction(kind))
  }

  ghost function NoContraction(kind: Categories): Regex {
    Or(Word(kind), Or(Char(Digit(kind)), Or(Symbols(kind),
      Or(LineEnds(kind), Or(TrailingBlanks(kind), Plus(Blank(kind)))))))
  }

  /* ---------------------------------- how the operators combine ---------------------------------- */

  // r matches at i and the preferred match ends at e.
  ghost predicate Takes(r: Regex, s: Text, i: nat, e: nat)
    requires i <= |s|
  {
    Matches(r, s, i) && MatchEnd(r, s, i) == e
  }

  lemma OrTakes(a: Regex, b: Regex, s: Text, i: nat)
    requires i <= |s|
    ensures Matches(Or(a, b), s, i) <==> Matches(a, s, i) || Matches(b, s, i)
    ensures Matches(a, s, i) ==> Takes(Or(a, b), s, i, MatchEnd(a, s, i))
    ensures !Matches(a, s, i) && Matches(b, s, i) ==> Takes(Or(a, b), s, i, MatchEnd(b, s, i))
  {
  }

  lemma PlusTakes(c: CharClass, s: Text, i: nat)
    requires i <= |s|
    ensures Matches(Plus(c), s, i) <==> At(c, s, i)
    ensures At(c, s, i) ==> Takes(Plus(c), s, i, RunEnd(c, s, i))
  {
    if At(c, s, i) {
      RepeatsStartAtRunEnd(c, s, i + 1);
    }
  }

  lemma OptionalThenPlus(c: CharClass, k: CharClass, s: Text, i: nat)
    requires i <= |s|
    ensures var r := Then(Optional(Char(c)), Plus(k));
            && (Matches(r, s, i) <==> (At(c, s, i) && At(k, s, i + 1)) || At(k, s, i))
            && (At(c, s, i) && At(k, s, i + 1) ==> Takes(r, s, i, RunEnd(k, s, i + 1)))
            && (!(At(c, s, i) && At(k, s, i + 1)) && At(k, s, i) ==> Takes(r, s, i, RunEnd(k, s, i)))
  {
    hide Ends, EndsAfter, Repeats, RunEnd;
    var starts := if At(c, s, i) then [i + 1, i] else [i];
    OptionalStarts(c, Plus(k), s, i);
    PlusTakes(k, s, i);
    if At(c, s, i) {
      PlusTakes(k, s, i + 1);
      if At(k, s, i + 1) {
        EndsAfterFirst(Plus(k), s, starts, i, 0);
      } else if At(k, s, i) {
        EndsAfterFirst(Plus(k), s, starts, i, 1);
      } else {
        EndsAfterNone(Plus(k), s, starts, i);
      }
    } else if At(k, s, i) {
      EndsAfterFirst(Plus(k), s, starts, i, 0);
    } else {
      EndsAfterNone(Plus(k), s, starts, i);
    }
  }

  lemma OptionalStarts(c: CharClass, r: Regex, s: Text, i: nat)
    requires i <= |s|
    ensures var starts := if At(c, s, i) then [i + 1, i] else [i];
            Within(starts, i, |s|) && Ends(Then(Optional(Char(c)), r), s, i) == EndsAfter(r, s, starts, i)
  {
    var starts := if At(c, s, i) then [i + 1, i] else [i];
    var body := Ends(Char(c), s, i);
    assert Ends(Optional(Char(c)), s, i) == body + [i] == starts;
    assert Ends(Then(Optional(Char(c)), r), s, i) == EndsAfter(r, s, Ends(Optional(Char(c)), s, i), i);
  }

  lemma ThenStar(a: Regex, c: CharClass, s: Text, i: nat)
    requires i <= |s|
    ensures Matches(Then(a, Star(c)), s, i) <==> Matches(a, s, i)
    ensures Matches(a, s, i) ==> Takes(Then(a, Star(c)), s, i, RunEnd(c, s, MatchEnd(a, s, i)))
  {
    var starts := Ends(a, s, i);
    assert Ends(Then(a, Star(c)), s, i) == EndsAfter(Star(c), s, starts, i);
    if Matches(a, s, i) {
      RepeatsStartAtRunEnd(c, s, starts[0]);
      EndsAfterFirst(Star(c), s, starts, i, 0);
    }
  }

  lemma ThenChar(a: Regex, c: CharClass, s: Text, i: nat)
    requires i <= |s| && |Ends(a, s, i)| <= 1
    ensures |Ends(Then(a, Char(c)), s, i)| <= 1
    ensures Matches(Then(a, Char(c)), s, i) <==> Matches(a, s, i) && At(c, s, MatchEnd(a, s, i))
    ensures Matches(a, s, i) && At(c, s, MatchEnd(a, s, i)) ==> Takes(Then(a, Char(c)), s, i, MatchEnd(a, s, i) + 1)
  {
    var starts := Ends(a, s, i);
    assert Ends(Then(a, Char(c)), s, i) == EndsAfter(Char(c), s, starts, i);
    if starts != [] {
      assert starts == [starts[0]];
      assert EndsAfter(Char(c), s, starts[1..], i) == [];
    }
  }

  lemma SuffixTakes(a: CodePoint, b: CodePoint, s: Text, i: nat)
    requires i <= |s|
    ensures Matches(Suffix1(a), s, i) <==> At(Exactly(APOSTROPHE), s, i) && At(AnyCase(a), s, i + 1)
    ensures Matches(Suffix1(a), s, i) ==> Takes(Suffix1(a), s, i, i + 2)
    ensures Matches(Suffix2(a, b), s, i) <==> Matches(Suffix1(a), s, i) && At(AnyCase(b), s, i + 2)
    ensures Matches(Suffix2(a, b), s, i) ==> Takes(Suffix2(a, b), s, i, i + 3)
  {
    assert |Ends(Char(Exactly(APOSTROPHE)), s, i)| <= 1;
    ThenChar(Char(Exactly(APOSTROPHE)), AnyCase(a), s, i);
    ThenChar(Suffix1(a), AnyCase(b), s, i);
  }

  lemma StarStarts(c: CharClass, r: Regex, s: Text, i: nat)
    requires i <= |s|
    ensures Ends(Then(Star(c), r), s, i) == EndsAfter(r, s, Repeats(c, s, i), i)
  {
  }

  // \s*[\r\n]+ ends after the last line end of the blank run, if there is one.
  lemma LineEndsTakes(kind: Categories, s: Text, i: nat, last: nat)
    requires Standard(kind) && i <= |s| && i <= last < RunEnd(Blank(kind), s, i)
    requires Newline()(s[last]) && forall k :: last < k < RunEnd(Blank(kind), s, i) ==> !Newline()(s[k])
    ensures Takes(LineEnds(kind), s, i, last + 1)
  {
    hide Ends, EndsAfter, Repeats, RunEnd;
    var w := RunEnd(Blank(kind), s, i);
    var starts := Repeats(Blank(kind), s, i);
    RepeatsCountDown(Blank(kind), s, i);
    StarStarts(Blank(kind), Plus(Newline()), s, i);
    var nl := Newline();
    var k := w - last;
    forall j | 0 <= j < k ensures !Matches(Plus(nl), s, starts[j]) {
      PlusTakes(nl, s, starts[j]);
      assert starts[j] == w - j;
    }
    PlusTakes(nl, s, starts[k]);
    RunEndIs(nl, s, last, last + 1);
    EndsAfterFirst(Plus(nl), s, starts, i, k);
  }

  lemma LineEndsFails(kind: Categories, s: Text, i: nat)
    requires Standard(kind) && i <= |s|
    requires forall k :: i <= k < RunEnd(Blank(kind), s, i) ==> !Newline()(s[k])
    ensures !Matches(LineEnds(kind), s, i)
  {
    var w := RunEnd(Blank(kind), s, i);
    var starts := Repeats(Blank(kind), s, i);
    RepeatsCountDown(Blank(kind), s, i);
    forall j | 0 <= j < |starts| ensures !Matches(Plus(Newline()), s, starts[j]) {
      PlusTakes(Newline(), s, starts[j]);
      assert starts[j] == w - j;
    }
    EndsAfterNone(Plus(Newline()), s, starts, i);
    assert Ends(LineEnds(kind), s, i) == EndsAfter(Plus(Newline()), s, starts, i);
  }

  // The ends of a greedy repetition: the whole run first, then one character less each, down to one.
  lemma PlusEnds(c: CharClass, s: Text, i: nat)
    requires i <= |s|
    ensures var w, ends := RunEnd(c, s, i), Ends(Plus(c), s, i);
            |ends| == w - i && forall k :: 0 <= k < w - i ==> ends[k] == w - k
  {
    if At(c, s, i) {
      RepeatsCountDown(c, s, i + 1);
    }
  }

  lemma LookaheadEnds(c: CharClass, s: Text, i: nat)
    requires i <= |s|
    ensures Ends(NotFollowedBy(c), s, i) == if At(c, s, i) then [] else [i]
  {
  }

  lemma ThenEnds(a: Regex, b: Regex, s: Text, i: nat)
    requires i <= |s|
    ensures Ends(Then(a, b), s, i) == EndsAfter(b, s, Ends(a, s, i), i)
  {
  }

  // Behind a run of blanks stands the end of the text or a non-blank; inside it, a blank.
  lemma BlankAhead(kind: Categories, s: Text, i: nat, j: nat)
    requires i <= |s| && i <= j <= RunEnd(Blank(kind), s, i)
    ensures At(NonBlank(kind), s, j) <==> j == RunEnd(Blank(kind), s, i) < |s|
  {
    var w := RunEnd(Blank(kind), s, i);
    if j < w {
      assert Blank(kind)(s[j]);
    }
  }

  // \s+(?!\S) takes the whole run at the end of the text, and otherwise leaves its last character.
  lemma TrailingBlanksTakes(kind: Categories, s: Text, i: nat)
    requires i <= |s|
    ensures var w := RunEnd(Blank(kind), s, i);
            && (Matches(TrailingBlanks(kind), s, i) <==> i < w && (w == |s| || i + 1 < w))
            && (i < w == |s| ==> Takes(TrailingBlanks(kind), s, i, w))
            && (w < |s| && i + 1 < w ==> Takes(TrailingBlanks(kind), s, i, w - 1))
  {
    hide Ends, EndsAfter, RunEnd, Blank, NonBlank;
    var w := RunEnd(Blank(kind), s, i);
    var ahead := NotFollowedBy(NonBlank(kind));
    var starts := Ends(Plus(Blank(kind)), s, i);
    ThenEnds(Plus(Blank(kind)), ahead, s, i);
    PlusEnds(Blank(kind), s, i);
    BlankAhead(kind, s, i, w);
    LookaheadEnds(NonBlank(kind), s, w);
    if i == w {
      EndsAfterNone(ahead, s, starts, i);
    } else if w == |s| {
      EndsAfterFirst(ahead, s, starts, i, 0);
    } else if i + 1 < w {
      BlankAhead(kind, s, i, w - 1);
      LookaheadEnds(NonBlank(kind), s, w - 1);
      EndsAfterFirst(ahead, s, starts, i, 1);
    } else {
      EndsAfterNone(ahead, s, starts, i);
    }
  }

  // 's, 't, 'm or 'd at i, in either case.
  predicate ShortSuffix(s: Text, i: nat) {
    && i + 1 < |s| && s[i] == APOSTROPHE
    && (Lower(s[i + 1]) == 115 || Lower(s[i + 1]) == 116 || Lower(s[i + 1]) == 109 || Lower(s[i + 1]) == 100)
  }

  // 're, 've or 'll at i, in either case.
  predicate LongSuffix(s: Text, i: nat) {
    && i + 2 < |s| && s[i] == APOSTROPHE
    && (|| (Lower(s[i + 1]) == 114 && Lower(s[i + 2]) == 101)
        || (Lower(s[i + 1]) == 118 && Lower(s[i + 2]) == 101)
        || (Lower(s[i + 1]) == 108 && Lower(s[i + 2]) == 108))
  }

  // The order of the seven alternatives does not matter: at most one of them matches.
  lemma ContractionTakes(s: Text, i: nat)
    requires i <= |s|
    ensures Matches(Contraction(), s, i) <==> ShortSuffix(s, i) || LongSuffix(s, i)
    ensures ShortSuffix(s, i) ==> Takes(Contraction(), s, i, i + 2)
    ensures LongSuffix(s, i) ==> Takes(Contraction(), s, i, i + 3)
  {
    hide Ends, EndsAfter, Suffix1, Suffix2;
    SuffixTakes(115, 115, s, i);
    SuffixTakes(116, 116, s, i);
    SuffixTakes(114, 101, s, i);
    SuffixTakes(118, 101, s, i);
    SuffixTakes(109, 109, s, i);
    SuffixTakes(108, 108, s, i);
    SuffixTakes(100, 100, s, i);
    var r6 := Or(Suffix2(108, 108), Suffix1(100));
    var r5 := Or(Suffix1(109), r6);
    var r4 := Or(Suffix2(118, 101), r5);
    var r3 := Or(Suffix2(114, 101), r4);
    var r2 := Or(Suffix1(116), r3);
    OrTakes(Suffix2(108, 108), Suffix1(100), s, i);
    OrTakes(Suffix1(109), r6, s, i);
    OrTakes(Suffix2(118, 101), r5, s, i);
    OrTakes(Suffix2(114, 101), r4, s, i);
    OrTakes(Suffix1(116), r3, s, i);
    OrTakes(Suffix1(115), r2, s, i);
  }

  // The scanner's test for a word: one character that is no line end or number, then letters or marks.
  predicate StartsWord(kind: Categories, s: Text, i: nat) {
    var flags, next := FlagsAt(kind, s, i), FlagsAt(kind, s, i + 1);
    && i < |s| && s[i] != CR && s[i] != LF && !flags.isNumber
    && (flags.isLetter || flags.isMark || next.isLetter || next.isMark)
  }

  lemma WordTakes(kind: Categories, s: Text, i: nat)
    requires Standard(kind) && i < |s|
    ensures Matches(Word(kind), s, i) <==> StartsWord(kind, s, i)
    ensures StartsWord(kind, s, i) ==> Takes(Word(kind), s, i, RunEnd(WordChar(kind), s, i + 1))
  {
    hide Ends, EndsAfter;
    OptionalThenPlus(WordPrefix(kind), WordChar(kind), s, i);
  }

  // The scanner's test for symbols: an optional space, then a defined code point of no category.
  predicate StartsSymbols(kind: Categories, s: Text, i: nat) {
    var flags := if i < |s| && s[i] == SPACE then FlagsAt(kind, s, i + 1) else FlagsAt(kind, s, i);
    !flags.isWhitespace && !flags.isLetter && !flags.isMark && !flags.isNumber && flags.isDefined
  }

  lemma SymbolsTakes(kind: Categories, s: Text, i: nat)
    requires Standard(kind) && i < |s|
    ensures Matches(Symbols(kind), s, i) <==> StartsSymbols(kind, s, i)
    ensures StartsSymbols(kind, s, i) ==>
              var from := if s[i] == SPACE then i + 1 else i;
              Takes(Symbols(kind), s, i, RunEnd(Newline(), s, RunEnd(Symbol(kind), s, from)))
  {
    hide Ends, EndsAfter, RunEnd;
    OptionalThenPlus(Exactly(SPACE), Symbol(kind), s, i);
    ThenStar(Then(Optional(Char(Exactly(SPACE))), Plus(Symbol(kind))), Newline(), s, i);
  }

  // Which alternative of the pattern decides, given which of them match.
  lemma PatternTakes(kind: Categories, s: Text, i: nat)
    requires i <= |s|
    ensures Matches(Contraction(), s, i) ==> Takes(Pattern(kind), s, i, MatchEnd(Contraction(), s, i))
    ensures !Matches(Contraction(), s, i) ==>
              if Matches(Word(kind), s, i) then Takes(Pattern(kind), s, i, MatchEnd(Word(kind), s, i))
              else if At(Digit(kind), s, i) then Takes(Pattern(kind), s, i, i + 1)
              else if Matches(Symbols(kind), s, i) then Takes(Pattern(kind), s, i, MatchEnd(Symbols(kind), s, i))
              else if Matches(LineEnds(kind), s, i) then Takes(Pattern(kind), s, i, MatchEnd(LineEnds(kind), s, i))
              else if Matches(TrailingBlanks(kind), s, i) then
                Takes(Pattern(kind), s, i, MatchEnd(TrailingBlanks(kind), s, i))
              else if At(Blank(kind), s, i) then Takes(Pattern(kind), s, i, RunEnd(Blank(kind), s, i))
              else !Matches(Pattern(kind), s, i)
  {
    DigitTakes(kind, s, i);
    hide Ends, Contraction, Word, Symbols, LineEnds, TrailingBlanks, RunEnd;
    var r6 := Or(TrailingBlanks(kind), Plus(Blank(kind)));
    var r5 := Or(LineEnds(kind), r6);
    var r4 := Or(Symbols(kind), r5);
    var r3 := Or(Char(Digit(kind)), r4);
    var r2 := Or(Word(kind), r3);
    PlusTakes(Blank(kind), s, i);
    OrTakes(TrailingBlanks(kind), Plus(Blank(kind)), s, i);
    OrTakes(LineEnds(kind), r6, s, i);
    OrTakes(Symbols(kind), r5, s, i);
    OrTakes(Char(Digit(kind)), r4, s, i);
    OrTakes(Word(kind), r3, s, i);
    OrTakes(Contraction(), r2, s, i);
  }

  lemma DigitTakes(kind: Categories, s: Text, i: nat)
    requires i <= |s|
    ensures Matches(Char(Digit(kind)), s, i) <==> At(Digit(kind), s, i)
    ensures At(Digit(kind), s, i) ==> Takes(Char(Digit(kind)), s, i, i + 1)
  {
  }

  /* ---------------------------------- the scanner ---------------------------------- */

  // The end of a run of letters and marks.
  method SkipWord(kind: Categories, s: Text, start: nat) returns (pos: nat)
    requires start <= |s|
    ensures pos == RunEnd(WordChar(kind), s, start)
  {
    pos := start;
    while pos < |s| && (FlagsAt(kind, s, pos).isLetter || FlagsAt(kind, s, pos).isMark)
      invariant start <= pos <= |s|
      invariant forall k :: start <= k < pos ==> WordChar(kind)(s[k])
    {
      pos := pos + 1;
    }
    RunEndIs(WordChar(kind), s, start, pos);
  }

  // The end of a run of symbols and the line ends after it.
  method SkipSymbols(kind: Categories, s: Text, start: nat) returns (pos: nat)
    requires start <= |s|
    ensures pos == RunEnd(Newline(), s, RunEnd(Symbol(kind), s, start))
  {
    pos := start;
    while pos < |s|
      invariant start <= pos <= |s|
      invariant forall k :: start <= k < pos ==> Symbol(kind)(s[k])
    {
      var f := FlagsAt(kind, s, pos);
      if f.isWhitespace || f.isLetter || f.isMark || f.isNumber || !f.isDefined {
        break;
      }
      pos := pos + 1;
    }
    RunEndIs(Symbol(kind), s, start, pos);
    ghost var middle := pos;
    while pos < |s| && (s[pos] == CR || s[pos] == LF)
      invariant middle <= pos <= |s|
      invariant forall k :: middle <= k < pos ==> Newline()(s[k])
    {
      pos := pos + 1;
    }
    RunEndIs(Newline(), s, middle, pos);
  }

  // The length of the blank run at pos and the end of its last line end, 0 if it has none.
  method MeasureBlanks(kind: Categories, s: Text, pos: nat) returns (count: nat, lastLineEnd: nat)
    requires pos < |s|
    ensures pos + count == RunEnd(Blank(kind), s, pos)
    ensures lastLineEnd == 0 ==> forall k :: pos <= k < pos + count ==> !Newline()(s[k])
    ensures lastLineEnd > 0 ==>
              && pos < lastLineEnd <= pos + count && Newline()(s[lastLineEnd - 1])
              && forall k :: lastLineEnd <= k < pos + count ==> !Newline()(s[k])
  {
    count, lastLineEnd := 0, 0;
    while pos + count < |s| && FlagsAt(kind, s, pos + count).isWhitespace
      invariant pos + count <= |s|
      invariant forall k :: pos <= k < pos + count ==> Blank(kind)(s[k])
      invariant lastLineEnd == 0 ==> forall k :: pos <= k < pos + count ==> !Newline()(s[k])
      invariant lastLineEnd > 0 ==>
        && pos < lastLineEnd <= pos + count && Newline()(s[lastLineEnd - 1])
        && forall k :: lastLineEnd <= k < pos + count ==> !Newline()(s[k])
    {
      if s[pos + count] == CR || s[pos + count] == LF {
        lastLineEnd := pos + count + 1;
      }
      count := count + 1;
    }
    RunEndIs(Blank(kind), s, pos, pos + count);
  }

  // A piece from pos to end: the pattern's preferred match, or one unmatched code point.
  ghost predicate PieceEnds(kind: Categories, s: Text, pos: nat, end: nat)
    requires pos < |s|
  {
    && pos < end <= |s|
    && if Matches(Pattern(kind), s, pos) then end == MatchEnd(Pattern(kind), s, pos) else end == pos + 1
  }

  /** The branches of the scanner at one position, in its order: the piece ends where the pattern's
      preferred match ends, and at least one code point is consumed. */
  method ScanPiece(kind: Categories, s: Text, pos: nat) returns (end: nat)
    requires Standard(kind) && pos < |s|
    ensures PieceEnds(kind, s, pos, end)
  {
    hide Ends, EndsAfter, Contraction, Word, Symbols, LineEnds, TrailingBlanks, Pattern, RunEnd;
    PatternTakes(kind, s, pos);
    ContractionTakes(s, pos);
    WordTakes(kind, s, pos);
    SymbolsTakes(kind, s, pos);
    var cpt := s[pos];
    var flags := FlagsAt(kind, s, pos);
    if cpt == APOSTROPHE && pos + 1 < |s| {
      var cnl := Lower(s[pos + 1]);
      if cnl == 115 || cnl == 116 || cnl == 109 || cnl == 100 {
        return pos + 2;
      }
      if pos + 2 < |s| {
        var cnnl := Lower(s[pos + 2]);
        if (cnl == 114 && cnnl == 101) || (cnl == 118 && cnnl == 101) || (cnl == 108 && cnnl == 108) {
          return pos + 3;
        }
      }
    }
    if cpt != CR && cpt != LF && !flags.isNumber {
      var next := FlagsAt(kind, s, pos + 1);
      if flags.isLetter || flags.isMark || next.isLetter || next.isMark {
        end := SkipWord(kind, s, pos + 1);
        return;
      }
    }
    if flags.isNumber {
      return pos + 1;
    }
    var flags2 := if cpt == SPACE then FlagsAt(kind, s, pos + 1) else flags;
    if !flags2.isWhitespace && !flags2.isLetter && !flags2.isMark && !flags2.isNumber && flags2.isDefined {
      end := SkipSymbols(kind, s, if cpt == SPACE then pos + 1 else pos);
      return;
    }
    end := ScanBlanks(kind, s, pos);
  }

  // The whitespace branches, and the catch-all for a code point that nothing matches.
  method ScanBlanks(kind: Categories, s: Text, pos: nat) returns (end: nat)
    requires Standard(kind) && pos < |s| && kind(s[pos]) != Number
    requires !Matches(Contraction(), s, pos) && !Matches(Word(kind), s, pos) && !Matches(Symbols(kind), s, pos)
    ensures PieceEnds(kind, s, pos, end)
  {
    hide Ends, EndsAfter, Contraction, Word, Symbols, LineEnds, TrailingBlanks, Pattern, RunEnd;
    PatternTakes(kind, s, pos);
    TrailingBlanksTakes(kind, s, pos);
    var count, lastLineEnd := MeasureBlanks(kind, s, pos);
    if lastLineEnd > 0 {
      LineEndsTakes(kind, s, pos, lastLineEnd - 1);
      return lastLineEnd;
    }
    LineEndsFails(kind, s, pos);
    if count > 1 && pos + count < |s| {
      return pos + (count - 1);
    }
    if count > 0 {
      return pos + count;
    }
    return pos + 1;
  }

  /** The scanner returns the pieces of the published pattern; code points it does not match, which are
      never scalar values, are pieces of their own. */
  method PreTokenize(kind: Categories, s: Text) returns (result: seq<Text>)
    requires Standard(kind)
    ensures result == Pieces(Pattern(kind), s, 0)
  {
    hide Pattern, Ends, Pieces, PieceEnds;
    result := [];
    var pos := 0;
    while pos < |s|
      invariant 0 <= pos <= |s|
      invariant Pieces(Pattern(kind), s, 0) == result + Pieces(Pattern(kind), s, pos)
    {
      var end := ScanPiece(kind, s, pos);
      PiecesAt(kind, s, pos, end);
      Associate(result, [s[pos..end]], Pieces(Pattern(kind), s, end));
      result := result + [s[pos..end]];
      pos := end;
    }
    NoPieces(kind, s, result);
  }

  lemma PiecesAt(kind: Categories, s: Text, pos: nat, end: nat)
    requires pos < |s| && PieceEnds(kind, s, pos, end)
    ensures pos < end <= |s|
    ensures Pieces(Pattern(kind), s, pos) == [s[pos..end]] + Pieces(Pattern(kind), s, end)
  {
    hide Pattern, Ends;
  }

  lemma NoPieces(kind: Categories, s: Text, result: seq<Text>)
    ensures result + Pieces(Pattern(kind), s, |s|) == result
  {
  }

  /** At a scalar value the pattern always matches, and matches at least one code point. */
  lemma PatternAlwaysMatches(kind: Categories, s: Text, i: nat)
    requires Standard(kind) && i < |s| && IsDefined(s[i])
    ensures Matches(Pattern(kind), s, i) && MatchEnd(Pattern(kind), s, i) > i
  {
    hide Ends, EndsAfter, Contraction, Word, Symbols, LineEnds, TrailingBlanks, Pattern;
    PatternTakes(kind, s, i);
    ContractionTakes(s, i);
    WordTakes(kind, s, i);
    SymbolsTakes(kind, s, i);
    if kind(s[i]) == Whitespace {
      BlanksConsume(kind, s, i);
    }
  }

  lemma BlanksConsume(kind: Categories, s: Text, i: nat)
    requires Standard(kind) && i < |s| && kind(s[i]) == Whitespace
    ensures Matches(LineEnds(kind), s, i) ==> MatchEnd(LineEnds(kind), s, i) > i
    ensures Matches(TrailingBlanks(kind), s, i) ==> MatchEnd(TrailingBlanks(kind), s, i) > i
    ensures RunEnd(Blank(kind), s, i) > i
  {
    hide Ends, EndsAfter, RunEnd, LineEnds, TrailingBlanks;
    var w := RunEnd(Blank(kind), s, i);
    TrailingBlanksTakes(kind, s, i);
    if exists k :: i <= k < w && Newline()(s[k]) {
      var k :| i <= k < w && Newline()(s[k]);
      var last := LastNewline(s, k, w);
      LineEndsTakes(kind, s, i, last);
    } else {
      LineEndsFails(kind, s, i);
    }
  }

  lemma LastNewline(s: Text, k: nat, w: nat) returns (last: nat)
    requires k < w <= |s| && Newline()(s[k])
    ensures k <= last < w && Newline()(s[last])
    ensures forall j :: last < j < w ==> !Newline()(s[j])
    decreases w - k
  {
    if exists j :: k < j < w && Newline()(s[j]) {
      var j :| k < j < w && Newline()(s[j]);
      last := LastNewline(s, j, w);
    } else {
      last := k;
    }
  }

  /** On every sequence of Unicode scalar values the scanner's pieces are the isolated matches of the
      published pattern. */
  lemma ScannerIsPattern(kind: Categories, s: Text)
    requires Standard(kind) && forall i :: 0 <= i < |s| ==> IsDefined(s[i])
    ensures Pieces(Pattern(kind), s, 0) == Split(Pattern(kind), s, 0, 0)
  {
    hide Pattern, Ends;
    forall k | 0 <= k < |s|
      ensures Matches(Pattern(kind), s, k) && MatchEnd(Pattern(kind), s, k) > k
    {
      PatternAlwaysMatches(kind, s, k);
    }
    SplitWithoutGaps(Pattern(kind), s, 0);
  }
}
