/** A small backtracking regular-expression semantics: the end positions of a match in the order in which
    a greedy, leftmost-alternative-first matcher would try them. */
module Regex {
  import opened Basics
  import opened Utf8

  type Text = seq<CodePoint>
  type CharClass = CodePoint -> bool

  // `Star` and `Plus` repeat a character class, as every repetition of the published pattern does.
  datatype Regex =
    | Char(accepts: CharClass)
    | Then(first: Regex, second: Regex)
    | Or(preferred: Regex, other: Regex)
    | Optional(body: Regex)
    | Star(accepts: CharClass)
    | Plus(accepts: CharClass)
    | NotFollowedBy(accepts: CharClass)

  ghost predicate At(c: CharClass, s: Text, i: nat) {
    i < |s| && c(s[i])
  }

  ghost predicate Within(positions: seq<nat>, lo: nat, hi: nat) {
    forall k :: 0 <= k < |positions| ==> lo <= positions[k] <= hi
  }

  // Ends of matches of r starting at i, most preferred first.
  ghost function Ends(r: Regex, s: Text, i: nat): (ends: seq<nat>)
    requires i <= |s|
    ensures Within(ends, i, |s|)
    decreases r, 0
  {
    match r
    case Char(c) => if At(c, s, i) then [i + 1] else []
    case Then(a, b) => EndsAfter(b, s, Ends(a, s, i), i)
    case Or(a, b) => Ends(a, s, i) + Ends(b, s, i)
    case Optional(a) => Ends(a, s, i) + [i]
    case Star(c) => Repeats(c, s, i)
    case Plus(c) => if At(c, s, i) then Repeats(c, s, i + 1) else []
    case NotFollowedBy(c) => if At(c, s, i) then [] else [i]
  }

  // For each start in turn, the ends of r from there.
  ghost function EndsAfter(r: Regex, s: Text, starts: seq<nat>, lo: nat): (ends: seq<nat>)
    requires Within(starts, lo, |s|)
    ensures Within(ends, lo, |s|)
    decreases r, 1, |starts|
  {
    if starts == [] then []
    else
      assert Within(starts[1..], lo, |s|);
      Ends(r, s, starts[0]) + EndsAfter(r, s, starts[1..], lo)
  }

  // Greedy repetition: the longest run first, then one character less, down to none.
  ghost function Repeats(c: CharClass, s: Text, i: nat): (ends: seq<nat>)
    requires i <= |s|
    ensures ends != [] && Within(ends, i, |s|)
    decreases |s| - i
  {
    if At(c, s, i) then Repeats(c, s, i + 1) + [i] else [i]
  }

  // The match the matcher settles on, if any.
  ghost predicate Matches(r: Regex, s: Text, i: nat)
    requires i <= |s|
  {
    Ends(r, s, i) != []
  }

  ghost function MatchEnd(r: Regex, s: Text, i: nat): (e: nat)
    requires i <= |s| && Matches(r, s, i)
    ensures i <= e <= |s|
  {
    Ends(r, s, i)[0]
  }

  // Isolating split: every match is a piece, every stretch between matches is a piece.
  ghost function Split(r: Regex, s: Text, gap: nat, i: nat): seq<Text>
    requires gap <= i <= |s|
    decreases |s| - i
  {
    var before := if gap < i then [s[gap..i]] else [];
    if i == |s| then before
    else if Matches(r, s, i) && MatchEnd(r, s, i) > i then
      var e := MatchEnd(r, s, i);
      before + [s[i..e]] + Split(r, s, e, e)
    else Split(r, s, gap, i + 1)
  }

  // Where a scanner that takes a match where there is one, and a single character where not, ends the piece
  // that starts at i.
  ghost function PieceEnd(r: Regex, s: Text, i: nat): (e: nat)
    requires i < |s|
    ensures i < e <= |s|
  {
    if Matches(r, s, i) && MatchEnd(r, s, i) > i then MatchEnd(r, s, i) else i + 1
  }

  // The pieces of that scanner.
  ghost function Pieces(r: Regex, s: Text, i: nat): seq<Text>
    requires i <= |s|
    decreases |s| - i
  {
    if i == |s| then []
    else
      var e := PieceEnd(r, s, i);
      [s[i..e]] + Pieces(r, s, e)
  }

  /** The pieces are not empty and concatenate to the text. */
  lemma {:induction false} PiecesCover(r: Regex, s: Text, i: nat)
    requires i <= |s|
    ensures Joined(Pieces(r, s, i)) == s[i..]
    ensures forall k :: 0 <= k < |Pieces(r, s, i)| ==> Pieces(r, s, i)[k] != []
    decreases |s| - i
  {
    hide Ends, Matches, MatchEnd;
    if i < |s| {
      var e := PieceEnd(r, s, i);
      PiecesCover(r, s, e);
      var pieces, rest := Pieces(r, s, i), Pieces(r, s, e);
      assert pieces == [s[i..e]] + rest && pieces[1..] == rest;
      assert s[i..e] + s[e..] == s[i..];
    }
  }

  /** Where the pattern matches something everywhere, isolating its matches leaves no gaps. */
  lemma {:induction false} SplitWithoutGaps(r: Regex, s: Text, i: nat)
    requires i <= |s|
    requires forall k :: i <= k < |s| ==> Matches(r, s, k) && MatchEnd(r, s, k) > k
    ensures Split(r, s, i, i) == Pieces(r, s, i)
    decreases |s| - i
  {
    if i < |s| {
      SplitWithoutGaps(r, s, MatchEnd(r, s, i));
    }
  }

  /* ---------------------------------- facts about single operators ---------------------------------- */

  // The end of the longest run of a class from i.
  ghost function RunEnd(c: CharClass, s: Text, i: nat): (e: nat)
    requires i <= |s|
    ensures i <= e <= |s|
    ensures forall k :: i <= k < e ==> c(s[k])
    ensures !At(c, s, e)
    decreases |s| - i
  {
    if At(c, s, i) then RunEnd(c, s, i + 1) else i
  }

  lemma RunEndIs(c: CharClass, s: Text, i: nat, e: nat)
    requires i <= e <= |s| && (forall k :: i <= k < e ==> c(s[k])) && !At(c, s, e)
    ensures RunEnd(c, s, i) == e
  {
  }

  lemma {:induction false} RepeatsStartAtRunEnd(c: CharClass, s: Text, i: nat)
    requires i <= |s|
    ensures Repeats(c, s, i)[0] == RunEnd(c, s, i)
    decreases |s| - i
  {
    if At(c, s, i) {
      RepeatsStartAtRunEnd(c, s, i + 1);
    }
  }

  // Position k of the list is k characters short of the whole run.
  lemma {:induction false} RepeatsCountDown(c: CharClass, s: Text, i: nat)
    requires i <= |s|
    ensures |Repeats(c, s, i)| == RunEnd(c, s, i) - i + 1
    ensures forall k :: 0 <= k < |Repeats(c, s, i)| ==> Repeats(c, s, i)[k] == RunEnd(c, s, i) - k
    decreases |s| - i
  {
    if At(c, s, i) {
      RepeatsCountDown(c, s, i + 1);
    }
  }

  // What follows a list of starts is decided by the first start it matches from.
  lemma {:induction false} EndsAfterFirst(r: Regex, s: Text, starts: seq<nat>, lo: nat, k: nat)
    requires Within(starts, lo, |s|)
    requires k < |starts| && Matches(r, s, starts[k])
    requires forall j :: 0 <= j < k ==> !Matches(r, s, starts[j])
    ensures EndsAfter(r, s, starts, lo) != [] && EndsAfter(r, s, starts, lo)[0] == MatchEnd(r, s, starts[k])
    decreases k
  {
    if k > 0 {
      assert !Matches(r, s, starts[0]);
      assert Within(starts[1..], lo, |s|);
      EndsAfterFirst(r, s, starts[1..], lo, k - 1);
    }
  }

  lemma {:induction false} EndsAfterNone(r: Regex, s: Text, starts: seq<nat>, lo: nat)
    requires Within(starts, lo, |s|)
    requires forall j :: 0 <= j < |starts| ==> !Matches(r, s, starts[j])
    ensures EndsAfter(r, s, starts, lo) == []
    decreases |starts|
  {
    if starts != [] {
      assert !Matches(r, s, starts[0]);
      assert Within(starts[1..], lo, |s|);
      EndsAfterNone(r, s, starts[1..], lo);
    }
  }
}
