/** Cutting a text at its added tokens: the longest added token wins at every undecided position, and the
    bytes between them are collected into plain segments. */
module SpecialTokens {
  import opened Basics

  type Added = map<seq<Byte>, int>

  // An added token with its id, or a stretch of bytes between added tokens.
  datatype Segment = Special(text: seq<Byte>, id: int) | Plain(text: seq<Byte>)

  ghost predicate Starts(added: Added, text: seq<Byte>, token: seq<Byte>) {
    token in added && token != [] && token <= text
  }

  // The length of the longest added token of at most n bytes at the start of a text, 0 if there is none.
  ghost function LongestUpTo(added: Added, text: seq<Byte>, n: nat): (len: nat)
    requires n <= |text|
    ensures len <= n
    ensures len > 0 ==> Starts(added, text, text[..len])
    ensures forall token :: Starts(added, text, token) && |token| <= n ==> |token| <= len
  {
    if n == 0 then 0
    else if text[..n] in added then n
    else
      assert forall token :: Starts(added, text, token) && |token| == n ==> token == text[..n];
      LongestUpTo(added, text, n - 1)
  }

  ghost function Longest(added: Added, text: seq<Byte>): (len: nat)
    ensures len <= |text|
    ensures len > 0 ==> Starts(added, text, text[..len])
    ensures forall token :: Starts(added, text, token) ==> |token| <= len
  {
    LongestUpTo(added, text, |text|)
  }

  ghost function Prepend(b: Byte, segments: seq<Segment>): seq<Segment> {
    if segments != [] && segments[0].Plain? then
      [Plain([b] + segments[0].text)] + segments[1..]
    else [Plain([b])] + segments
  }

  ghost function Split(added: Added, text: seq<Byte>): seq<Segment>
    decreases |text|
  {
    if text == [] then []
    else
      var n := Longest(added, text);
      if n > 0 then [Special(text[..n], added[text[..n]])] + Split(added, text[n..])
      else Prepend(text[0], Split(added, text[1..]))
  }

  /* ---------------------------------- the loops ---------------------------------- */

  // Two lists of segments end to end; a plain segment goes on into a following plain one.
  ghost function Glue(a: seq<Segment>, b: seq<Segment>): seq<Segment> {
    if a != [] && a[|a| - 1].Plain? && b != [] && b[0].Plain? then
      a[..|a| - 1] + [Plain(a[|a| - 1].text + b[0].text)] + b[1..]
    else a + b
  }

  ghost function Push(a: seq<Segment>, c: Byte): seq<Segment> {
    if a != [] && a[|a| - 1].Plain? then
      var last := a[|a| - 1];
      a[..|a| - 1] + [Plain(last.text + [c])]
    else a + [Plain([c])]
  }

  // The best added token at a position, found by walking the table in an arbitrary order.
  method LongestTokenAt(added: Added, text: seq<Byte>, i: nat) returns (best: seq<Byte>, bestId: int)
    requires i < |text|
    ensures best == text[i..][..Longest(added, text[i..])]
    ensures best != [] ==> best in added && bestId == added[best] && best <= text[i..]
    ensures forall token :: token in added && token <= text[i..] ==> |token| <= |best|
  {
    best, bestId := [], -1;
    ghost var rest := text[i..];
    var left := added.Keys;
    while left != {}
      invariant left <= added.Keys
      invariant best != [] ==> Starts(added, rest, best) && bestId == added[best]
      invariant forall token :: Starts(added, rest, token) && token !in left ==> |token| <= |best|
      decreases |left|
    {
      var token :| token in left;
      left := left - {token};
      if token == [] {
        continue;
      }
      if i + |token| <= |text| && text[i..i + |token|] == token && |token| > |best| {
        assert text[i..i + |token|] == rest[..|token|];
        best, bestId := token, added[token];
      } else if token <= rest {
        assert text[i..i + |token|] == rest[..|token|] == token;
      }
    }
    ghost var n := Longest(added, rest);
    if n > 0 {
      assert Starts(added, rest, rest[..n]);
    }
  }

  /** The splitting loop. Its result does not depend on the order in which the table of added tokens is
      walked. */
  method SplitSpecialTokens(added: Added, text: seq<Byte>) returns (segments: seq<Segment>)
    ensures segments == Split(added, text)
  {
    hide Longest, Glue, Prepend, Split, Push;
    segments := [];
    var i := 0;
    GlueEmpty(Split(added, text));
    assert text[0..] == text;
    while i < |text|
      invariant 0 <= i <= |text|
      invariant Glue(segments, Split(added, text[i..])) == Split(added, text)
    {
      var best, bestId := LongestTokenAt(added, text, i);
      SplitAt(added, text, i);
      if best != [] {
        GlueSpecial(segments, Special(best, bestId), Split(added, text[i + |best|..]));
        segments := segments + [Special(best, bestId)];
        i := i + |best|;
        continue;
      }
      GluePlain(segments, text[i], Split(added, text[i + 1..]));
      segments := PushByte(segments, text[i]);
      i := i + 1;
    }
    EmptySplit(added, segments);
    assert text[i..] == [];
  }

  method PushByte(segments: seq<Segment>, c: Byte) returns (longer: seq<Segment>)
    ensures longer == Push(segments, c)
  {
    if segments != [] && segments[|segments| - 1].Plain? {
      var last := segments[|segments| - 1];
      longer := segments[..|segments| - 1] + [Plain(last.text + [c])];
    } else {
      longer := segments + [Plain([c])];
    }
  }

  // One unfolding of the segmentation.
  lemma SplitUnfolds(added: Added, text: seq<Byte>)
    requires text != []
    ensures var n := Longest(added, text);
            Split(added, text) ==
            if n > 0 then [Special(text[..n], added[text[..n]])] + Split(added, text[n..])
            else Prepend(text[0], Split(added, text[1..]))
  {
    hide Longest, Prepend;
  }

  lemma DropTwice(text: seq<Byte>, i: nat, n: nat)
    requires i + n <= |text|
    ensures text[i..][n..] == text[i + n..]
  {
  }

  lemma SplitAt(added: Added, text: seq<Byte>, i: nat)
    requires i < |text|
    ensures var n := Longest(added, text[i..]);
            var token := text[i..][..n];
            i + n <= |text| && Split(added, text[i..]) ==
            if n > 0 then [Special(token, added[token])] + Split(added, text[i + n..])
            else Prepend(text[i], Split(added, text[i + 1..]))
  {
    hide Longest, Prepend, Split, Starts;
    SplitUnfolds(added, text[i..]);
    DropTwice(text, i, Longest(added, text[i..]));
    DropTwice(text, i, 1);
  }

  lemma EmptySplit(added: Added, segments: seq<Segment>)
    ensures Glue(segments, Split(added, [])) == segments
  {
  }

  lemma GlueEmpty(b: seq<Segment>)
    ensures Glue([], b) == b
  {
  }

  ghost predicate EndsPlain(a: seq<Segment>) {
    a != [] && a[|a| - 1].Plain?
  }

  ghost predicate StartsPlain(b: seq<Segment>) {
    b != [] && b[0].Plain?
  }

  // Two plain segments that meet become one.
  lemma GlueMeeting(a: seq<Segment>, x: seq<Byte>, y: seq<Byte>, b: seq<Segment>)
    ensures Glue(a + [Plain(x)], [Plain(y)] + b) == a + [Plain(x + y)] + b
  {
    var left, right := a + [Plain(x)], [Plain(y)] + b;
    assert left[..|left| - 1] == a && right[1..] == b;
  }

  lemma GlueApart(a: seq<Segment>, b: seq<Segment>)
    requires !EndsPlain(a) || !StartsPlain(b)
    ensures Glue(a, b) == a + b
  {
  }

  lemma GlueSpecial(a: seq<Segment>, s: Segment, b: seq<Segment>)
    requires s.Special?
    ensures Glue(a, [s] + b) == Glue(a + [s], b)
  {
    hide Glue;
    GlueApart(a, [s] + b);
    GlueApart(a + [s], b);
    Associate(a, [s], b);
  }

  lemma LastPlain(a: seq<Segment>)
    requires EndsPlain(a)
    ensures a == a[..|a| - 1] + [Plain(a[|a| - 1].text)]
  {
  }

  lemma FirstPlain(b: seq<Segment>)
    requires StartsPlain(b)
    ensures b == [Plain(b[0].text)] + b[1..]
  {
  }

  lemma GluePlain(a: seq<Segment>, c: Byte, b: seq<Segment>)
    ensures Glue(a, Prepend(c, b)) == Glue(Push(a, c), b)
  {
    hide Glue;
    var init := if EndsPlain(a) then a[..|a| - 1] else a;
    var rest := if StartsPlain(b) then b[1..] else b;
    if EndsPlain(a) {
      LastPlain(a);
      var x := a[|a| - 1].text;
      if StartsPlain(b) {
        FirstPlain(b);
        GlueMeeting(init, x, [c] + b[0].text, rest);
        GlueMeeting(init, x + [c], b[0].text, rest);
        Associate(x, [c], b[0].text);
      } else {
        GlueMeeting(init, x, [c], rest);
        GlueApart(init + [Plain(x + [c])], b);
      }
    } else if StartsPlain(b) {
      FirstPlain(b);
      GlueApart(a, [Plain([c] + b[0].text)] + rest);
      GlueMeeting(init, [c], b[0].text, rest);
      Associate(init, [Plain([c] + b[0].text)], rest);
    } else {
      GlueApart(a, [Plain([c])] + b);
      GlueApart(a + [Plain([c])], b);
      Associate(a, [Plain([c])], b);
    }
  }

  /* ---------------------------------- what the segments are ---------------------------------- */

  ghost predicate NoTokenWithin(added: Added, text: seq<Byte>, n: nat)
    requires n <= |text|
  {
    forall j, token :: 0 <= j < n ==> !Starts(added, text[j..], token)
  }

  // The segments cover the text in order. A special segment is the longest added token at its position; no
  // added token starts inside a plain segment, and a plain segment is as long as it can be.
  ghost predicate LeftmostLongest(added: Added, segments: seq<Segment>, text: seq<Byte>)
    decreases |segments|
  {
    if segments == [] then text == []
    else
      var s := segments[0];
      && s.text != [] && s.text <= text
      && LeftmostLongest(added, segments[1..], text[|s.text|..])
      && match s
         case Special(token, id) =>
           Starts(added, text, token) && id == added[token]
           && forall other :: Starts(added, text, other) ==> |other| <= |token|
         case Plain(bytes) =>
           NoTokenWithin(added, text, |bytes|) && (|segments| > 1 ==> segments[1].Special?)
  }

  /** The result is the only leftmost-longest segmentation of the text. */
  lemma SplitIsLeftmostLongest(added: Added, segments: seq<Segment>, text: seq<Byte>)
    ensures LeftmostLongest(added, segments, text) <==> segments == Split(added, text)
  {
    SplitSegments(added, text);
    if LeftmostLongest(added, segments, text) {
      SegmentsAreSplit(added, segments, text);
    }
  }

  lemma {:induction false} SplitSegments(added: Added, text: seq<Byte>)
    ensures LeftmostLongest(added, Split(added, text), text)
    decreases |text|
  {
    hide Longest, LeftmostLongest;
    if text == [] {
      Nothing(added);
    } else {
      var n := Longest(added, text);
      if n > 0 {
        SplitSegments(added, text[n..]);
        SpecialFirst(added, text, n, Split(added, text[n..]));
      } else {
        SplitSegments(added, text[1..]);
        PlainFirst(added, text, Split(added, text[1..]));
      }
    }
  }

  lemma Nothing(added: Added)
    ensures LeftmostLongest(added, [], [])
  {
  }

  lemma SpecialFirst(added: Added, text: seq<Byte>, n: nat, later: seq<Segment>)
    requires 0 < n <= |text| && n == Longest(added, text) && LeftmostLongest(added, later, text[n..])
    ensures LeftmostLongest(added, [Special(text[..n], added[text[..n]])] + later, text)
  {
    var segments := [Special(text[..n], added[text[..n]])] + later;
    assert segments[1..] == later;
  }

  lemma PlainFirst(added: Added, text: seq<Byte>, later: seq<Segment>)
    requires text != [] && Longest(added, text) == 0 && LeftmostLongest(added, later, text[1..])
    ensures LeftmostLongest(added, Prepend(text[0], later), text)
  {
    hide Starts;
    var segments := Prepend(text[0], later);
    var m := |segments[0].text|;
    if later != [] && later[0].Plain? {
      assert segments[1..] == later[1..] && text[1..][m - 1..] == text[m..];
      assert segments[0].text == text[..m];
    } else {
      assert segments[1..] == later;
    }
    NoTokenEarlier(added, text, m);
  }

  lemma NoTokenEarlier(added: Added, text: seq<Byte>, m: nat)
    requires 0 < m <= |text| && Longest(added, text) == 0 && NoTokenWithin(added, text[1..], m - 1)
    ensures NoTokenWithin(added, text, m)
  {
    forall j, token | 0 <= j < m ensures !Starts(added, text[j..], token) {
      if j == 0 {
        assert text[0..] == text;
      } else {
        assert text[j..] == text[1..][j - 1..];
      }
    }
  }

  lemma {:induction false} SegmentsAreSplit(added: Added, segments: seq<Segment>, text: seq<Byte>)
    requires LeftmostLongest(added, segments, text)
    ensures segments == Split(added, text)
    decreases |text|
  {
    hide Longest, Prepend, NoTokenWithin, LeftmostLongest, Split;
    if segments == [] {
      NoText(added, text);
    } else if segments[0].Special? {
      SpecialPeels(added, segments, text);
      SegmentsAreSplit(added, segments[1..], text[|segments[0].text|..]);
    } else {
      PlainPeels(added, segments, text);
      SegmentsAreSplit(added, Peeled(segments), text[1..]);
    }
  }

  lemma NoText(added: Added, text: seq<Byte>)
    requires LeftmostLongest(added, [], text)
    ensures Split(added, text) == []
  {
  }

  lemma SpecialPeels(added: Added, segments: seq<Segment>, text: seq<Byte>)
    requires LeftmostLongest(added, segments, text) && segments != [] && segments[0].Special?
    ensures 0 < |segments[0].text| <= |text|
    ensures LeftmostLongest(added, segments[1..], text[|segments[0].text|..])
    ensures Split(added, text) == [segments[0]] + Split(added, text[|segments[0].text|..])
    ensures segments == [segments[0]] + segments[1..]
  {
    hide Longest, Split, Prepend, LeftmostLongest, Starts;
    SpecialIsLongest(added, segments, text);
    SplitUnfolds(added, text);
  }

  // What the first segment says when it is special.
  lemma SpecialIsLongest(added: Added, segments: seq<Segment>, text: seq<Byte>)
    requires LeftmostLongest(added, segments, text) && segments != [] && segments[0].Special?
    ensures var s := segments[0];
            && 0 < |s.text| == Longest(added, text) <= |text| && text[..|s.text|] == s.text
            && s.text in added && s.id == added[s.text]
            && LeftmostLongest(added, segments[1..], text[|s.text|..])
  {
    hide Longest;
    LongestIs(added, text, segments[0].text);
  }

  lemma PlainPeels(added: Added, segments: seq<Segment>, text: seq<Byte>)
    requires LeftmostLongest(added, segments, text) && segments != [] && segments[0].Plain?
    ensures segments[0].text != [] && text != []
    ensures LeftmostLongest(added, Peeled(segments), text[1..])
    ensures Prepend(text[0], Peeled(segments)) == segments
    ensures Split(added, text) == Prepend(text[0], Split(added, text[1..]))
  {
    hide Longest, Prepend, Split, Peeled, Starts;
    NothingHere(added, text, |segments[0].text|);
    PeelPlain(added, segments, text);
    SplitUnfolds(added, text);
  }

  lemma LongestIs(added: Added, text: seq<Byte>, token: seq<Byte>)
    requires Starts(added, text, token)
    requires forall other :: Starts(added, text, other) ==> |other| <= |token|
    ensures Longest(added, text) == |token| && text[..|token|] == token
  {
  }

  lemma NothingHere(added: Added, text: seq<Byte>, n: nat)
    requires 0 < n <= |text| && NoTokenWithin(added, text, n)
    ensures Longest(added, text) == 0
  {
    assert text[0..] == text;
    assert forall token :: Starts(added, text[0..], token) ==> Starts(added, text, token);
    assert forall token :: !Starts(added, text, token);
  }

  // The segments after the first byte of a plain segment.
  ghost function Peeled(segments: seq<Segment>): seq<Segment>
    requires segments != [] && segments[0].Plain? && segments[0].text != []
  {
    (if |segments[0].text| == 1 then [] else [Plain(segments[0].text[1..])]) + segments[1..]
  }

  lemma PeelPlain(added: Added, segments: seq<Segment>, text: seq<Byte>)
    requires LeftmostLongest(added, segments, text) && segments != [] && segments[0].Plain?
    ensures LeftmostLongest(added, Peeled(segments), text[1..])
    ensures Prepend(text[0], Peeled(segments)) == segments
  {
    hide Starts;
    var m := |segments[0].text|;
    PrependPeeled(segments);
    assert text[0] == segments[0].text[0];
    if m == 1 {
      assert Peeled(segments) == segments[1..];
    } else {
      var rest, bytes := text[1..], segments[0].text[1..];
      assert Peeled(segments)[1..] == segments[1..] && rest[m - 1..] == text[m..];
      assert bytes <= rest;
      NoTokenLater(added, text, m);
    }
  }

  lemma PrependPeeled(segments: seq<Segment>)
    requires segments != [] && segments[0].Plain? && segments[0].text != []
    requires |segments| > 1 ==> segments[1].Special?
    ensures Prepend(segments[0].text[0], Peeled(segments)) == segments
  {
    var bytes := segments[0].text;
    assert [bytes[0]] + bytes[1..] == bytes;
    assert [segments[0]] + segments[1..] == segments;
    if |bytes| == 1 {
      assert Peeled(segments) == segments[1..] && [bytes[0]] == bytes;
    } else {
      assert Peeled(segments)[1..] == segments[1..];
    }
  }

  lemma NoTokenLater(added: Added, text: seq<Byte>, m: nat)
    requires 0 < m <= |text| && NoTokenWithin(added, text, m)
    ensures NoTokenWithin(added, text[1..], m - 1)
  {
    hide Starts;
    forall j, token | 0 <= j < m - 1 ensures !Starts(added, text[1..][j..], token) {
      assert text[1..][j..] == text[j + 1..];
    }
  }

  ghost function Concat(segments: seq<Segment>): seq<Byte> {
    if segments == [] then [] else segments[0].text + Concat(segments[1..])
  }

  /** Nothing is lost: the segments spell the text. */
  lemma {:induction false} SegmentsSpellText(added: Added, segments: seq<Segment>, text: seq<Byte>)
    requires LeftmostLongest(added, segments, text)
    ensures Concat(segments) == text
  {
    if segments != [] {
      SegmentsSpellText(added, segments[1..], text[|segments[0].text|..]);
    }
  }
}
