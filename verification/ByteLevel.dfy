/** The byte-to-unicode table of byte-level BPE: every byte gets a visible code point of its own, so that
    any byte string can be spelled as text and read back. */
module ByteLevel {
  import opened Basics
  import opened Utf8

  predicate Printable(b: int) {
    33 <= b <= 126 || 161 <= b <= 172 || 174 <= b <= 255
  }

  // How many bytes below n are not printable.
  function Hidden(n: int): (count: nat)
    requires 0 <= n <= 256
  {
    if n <= 33 then n else if n <= 127 then 33 else if n <= 161 then n - 94 else if n <= 173 then 67 else 68
  }

  // Printable bytes stand for themselves, the others for 256, 257, ... in order.
  function Visible(b: Byte): (cp: CodePoint)
    ensures cp != 0
  {
    if Printable(b) then b else 256 + Hidden(b)
  }

  /** No two bytes share a code point. */
  lemma VisibleIsInjective(a: Byte, b: Byte)
    requires Visible(a) == Visible(b)
    ensures a == b
  {
  }

  predicate Unprintable(b: int) {
    0 <= b <= 32 || 127 <= b <= 160 || b == 173
  }

  ghost function UnprintableBelow(n: nat): set<int> {
    set b | 0 <= b < n && Unprintable(b)
  }

  lemma OneMoreByte(n: nat)
    requires 0 < n <= 256
    ensures UnprintableBelow(n) == UnprintableBelow(n - 1) + if Unprintable(n - 1) then {n - 1} else {}
    ensures Hidden(n) == Hidden(n - 1) + if Unprintable(n - 1) then 1 else 0
  {
  }

  lemma {:induction false} HiddenCounts(n: nat)
    requires n <= 256
    ensures |UnprintableBelow(n)| == Hidden(n)
  {
    hide Hidden, Unprintable;
    if n == 0 {
      assert UnprintableBelow(0) == {} && Hidden(0) == 0 by {
        NothingHidden();
      }
    } else {
      HiddenCounts(n - 1);
      OneMoreByte(n);
    }
  }

  lemma NothingHidden()
    ensures UnprintableBelow(0) == {} && Hidden(0) == 0
  {
  }

  /** A printable byte is its own code point; any other one gets 256 plus the number of smaller ones. */
  lemma VisibleCounts(b: Byte)
    ensures Visible(b) == if 0 <= b <= 32 || 127 <= b <= 160 || b == 173 then
                            256 + |set c | 0 <= c < b && Unprintable(c)|
                          else b
  {
    HiddenCounts(b);
    assert UnprintableBelow(b) == set c | 0 <= c < b && Unprintable(c);
  }

  // The order in which the table assigns code points: entry i gets itself if i < 188, else 256 + (i - 188).
  ghost function Assigned(b: Byte, i: nat): CodePoint
    requires i < 256
  {
    if i < 188 then b else 256 + (i - 188)
  }

  // The three printable ranges, in order.
  method PrintableBytes() returns (list: seq<Byte>)
    ensures |list| == 188
    ensures forall j :: 0 <= j < 188 ==> Printable(list[j])
    ensures forall b: Byte :: Printable(b) ==> b in list
  {
    list := [];
    for i := 33 to 127
      invariant |list| == i - 33 && forall j :: 0 <= j < |list| ==> list[j] == 33 + j
    {
      list := list + [i];
    }
    for i := 161 to 173
      invariant |list| == 94 + (i - 161)
      invariant forall j :: 0 <= j < |list| ==> list[j] == if j < 94 then 33 + j else 67 + j
    {
      list := list + [i];
    }
    for i := 174 to 256
      invariant |list| == 106 + (i - 174)
      invariant forall j :: 0 <= j < |list| ==>
        list[j] == if j < 94 then 33 + j else if j < 106 then 67 + j else 68 + j
    {
      list := list + [i];
    }
    forall b: Byte | Printable(b) ensures b in list {
      var j := if b <= 126 then b - 33 else if b <= 172 then b - 67 else b - 68;
      assert list[j] == b;
    }
  }

  /** The table built by the loops is `Visible`, on all 256 bytes. */
  method BuildBytesToUnicode() returns (table: map<Byte, CodePoint>)
    ensures forall b: Byte :: b in table && table[b] == Visible(b)
  {
    var list := PrintableBytes();
    var used := set b | b in list;
    for b := 0 to 256
      invariant |list| == 188 + Hidden(b)
      invariant forall j :: 0 <= j < |list| ==> Assigned(list[j], j) == Visible(list[j])
      invariant forall c: Byte :: Printable(c) || c < b ==> c in list
    {
      if b !in used {
        var longer := list + [b];
        assert forall c :: c in list ==> c in longer;
        list := longer;
      }
    }
    table := map[];
    for i := 0 to |list|
      invariant forall j :: 0 <= j < i ==> list[j] in table
      invariant forall b: Byte :: b in table ==> table[b] == Visible(b)
    {
      var b := list[i];
      var cp: CodePoint := if i < 188 then b else 256 + (i - 188);
      assert cp == Assigned(list[i], i);
      table := table[b := cp];
    }
    forall b: Byte ensures b in table {
      assert b in list;
    }
  }

  /** The inverse table, for any order in which the first one is walked. */
  method BuildUnicodeToBytes(table: map<Byte, CodePoint>) returns (inverse: map<CodePoint, Byte>)
    requires forall b: Byte :: b in table && table[b] == Visible(b)
    ensures forall b: Byte :: Visible(b) in inverse && inverse[Visible(b)] == b
    ensures forall cp :: cp in inverse ==> cp == Visible(inverse[cp])
  {
    inverse := map[];
    var left := table.Keys;
    while left != {}
      invariant left <= table.Keys
      invariant forall b: Byte :: b !in left ==> Visible(b) in inverse
      invariant forall cp :: cp in inverse ==> cp == Visible(inverse[cp])
      decreases |left|
    {
      var b :| b in left;
      inverse := inverse[table[b] := b];
      left := left - {b};
    }
    forall b: Byte ensures Visible(b) in inverse && inverse[Visible(b)] == b {
      VisibleIsInjective(inverse[Visible(b)], b);
    }
  }

  /* ---------------------------------- spelling ---------------------------------- */

  ghost predicate IsVisible(cp: CodePoint) {
    exists b: Byte :: Visible(b) == cp
  }

  ghost function Hiding(cp: CodePoint): (b: Byte)
    requires IsVisible(cp)
    ensures Visible(b) == cp
  {
    var b: Byte :| Visible(b) == cp;
    b
  }

  ghost function Shown(bytes: seq<Byte>): (cps: seq<CodePoint>)
    ensures |cps| == |bytes|
  {
    seq(|bytes|, i requires 0 <= i < |bytes| => Visible(bytes[i]))
  }

  // The text that spells a byte string.
  ghost function Spell(bytes: seq<Byte>): seq<Byte> {
    Encode(Shown(bytes))
  }

  // The bytes behind a list of code points; those that stand for no byte are skipped.
  ghost function Unshown(cps: seq<CodePoint>): seq<Byte> {
    if cps == [] then []
    else (if IsVisible(cps[0]) then [Hiding(cps[0])] else []) + Unshown(cps[1..])
  }

  // The bytes a text spells.
  ghost function Unspell(text: seq<Byte>): seq<Byte> {
    Unshown(Decode(text))
  }

  lemma {:induction false} UnshownShown(bytes: seq<Byte>)
    ensures Unshown(Shown(bytes)) == bytes
  {
    if bytes != [] {
      var b := bytes[0];
      assert Shown(bytes)[0] == Visible(b) && Shown(bytes)[1..] == Shown(bytes[1..]);
      VisibleIsInjective(Hiding(Visible(b)), b);
      UnshownShown(bytes[1..]);
    }
  }

  lemma ShownSurvives(bytes: seq<Byte>)
    ensures Decode(Spell(bytes)) == Shown(bytes)
  {
    DecodeEncode(Shown(bytes));
  }

  /** Reading back a spelled byte string gives the byte string, whatever the bytes. */
  lemma UnspellSpell(bytes: seq<Byte>)
    ensures Unspell(Spell(bytes)) == bytes
  {
    DecodeEncode(Shown(bytes));
    UnshownShown(bytes);
  }

  lemma {:induction false} EncodeConcat(a: seq<CodePoint>, b: seq<CodePoint>)
    ensures Encode(a + b) == Encode(a) + Encode(b)
  {
    if a == [] {
      assert a + b == b;
    } else {
      assert (a + b)[0] == a[0] && (a + b)[1..] == a[1..] + b;
      EncodeConcat(a[1..], b);
      assert EncodeOne(a[0]) + (Encode(a[1..]) + Encode(b)) == Encode(a) + Encode(b);
    }
  }

  lemma SpellConcat(a: seq<Byte>, b: seq<Byte>)
    ensures Spell(a + b) == Spell(a) + Spell(b)
  {
    assert Shown(a + b) == Shown(a) + Shown(b);
    EncodeConcat(Shown(a), Shown(b));
  }

  /** The loop that spells a byte string through the table. */
  method ByteEncode(text: seq<Byte>, table: map<Byte, CodePoint>) returns (encoded: seq<Byte>)
    requires forall b: Byte :: b in table && table[b] == Visible(b)
    ensures encoded == Spell(text)
  {
    hide Encode;
    encoded := [];
    EmptySpell();
    for i := 0 to |text|
      invariant encoded == Spell(text[..i])
    {
      var one := CodepointsToUtf8([table[text[i]]]);
      assert text[..i + 1] == text[..i] + [text[i]];
      assert Shown([text[i]]) == [Visible(text[i])];
      SpellConcat(text[..i], [text[i]]);
      encoded := encoded + one;
    }
    assert text[..|text|] == text;
  }

  lemma EmptySpell()
    ensures Spell([]) == []
  {
  }

  // Appends the bytes behind a token's code points.
  method AppendBytes(bytes: seq<Byte>, token: seq<Byte>, inverse: map<CodePoint, Byte>) returns (out: seq<Byte>)
    requires forall b: Byte :: Visible(b) in inverse && inverse[Visible(b)] == b
    requires forall cp :: cp in inverse ==> cp == Visible(inverse[cp])
    ensures out == bytes + Unspell(token)
  {
    var cps := Utf8ToCodepoints(token);
    out := bytes;
    assert cps[0..] == cps;
    for i := 0 to |cps|
      invariant bytes + Unshown(cps) == out + Unshown(cps[i..])
    {
      var c := cps[i];
      assert cps[i..][1..] == cps[i + 1..];
      ghost var rest := Unshown(cps[i + 1..]);
      if c in inverse {
        VisibleIsInjective(Hiding(c), inverse[c]);
        assert out + ([inverse[c]] + rest) == (out + [inverse[c]]) + rest;
        out := out + [inverse[c]];
      } else {
        assert !IsVisible(c);
        assert [] + rest == rest;
      }
    }
    assert out + [] == out;
  }
}
