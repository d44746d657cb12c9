/** The tokenizer's UTF-8 codec: a lenient decoder that skips invalid lead bytes, drops sequences with a
    bad continuation byte or the value zero, and tolerates truncation; and the encoder. */
module Utf8 {
  import opened Basics

  type CodePoint = c: int | 0 <= c < 0x20_0000

  // Byte length announced by a lead byte; an invalid lead byte counts as one byte.
  function SequenceLength(c: Byte): (len: nat)
    ensures 1 <= len <= 4
  {
    if c / 128 == 0 then 1
    else if c / 32 == 6 then 2
    else if c / 16 == 14 then 3
    else if c / 8 == 30 then 4
    else 1
  }

  function InvalidLead(c: Byte): bool {
    SequenceLength(c) == 1 && c >= 128
  }

  // The payload bits of a lead byte: all of them for one byte, the mask 0xFF >> len otherwise.
  function LeadBits(c: Byte): (bits: nat)
    requires !InvalidLead(c)
    ensures bits < Limit(SequenceLength(c), 1)
  {
    match SequenceLength(c)
    case 1 => c
    case 2 => c % 64
    case 3 => c % 32
    case _ => c % 16
  }

  // Bound on the value after j bytes of a sequence of len bytes.
  function Limit(len: nat, j: nat): (limit: nat)
    ensures 0 < limit
    ensures 1 <= len <= 4 && 1 <= j <= len ==> limit <= 0x20_0000
  {
    var base := if len == 1 then 128 else if len == 2 then 32 else if len == 3 then 16 else 8;
    if j <= 1 then base else if j == 2 then base * 64 else if j == 3 then base * 4096 else base * 262144
  }

  // Continuation bytes j.. of the sequence at the start of s: stops at the end of the text, and a byte
  // that is no continuation byte makes the whole value zero.
  function Gather(s: seq<Byte>, len: nat, j: nat, cp: nat): (r: CodePoint)
    requires 1 <= j <= len <= 4 && cp < Limit(len, j)
    decreases len - j
  {
    if j < len && j < |s| then
      if s[j] / 64 != 2 then 0 else Gather(s, len, j + 1, cp * 64 + s[j] % 64)
    else cp
  }

  function Kept(cp: CodePoint): seq<CodePoint> {
    if cp != 0 then [cp] else []
  }

  function Skip(s: seq<Byte>, n: nat): seq<Byte> {
    if n <= |s| then s[n..] else []
  }

  // The decoder as a function of the text that is left.
  function Decode(s: seq<Byte>): seq<CodePoint>
    decreases |s|
  {
    if s == [] then []
    else if InvalidLead(s[0]) then Decode(s[1..])
    else
      var len := SequenceLength(s[0]);
      Kept(Gather(s, len, 1, LeadBits(s[0]))) + Decode(Skip(s, len))
  }

  function EncodeOne(cp: CodePoint): (s: seq<Byte>)
    ensures 1 <= |s| <= 4
  {
    if cp <= 0x7F then [cp]
    else if cp <= 0x7FF then [192 + cp / 64, 128 + cp % 64]
    else if cp <= 0xFFFF then [224 + cp / 4096, 128 + cp / 64 % 64, 128 + cp % 64]
    else [240 + cp / 262144, 128 + cp / 4096 % 64, 128 + cp / 64 % 64, 128 + cp % 64]
  }

  function Encode(cps: seq<CodePoint>): seq<Byte> {
    if cps == [] then [] else EncodeOne(cps[0]) + Encode(cps[1..])
  }

  /* ---------------------------------- the loops ---------------------------------- */

  // One step of the decoder at position i of a text.
  lemma DecodeAt(s: seq<Byte>, i: nat)
    requires i < |s|
    ensures Decode(Skip(s, i)) ==
            if InvalidLead(s[i]) then Decode(Skip(s, i + 1))
            else
              Kept(Gather(s[i..], SequenceLength(s[i]), 1, LeadBits(s[i]))) + Decode(Skip(s, i + SequenceLength(s[i])))
  {
    hide Gather, LeadBits;
    var rest := s[i..];
    assert rest[0] == s[i] && rest[1..] == Skip(s, i + 1);
    assert Skip(rest, SequenceLength(s[i])) == Skip(s, i + SequenceLength(s[i]));
  }

  // The code points found in the bytes before position i.
  ghost predicate DecodedUpTo(s: seq<Byte>, i: nat, out: seq<CodePoint>) {
    Decode(s) == out + Decode(Skip(s, i))
  }

  lemma DecodedSkips(s: seq<Byte>, i: nat, out: seq<CodePoint>)
    requires i < |s| && InvalidLead(s[i]) && DecodedUpTo(s, i, out)
    ensures DecodedUpTo(s, i + 1, out)
  {
    hide Decode, Skip, InvalidLead;
    DecodeAt(s, i);
  }

  lemma DecodedAdds(s: seq<Byte>, i: nat, out: seq<CodePoint>, cp: CodePoint)
    requires i < |s| && !InvalidLead(s[i]) && DecodedUpTo(s, i, out)
    requires cp == Gather(s[i..], SequenceLength(s[i]), 1, LeadBits(s[i]))
    ensures DecodedUpTo(s, i + SequenceLength(s[i]), out + Kept(cp))
  {
    hide Decode, Skip, InvalidLead, Gather, LeadBits, SequenceLength, Kept;
    DecodeAt(s, i);
    Associate(out, Kept(cp), Decode(Skip(s, i + SequenceLength(s[i]))));
  }

  lemma DecodedStarts(s: seq<Byte>)
    ensures DecodedUpTo(s, 0, [])
  {
    hide Decode;
    assert Skip(s, 0) == s;
  }

  lemma DecodedEnds(s: seq<Byte>, i: nat, out: seq<CodePoint>)
    requires i >= |s| && DecodedUpTo(s, i, out)
    ensures out == Decode(s)
  {
    assert Skip(s, i) == [] && Decode([]) == [];
  }

  method Utf8ToCodepoints(s: seq<Byte>) returns (out: seq<CodePoint>)
    ensures out == Decode(s)
  {
    hide Gather, LeadBits, SequenceLength, Decode, DecodedUpTo;
    out := [];
    var i := 0;
    DecodedStarts(s);
    while i < |s|
      invariant 0 <= i && DecodedUpTo(s, i, out)
      decreases |s| - i
    {
      var c := s[i];
      var len := SequenceLength(c);
      if len == 1 && c >= 128 {
        DecodedSkips(s, i, out);
        i := i + 1;
        continue;
      }
      var cp := GatherSequence(s, i, len);
      DecodedAdds(s, i, out, cp);
      if cp != 0 {
        out := out + [cp];
      } else {
        assert out + [] == out;
      }
      i := i + len;
    }
    DecodedEnds(s, i, out);
  }

  // One continuation byte.
  lemma GatherAt(s: seq<Byte>, len: nat, j: nat, cp: nat)
    requires 1 <= j < len <= 4 && cp < Limit(len, j)
    ensures j >= |s| ==> Gather(s, len, j, cp) == cp
    ensures j < |s| && s[j] / 64 != 2 ==> Gather(s, len, j, cp) == 0
    ensures j < |s| && s[j] / 64 == 2 ==>
              var more := cp * 64 + s[j] % 64;
              more < Limit(len, j + 1) && Gather(s, len, j, cp) == Gather(s, len, j + 1, more)
  {
    assert Limit(len, j + 1) == Limit(len, j) * 64;
  }

  lemma GatherDone(s: seq<Byte>, len: nat, cp: nat)
    requires 1 <= len <= 4 && cp < Limit(len, len)
    ensures Gather(s, len, len, cp) == cp
  {
  }

  // The continuation bytes of the sequence at i.
  method GatherSequence(s: seq<Byte>, i: nat, len: nat) returns (cp: nat)
    requires i < |s| && !InvalidLead(s[i]) && len == SequenceLength(s[i])
    ensures cp == Gather(s[i..], len, 1, LeadBits(s[i]))
  {
    hide Gather, LeadBits, Limit, SequenceLength;
    cp := LeadBits(s[i]);
    ghost var rest, lead := s[i..], cp;
    for j := 1 to len
      invariant cp < Limit(len, j)
      invariant Gather(rest, len, 1, lead) == Gather(rest, len, j, cp)
    {
      GatherAt(rest, len, j, cp);
      if i + j >= |s| {
        return;
      }
      assert rest[j] == s[i + j];
      if s[i + j] / 64 != 2 {
        return 0;
      }
      cp := cp * 64 + s[i + j] % 64;
    }
    GatherDone(rest, len, cp);
  }

  method CodepointsToUtf8(cps: seq<CodePoint>) returns (out: seq<Byte>)
    ensures out == Encode(cps)
  {
    hide Encode, EncodeOne, EncodedUpTo;
    out := [];
    EncodedStarts(cps);
    for i := 0 to |cps|
      invariant EncodedUpTo(cps, i, out)
    {
      EncodedAdds(cps, i, out);
      out := PushCodepoint(out, cps[i]);
    }
    EncodedEnds(cps, out);
  }

  // The bytes of the code points before position i.
  ghost predicate EncodedUpTo(cps: seq<CodePoint>, i: nat, out: seq<Byte>)
    requires i <= |cps|
  {
    Encode(cps) == out + Encode(cps[i..])
  }

  lemma EncodedStarts(cps: seq<CodePoint>)
    ensures EncodedUpTo(cps, 0, [])
  {
    hide Encode;
    EncodeAt(cps, 0);
  }

  lemma EncodedAdds(cps: seq<CodePoint>, i: nat, out: seq<Byte>)
    requires i < |cps| && EncodedUpTo(cps, i, out)
    ensures EncodedUpTo(cps, i + 1, out + EncodeOne(cps[i]))
  {
    hide Encode, EncodeOne;
    EncodeAt(cps, i);
    Associate(out, EncodeOne(cps[i]), Encode(cps[i + 1..]));
  }

  lemma EncodedEnds(cps: seq<CodePoint>, out: seq<Byte>)
    requires EncodedUpTo(cps, |cps|, out)
    ensures out == Encode(cps)
  {
    hide Encode;
    EncodeAt(cps, |cps|);
    assert out + [] == out;
  }

  method PushCodepoint(text: seq<Byte>, cp: CodePoint) returns (out: seq<Byte>)
    ensures out == text + EncodeOne(cp)
  {
    out := text;
    if cp <= 0x7F {
      out := out + [cp];
    } else if cp <= 0x7FF {
      out := out + [192 + cp / 64, 128 + cp % 64];
    } else if cp <= 0xFFFF {
      out := out + [224 + cp / 4096, 128 + cp / 64 % 64, 128 + cp % 64];
    } else {
      out := out + [240 + cp / 262144, 128 + cp / 4096 % 64, 128 + cp / 64 % 64, 128 + cp % 64];
    }
  }

  lemma EncodeAt(cps: seq<CodePoint>, i: nat)
    requires i <= |cps|
    ensures cps[0..] == cps
    ensures Encode(cps[i..]) == if i == |cps| then [] else EncodeOne(cps[i]) + Encode(cps[i + 1..])
  {
    if i < |cps| {
      assert cps[i..][1..] == cps[i + 1..];
    }
  }

  /* ---------------------------------- decoding what was encoded ---------------------------------- */

  ghost function NonZero(cps: seq<CodePoint>): seq<CodePoint> {
    if cps == [] then [] else Kept(cps[0]) + NonZero(cps[1..])
  }

  lemma GatherThree(s: seq<Byte>, a: nat)
    requires a < 16 && |s| >= 3 && s[1] / 64 == 2 && s[2] / 64 == 2
    ensures Gather(s, 3, 1, a) == (a * 64 + s[1] % 64) * 64 + s[2] % 64
  {
    assert Gather(s, 3, 2, a * 64 + s[1] % 64) == (a * 64 + s[1] % 64) * 64 + s[2] % 64;
  }

  lemma GatherFour(s: seq<Byte>, a: nat)
    requires a < 8 && |s| >= 4 && s[1] / 64 == 2 && s[2] / 64 == 2 && s[3] / 64 == 2
    ensures Gather(s, 4, 1, a) == ((a * 64 + s[1] % 64) * 64 + s[2] % 64) * 64 + s[3] % 64
  {
    var b := a * 64 + s[1] % 64;
    var c := b * 64 + s[2] % 64;
    assert Gather(s, 4, 3, c) == c * 64 + s[3] % 64;
    assert Gather(s, 4, 2, b) == Gather(s, 4, 3, c);
  }

  // A continuation byte carries six bits.
  lemma Continuation(x: nat)
    requires x < 64
    ensures (128 + x) / 64 == 2 && (128 + x) % 64 == x
  {
  }

  lemma LeadOfThree(x: nat)
    requires x < 16
    ensures SequenceLength(224 + x) == 3 && LeadBits(224 + x) == x
  {
  }

  lemma LeadOfFour(x: nat)
    requires x < 8
    ensures SequenceLength(240 + x) == 4 && LeadBits(240 + x) == x
  {
  }

  // The lead byte and the value gathered from an encoding, by its length.
  lemma GatherEncodedTwo(cp: CodePoint, s: seq<Byte>)
    requires 0x7F < cp <= 0x7FF && EncodeOne(cp) <= s
    ensures SequenceLength(s[0]) == 2 && Gather(s, 2, 1, LeadBits(s[0])) == cp
  {
    Continuation(cp % 64);
    assert s[0] == EncodeOne(cp)[0] && s[1] == EncodeOne(cp)[1];
  }

  lemma BytesOfThree(cp: CodePoint, s: seq<Byte>)
    requires 0x7FF < cp <= 0xFFFF && EncodeOne(cp) <= s
    ensures |s| >= 3 && s[0] == 224 + cp / 4096 && s[1] == 128 + cp / 64 % 64 && s[2] == 128 + cp % 64
  {
    var e := EncodeOne(cp);
    assert s[0] == e[0] && s[1] == e[1] && s[2] == e[2];
  }

  lemma DigitsOfThree(cp: CodePoint)
    requires cp <= 0xFFFF
    ensures cp / 4096 < 16 && cp == (cp / 4096 * 64 + cp / 64 % 64) * 64 + cp % 64
  {
  }

  lemma GatherEncodedThree(cp: CodePoint, s: seq<Byte>)
    requires 0x7FF < cp <= 0xFFFF && EncodeOne(cp) <= s
    ensures SequenceLength(s[0]) == 3 && Gather(s, 3, 1, LeadBits(s[0])) == cp
  {
    hide Gather, LeadBits, SequenceLength, EncodeOne;
    BytesOfThree(cp, s);
    DigitsOfThree(cp);
    Continuation(cp / 64 % 64);
    Continuation(cp % 64);
    LeadOfThree(cp / 4096);
    GatherThree(s, cp / 4096);
  }

  lemma BytesOfFour(cp: CodePoint, s: seq<Byte>)
    requires 0xFFFF < cp && EncodeOne(cp) <= s
    ensures |s| >= 4 && s[0] == 240 + cp / 262144
    ensures s[1] == 128 + cp / 4096 % 64 && s[2] == 128 + cp / 64 % 64 && s[3] == 128 + cp % 64
  {
    var e := EncodeOne(cp);
    assert s[0] == e[0] && s[1] == e[1] && s[2] == e[2] && s[3] == e[3];
  }

  lemma DigitsOfFour(cp: CodePoint)
    ensures cp / 262144 < 8
    ensures cp == ((cp / 262144 * 64 + cp / 4096 % 64) * 64 + cp / 64 % 64) * 64 + cp % 64
  {
  }

  lemma GatherEncodedFour(cp: CodePoint, s: seq<Byte>)
    requires 0xFFFF < cp && EncodeOne(cp) <= s
    ensures SequenceLength(s[0]) == 4 && Gather(s, 4, 1, LeadBits(s[0])) == cp
  {
    hide Gather, LeadBits, SequenceLength, EncodeOne;
    BytesOfFour(cp, s);
    DigitsOfFour(cp);
    Continuation(cp / 4096 % 64);
    Continuation(cp / 64 % 64);
    Continuation(cp % 64);
    LeadOfFour(cp / 262144);
    GatherFour(s, cp / 262144);
  }

  lemma GatherEncoded(cp: CodePoint, s: seq<Byte>)
    requires EncodeOne(cp) <= s
    ensures !InvalidLead(s[0]) && SequenceLength(s[0]) == |EncodeOne(cp)|
    ensures Gather(s, |EncodeOne(cp)|, 1, LeadBits(s[0])) == cp
  {
    hide Gather;
    if cp <= 0x7F {
      GatherEncodedOne(cp, s);
    } else if cp <= 0x7FF {
      GatherEncodedTwo(cp, s);
    } else if cp <= 0xFFFF {
      GatherEncodedThree(cp, s);
    } else {
      GatherEncodedFour(cp, s);
    }
  }

  lemma GatherEncodedOne(cp: CodePoint, s: seq<Byte>)
    requires cp <= 0x7F && EncodeOne(cp) <= s
    ensures SequenceLength(s[0]) == 1 && !InvalidLead(s[0]) && Gather(s, 1, 1, LeadBits(s[0])) == cp
  {
    assert s[0] == EncodeOne(cp)[0];
  }

  lemma DecodeFirst(cp: CodePoint, rest: seq<Byte>)
    ensures Decode(EncodeOne(cp) + rest) == Kept(cp) + Decode(rest)
  {
    var s := EncodeOne(cp) + rest;
    hide Gather, EncodeOne;
    GatherEncoded(cp, s);
    assert Skip(s, |EncodeOne(cp)|) == rest;
  }

  /** Decoding an encoding followed by anything gives back the non-zero code points, then the rest. */
  lemma {:induction false} DecodeEncodeThen(cps: seq<CodePoint>, rest: seq<Byte>)
    ensures Decode(Encode(cps) + rest) == NonZero(cps) + Decode(rest)
  {
    hide EncodeOne, Decode, Kept;
    if cps == [] {
      assert Encode(cps) + rest == rest;
      assert NonZero(cps) + Decode(rest) == Decode(rest);
    } else {
      var tail := Encode(cps[1..]) + rest;
      Associate(EncodeOne(cps[0]), Encode(cps[1..]), rest);
      DecodeFirst(cps[0], tail);
      DecodeEncodeThen(cps[1..], rest);
      Associate(Kept(cps[0]), NonZero(cps[1..]), Decode(rest));
    }
  }

  /** The decoder inverts the encoder exactly on the lists without a zero; a zero is lost. */
  lemma DecodeEncode(cps: seq<CodePoint>)
    ensures Decode(Encode(cps)) == NonZero(cps)
    ensures Decode(Encode(cps)) == cps <==> forall i :: 0 <= i < |cps| ==> cps[i] != 0
  {
    DecodeEncodeThen(cps, []);
    assert Encode(cps) + [] == Encode(cps);
    assert NonZero(cps) + Decode([]) == NonZero(cps);
    NonZeroKeepsAll(cps);
  }

  lemma {:induction false} NonZeroKeepsAll(cps: seq<CodePoint>)
    ensures |NonZero(cps)| <= |cps|
    ensures NonZero(cps) == cps <==> forall i :: 0 <= i < |cps| ==> cps[i] != 0
  {
    if cps != [] {
      var rest := cps[1..];
      NonZeroKeepsAll(rest);
      assert forall i :: 0 < i < |cps| ==> cps[i] == rest[i - 1];
      assert cps == [cps[0]] + rest;
      if cps[0] != 0 && NonZero(cps) == cps {
        assert NonZero(cps)[1..] == NonZero(rest);
      }
    }
  }

  /* ---------------------------------- encoding what was decoded ---------------------------------- */

  predicate Tail(b: Byte) {
    128 <= b <= 191
  }

  // The byte sequence of one non-zero code point below 0x200000, in its shortest form.
  predicate CanonicalUnit(u: seq<Byte>) {
    match |u|
    case 1 => 1 <= u[0] <= 0x7F
    case 2 => 0xC2 <= u[0] <= 0xDF && Tail(u[1])
    case 3 => 0xE0 <= u[0] <= 0xEF && Tail(u[1]) && Tail(u[2]) && (u[0] == 0xE0 ==> 0xA0 <= u[1])
    case 4 => 0xF0 <= u[0] <= 0xF7 && Tail(u[1]) && Tail(u[2]) && Tail(u[3]) && (u[0] == 0xF0 ==> 0x90 <= u[1])
    case _ => false
  }

  // The byte sequence of one Unicode scalar value: the syntax of section 4 of RFC 3629.
  predicate WellFormedUnit(u: seq<Byte>) {
    match |u|
    case 1 => u[0] <= 0x7F
    case 2 => 0xC2 <= u[0] <= 0xDF && Tail(u[1])
    case 3 =>
      || (u[0] == 0xE0 && 0xA0 <= u[1] <= 0xBF && Tail(u[2]))
      || (0xE1 <= u[0] <= 0xEC && Tail(u[1]) && Tail(u[2]))
      || (u[0] == 0xED && 0x80 <= u[1] <= 0x9F && Tail(u[2]))
      || (0xEE <= u[0] <= 0xEF && Tail(u[1]) && Tail(u[2]))
    case 4 =>
      || (u[0] == 0xF0 && 0x90 <= u[1] <= 0xBF && Tail(u[2]) && Tail(u[3]))
      || (0xF1 <= u[0] <= 0xF3 && Tail(u[1]) && Tail(u[2]) && Tail(u[3]))
      || (u[0] == 0xF4 && 0x80 <= u[1] <= 0x8F && Tail(u[2]) && Tail(u[3]))
    case _ => false
  }

  ghost predicate Canonical(s: seq<Byte>)
    decreases |s|
  {
    s != [] ==>
      var n := SequenceLength(s[0]);
      n <= |s| && CanonicalUnit(s[..n]) && Canonical(s[n..])
  }

  ghost predicate WellFormed(s: seq<Byte>)
    decreases |s|
  {
    s != [] ==>
      var n := SequenceLength(s[0]);
      n <= |s| && WellFormedUnit(s[..n]) && WellFormed(s[n..])
  }

  ghost predicate Scalar(cp: CodePoint) {
    cp < 0xD800 || 0xE000 <= cp < 0x11_0000
  }

  function ValueOf(u: seq<Byte>): (cp: CodePoint)
    requires CanonicalUnit(u)
  {
    match |u|
    case 1 => u[0]
    case 2 =>
      var a: int, b: int := u[0] - 192, u[1] - 128;
      a * 64 + b
    case 3 =>
      var a: int, b: int, c: int := u[0] - 224, u[1] - 128, u[2] - 128;
      (a * 64 + b) * 64 + c
    case _ =>
      var a: int, b: int, c: int, d: int := u[0] - 240, u[1] - 128, u[2] - 128, u[3] - 128;
      ((a * 64 + b) * 64 + c) * 64 + d
  }

  lemma CanonicalUnitEncodes(u: seq<Byte>)
    requires CanonicalUnit(u)
    ensures ValueOf(u) != 0 && EncodeOne(ValueOf(u)) == u
  {
    hide EncodeOne, ValueOf;
    if |u| == 1 {
      OneByteUnitEncodes(u);
    } else if |u| == 2 {
      TwoByteUnitEncodes(u);
    } else if |u| == 3 {
      ThreeByteUnitEncodes(u);
    } else if |u| == 4 {
      FourByteUnitEncodes(u);
    }
  }

  lemma OneByteUnitEncodes(u: seq<Byte>)
    requires |u| == 1 && CanonicalUnit(u)
    ensures ValueOf(u) != 0 && EncodeOne(ValueOf(u)) == u
  {
  }

  lemma TwoByteUnitEncodes(u: seq<Byte>)
    requires |u| == 2 && CanonicalUnit(u)
    ensures 0x7F < ValueOf(u) <= 0x7FF && EncodeOne(ValueOf(u)) == u
  {
  }

  lemma ThreeByteUnitEncodes(u: seq<Byte>)
    requires |u| == 3 && CanonicalUnit(u)
    ensures 0x7FF < ValueOf(u) <= 0xFFFF && EncodeOne(ValueOf(u)) == u
  {
    Sixties(u[0] - 224, u[1] - 128, u[2] - 128);
  }

  lemma FourByteUnitEncodes(u: seq<Byte>)
    requires |u| == 4 && CanonicalUnit(u)
    ensures 0xFFFF < ValueOf(u) && EncodeOne(ValueOf(u)) == u
  {
    SixtiesFour(u[0] - 240, u[1] - 128, u[2] - 128, u[3] - 128);
  }

  lemma Sixties(a: nat, b: nat, c: nat)
    requires a < 16 && b < 64 && c < 64
    ensures var v := (a * 64 + b) * 64 + c;
            v / 4096 == a && v / 64 % 64 == b && v % 64 == c
  {
  }

  lemma SixtiesFour(a: nat, b: nat, c: nat, d: nat)
    requires a < 8 && b < 64 && c < 64 && d < 64
    ensures var v := ((a * 64 + b) * 64 + c) * 64 + d;
            v / 262144 == a && v / 4096 % 64 == b && v / 64 % 64 == c && v % 64 == d
  {
  }

  /** The decoder reads a sequence in shortest form as its positional value, whatever follows it. */
  lemma UnitDecodes(u: seq<Byte>, rest: seq<Byte>)
    requires CanonicalUnit(u)
    ensures Decode(u + rest) == [ValueOf(u)] + Decode(rest)
  {
    hide CanonicalUnit, EncodeOne, ValueOf, Decode;
    CanonicalUnitEncodes(u);
    DecodeFirst(ValueOf(u), rest);
  }

  /** A code point is encoded by the shortest sequence with its value. */
  lemma EncodingHasValue(cp: CodePoint)
    requires cp != 0
    ensures CanonicalUnit(EncodeOne(cp)) && ValueOf(EncodeOne(cp)) == cp
  {
    hide EncodeOne, CanonicalUnit, ValueOf;
    EncodingIsCanonicalUnit(cp);
    var u := EncodeOne(cp);
    UnitDecodes(u, []);
    DecodeFirst(cp, []);
    assert u + [] == u && [ValueOf(u)] + Decode([]) == Kept(cp) + Decode([]);
    assert ([ValueOf(u)] + Decode([]))[0] == (Kept(cp) + Decode([]))[0];
  }

  // How many bytes the ranges of lead bytes announce; none for a byte that leads nothing.
  function Announced(c: Byte): nat {
    if c <= 0x7F then 1 else if c <= 0xBF then 0 else if c <= 0xDF then 2 else if c <= 0xEF then 3
    else if c <= 0xF7 then 4 else 0
  }

  /** A byte that leads nothing is skipped alone. A sequence with a byte that continues nothing is dropped at
      its announced length. */
  lemma MalformedIsDropped(s: seq<Byte>, j: nat)
    requires s != []
    ensures Announced(s[0]) == 0 ==> Decode(s) == Decode(s[1..])
    ensures 0 < j < Announced(s[0]) && j < |s| && !Tail(s[j]) ==>
              Decode(s) == Decode(if Announced(s[0]) <= |s| then s[Announced(s[0])..] else [])
  {
    hide Decode, LeadBits;
    DecodeAt(s, 0);
    assert Skip(s, 0) == s;
    if Announced(s[0]) == 0 {
      assert InvalidLead(s[0]) && Skip(s, 1) == s[1..];
    } else if 0 < j < Announced(s[0]) && j < |s| && !Tail(s[j]) {
      var n := SequenceLength(s[0]);
      assert n == Announced(s[0]) && s[0..] == s;
      GatherBreaks(s, n, 1, LeadBits(s[0]), j);
    }
  }

  lemma GatherBreaks(s: seq<Byte>, len: nat, from: nat, cp: nat, j: nat)
    requires 1 <= from <= j < len <= 4 && j < |s| && cp < Limit(len, from) && !Tail(s[j])
    ensures Gather(s, len, from, cp) == 0
    decreases j - from
  {
    GatherAt(s, len, from, cp);
    if from < j && s[from] / 64 == 2 {
      GatherBreaks(s, len, from + 1, cp * 64 + s[from] % 64, j);
    }
  }

  // The positional value of the first bytes of a longer sequence.
  ghost function StartValue(s: seq<Byte>): int
    requires s != []
  {
    var last: int := s[|s| - 1];
    if |s| > 1 then StartValue(s[..|s| - 1]) * 64 + (last - 0x80)
    else if last <= 0xDF then last - 0xC0
    else if last <= 0xEF then last - 0xE0
    else last - 0xF0
  }

  lemma LeadOf(c: Byte)
    requires Announced(c) > 1
    ensures !InvalidLead(c) && SequenceLength(c) == Announced(c) && LeadBits(c) == StartValue([c])
  {
  }

  // The bytes from position `from` on add their bits to those before.
  lemma GatherStart(s: seq<Byte>, len: nat, from: nat, cp: nat)
    requires 1 <= from <= |s| < len <= 4 && cp < Limit(len, from) && cp == StartValue(s[..from])
    requires forall j :: 0 < j < |s| ==> Tail(s[j])
    ensures Gather(s, len, from, cp) == StartValue(s)
    decreases |s| - from
  {
    hide Gather, Limit;
    GatherAt(s, len, from, cp);
    if from < |s| {
      assert s[..from + 1][..from] == s[..from];
      GatherStart(s, len, from + 1, cp * 64 + s[from] % 64);
    } else {
      assert s[..from] == s;
    }
  }

  /** A sequence cut off by the end of the text keeps the value of the bytes that are there. */
  lemma CutOffIsKept(s: seq<Byte>)
    requires s != [] && |s| < Announced(s[0]) && forall j :: 0 < j < |s| ==> Tail(s[j])
    ensures Decode(s) == if StartValue(s) == 0 then [] else [StartValue(s)]
  {
    hide Decode, Gather, LeadBits, SequenceLength, Announced, StartValue, Limit;
    var n := SequenceLength(s[0]);
    LeadOf(s[0]);
    AnnouncedAtMost(s[0]);
    DecodeAt(s, 0);
    assert Skip(s, 0) == s == s[0..] && Skip(s, n) == [] && s[..1] == [s[0]];
    NothingToDecode();
    GatherStart(s, n, 1, LeadBits(s[0]));
  }

  lemma AnnouncedAtMost(c: Byte)
    ensures Announced(c) <= 4
  {
  }

  lemma NothingToDecode()
    ensures Decode([]) == []
  {
  }

  lemma EncodingIsCanonicalUnit(cp: CodePoint)
    requires cp != 0
    ensures CanonicalUnit(EncodeOne(cp)) && SequenceLength(EncodeOne(cp)[0]) == |EncodeOne(cp)|
  {
  }

  lemma {:induction false} EncodingIsCanonical(cps: seq<CodePoint>)
    requires forall i :: 0 <= i < |cps| ==> cps[i] != 0
    ensures Canonical(Encode(cps))
  {
    hide EncodeOne, CanonicalUnit, SequenceLength;
    if cps != [] {
      EncodingIsCanonicalUnit(cps[0]);
      EncodingIsCanonical(cps[1..]);
      var u, s := EncodeOne(cps[0]), Encode(cps);
      assert s[0] == u[0] && s[..|u|] == u && s[|u|..] == Encode(cps[1..]);
    }
  }

  lemma {:induction false} DecodedAreNonZero(s: seq<Byte>)
    ensures forall i :: 0 <= i < |Decode(s)| ==> Decode(s)[i] != 0
    decreases |s|
  {
    hide Gather, LeadBits, SequenceLength;
    if s != [] {
      if InvalidLead(s[0]) {
        DecodedAreNonZero(s[1..]);
      } else {
        DecodedAreNonZero(Skip(s, SequenceLength(s[0])));
      }
    }
  }

  /** Encoding inverts the decoder exactly on the texts made of shortest-form sequences without NUL. */
  lemma {:induction false} EncodeDecode(s: seq<Byte>)
    ensures Encode(Decode(s)) == s <==> Canonical(s)
  {
    if Canonical(s) {
      CanonicalRoundTrip(s);
    }
    if Encode(Decode(s)) == s {
      DecodedAreNonZero(s);
      EncodingIsCanonical(Decode(s));
    }
  }

  lemma {:induction false} CanonicalRoundTrip(s: seq<Byte>)
    requires Canonical(s)
    ensures Encode(Decode(s)) == s
    decreases |s|
  {
    hide EncodeOne, CanonicalUnit, ValueOf, Gather, LeadBits, SequenceLength;
    if s != [] {
      var n := SequenceLength(s[0]);
      CanonicalUnitEncodes(s[..n]);
      var cp := ValueOf(s[..n]);
      assert s == EncodeOne(cp) + s[n..];
      DecodeFirst(cp, s[n..]);
      CanonicalRoundTrip(s[n..]);
      assert ([cp] + Decode(s[n..]))[1..] == Decode(s[n..]);
    }
  }

  /** Every well-formed text without NUL survives decoding and encoding, and decodes to scalar values. */
  lemma {:induction false} WellFormedRoundTrip(s: seq<Byte>)
    requires WellFormed(s) && 0 !in s
    ensures Encode(Decode(s)) == s
    ensures forall i :: 0 <= i < |Decode(s)| ==> Scalar(Decode(s)[i])
    decreases |s|
  {
    hide EncodeOne, CanonicalUnit, WellFormedUnit, ValueOf, Gather, LeadBits, SequenceLength;
    if s != [] {
      var n := SequenceLength(s[0]);
      WellFormedUnitIsCanonical(s[..n]);
      CanonicalUnitEncodes(s[..n]);
      var cp := ValueOf(s[..n]);
      assert s == EncodeOne(cp) + s[n..];
      DecodeFirst(cp, s[n..]);
      WellFormedRoundTrip(s[n..]);
      assert ([cp] + Decode(s[n..]))[1..] == Decode(s[n..]);
    }
  }

  lemma WellFormedUnitIsCanonical(u: seq<Byte>)
    requires WellFormedUnit(u) && 0 !in u
    ensures CanonicalUnit(u) && Scalar(ValueOf(u))
  {
  }
}
