/**
  UTF-8 as the PIN validator sees it: the well-formed byte sequences of
  table 3-7 of the Unicode Standard, the "valid character" rule that
  excludes surrogates and noncharacters, and a character iterator that
  steps one encoded character at a time.
*/
module Utf8 {
  import opened Wrappers
  import opened Bytes

  const MaxCodePoint := 0x10FFFF

  predicate IsTrail(b: byte)
  {
    0x80 <= b <= 0xBF
  }

  /** The second byte of a multi-byte sequence, whose range depends on the lead byte. */
  predicate SecondByteOk(b0: byte, b1: byte)
  {
    if b0 == 0xE0 then 0xA0 <= b1 <= 0xBF
    else if b0 == 0xED then 0x80 <= b1 <= 0x9F
    else if b0 == 0xF0 then 0x90 <= b1 <= 0xBF
    else if b0 == 0xF4 then 0x80 <= b1 <= 0x8F
    else IsTrail(b1)
  }

  /** Length of the well-formed sequence at the head of `s`, or 0 when the head is ill-formed. */
  function SequenceLength(s: seq<byte>): (n: nat)
    requires |s| > 0
    ensures n <= 4 && n <= |s|
  {
    var b0 := s[0];
    if b0 <= 0x7F then 1
    else if 0xC2 <= b0 <= 0xDF then
      (if 1 < |s| && IsTrail(s[1]) then 2 else 0)
    else if 0xE0 <= b0 <= 0xEF then
      (if 2 < |s| && SecondByteOk(b0, s[1]) && IsTrail(s[2]) then 3 else 0)
    else if 0xF0 <= b0 <= 0xF4 then
      (if 3 < |s| && SecondByteOk(b0, s[1]) && IsTrail(s[2]) && IsTrail(s[3]) then 4 else 0)
    else 0
  }

  /** The code point of the well-formed sequence at the head of `s`. */
  function HeadCodePoint(s: seq<byte>): int
    requires |s| > 0 && SequenceLength(s) > 0
  {
    var n := SequenceLength(s);
    if n == 1 then s[0] as int
    else if n == 2 then (s[0] as int - 0xC0) * 64 + (s[1] as int - 0x80)
    else if n == 3 then ((s[0] as int - 0xE0) * 64 + (s[1] as int - 0x80)) * 64 + (s[2] as int - 0x80)
    else (((s[0] as int - 0xF0) * 64 + (s[1] as int - 0x80)) * 64 + (s[2] as int - 0x80)) * 64 + (s[3] as int - 0x80)
  }

  /** The code points of `s`, or None when `s` is not well-formed UTF-8. */
  function Decode(s: seq<byte>): Option<seq<int>>
    decreases |s|
  {
    if |s| == 0 then Some([])
    else
      var n := SequenceLength(s);
      if n == 0 then None
      else match Decode(s[n..])
        case None => None
        case Some(rest) => Some([HeadCodePoint(s)] + rest)
  }

  /** A Unicode scalar value: any code point except a surrogate. */
  predicate IsScalarValue(cp: int)
  {
    0 <= cp <= MaxCodePoint && !(0xD800 <= cp <= 0xDFFF)
  }

  /**
    A scalar value that is not a noncharacter: U+FDD0..U+FDEF and every
    code point whose low 16 bits are FFFE or FFFF are refused.
  */
  predicate IsValidCharacter(cp: int)
  {
    || (0 <= cp < 0xD800)
    || (0xE000 <= cp < 0xFDD0)
    || (0xFDEF < cp <= MaxCodePoint && cp % 0x10000 < 0xFFFE)
  }

  /** Every code point is a valid character, so in particular a scalar value. */
  predicate AllValidCharacters(cps: seq<int>): (b: bool)
    ensures b ==> AllScalarValues(cps)
  {
    |cps| == 0 || (IsValidCharacter(cps[0]) && AllValidCharacters(cps[1..]))
  }

  /** Well-formed UTF-8 whose every code point is a valid character. */
  predicate IsStringUtf8(s: seq<byte>)
  {
    Decode(s).Some? && AllValidCharacters(Decode(s).value)
  }

  // ---------------------------------------------------------------------
  // The character iterator

  /**
    How far one step of the iterator moves from position `p`: the length
    of the well-formed sequence there, or a single byte over an
    ill-formed one.
  */
  function Step(s: seq<byte>, p: nat): (n: nat)
    requires p < |s|
    ensures 1 <= n && p + n <= |s|
  {
    var k := SequenceLength(s[p..]);
    if k == 0 then 1 else k
  }

  /**
    The iterator's state: `arrayPos` is where the current character
    starts, `nextPos` where the next one starts, `charPos` how many
    characters have been passed.
  */
  datatype CharIterator = CharIterator(arrayPos: nat, nextPos: nat, charPos: nat)

  predicate IteratorValid(s: seq<byte>, it: CharIterator)
  {
    && it.arrayPos <= it.nextPos <= |s|
    && (it.arrayPos < |s| ==> it.nextPos == it.arrayPos + Step(s, it.arrayPos))
  }

  /** A fresh iterator has already read the first character, when there is one. */
  function Start(s: seq<byte>): (it: CharIterator)
    ensures IteratorValid(s, it) && it.arrayPos == 0 && it.charPos == 0
  {
    if |s| > 0 then CharIterator(0, Step(s, 0), 0) else CharIterator(0, 0, 0)
  }

  /**
    Moves past the current character. It fails, leaving the iterator as
    it was, once the current position is at the end of the string.
  */
  function Advance(s: seq<byte>, it: CharIterator): (r: (bool, CharIterator))
    requires IteratorValid(s, it)
    ensures IteratorValid(s, r.1)
    ensures r.0 <==> it.arrayPos < |s|
    ensures r.0 ==> r.1.arrayPos == it.nextPos && r.1.charPos == it.charPos + 1
    ensures !r.0 ==> r.1 == it
  {
    if it.arrayPos >= |s| then (false, it)
    else
      var next := if it.nextPos < |s| then it.nextPos + Step(s, it.nextPos) else it.nextPos;
      (true, CharIterator(it.nextPos, next, it.charPos + 1))
  }

  /** True when the iterator can be advanced `k` times in a row. */
  predicate AdvancesTimes(s: seq<byte>, it: CharIterator, k: nat)
    requires IteratorValid(s, it)
    decreases k
  {
    k == 0 || (Advance(s, it).0 && AdvancesTimes(s, Advance(s, it).1, k - 1))
  }

  /** The PIN validator's count: a fresh iterator advances four times in a row. */
  predicate HasAtLeastFourCodepoints(s: seq<byte>)
  {
    AdvancesTimes(s, Start(s), 4)
  }

  // ---------------------------------------------------------------------
  // Iterator and decoder agree on well-formed input

  /** Decoding splits off the head sequence and its code point. */
  lemma DecodeHead(s: seq<byte>)
    requires |s| > 0 && Decode(s).Some?
    ensures SequenceLength(s) > 0
    ensures Decode(s[SequenceLength(s)..]).Some?
    ensures Decode(s).value == [HeadCodePoint(s)] + Decode(s[SequenceLength(s)..]).value
  {
  }

  /** Decoding a non-empty well-formed string passes its head sequence and one code point. */
  lemma DecodeTail(s: seq<byte>)
    requires |s| > 0 && Decode(s).Some?
    ensures SequenceLength(s) > 0 && |Decode(s).value| >= 1
    ensures Decode(s[SequenceLength(s)..]).Some?
    ensures Decode(s[SequenceLength(s)..]).value == Decode(s).value[1..]
  {
  }

  /**
    On a well-formed suffix the iterator is short of the end exactly when
    a code point remains, and its next position starts the suffix that
    holds the remaining ones.
  */
  lemma StepOnWellFormed(s: seq<byte>, it: CharIterator)
    requires IteratorValid(s, it) && Decode(s[it.arrayPos..]).Some?
    ensures it.arrayPos < |s| <==> |Decode(s[it.arrayPos..]).value| >= 1
    ensures it.arrayPos < |s| ==>
      && Decode(s[it.nextPos..]).Some?
      && Decode(s[it.nextPos..]).value == Decode(s[it.arrayPos..]).value[1..]
  {
    var p := it.arrayPos;
    if p < |s| {
      var t := s[p..];
      DecodeTail(t);
      assert s[it.nextPos..] == t[SequenceLength(t)..];
    } else {
      assert s[p..] == [];
    }
  }

  /**
    On a well-formed suffix, the iterator advances `k` times in a row
    exactly when `k` or more code points remain.
  */
  lemma {:induction false} AdvancesTimesIffRemaining(s: seq<byte>, it: CharIterator, k: nat)
    requires IteratorValid(s, it) && Decode(s[it.arrayPos..]).Some?
    ensures AdvancesTimes(s, it, k) <==> |Decode(s[it.arrayPos..]).value| >= k
    decreases k
  {
    if k > 0 {
      StepOnWellFormed(s, it);
      var a := Advance(s, it);
      if a.0 {
        AdvancesTimesIffRemaining(s, a.1, k - 1);
      }
    }
  }

  /**
    On well-formed input the four-advance test is a count of code points:
    it holds exactly when the string decodes to four or more of them.
  */
  lemma FourCodepointsIffDecodedLength(s: seq<byte>)
    requires Decode(s).Some?
    ensures HasAtLeastFourCodepoints(s) <==> |Decode(s).value| >= 4
  {
    assert s[0..] == s;
    AdvancesTimesIffRemaining(s, Start(s), 4);
  }

  // ---------------------------------------------------------------------
  // Encoding, the decoder's inverse

  /** The UTF-8 encoding of one scalar value, in the shortest form. */
  function EncodeCodePoint(cp: int): (r: seq<byte>)
    requires IsScalarValue(cp)
    ensures 1 <= |r| <= 4
  {
    if cp < 0x80 then [cp]
    else if cp < 0x800 then [0xC0 + cp / 64, 0x80 + cp % 64]
    else if cp < 0x10000 then [0xE0 + cp / 64 / 64, 0x80 + cp / 64 % 64, 0x80 + cp % 64]
    else [0xF0 + cp / 64 / 64 / 64, 0x80 + cp / 64 / 64 % 64, 0x80 + cp / 64 % 64, 0x80 + cp % 64]
  }

  predicate AllScalarValues(cps: seq<int>)
  {
    forall k :: 0 <= k < |cps| ==> IsScalarValue(cps[k])
  }

  function Encode(cps: seq<int>): (r: seq<byte>)
    requires AllScalarValues(cps)
    ensures |r| >= |cps|
  {
    if |cps| == 0 then [] else EncodeCodePoint(cps[0]) + Encode(cps[1..])
  }

  /** The head of an encoding is one well-formed sequence that decodes back to `cp`. */
  lemma EncodeCodePointHead(cp: int, rest: seq<byte>)
    requires IsScalarValue(cp)
    ensures SequenceLength(EncodeCodePoint(cp) + rest) == |EncodeCodePoint(cp)|
    ensures HeadCodePoint(EncodeCodePoint(cp) + rest) == cp
  {
    if cp < 0x80 {
    } else if cp < 0x800 {
      EncodeTwoBytes(cp, rest);
    } else if cp < 0x10000 {
      EncodeThreeBytes(cp, rest);
    } else {
      EncodeFourBytes(cp, rest);
    }
  }

  lemma EncodeTwoBytes(cp: int, rest: seq<byte>)
    requires 0x80 <= cp < 0x800
    ensures SequenceLength(EncodeCodePoint(cp) + rest) == 2
    ensures HeadCodePoint(EncodeCodePoint(cp) + rest) == cp
  {
    var s := EncodeCodePoint(cp) + rest;
    assert s[0] == 0xC0 + cp / 64 && s[1] == 0x80 + cp % 64;
  }

  lemma EncodeThreeBytes(cp: int, rest: seq<byte>)
    requires 0x800 <= cp < 0x10000 && IsScalarValue(cp)
    ensures SequenceLength(EncodeCodePoint(cp) + rest) == 3
    ensures HeadCodePoint(EncodeCodePoint(cp) + rest) == cp
  {
    var s := EncodeCodePoint(cp) + rest;
    var hi, mid, lo := cp / 64 / 64, cp / 64 % 64, cp % 64;
    assert s[0] == 0xE0 + hi && s[1] == 0x80 + mid && s[2] == 0x80 + lo;
    assert cp == (hi * 64 + mid) * 64 + lo;
    assert hi == 0 ==> mid >= 32;
    assert hi == 13 ==> mid < 32;
  }

  lemma EncodeFourBytes(cp: int, rest: seq<byte>)
    requires 0x10000 <= cp <= MaxCodePoint
    ensures SequenceLength(EncodeCodePoint(cp) + rest) == 4
    ensures HeadCodePoint(EncodeCodePoint(cp) + rest) == cp
  {
    var s := EncodeCodePoint(cp) + rest;
    var q1 := cp / 64;
    var q2 := q1 / 64;
    var b0, b1, b2, b3 := q2 / 64, q2 % 64, q1 % 64, cp % 64;
    assert s[0] == 0xF0 + b0 && s[1] == 0x80 + b1 && s[2] == 0x80 + b2 && s[3] == 0x80 + b3;
    assert cp == ((b0 * 64 + b1) * 64 + b2) * 64 + b3;
    assert b0 == 0 ==> b1 >= 16;
    assert b0 == 4 ==> b1 < 16;
  }

  /** Decoding an encoding gives back the scalar values that were encoded. */
  lemma {:induction false} DecodeEncode(cps: seq<int>)
    requires AllScalarValues(cps)
    ensures Decode(Encode(cps)) == Some(cps)
  {
    if |cps| > 0 {
      var e := EncodeCodePoint(cps[0]);
      var rest := Encode(cps[1..]);
      EncodeCodePointHead(cps[0], rest);
      assert (e + rest)[|e|..] == rest;
      DecodeEncode(cps[1..]);
      assert [cps[0]] + cps[1..] == cps;
    }
  }

  /** Every decoded code point is a scalar value, and encoding it restores the head sequence. */
  lemma HeadReencodes(s: seq<byte>)
    requires |s| > 0 && SequenceLength(s) > 0
    ensures IsScalarValue(HeadCodePoint(s))
    ensures EncodeCodePoint(HeadCodePoint(s)) == s[..SequenceLength(s)]
  {
    var n := SequenceLength(s);
    if n == 2 {
      ReencodeTwoBytes(s);
    } else if n == 3 {
      ReencodeThreeBytes(s);
    } else if n == 4 {
      ReencodeFourBytes(s);
    }
  }

  lemma ReencodeTwoBytes(s: seq<byte>)
    requires |s| > 0 && SequenceLength(s) == 2
    ensures IsScalarValue(HeadCodePoint(s))
    ensures EncodeCodePoint(HeadCodePoint(s)) == s[..2]
  {
    var cp := HeadCodePoint(s);
    var b0, b1 := s[0] as int, s[1] as int;
    assert cp == (b0 - 0xC0) * 64 + (b1 - 0x80);
    assert cp / 64 == b0 - 0xC0 && cp % 64 == b1 - 0x80;
  }

  lemma ReencodeThreeBytes(s: seq<byte>)
    requires |s| > 0 && SequenceLength(s) == 3
    ensures IsScalarValue(HeadCodePoint(s))
    ensures EncodeCodePoint(HeadCodePoint(s)) == s[..3]
  {
    var cp := HeadCodePoint(s);
    var b0, b1, b2 := s[0] as int, s[1] as int, s[2] as int;
    assert cp == ((b0 - 0xE0) * 64 + (b1 - 0x80)) * 64 + (b2 - 0x80);
    assert cp / 64 == (b0 - 0xE0) * 64 + (b1 - 0x80) && cp % 64 == b2 - 0x80;
    assert cp / 64 / 64 == b0 - 0xE0 && cp / 64 % 64 == b1 - 0x80;
  }

  lemma ReencodeFourBytes(s: seq<byte>)
    requires |s| > 0 && SequenceLength(s) == 4
    ensures IsScalarValue(HeadCodePoint(s))
    ensures EncodeCodePoint(HeadCodePoint(s)) == s[..4]
  {
    var cp := HeadCodePoint(s);
    var b0, b1, b2, b3 := s[0] as int, s[1] as int, s[2] as int, s[3] as int;
    assert cp == (((b0 - 0xF0) * 64 + (b1 - 0x80)) * 64 + (b2 - 0x80)) * 64 + (b3 - 0x80);
    assert cp / 64 == ((b0 - 0xF0) * 64 + (b1 - 0x80)) * 64 + (b2 - 0x80) && cp % 64 == b3 - 0x80;
    assert cp / 64 / 64 == (b0 - 0xF0) * 64 + (b1 - 0x80) && cp / 64 % 64 == b2 - 0x80;
    assert cp / 64 / 64 / 64 == b0 - 0xF0 && cp / 64 / 64 % 64 == b1 - 0x80;
  }

  /**
    Gluing the head sequence of `s` back in front of an encoding of the
    rest of `s` rebuilds `s`.
  */
  lemma GlueHead(s: seq<byte>, tail: seq<int>)
    requires |s| > 0 && SequenceLength(s) > 0
    requires AllScalarValues(tail) && Encode(tail) == s[SequenceLength(s)..]
    ensures AllScalarValues([HeadCodePoint(s)] + tail)
    ensures Encode([HeadCodePoint(s)] + tail) == s
  {
    var n := SequenceLength(s);
    var cps := [HeadCodePoint(s)] + tail;
    HeadReencodes(s);
    assert cps[0] == HeadCodePoint(s) && cps[1..] == tail;
    assert s[..n] + s[n..] == s;
  }

  /** Encoding what a well-formed string decodes to gives back the string. */
  lemma {:induction false} EncodeDecode(s: seq<byte>)
    requires Decode(s).Some?
    ensures AllScalarValues(Decode(s).value)
    ensures Encode(Decode(s).value) == s
    decreases |s|
  {
    if |s| > 0 {
      DecodeHead(s);
      var rest := s[SequenceLength(s)..];
      EncodeDecode(rest);
      GlueHead(s, Decode(rest).value);
    }
  }

  /**
    In well-formed UTF-8 a zero byte is only ever the encoding of U+0000,
    so the string ends in a zero byte exactly when its last code point is 0.
  */
  lemma {:induction false} LastByteZeroIffLastCodePointZero(s: seq<byte>)
    requires |s| > 0 && Decode(s).Some?
    ensures |Decode(s).value| > 0
    ensures s[|s| - 1] == 0 <==> Decode(s).value[|Decode(s).value| - 1] == 0
    decreases |s|
  {
    DecodeHead(s);
    var n := SequenceLength(s);
    var cps := Decode(s).value;
    if n == |s| {
      assert s[n..] == [];
      assert cps == [HeadCodePoint(s)];
      HeadReencodes(s);
    } else {
      LastByteZeroIffLastCodePointZero(s[n..]);
      assert s[|s| - 1] == s[n..][|s[n..]| - 1];
    }
  }
}
