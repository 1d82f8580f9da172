/** Member names: Python's `str.encode("utf-8", "surrogateescape")` and the decoder that undoes it.

    A name is a sequence of code points. A lone surrogate U+DC80..U+DCFF stands for the raw byte 0x80..0xFF
    it was made from; every other surrogate cannot be encoded. */
module Utf8Names {
  import opened Prelude

  type CodePoint = c: int | 0 <= c < 0x110000
  type Name = seq<CodePoint>

  predicate IsSurrogate(c: CodePoint) { 0xD800 <= c < 0xE000 }

  predicate IsEscape(c: CodePoint) { 0xDC80 <= c < 0xDD00 }

  /** False exactly where the encoder raises UnicodeEncodeError. */
  predicate Encodable(name: Name) {
    forall i :: 0 <= i < |name| ==> IsSurrogate(name[i]) ==> IsEscape(name[i])
  }

  function EncodeChar(c: CodePoint): seq<Byte>
    requires IsSurrogate(c) ==> IsEscape(c)
  {
    if c < 0x80 then [c]
    else if c < 0x800 then [0xC0 + c / 64, 0x80 + c % 64]
    else if IsEscape(c) then [c - 0xDC00]
    else if c < 0x10000 then [0xE0 + c / 4096, 0x80 + c / 64 % 64, 0x80 + c % 64]
    else [0xF0 + c / 262144, 0x80 + c / 4096 % 64, 0x80 + c / 64 % 64, 0x80 + c % 64]
  }

  function Encode(name: Name): seq<Byte>
    requires Encodable(name)
  {
    if name == [] then [] else EncodeChar(name[0]) + Encode(name[1..])
  }

  predicate IsContinuation(b: Byte) { 0x80 <= b < 0xC0 }

  /** The six bits a continuation byte carries. */
  function Payload(b: Byte): int { b - 0x80 }

  /** The well-formed multi-byte sequence at the front of `bs`, or 0 when there is none. */
  function SequenceLength(bs: seq<Byte>): nat {
    if |bs| >= 2 && 0xC2 <= bs[0] < 0xE0 && IsContinuation(bs[1]) then 2
    else if |bs| >= 3 && 0xE0 <= bs[0] < 0xF0 && IsContinuation(bs[1]) && IsContinuation(bs[2])
            && (bs[0] == 0xE0 ==> bs[1] >= 0xA0) && (bs[0] == 0xED ==> bs[1] < 0xA0) then 3
    else if |bs| >= 4 && 0xF0 <= bs[0] < 0xF5 && IsContinuation(bs[1]) && IsContinuation(bs[2]) && IsContinuation(bs[3])
            && (bs[0] == 0xF0 ==> bs[1] >= 0x90) && (bs[0] == 0xF4 ==> bs[1] < 0x90) then 4
    else 0
  }

  function SequenceValue(bs: seq<Byte>): (c: CodePoint)
    requires SequenceLength(bs) != 0
  {
    var lead: int := bs[0];
    if SequenceLength(bs) == 2 then (lead - 0xC0) * 64 + Payload(bs[1])
    else if SequenceLength(bs) == 3 then (lead - 0xE0) * 4096 + Payload(bs[1]) * 64 + Payload(bs[2])
    else (lead - 0xF0) * 262144 + Payload(bs[1]) * 4096 + Payload(bs[2]) * 64 + Payload(bs[3])
  }

  /** `bytes.decode("utf-8", "surrogateescape")`: a byte that starts no well-formed sequence is escaped. */
  function Decode(bs: seq<Byte>): Name {
    if bs == [] then []
    else if bs[0] < 0x80 then [bs[0]] + Decode(bs[1..])
    else if SequenceLength(bs) != 0 then [SequenceValue(bs)] + Decode(bs[SequenceLength(bs)..])
    else [0xDC00 + bs[0]] + Decode(bs[1..])
  }

  /** The bytes behind the run of escapes at the front of a name. */
  function EscapedRun(name: Name): seq<Byte> {
    if name == [] || !IsEscape(name[0]) then [] else [name[0] - 0xDC00] + EscapedRun(name[1..])
  }

  /** Somewhere a run of escapes spells a well-formed character, so the name is not what decoding its bytes gives. */
  predicate SpellsCharacter(name: Name) {
    name != [] && (SequenceLength(EscapedRun(name)) != 0 || SpellsCharacter(name[1..]))
  }

  lemma EncodeCharReadsBack(c: CodePoint, rest: seq<Byte>)
    requires c >= 0x80 && !IsSurrogate(c)
    ensures SequenceLength(EncodeChar(c) + rest) == |EncodeChar(c)|
    ensures SequenceValue(EncodeChar(c) + rest) == c
  {
    SixBitGroups(c);
    var e := EncodeChar(c);
    var bs := e + rest;
    assert bs[0] == e[0] && bs[1] == e[1];
    if |e| > 2 { assert bs[2] == e[2]; }
    if |e| > 3 { assert bs[3] == e[3]; }
  }

  lemma SixBitGroups(c: CodePoint)
    ensures c == c / 64 * 64 + c % 64
    ensures c == c / 4096 * 4096 + c / 64 % 64 * 64 + c % 64
    ensures c == c / 262144 * 262144 + c / 4096 % 64 * 4096 + c / 64 % 64 * 64 + c % 64
  {
    assert c / 64 / 64 == c / 4096;
    assert c / 4096 / 64 == c / 262144;
  }

  /** What follows a run of escapes never continues it: encoded characters do not start with a continuation byte. */
  lemma {:induction false} EncodeSplitsAtRun(name: Name) returns (rest: seq<Byte>)
    requires Encodable(name)
    ensures Encode(name) == EscapedRun(name) + rest
    ensures rest == [] || !IsContinuation(rest[0])
  {
    if name == [] || !IsEscape(name[0]) {
      rest := Encode(name);
    } else {
      rest := EncodeSplitsAtRun(name[1..]);
    }
  }

  lemma SequenceLengthIgnoresRest(run: seq<Byte>, rest: seq<Byte>)
    requires run != []
    requires rest == [] || !IsContinuation(rest[0])
    ensures SequenceLength(run + rest) == SequenceLength(run)
  {
    var bs := run + rest;
    assert forall i :: 0 <= i < |run| ==> bs[i] == run[i];
    assert |bs| > |run| ==> bs[|run|] == rest[0];
  }

  lemma EscapeReadsBackIff(name: Name)
    requires Encodable(name) && name != [] && IsEscape(name[0])
    ensures var bs := Encode(name);
      if SequenceLength(EscapedRun(name)) != 0 then Decode(bs) != name
      else Decode(bs) == [name[0]] + Decode(Encode(name[1..]))
  {
    var bs := Encode(name);
    var rest := EncodeSplitsAtRun(name);
    SequenceLengthIgnoresRest(EscapedRun(name), rest);
    assert bs[1..] == Encode(name[1..]);
    if SequenceLength(bs) != 0 {
      EncodeSequenceValue(bs);
      assert Decode(bs)[0] == SequenceValue(bs);
    }
  }

  /** Decoding gives the name back exactly when no run of escapes in it spells a character. */
  lemma {:induction false} NameRecoveredIff(name: Name)
    requires Encodable(name)
    ensures Decode(Encode(name)) == name <==> !SpellsCharacter(name)
  {
    if name != [] {
      var bs := Encode(name);
      var e := EncodeChar(name[0]);
      NameRecoveredIff(name[1..]);
      assert bs[|e|..] == Encode(name[1..]);
      assert name == [name[0]] + name[1..];
      if IsEscape(name[0]) {
        EscapeReadsBackIff(name);
      } else if name[0] >= 0x80 {
        EncodeCharReadsBack(name[0], Encode(name[1..]));
      }
    }
  }

  lemma EncodeSequenceValue(bs: seq<Byte>)
    requires SequenceLength(bs) != 0
    ensures !IsSurrogate(SequenceValue(bs))
    ensures EncodeChar(SequenceValue(bs)) == bs[..SequenceLength(bs)]
  {
    var n := SequenceLength(bs);
    var c := SequenceValue(bs);
    if n == 2 {
      RegroupSixBits(0, 0, bs[0] - 0xC0, Payload(bs[1]));
      assert EncodeChar(c) == [bs[0], bs[1]] == bs[..2];
    } else if n == 3 {
      RegroupSixBits(0, bs[0] - 0xE0, Payload(bs[1]), Payload(bs[2]));
      assert EncodeChar(c) == [bs[0], bs[1], bs[2]] == bs[..3];
    } else {
      RegroupSixBits(bs[0] - 0xF0, Payload(bs[1]), Payload(bs[2]), Payload(bs[3]));
      assert EncodeChar(c) == [bs[0], bs[1], bs[2], bs[3]] == bs[..4];
    }
  }

  lemma RegroupSixBits(a: int, b: int, c: int, d: int)
    requires 0 <= a && 0 <= b < 64 && 0 <= c < 64 && 0 <= d < 64
    ensures var v := a * 262144 + b * 4096 + c * 64 + d;
      v / 262144 == a && v / 4096 % 64 == b && v / 64 % 64 == c && v % 64 == d
      && v / 64 == a * 4096 + b * 64 + c && v / 4096 == a * 64 + b
  {
  }

  /** No byte of a file name is lost: every byte string is the encoding of what it decodes to. */
  lemma {:induction false} DecodeIsLossless(bs: seq<Byte>)
    ensures Encodable(Decode(bs)) && Encode(Decode(bs)) == bs
  {
    if bs != [] {
      var n := if bs[0] < 0x80 || SequenceLength(bs) == 0 then 1 else SequenceLength(bs);
      DecodeIsLossless(bs[n..]);
      assert bs == bs[..n] + bs[n..];
      if bs[0] >= 0x80 && SequenceLength(bs) != 0 {
        EncodeSequenceValue(bs);
      }
      var d := Decode(bs);
      assert d[1..] == Decode(bs[n..]);
      assert EncodeChar(d[0]) == bs[..n];
    }
  }

  /** Names the file system hands out are always recovered: decoded bytes never spell a character by escapes. */
  lemma DecodedNamesAreRecovered(bs: seq<Byte>)
    ensures Encodable(Decode(bs)) && !SpellsCharacter(Decode(bs))
  {
    DecodeIsLossless(bs);
    NameRecoveredIff(Decode(bs));
  }

  /** Two different names with the same bytes: U+00E9, and the escapes of its two UTF-8 bytes. */
  lemma EncodeIsNotInjective()
    ensures Encodable([0xE9]) && Encodable([0xDCC3, 0xDCA9])
    ensures Encode([0xE9]) == Encode([0xDCC3, 0xDCA9])
    ensures SpellsCharacter([0xDCC3, 0xDCA9])
  {
    assert Encode([0xE9]) == EncodeChar(0xE9) + Encode([]);
    assert [0xDCC3, 0xDCA9][1..] == [0xDCA9];
    assert Encode([0xDCC3, 0xDCA9]) == EncodeChar(0xDCC3) + Encode([0xDCA9]);
    assert Encode([0xDCA9]) == EncodeChar(0xDCA9) + Encode([]);
    assert EscapedRun([0xDCA9]) == [0xA9];
    assert EscapedRun([0xDCC3, 0xDCA9]) == [0xC3, 0xA9];
  }
}
