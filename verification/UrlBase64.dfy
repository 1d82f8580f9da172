/** `urlBase64ToUint8Array` of sw-push.js, with `atob` as the forgiving-base64 decode of the WHATWG Infra Standard,
    beside the encoder of RFC 4648, section 5, without padding. */
module UrlBase64 {
  import opened Prelude

  type Six = v: int | 0 <= v < 64

  // ---- bytes and six-bit values ----

  function First6(x: Byte): Six { x / 4 }

  function Second6(x: Byte, y: Byte): Six { x % 4 * 16 + y / 16 }

  function Third6(y: Byte, z: Byte): Six { y % 16 * 4 + z / 64 }

  function Fourth6(z: Byte): Six { z % 64 }

  function First8(a: Six, b: Six): Byte { a as int * 4 + b / 16 }

  function Second8(b: Six, c: Six): Byte { b as int % 16 * 16 + c / 4 }

  function Third8(c: Six, d: Six): Byte { c as int % 4 * 64 + d }

  /** Three bytes make four values; one or two left over make two or three, the unused low bits zero. */
  function Split(bs: seq<Byte>): seq<Six> {
    if bs == [] then []
    else if |bs| == 1 then [First6(bs[0]), Second6(bs[0], 0)]
    else if |bs| == 2 then [First6(bs[0]), Second6(bs[0], bs[1]), Third6(bs[1], 0)]
    else [First6(bs[0]), Second6(bs[0], bs[1]), Third6(bs[1], bs[2]), Fourth6(bs[2])] + Split(bs[3..])
  }

  /** Six bits a value, eight a byte; the bits left over are dropped unread. */
  function Join(vs: seq<Six>): seq<Byte>
    requires |vs| % 4 != 1
  {
    if vs == [] then []
    else if |vs| == 2 then [First8(vs[0], vs[1])]
    else if |vs| == 3 then [First8(vs[0], vs[1]), Second8(vs[1], vs[2])]
    else [First8(vs[0], vs[1]), Second8(vs[1], vs[2]), Third8(vs[2], vs[3])] + Join(vs[4..])
  }

  lemma BytesBack(x: Byte, y: Byte, z: Byte)
    ensures First8(First6(x), Second6(x, y)) == x
    ensures Second8(Second6(x, y), Third6(y, z)) == y && Third8(Third6(y, z), Fourth6(z)) == z
  {
  }

  lemma ValuesBack(a: Six, b: Six, c: Six, d: Six)
    ensures First6(First8(a, b)) == a && Second6(First8(a, b), Second8(b, c)) == b
    ensures Third6(Second8(b, c), Third8(c, d)) == c && Fourth6(Third8(c, d)) == d
    ensures Second6(First8(a, b), 0) == b / 16 * 16 && Third6(Second8(b, c), 0) == c / 4 * 4
  {
  }

  /** The bits that make no byte. */
  function LeftOver(vs: seq<Six>): nat {
    if |vs| % 4 == 2 then vs[|vs| - 1] % 16 else if |vs| % 4 == 3 then vs[|vs| - 1] % 4 else 0
  }

  lemma {:induction false} SplitJoins(bs: seq<Byte>)
    ensures |Split(bs)| % 4 != 1 && Join(Split(bs)) == bs
  {
    hide First6, Second6, Third6, Fourth6, First8, Second8, Third8;
    if bs != [] {
      BytesBack(bs[0], if |bs| > 1 then bs[1] else 0, if |bs| > 2 then bs[2] else 0);
    }
    if |bs| >= 3 {
      SplitJoins(bs[3..]);
      assert Split(bs)[4..] == Split(bs[3..]);
      assert bs == bs[..3] + bs[3..];
    }
  }

  lemma SplitGroup(x: Byte, y: Byte, z: Byte, rest: seq<Byte>)
    ensures Split([x, y, z] + rest) == [First6(x), Second6(x, y), Third6(y, z), Fourth6(z)] + Split(rest)
  {
    assert ([x, y, z] + rest)[3..] == rest;
  }

  lemma PairSplitsIff(a: Six, b: Six)
    ensures Split([First8(a, b)]) == [a, b / 16 * 16] && (b / 16 * 16 == b <==> b % 16 == 0)
  {
    hide First6, Second6, Third6, Fourth6, First8;
    ValuesBack(a, b, 0, 0);
  }

  lemma TripleSplitsIff(a: Six, b: Six, c: Six)
    ensures Split([First8(a, b), Second8(b, c)]) == [a, b, c / 4 * 4] && (c / 4 * 4 == c <==> c % 4 == 0)
  {
    hide First6, Second6, Third6, Fourth6, First8, Second8;
    ValuesBack(a, b, c, 0);
  }

  lemma JoinTailSplitsIff(vs: seq<Six>)
    requires |vs| < 4 && |vs| != 1
    ensures Split(Join(vs)) == vs <==> LeftOver(vs) == 0
  {
    hide First8, Second8, Third8, Split;
    if |vs| == 2 {
      PairSplitsIff(vs[0], vs[1]);
      assert vs == [vs[0], vs[1]];
    } else if |vs| == 3 {
      TripleSplitsIff(vs[0], vs[1], vs[2]);
      assert vs == [vs[0], vs[1], vs[2]];
    } else {
      NothingSplits();
    }
  }

  lemma NothingSplits()
    ensures Split([]) == []
  {
  }

  lemma {:induction false} JoinSplitsIff(vs: seq<Six>)
    requires |vs| % 4 != 1
    ensures Split(Join(vs)) == vs <==> LeftOver(vs) == 0
  {
    hide First6, Second6, Third6, Fourth6, First8, Second8, Third8, Split;
    if |vs| < 4 {
      JoinTailSplitsIff(vs);
    } else {
      var first, rest := vs[..4], vs[4..];
      JoinSplitsIff(rest);
      ValuesBack(vs[0], vs[1], vs[2], vs[3]);
      SplitGroup(First8(vs[0], vs[1]), Second8(vs[1], vs[2]), Third8(vs[2], vs[3]), Join(rest));
      assert vs == first + rest;
      assert Split(Join(vs)) == first + Split(Join(rest));
      assert (first + Split(Join(rest)))[4..] == Split(Join(rest));
    }
  }

  // ---- the encoder of the RFC ----

  /** The base64url alphabet. */
  function Symbol(v: Six): char {
    if v < 26 then ('A' as int + v) as char
    else if v < 52 then ('a' as int + v - 26) as char
    else if v < 62 then ('0' as int + v - 52) as char
    else (if v == 62 then '-' else '_')
  }

  function Encode(bs: seq<Byte>): string {
    var vs := Split(bs);
    seq(|vs|, (i: nat) requires i < |vs| => Symbol(vs[i]))
  }

  // ---- atob ----

  predicate IsSymbol(c: char) { 'A' <= c <= 'Z' || 'a' <= c <= 'z' || '0' <= c <= '9' || c == '+' || c == '/' }

  function Value(c: char): Six
    requires IsSymbol(c)
  {
    if 'A' <= c <= 'Z' then c as int - 'A' as int
    else if 'a' <= c <= 'z' then c as int - 'a' as int + 26
    else if '0' <= c <= '9' then c as int - '0' as int + 52
    else if c == '+' then 62 else 63
  }

  predicate IsWhitespace(c: char) { c == '\t' || c == '\n' || c == '\U{c}' || c == '\r' || c == ' ' }

  function Strip(s: string): string {
    if s == "" then "" else (if IsWhitespace(s[0]) then "" else [s[0]]) + Strip(s[1..])
  }

  function DropPadding(s: string): string {
    if |s| >= 2 && s[|s| - 1] == '=' && s[|s| - 2] == '=' then s[..|s| - 2]
    else if |s| >= 1 && s[|s| - 1] == '=' then s[..|s| - 1]
    else s
  }

  predicate AllSymbols(s: string) { forall i :: 0 <= i < |s| ==> IsSymbol(s[i]) }

  function Values(s: string): seq<Six>
    requires AllSymbols(s)
  {
    seq(|s|, (i: nat) requires i < |s| => Value(s[i]))
  }

  function Atob(data: string): Option<seq<Byte>> {
    var stripped := Strip(data);
    var s := if |stripped| % 4 == 0 then DropPadding(stripped) else stripped;
    if |s| % 4 == 1 || !AllSymbols(s) then None else Some(Join(Values(s)))
  }

  // ---- the function of the service worker ----

  function Signs(n: nat): string { seq(n, _ => '=') }

  function Padding(s: string): string { Signs((4 - |s| % 4) % 4) }

  function Replaced(s: string, old_: char, new_: char): string {
    seq(|s|, (i: nat) requires i < |s| => if s[i] == old_ then new_ else s[i])
  }

  function Standard(s: string): string { Replaced(Replaced(s, '-', '+'), '_', '/') }

  function UrlBase64ToUint8Array(s: string): Option<seq<Byte>> {
    Atob(Standard(s + Padding(s)))
  }

  /** The padding always fills up to a multiple of four, with at most three signs. */
  lemma PaddedToFour(s: string)
    ensures |s + Padding(s)| % 4 == 0 && |Padding(s)| <= 3
  {
  }

  // ---- what is accepted ----

  predicate IsUrlSymbol(c: char) { IsSymbol(c) || c == '-' || c == '_' }

  function Whitespace(s: string): nat {
    if s == "" then 0 else (if IsWhitespace(s[0]) then 1 else 0) + Whitespace(s[1..])
  }

  lemma {:induction false} StripFacts(s: string)
    ensures |Strip(s)| == |s| - Whitespace(s)
    ensures forall c :: c in Strip(s) <==> c in s && !IsWhitespace(c)
    ensures Whitespace(s) == 0 ==> Strip(s) == s
  {
    if s != "" {
      StripFacts(s[1..]);
      assert s == [s[0]] + s[1..];
    }
  }

  lemma StripCons(c: char, s: string)
    ensures Strip([c] + s) == (if IsWhitespace(c) then "" else [c]) + Strip(s)
  {
    assert ([c] + s)[1..] == s;
  }

  lemma {:induction false} StripConcat(a: string, b: string)
    ensures Strip(a + b) == Strip(a) + Strip(b)
  {
    hide Strip;
    if a == "" {
      assert a + b == b && Strip(a) == "" by { StripNothing(); }
    } else {
      StripConcat(a[1..], b);
      assert a == [a[0]] + a[1..] && a + b == [a[0]] + (a[1..] + b);
      StripCons(a[0], a[1..]);
      StripCons(a[0], a[1..] + b);
    }
  }

  lemma StripNothing()
    ensures Strip("") == ""
  {
  }

  lemma {:induction false} NoWhitespace(s: string)
    requires forall c :: c in s ==> !IsWhitespace(c)
    ensures Strip(s) == s && Whitespace(s) == 0
  {
    if s != "" {
      NoWhitespace(s[1..]);
    }
  }

  lemma {:induction false} StripStandard(s: string)
    ensures Strip(Standard(s)) == Standard(Strip(s)) && Whitespace(Standard(s)) == Whitespace(s)
  {
    if s != "" {
      StripStandard(s[1..]);
      assert Standard(s)[1..] == Standard(s[1..]);
      assert Standard(s)[0] == Standard([s[0]])[0];
      if !IsWhitespace(s[0]) {
        assert Standard([s[0]] + Strip(s[1..])) == [Standard(s)[0]] + Standard(Strip(s[1..]));
      }
    }
  }

  /** What reaches the decoder proper: the text without whitespace, its padding after it. */
  lemma DecodedText(s: string)
    ensures Strip(Standard(s + Padding(s))) == Standard(Strip(s)) + Padding(s)
  {
    StripStandard(s + Padding(s));
    StripConcat(s, Padding(s));
    NoWhitespace(Padding(s));
    assert Standard(Strip(s) + Padding(s)) == Standard(Strip(s)) + Padding(s);
  }

  function StandardChar(c: char): char { if c == '-' then '+' else if c == '_' then '/' else c }

  lemma StandardSymbol(c: char)
    ensures IsSymbol(StandardChar(c)) <==> IsUrlSymbol(c)
  {
  }

  // ---- what is decoded ----

  function CutSigns(t: string): string {
    if t != "" && t[|t| - 1] == '=' then CutSigns(t[..|t| - 1]) else t
  }

  /** The text without its whitespace and the signs at its end. */
  function Body(s: string): string { CutSigns(Strip(s)) }

  /** The signs at the end of a text and those the function adds. */
  function SignCount(s: string): int { |Strip(s)| - |Body(s)| + |Padding(s)| }

  lemma {:induction false} CutSignsSplits(t: string)
    ensures |CutSigns(t)| <= |t| && t == CutSigns(t) + Signs(|t| - |CutSigns(t)|)
    ensures CutSigns(t) != "" ==> CutSigns(t)[|CutSigns(t)| - 1] != '='
  {
    if t != "" && t[|t| - 1] == '=' {
      var rest := t[..|t| - 1];
      CutSignsSplits(rest);
      assert Signs(|t| - |CutSigns(t)|) == Signs(|rest| - |CutSigns(t)|) + "=";
    }
  }

  lemma SymbolsOfStandard(t: string)
    ensures |Standard(t)| == |t|
    ensures AllSymbols(Standard(t)) <==> forall c :: c in t ==> IsUrlSymbol(c)
  {
    hide IsUrlSymbol, IsSymbol;
    forall i | 0 <= i < |t|
      ensures IsSymbol(Standard(t)[i]) <==> IsUrlSymbol(t[i])
    {
      StandardSymbol(t[i]);
      assert t[i] in t && Standard(t)[i] == StandardChar(t[i]);
    }
    assert forall c :: c in t <==> exists i :: 0 <= i < |t| && t[i] == c;
  }

  /** What reaches the decoder proper: the body, then signs. */
  lemma DecodedBody(s: string)
    ensures SignCount(s) >= 0 && |Body(s)| + SignCount(s) == |s| - Whitespace(s) + |Padding(s)|
    ensures Strip(Standard(s + Padding(s))) == Standard(Body(s)) + Signs(SignCount(s))
    ensures Standard(Body(s)) != "" ==> Standard(Body(s))[|Body(s)| - 1] != '='
  {
    hide Strip, CutSigns, Whitespace;
    var t, body := Strip(s), Body(s);
    DecodedText(s);
    StripFacts(s);
    CutSignsSplits(t);
    assert Standard(t) == Standard(body) + Signs(|t| - |body|);
    assert Signs(|t| - |body|) + Padding(s) == Signs(SignCount(s));
    assert Standard(body) + Signs(|t| - |body|) + Padding(s) == Standard(body) + (Signs(|t| - |body|) + Padding(s));
  }

  /** One sign at the end is dropped, or two; of more, the rest remain. */
  lemma SignsDropped(core: string, n: nat)
    requires core != "" ==> core[|core| - 1] != '='
    ensures DropPadding(core + Signs(n)) == core + Signs(if n <= 2 then 0 else n - 2)
  {
    var data := core + Signs(n);
    assert n == 0 ==> data == core;
    assert n == 1 ==> data[..|core|] == core;
    assert n >= 2 ==> data[..|core| + n - 2] == core + Signs(n - 2);
    assert core + Signs(0) == core;
  }

  lemma SignIsNoSymbol(core: string, n: nat)
    ensures AllSymbols(core + Signs(n)) <==> n == 0 && AllSymbols(core)
  {
    if n > 0 {
      assert (core + Signs(n))[|core|] == '=';
    } else {
      assert core + Signs(n) == core;
    }
  }

  lemma PaddingLengths(n: nat, w: nat, p: nat)
    requires w <= n && p == (4 - n % 4) % 4
    ensures (n - w + p) % 4 == 0 <==> w % 4 == 0
  {
  }

  lemma LengthsOfFour(core: nat, signs: nat)
    ensures (core + signs) % 4 == 0 && signs <= 2 ==> core % 4 != 1
  {
  }

  predicate Decodes(s: string) {
    && AllSymbols(Standard(Body(s)))
    && if Whitespace(s) % 4 == 0 then SignCount(s) <= 2 else SignCount(s) == 0 && |Body(s)| % 4 != 1
  }

  lemma DecodesCore(s: string)
    ensures var core := Standard(Body(s));
      && (Decodes(s) ==> |core| % 4 != 1)
      && UrlBase64ToUint8Array(s) == if Decodes(s) then Some(Join(Values(core))) else None
  {
    hide Strip, Standard, AllSymbols, DropPadding, Join, Whitespace, Body, SignCount, Padding, Signs;
    var core := Standard(Body(s));
    SymbolsOfStandard(Body(s));
    DecodedBody(s);
    PaddingSize(s);
    PaddingLengths(|s|, Whitespace(s), |Padding(s)|);
    LengthsOfFour(|core|, SignCount(s));
    SignsDropped(core, SignCount(s));
    SignIsNoSymbol(core, SignCount(s));
    SignIsNoSymbol(core, if SignCount(s) <= 2 then 0 else SignCount(s) - 2);
    NoSigns(core);
    SignsLength(core, SignCount(s));
  }

  lemma PaddingSize(s: string)
    ensures |Padding(s)| == (4 - |s| % 4) % 4 && Whitespace(s) <= |s|
  {
    StripFacts(s);
  }

  lemma NoSigns(core: string)
    ensures core + Signs(0) == core
  {
  }

  lemma SignsLength(core: string, n: nat)
    ensures |core + Signs(n)| == |core| + n
  {
  }

  /** Which texts decode, and to what. The body must be symbols. With the whitespace in fours, the signs at the end and
      those added must be at most two; otherwise the added signs, counted with the whitespace, no longer complete a
      group, so there must be none at all, and the body must not leave a single symbol over. */
  lemma DecodesIff(s: string)
    ensures UrlBase64ToUint8Array(s).Some? <==>
      && (forall c :: c in Body(s) ==> IsUrlSymbol(c))
      && if Whitespace(s) % 4 == 0 then SignCount(s) <= 2 else SignCount(s) == 0 && |Body(s)| % 4 != 1
    ensures UrlBase64ToUint8Array(s).Some? ==>
      AllSymbols(Standard(Body(s))) && |Standard(Body(s))| % 4 != 1
      && UrlBase64ToUint8Array(s).value == Join(Values(Standard(Body(s))))
  {
    hide Strip, Standard, AllSymbols, Join, Whitespace, IsUrlSymbol, UrlBase64ToUint8Array, Body, SignCount;
    DecodesCore(s);
    SymbolsOfStandard(Body(s));
  }

  /** Whitespace that does not come in fours is harmless exactly when the length that counts it is a multiple of four,
      as with one newline after a key of 87 characters. */
  lemma StrayWhitespaceIff(s: string)
    requires Whitespace(s) % 4 != 0 && CutSigns(Strip(s)) == Strip(s) && forall c :: c in Strip(s) ==> IsUrlSymbol(c)
    ensures UrlBase64ToUint8Array(s).Some? <==> |s| % 4 == 0 && |Strip(s)| % 4 != 1
  {
    hide Strip, Standard, AllSymbols, Join, IsUrlSymbol, UrlBase64ToUint8Array;
    DecodesIff(s);
    PaddingSize(s);
  }

  // ---- the encoding of RFC 4648 ----

  const UPPER := "ABCDEFGHIJKLMNOPQRSTUVWXYZ"
  const LOWER := "abcdefghijklmnopqrstuvwxyz"
  const DIGITS := "0123456789"

  /** Table 2 of RFC 4648. */
  const ALPHABET := UPPER + LOWER + DIGITS + "-_"

  lemma LettersAndDigits(v: nat)
    requires v < 26
    ensures |UPPER| == 26 && UPPER[v] as int == 'A' as int + v
    ensures |LOWER| == 26 && LOWER[v] as int == 'a' as int + v
    ensures |DIGITS| == 10 && (v < 10 ==> DIGITS[v] as int == '0' as int + v)
  {
    if v < 13 {
      assert v == 0 || v == 1 || v == 2 || v == 3 || v == 4 || v == 5 || v == 6
        || v == 7 || v == 8 || v == 9 || v == 10 || v == 11 || v == 12;
    } else {
      assert v == 13 || v == 14 || v == 15 || v == 16 || v == 17 || v == 18 || v == 19
        || v == 20 || v == 21 || v == 22 || v == 23 || v == 24 || v == 25;
    }
  }

  lemma AlphabetIsTable2(v: Six)
    ensures |ALPHABET| == 64 && Symbol(v) == ALPHABET[v]
  {
    LettersAndDigits(if v < 26 then v else if v < 52 then v - 26 else if v < 62 then v - 52 else 0);
  }

  /** Three bytes and their four symbols are one number of 24 bits, most significant first. */
  lemma GroupIsOneNumber(x: Byte, y: Byte, z: Byte, rest: seq<Byte>)
    ensures var s := Encode([x, y, z] + rest);
      && |s| == 4 + |Encode(rest)| && s[4..] == Encode(rest)
      && exists a: Six, b: Six, c: Six, d: Six ::
           && s[..4] == [ALPHABET[a], ALPHABET[b], ALPHABET[c], ALPHABET[d]]
           && a as int * 262144 + b * 4096 + c * 64 + d == x as int * 65536 + y * 256 + z
  {
    SplitGroup(x, y, z, rest);
    var a, b, c, d := First6(x), Second6(x, y), Third6(y, z), Fourth6(z);
    AlphabetIsTable2(a);
    AlphabetIsTable2(b);
    AlphabetIsTable2(c);
    AlphabetIsTable2(d);
    assert Encode([x, y, z] + rest)[..4] == [Symbol(a), Symbol(b), Symbol(c), Symbol(d)];
  }

  /** One or two bytes at the end are filled up with zero bits to two or three symbols. */
  lemma TailIsOneNumber(x: Byte, y: Byte)
    ensures exists a: Six, b: Six ::
      Encode([x]) == [ALPHABET[a], ALPHABET[b]] && a as int * 64 + b == x as int * 16
    ensures exists a: Six, b: Six, c: Six ::
      && Encode([x, y]) == [ALPHABET[a], ALPHABET[b], ALPHABET[c]]
      && a as int * 4096 + b * 64 + c == (x as int * 256 + y) * 4
  {
    var a, b, c, last := First6(x), Second6(x, y), Third6(y, 0), Second6(x, 0);
    AlphabetIsTable2(a);
    AlphabetIsTable2(b);
    AlphabetIsTable2(c);
    AlphabetIsTable2(last);
    assert Encode([x]) == [Symbol(a), Symbol(last)];
    assert Encode([x, y]) == [Symbol(a), Symbol(b), Symbol(c)];
  }

  // ---- round trips ----

  lemma SymbolReads(v: Six)
    ensures var c := Symbol(v);
      && IsUrlSymbol(c) && c != '+' && c != '/' && c != '=' && !IsWhitespace(c)
      && IsSymbol(StandardChar(c)) && Value(StandardChar(c)) == v
  {
  }

  lemma SymbolWrites(c: char)
    requires IsUrlSymbol(c) && c != '+' && c != '/'
    ensures IsSymbol(StandardChar(c)) && Symbol(Value(StandardChar(c))) == c
  {
  }

  lemma EncodedText(bs: seq<Byte>)
    ensures forall c :: c in Encode(bs) ==> c != '=' && !IsWhitespace(c)
    ensures AllSymbols(Standard(Encode(bs))) && Values(Standard(Encode(bs))) == Split(bs)
  {
    var s, vs := Encode(bs), Split(bs);
    forall i | 0 <= i < |s|
      ensures s[i] != '=' && !IsWhitespace(s[i]) && Standard(s)[i] == StandardChar(s[i])
      ensures IsSymbol(Standard(s)[i]) && Value(Standard(s)[i]) == vs[i]
    {
      SymbolReads(vs[i]);
    }
  }

  predicate UrlOnly(s: string) { forall i :: 0 <= i < |s| ==> IsUrlSymbol(s[i]) && s[i] != '+' && s[i] != '/' }

  lemma DecodesUnspaced(s: string)
    requires forall c :: c in s ==> c != '=' && !IsWhitespace(c)
    requires AllSymbols(Standard(s)) && |s| % 4 != 1
    ensures UrlBase64ToUint8Array(s) == Some(Join(Values(Standard(s))))
  {
    hide AllSymbols, Join, UrlBase64ToUint8Array, Standard;
    NoWhitespace(s);
    assert s != "" ==> s[|s| - 1] in s;
    assert Body(s) == s;
    PaddingSize(s);
    DecodesCore(s);
  }

  /** The bytes an unpadded base64url text was made from come back. */
  lemma DecodesEncoded(bs: seq<Byte>)
    ensures UrlBase64ToUint8Array(Encode(bs)) == Some(bs)
  {
    hide UrlBase64ToUint8Array;
    SplitJoins(bs);
    EncodedText(bs);
    DecodesUnspaced(Encode(bs));
  }

  /** Conversely a base64url text is the encoding of what it decodes to exactly when its left-over bits are zero. */
  lemma EncodesDecodedIff(s: string)
    requires UrlOnly(s) && |s| % 4 != 1
    ensures AllSymbols(Standard(s)) && UrlBase64ToUint8Array(s).Some?
    ensures Encode(UrlBase64ToUint8Array(s).value) == s <==> LeftOver(Values(Standard(s))) == 0
  {
    hide UrlBase64ToUint8Array, Split, Join, LeftOver;
    forall i | 0 <= i < |s|
      ensures Standard(s)[i] == StandardChar(s[i]) && IsSymbol(Standard(s)[i]) && Symbol(Value(Standard(s)[i])) == s[i]
    {
      SymbolWrites(s[i]);
    }
    DecodesUnspaced(s);
    var vs := Values(Standard(s));
    JoinSplitsIff(vs);
    var again := Split(Join(vs));
    if Encode(Join(vs)) == s {
      forall i | 0 <= i < |s|
        ensures again[i] == vs[i]
      {
        SymbolReads(again[i]);
        SymbolReads(vs[i]);
        assert Encode(Join(vs))[i] == Symbol(again[i]);
      }
      assert again == vs;
    }
  }
}
