/** The text `JSON.stringify` gives the canonical copy, of which tournament-fixture.ts takes its hashes, and the proof
    that this text determines the value. */
module JsonText {
  import opened CanonicalJson
  import opened Sorting

  // ---- printing ----

  function HexDigit(v: nat): char
    requires v < 16
  {
    if v < 10 then ('0' as int + v) as char else ('a' as int + v - 10) as char
  }

  function EscapeChar(c: char): string {
    if c == '"' then "\\\"" else if c == '\\' then "\\\\"
    else if c == '\U{8}' then "\\b" else if c == '\U{c}' then "\\f"
    else if c == '\n' then "\\n" else if c == '\r' then "\\r" else if c == '\t' then "\\t"
    else if c < ' ' then "\\u00" + [HexDigit(c as int / 16), HexDigit(c as int % 16)]
    else [c]
  }

  function Escape(s: string): string {
    if s == "" then "" else EscapeChar(s[0]) + Escape(s[1..])
  }

  function Quote(s: string): string { "\"" + Escape(s) + "\"" }

  function Decimal(n: nat): string {
    if n < 10 then [HexDigit(n)] else Decimal(n / 10) + [HexDigit(n % 10)]
  }

  function KeyText(key: Key): string {
    match key
    case Index(n) => Decimal(n)
    case Named(text) => text
  }

  /** What follows the i-th part of a list. */
  function RestText(parts: seq<string>, i: nat, close: char): string
    decreases |parts| - i
  {
    if i >= |parts| then [close] else "," + parts[i] + RestText(parts, i + 1, close)
  }

  function ListText(open: char, parts: seq<string>, close: char): string {
    [open] + if parts == [] then [close] else parts[0] + RestText(parts, 1, close)
  }

  function Stringify(v: Json): string {
    match v
    case Scalar(Null) => "null"
    case Scalar(Bool(b)) => if b then "true" else "false"
    case Scalar(Number(text)) => text
    case Scalar(Text(s)) => Quote(s)
    case Array(items) => ListText('[', seq(|items|, i requires 0 <= i < |items| => Stringify(items[i])), ']')
    case Object(entries) =>
      ListText('{', seq(|entries|, i requires 0 <= i < |entries| =>
        Quote(KeyText(entries[i].key)) + ":" + Stringify(entries[i].value)), '}')
  }

  function ItemTexts(items: seq<Json>): seq<string> {
    seq(|items|, i requires 0 <= i < |items| => Stringify(items[i]))
  }

  function EntryText(e: Entry): string { Quote(KeyText(e.key)) + ":" + Stringify(e.value) }

  function EntryTexts(entries: seq<Entry>): seq<string> {
    seq(|entries|, i requires 0 <= i < |entries| => EntryText(entries[i]))
  }

  lemma StringifyList(v: Json)
    ensures v.Array? ==> Stringify(v) == ListText('[', ItemTexts(v.items), ']')
    ensures v.Object? ==> Stringify(v) == ListText('{', EntryTexts(v.entries), '}')
  {
    if v.Array? {
      assert ItemTexts(v.items) == seq(|v.items|, i requires 0 <= i < |v.items| => Stringify(v.items[i]));
    } else if v.Object? {
      assert EntryTexts(v.entries) == seq(|v.entries|, i requires 0 <= i < |v.entries| =>
          Quote(KeyText(v.entries[i].key)) + ":" + Stringify(v.entries[i].value));
    }
  }

  // ---- values that print ----

  predicate IsNumberChar(c: char) { '0' <= c <= '9' || c == '-' || c == '+' || c == '.' || c == 'e' }

  predicate IsNumberText(text: string) {
    text != "" && ('0' <= text[0] <= '9' || text[0] == '-') && forall i :: 0 <= i < |text| ==> IsNumberChar(text[i])
  }

  /** A name is not the decimal text of an array index. */
  predicate IsOrdinary(key: Key) { key.Named? ==> forall n: ArrayIndex :: key.text != Decimal(n) }

  predicate Printable(v: Json) {
    match v
    case Scalar(atom) => atom.Number? ==> IsNumberText(atom.text)
    case Array(items) => forall i :: 0 <= i < |items| ==> Printable(items[i])
    case Object(entries) => forall i :: 0 <= i < |entries| ==> IsOrdinary(entries[i].key) && Printable(entries[i].value)
  }

  // ---- reading strings back ----

  lemma EscapeCharUnique(c: char, d: char, r: string, s: string)
    requires EscapeChar(c) + r == EscapeChar(d) + s
    ensures c == d && r == s
  {
    var x, y := EscapeChar(c) + r, EscapeChar(d) + s;
    assert x[0] == EscapeChar(c)[0] && y[0] == EscapeChar(d)[0];
    if |EscapeChar(c)| > 1 {
      assert x[1] == EscapeChar(c)[1] && y[1] == EscapeChar(d)[1];
      if |EscapeChar(c)| > 2 {
        assert x[4] == EscapeChar(c)[4] && y[4] == EscapeChar(d)[4];
        assert x[5] == EscapeChar(c)[5] && y[5] == EscapeChar(d)[5];
      }
    }
    assert c == d;
    assert x[|EscapeChar(c)|..] == r && y[|EscapeChar(d)|..] == s;
  }

  lemma {:induction false} EscapeUnique(s: string, t: string, r: string, u: string)
    requires Escape(s) + "\"" + r == Escape(t) + "\"" + u
    ensures s == t && r == u
  {
    hide EscapeChar;
    if s == "" || t == "" {
      EscapeEnds(s, r);
      EscapeEnds(t, u);
    } else {
      var x, y := Escape(s[1..]) + "\"" + r, Escape(t[1..]) + "\"" + u;
      assert Escape(s) + "\"" + r == EscapeChar(s[0]) + x;
      assert Escape(t) + "\"" + u == EscapeChar(t[0]) + y;
      EscapeCharUnique(s[0], t[0], x, y);
      EscapeUnique(s[1..], t[1..], r, u);
      assert s == [s[0]] + s[1..] && t == [t[0]] + t[1..];
    }
  }

  lemma EscapeEnds(s: string, r: string)
    ensures (Escape(s) + "\"" + r)[0] == '"' <==> s == ""
    ensures s == "" ==> (Escape(s) + "\"" + r)[1..] == r
  {
    if s != "" {
      assert (Escape(s) + "\"" + r)[0] == EscapeChar(s[0])[0];
    }
  }

  lemma QuoteUnique(s: string, t: string, r: string, u: string)
    requires Quote(s) + r == Quote(t) + u
    ensures s == t && r == u
  {
    assert (Quote(s) + r)[1..] == Escape(s) + "\"" + r;
    assert (Quote(t) + u)[1..] == Escape(t) + "\"" + u;
    EscapeUnique(s, t, r, u);
  }

  lemma {:induction false} DecimalUnique(m: nat, n: nat)
    requires Decimal(m) == Decimal(n)
    ensures m == n
  {
    DecimalLength(m);
    DecimalLength(n);
    if m >= 10 && n >= 10 {
      var x, y := Decimal(m), Decimal(n);
      assert x[|x| - 1] == HexDigit(m % 10) && y[|y| - 1] == HexDigit(n % 10);
      assert x[..|x| - 1] == Decimal(m / 10) && y[..|y| - 1] == Decimal(n / 10);
      DecimalUnique(m / 10, n / 10);
    }
  }

  lemma DecimalLength(n: nat)
    ensures |Decimal(n)| >= if n < 10 then 1 else 2
    ensures n < 10 ==> |Decimal(n)| == 1
  {
    if n >= 10 { DecimalLength(n / 10); }
  }

  lemma KeyTextUnique(k: Key, l: Key)
    requires IsOrdinary(k) && IsOrdinary(l) && KeyText(k) == KeyText(l)
    ensures k == l
  {
    if k.Index? && l.Index? { DecimalUnique(k.value, l.value); }
  }

  // ---- reading values back ----

  /** What can follow a value. */
  predicate Ends(r: string) { r == "" || r[0] == ',' || r[0] == ']' || r[0] == '}' }

  datatype Kind = IsNull | IsTrue | IsFalse | IsNumber | IsText | IsArray | IsObject

  function KindOf(v: Json): Kind {
    match v
    case Scalar(Null) => IsNull
    case Scalar(Bool(b)) => if b then IsTrue else IsFalse
    case Scalar(Number(_)) => IsNumber
    case Scalar(Text(_)) => IsText
    case Array(_) => IsArray
    case Object(_) => IsObject
  }

  function KindFrom(c: char): Kind {
    if c == 'n' then IsNull else if c == 't' then IsTrue else if c == 'f' then IsFalse else if c == '"' then IsText
    else if c == '[' then IsArray else if c == '{' then IsObject else IsNumber
  }

  lemma FirstCharTellsKind(v: Json, r: string)
    requires Printable(v)
    ensures Stringify(v) != "" && (Stringify(v) + r)[0] == Stringify(v)[0]
    ensures KindFrom(Stringify(v)[0]) == KindOf(v) && !Ends(Stringify(v))
  {
    StringifyList(v);
  }

  /** How many characters of a number come first. */
  function NumberRun(s: string): nat {
    if s == "" || !IsNumberChar(s[0]) then 0 else 1 + NumberRun(s[1..])
  }

  lemma {:induction false} NumberRunStops(a: string, r: string)
    requires (forall i :: 0 <= i < |a| ==> IsNumberChar(a[i])) && Ends(r)
    ensures NumberRun(a + r) == |a|
  {
    if a == "" {
      assert a + r == r;
    } else {
      NumberRunStops(a[1..], r);
      assert (a + r)[1..] == a[1..] + r;
    }
  }

  lemma NumberUnique(a: string, b: string, r: string, s: string)
    requires IsNumberText(a) && IsNumberText(b) && Ends(r) && Ends(s) && a + r == b + s
    ensures a == b && r == s
  {
    NumberRunStops(a, r);
    NumberRunStops(b, s);
    assert (a + r)[..|a|] == a && (b + s)[..|b|] == b;
    assert (a + r)[|a|..] == r && (b + s)[|b|..] == s;
  }

  lemma ConstantUnique(text: string, r: string, s: string)
    requires text + r == text + s
    ensures r == s
  {
    assert (text + r)[|text|..] == r && (text + s)[|text|..] == s;
  }

  lemma RestEnds(parts: seq<string>, i: nat, close: char, r: string)
    requires close == ']' || close == '}'
    ensures Ends(RestText(parts, i, close) + r)
  {
  }

  function Width(v: Json): nat { if v.Array? then |v.items| else if v.Object? then |v.entries| else 0 }

  lemma AtomTexts(v: Json)
    ensures v == Scalar(Null) ==> Stringify(v) == "null"
    ensures v == Scalar(Bool(true)) ==> Stringify(v) == "true"
    ensures v == Scalar(Bool(false)) ==> Stringify(v) == "false"
    ensures v.Scalar? && v.atom.Number? ==> Stringify(v) == v.atom.text
    ensures v.Scalar? && v.atom.Text? ==> Stringify(v) == Quote(v.atom.s)
  {
  }

  /** Two values whose texts start the same text, each where a value may end, are the same value. */
  lemma {:induction false} StringifyUnique(a: Json, b: Json, r: string, s: string)
    requires Printable(a) && Printable(b) && Ends(r) && Ends(s) && Stringify(a) + r == Stringify(b) + s
    ensures a == b && r == s
    decreases a, Width(a) + 2
  {
    hide Stringify;
    AtomTexts(a);
    AtomTexts(b);
    FirstCharTellsKind(a, r);
    FirstCharTellsKind(b, s);
    assert KindOf(a) == KindOf(b);
    match a
    case Scalar(Null) => ConstantUnique("null", r, s);
    case Scalar(Bool(x)) => ConstantUnique(if x then "true" else "false", r, s);
    case Scalar(Number(text)) => NumberUnique(text, b.atom.text, r, s);
    case Scalar(Text(text)) => QuoteUnique(text, b.atom.s, r, s);
    case Array(_) => ArrayUnique(a, b, r, s);
    case Object(_) => ObjectUnique(a, b, r, s);
  }

  lemma {:induction false} ArrayUnique(a: Json, b: Json, r: string, s: string)
    requires a.Array? && b.Array? && Printable(a) && Printable(b) && Stringify(a) + r == Stringify(b) + s
    ensures a == b && r == s
    decreases a, Width(a) + 1
  {
    hide Stringify;
    StringifyList(a);
    StringifyList(b);
    var x, y := ItemTexts(a.items), ItemTexts(b.items);
    if a.items != [] { FirstCharTellsKind(a.items[0], ""); }
    if b.items != [] { FirstCharTellsKind(b.items[0], ""); }
    ListSides('[', x, y, ']', r, s);
    if a.items != [] {
      RestEnds(x, 1, ']', r);
      RestEnds(y, 1, ']', s);
      StringifyUnique(a.items[0], b.items[0], RestText(x, 1, ']') + r, RestText(y, 1, ']') + s);
      ItemsUnique(a, b, 1, r, s);
    }
  }

  /** A list is its opening sign, and then its closing sign or its first part. */
  lemma ListOpens(open: char, parts: seq<string>, close: char, r: string)
    ensures var after := (ListText(open, parts, close) + r)[1..];
      after == if parts == [] then [close] + r else parts[0] + (RestText(parts, 1, close) + r)
  {
    hide RestText;
  }

  /** Two lists in front of the same text are both empty, or their first parts start the same text. */
  lemma ListSides(open: char, x: seq<string>, y: seq<string>, close: char, r: string, s: string)
    requires ListText(open, x, close) + r == ListText(open, y, close) + s
    requires x != [] ==> x[0] != "" && x[0][0] != close
    requires y != [] ==> y[0] != "" && y[0][0] != close
    ensures x == [] <==> y == []
    ensures x == [] ==> r == s
    ensures x != [] && y != [] ==> x[0] + (RestText(x, 1, close) + r) == y[0] + (RestText(y, 1, close) + s)
  {
    hide RestText;
    ListOpens(open, x, close, r);
    ListOpens(open, y, close, s);
    var after := (ListText(open, x, close) + r)[1..];
    assert after[0] == close <==> x == [];
    assert after[0] == close <==> y == [];
    if x == [] { ConstantUnique([close], r, s); }
  }

  lemma RestOpens(parts: seq<string>, i: nat, close: char, r: string)
    ensures RestText(parts, i, close) + r ==
      if i >= |parts| then [close] + r else [','] + (parts[i] + (RestText(parts, i + 1, close) + r))
  {
  }

  lemma Unshift(c: char, d: char, x: string, y: string)
    requires [c] + x == [d] + y
    ensures c == d && x == y
  {
    assert ([c] + x)[0] == c && ([d] + y)[0] == d && ([c] + x)[1..] == x && ([d] + y)[1..] == y;
  }

  lemma {:induction false} ItemsUnique(a: Json, b: Json, i: nat, r: string, s: string)
    requires a.Array? && b.Array? && Printable(a) && Printable(b) && i <= |a.items| && i <= |b.items|
    requires RestText(ItemTexts(a.items), i, ']') + r == RestText(ItemTexts(b.items), i, ']') + s
    ensures a.items[i..] == b.items[i..] && r == s
    decreases a, Width(a) - i
  {
    hide Stringify, RestText;
    var x, y := ItemTexts(a.items), ItemTexts(b.items);
    RestOpens(x, i, ']', r);
    RestOpens(y, i, ']', s);
    Unshift(if i < |x| then ',' else ']', if i < |y| then ',' else ']',
            if i < |x| then x[i] + (RestText(x, i + 1, ']') + r) else r,
            if i < |y| then y[i] + (RestText(y, i + 1, ']') + s) else s);
    if i < |x| {
      RestEnds(x, i + 1, ']', r);
      RestEnds(y, i + 1, ']', s);
      StringifyUnique(a.items[i], b.items[i], RestText(x, i + 1, ']') + r, RestText(y, i + 1, ']') + s);
      ItemsUnique(a, b, i + 1, r, s);
      assert a.items[i..] == [a.items[i]] + a.items[i + 1..] && b.items[i..] == [b.items[i]] + b.items[i + 1..];
    }
  }

  lemma {:induction false} EntryUnique(a: Json, b: Json, i: nat, r: string, s: string)
    requires a.Object? && b.Object? && Printable(a) && Printable(b) && Ends(r) && Ends(s)
    requires i < |a.entries| && i < |b.entries|
    requires EntryText(a.entries[i]) + r == EntryText(b.entries[i]) + s
    ensures a.entries[i] == b.entries[i] && r == s
    decreases a, 0
  {
    hide Stringify, Quote, KeyText;
    var e, f := a.entries[i], b.entries[i];
    var x, y := Stringify(e.value) + r, Stringify(f.value) + s;
    assert EntryText(e) + r == Quote(KeyText(e.key)) + ([':'] + x);
    assert EntryText(f) + s == Quote(KeyText(f.key)) + ([':'] + y);
    QuoteUnique(KeyText(e.key), KeyText(f.key), [':'] + x, [':'] + y);
    KeyTextUnique(e.key, f.key);
    Unshift(':', ':', x, y);
    StringifyUnique(e.value, f.value, r, s);
  }

  lemma {:induction false} ObjectUnique(a: Json, b: Json, r: string, s: string)
    requires a.Object? && b.Object? && Printable(a) && Printable(b) && Stringify(a) + r == Stringify(b) + s
    ensures a == b && r == s
    decreases a, Width(a) + 1
  {
    hide Stringify, EntryText;
    StringifyList(a);
    StringifyList(b);
    var x, y := EntryTexts(a.entries), EntryTexts(b.entries);
    if a.entries != [] { EntryOpens(a.entries[0]); }
    if b.entries != [] { EntryOpens(b.entries[0]); }
    ListSides('{', x, y, '}', r, s);
    if a.entries != [] {
      RestEnds(x, 1, '}', r);
      RestEnds(y, 1, '}', s);
      EntryUnique(a, b, 0, RestText(x, 1, '}') + r, RestText(y, 1, '}') + s);
      EntriesUnique(a, b, 1, r, s);
    }
  }

  lemma EntryOpens(e: Entry)
    ensures EntryText(e) != "" && EntryText(e)[0] == '"'
  {
  }

  lemma {:induction false} EntriesUnique(a: Json, b: Json, i: nat, r: string, s: string)
    requires a.Object? && b.Object? && Printable(a) && Printable(b) && i <= |a.entries| && i <= |b.entries|
    requires RestText(EntryTexts(a.entries), i, '}') + r == RestText(EntryTexts(b.entries), i, '}') + s
    ensures a.entries[i..] == b.entries[i..] && r == s
    decreases a, Width(a) - i
  {
    hide Stringify, EntryText, RestText;
    var x, y := EntryTexts(a.entries), EntryTexts(b.entries);
    RestOpens(x, i, '}', r);
    RestOpens(y, i, '}', s);
    Unshift(if i < |x| then ',' else '}', if i < |y| then ',' else '}',
            if i < |x| then x[i] + (RestText(x, i + 1, '}') + r) else r,
            if i < |y| then y[i] + (RestText(y, i + 1, '}') + s) else s);
    if i < |x| {
      RestEnds(x, i + 1, '}', r);
      RestEnds(y, i + 1, '}', s);
      EntryUnique(a, b, i, RestText(x, i + 1, '}') + r, RestText(y, i + 1, '}') + s);
      EntriesUnique(a, b, i + 1, r, s);
      assert a.entries[i..] == [a.entries[i]] + a.entries[i + 1..]
        && b.entries[i..] == [b.entries[i]] + b.entries[i + 1..];
    }
  }

  // ---- the text that is hashed ----

  function HashedText(payload: Json, leq: Comparison): string { Stringify(Canonicalize(payload, leq)) }

  lemma {:induction false} CanonicalStaysPrintable(v: Json, leq: Comparison)
    requires Printable(v)
    ensures Printable(Canonicalize(v, leq))
  {
    match v
    case Scalar(_) =>
    case Array(items) =>
      forall i | 0 <= i < |items|
        ensures Printable(Canonicalize(items[i], leq))
      {
        CanonicalStaysPrintable(items[i], leq);
      }
    case Object(es) =>
      CanonicalObjectEntries(es, leq);
      CanonicalEntriesMembers(es, leq);
      var c := Canonicalize(v, leq).entries;
      forall i | 0 <= i < |c|
        ensures IsOrdinary(c[i].key) && Printable(c[i].value)
      {
        assert c[i] in multiset(c);
        var e :| e in es && c[i] == CanonicalEntry(e, leq);
        CanonicalStaysPrintable(e.value, leq);
      }
  }

  /** Where no object of a payload holds tied keys, it shares the text given to the hash exactly with the payloads that
      differ from it only in key order, at any depth. */
  lemma SameTextIffSamePayload(a: Json, b: Json, leq: Comparison)
    requires WellFormed(a) && WellFormed(b) && Printable(a) && Printable(b)
    requires TotalPreorder(leq) && NoTies(a, leq)
    ensures HashedText(a, leq) == HashedText(b, leq) <==> SameUpToKeyOrder(a, b)
  {
    hide Stringify, Canonicalize, WellFormed, SameUpToKeyOrder, Printable, NoTies;
    CanonicalEqualIffSame(a, b, leq);
    CanonicalStaysPrintable(a, leq);
    CanonicalStaysPrintable(b, leq);
    if HashedText(a, leq) == HashedText(b, leq) {
      assert HashedText(a, leq) + "" == HashedText(b, leq) + "";
      StringifyUnique(Canonicalize(a, leq), Canonicalize(b, leq), "", "");
      assert Canonicalize(a, leq) == Canonicalize(b, leq);
    }
  }
}
