/** `canonicalize` of tournament-fixture.ts: the key-sorted copy of a JSON value that result hashes are taken of.

    An object is the list of its entries in the order JavaScript enumerates them: integer-like keys first, ascending,
    then the other keys in the order they were put in. `leq` stands for `left.localeCompare(right) <= 0`. */
module CanonicalJson {
  import opened Sorting

  /** The keys JavaScript enumerates as integers; any larger number is an ordinary name. */
  type ArrayIndex = n: nat | n < 0xFFFF_FFFF

  datatype Key = Index(value: ArrayIndex) | Named(text: string)
  datatype Atom = Null | Bool(b: bool) | Number(text: string) | Text(s: string)
  datatype Json = Scalar(atom: Atom) | Array(items: seq<Json>) | Object(entries: seq<Entry>)
  datatype Entry = Entry(key: Key, value: Json)

  type Comparison = (Key, Key) -> bool

  // ---- objects ----

  predicate IsIndex(e: Entry) { e.key.Index? }
  predicate IsNamed(e: Entry) { e.key.Named? }

  function Rank(e: Entry): int { if e.key.Index? then e.key.value else -1 }

  predicate IndexBefore(a: Entry, b: Entry) { Rank(a) <= Rank(b) }

  function ByKey(leq: Comparison): (Entry, Entry) -> bool {
    (a: Entry, b: Entry) => leq(a.key, b.key)
  }

  predicate DistinctKeys(es: seq<Entry>) {
    forall i, j :: 0 <= i < j < |es| ==> es[i].key != es[j].key
  }

  /** `Object.fromEntries`: the entries as the new object enumerates them. */
  function FromEntries(es: seq<Entry>): seq<Entry> {
    Sort(Filter(es, IsIndex), IndexBefore) + Filter(es, IsNamed)
  }

  /** A value JavaScript can hold: no key twice, and integer-like keys enumerated first, ascending. */
  predicate WellFormed(v: Json) {
    match v
    case Scalar(_) => true
    case Array(items) => forall i :: 0 <= i < |items| ==> WellFormed(items[i])
    case Object(entries) =>
      DistinctKeys(entries) && FromEntries(entries) == entries
      && forall i :: 0 <= i < |entries| ==> WellFormed(entries[i].value)
  }

  function Canonicalize(v: Json, leq: Comparison): Json {
    match v
    case Scalar(_) => v
    case Array(items) => Array(seq(|items|, i requires 0 <= i < |items| => Canonicalize(items[i], leq)))
    case Object(entries) =>
      var sorted := Sort(entries, ByKey(leq));
      Object(FromEntries(seq(|sorted|, i requires 0 <= i < |sorted| =>
        assert sorted[i] in entries;
        Entry(sorted[i].key, Canonicalize(sorted[i].value, leq)))))
  }

  function Keys(es: seq<Entry>): set<Key> {
    set e | e in es :: e.key
  }

  /** Equal but for the order of object keys, at every depth. */
  predicate SameUpToKeyOrder(a: Json, b: Json)
    decreases a
  {
    match a
    case Scalar(_) => a == b
    case Array(items) =>
      b.Array? && |items| == |b.items| && forall i :: 0 <= i < |items| ==> SameUpToKeyOrder(items[i], b.items[i])
    case Object(entries) =>
      b.Object? && Keys(entries) == Keys(b.entries)
      && forall e, f :: e in entries && f in b.entries && e.key == f.key ==> SameUpToKeyOrder(e.value, f.value)
  }

  /** Two different ordinary keys that compare equal, as `localeCompare` finds canonically equivalent strings. */
  predicate Tied(k: Key, l: Key, leq: Comparison) {
    k.Named? && l.Named? && k != l && leq(k, l) && leq(l, k)
  }

  predicate KeysApart(es: seq<Entry>, leq: Comparison) {
    forall i, j :: 0 <= i < j < |es| ==> !Tied(es[i].key, es[j].key, leq)
  }

  /** No object at any depth holds two tied keys. */
  predicate NoTies(v: Json, leq: Comparison) {
    match v
    case Scalar(_) => true
    case Array(items) => forall i :: 0 <= i < |items| ==> NoTies(items[i], leq)
    case Object(entries) =>
      KeysApart(entries, leq) && forall i :: 0 <= i < |entries| ==> NoTies(entries[i].value, leq)
  }

  // ---- canonicalizing the values first ----

  function CanonicalEntry(e: Entry, leq: Comparison): Entry {
    Entry(e.key, Canonicalize(e.value, leq))
  }

  function CanonicalEntries(es: seq<Entry>, leq: Comparison): seq<Entry> {
    seq(|es|, i requires 0 <= i < |es| => CanonicalEntry(es[i], leq))
  }

  lemma {:induction false} InsertMaps(e: Entry, es: seq<Entry>, leq: Comparison)
    ensures CanonicalEntries(Insert(e, es, ByKey(leq)), leq)
      == Insert(CanonicalEntry(e, leq), CanonicalEntries(es, leq), ByKey(leq))
  {
    if es == [] || leq(e.key, es[0].key) {
      CanonicalCons(e, es, leq);
    } else {
      InsertMaps(e, es[1..], leq);
      CanonicalCons(es[0], Insert(e, es[1..], ByKey(leq)), leq);
      CanonicalCons(es[0], es[1..], leq);
      assert es == [es[0]] + es[1..];
    }
  }

  lemma CanonicalCons(e: Entry, es: seq<Entry>, leq: Comparison)
    ensures CanonicalEntries([e] + es, leq) == [CanonicalEntry(e, leq)] + CanonicalEntries(es, leq)
  {
    var all := [e] + es;
    assert all[0] == e && forall i :: 0 <= i < |es| ==> all[i + 1] == es[i];
  }

  lemma {:induction false} SortMaps(es: seq<Entry>, leq: Comparison)
    ensures CanonicalEntries(Sort(es, ByKey(leq)), leq) == Sort(CanonicalEntries(es, leq), ByKey(leq))
  {
    hide Canonicalize;
    if es != [] {
      var rest := CanonicalEntries(es[1..], leq);
      SortMaps(es[1..], leq);
      InsertMaps(es[0], Sort(es[1..], ByKey(leq)), leq);
      CanonicalCons(es[0], es[1..], leq);
      assert es == [es[0]] + es[1..];
      assert CanonicalEntries(es, leq)[1..] == rest;
    }
  }

  /** Sorting compares keys only, so it may as well come after the values. */
  lemma CanonicalObject(es: seq<Entry>, leq: Comparison)
    ensures Canonicalize(Object(es), leq) == Object(FromEntries(Sort(CanonicalEntries(es, leq), ByKey(leq))))
  {
    SortMaps(es, leq);
    var sorted := Sort(es, ByKey(leq));
    assert CanonicalEntries(sorted, leq) == seq(|sorted|, i requires 0 <= i < |sorted| =>
        Entry(sorted[i].key, Canonicalize(sorted[i].value, leq)));
  }

  // ---- entries as a set ----

  lemma {:induction false} DistinctCount(es: seq<Entry>)
    requires DistinctKeys(es)
    ensures forall e :: multiset(es)[e] == if e in es then 1 else 0
  {
    if es != [] {
      HeadIn(es);
      DistinctCount(es[1..]);
      assert es == [es[0]] + es[1..];
      assert es[0] !in es[1..];
    }
  }

  lemma SameMembersSameMultiset(es: seq<Entry>, fs: seq<Entry>)
    requires DistinctKeys(es) && DistinctKeys(fs)
    requires forall e :: e in es <==> e in fs
    ensures multiset(es) == multiset(fs)
  {
    DistinctCount(es);
    DistinctCount(fs);
  }

  lemma FromEntriesPermutes(es: seq<Entry>)
    ensures multiset(FromEntries(es)) == multiset(es)
  {
    FilterCount(es, IsIndex);
    FilterCount(es, IsNamed);
    var index, named := Filter(es, IsIndex), Filter(es, IsNamed);
    forall e
      ensures multiset(FromEntries(es))[e] == multiset(es)[e]
    {
      assert multiset(FromEntries(es))[e] == multiset(index)[e] + multiset(named)[e];
    }
  }

  lemma ByKeyIsPreorder(leq: Comparison)
    requires TotalPreorder(leq)
    ensures TotalPreorder(ByKey(leq))
  {
    var order := ByKey(leq);
    assert forall a, b :: order(a, b) == leq(a.key, b.key);
  }

  lemma KeyDeterminesEntry(es: seq<Entry>, e: Entry, f: Entry)
    requires DistinctKeys(es) && e in es && f in es && e.key == f.key
    ensures e == f
  {
  }

  /** The index part of an object depends only on which entries there are. */
  lemma IndexPartUnique(xs: seq<Entry>, ys: seq<Entry>)
    requires multiset(xs) == multiset(ys) && DistinctKeys(xs)
    ensures Sort(Filter(xs, IsIndex), IndexBefore) == Sort(Filter(ys, IsIndex), IndexBefore)
  {
    FilterPermuted(xs, ys, IsIndex);
    FilterMembers(xs, IsIndex);
    var a, b := Sort(Filter(xs, IsIndex), IndexBefore), Sort(Filter(ys, IsIndex), IndexBefore);
    SortSorted(Filter(xs, IsIndex), IndexBefore);
    SortSorted(Filter(ys, IsIndex), IndexBefore);
    forall x, y | x in a && y in a && IndexBefore(x, y) && IndexBefore(y, x)
      ensures x == y
    {
      KeyDeterminesEntry(xs, x, y);
    }
    SortedUnique(a, b, IndexBefore);
  }

  lemma ApartIsEqual(xs: seq<Entry>, x: Entry, y: Entry, leq: Comparison)
    requires DistinctKeys(xs) && KeysApart(xs, leq) && x in xs && y in xs && IsNamed(x) && IsNamed(y)
    requires leq(x.key, y.key) && leq(y.key, x.key)
    ensures x == y
  {
    var i :| 0 <= i < |xs| && xs[i] == x;
    var j :| 0 <= j < |xs| && xs[j] == y;
    assert !Tied(x.key, y.key, leq);
  }

  /** So does the named part after sorting, when no two of its names compare equal. */
  lemma NamedPartUnique(xs: seq<Entry>, ys: seq<Entry>, leq: Comparison)
    requires multiset(xs) == multiset(ys) && DistinctKeys(xs) && TotalPreorder(leq) && KeysApart(xs, leq)
    ensures Filter(Sort(xs, ByKey(leq)), IsNamed) == Filter(Sort(ys, ByKey(leq)), IsNamed)
  {
    hide KeysApart, Sort, Filter, DistinctKeys, TotalPreorder;
    ByKeyIsPreorder(leq);
    SortFilter(xs, ByKey(leq), IsNamed);
    SortFilter(ys, ByKey(leq), IsNamed);
    FilterPermuted(xs, ys, IsNamed);
    FilterMembers(xs, IsNamed);
    var a, b := Sort(Filter(xs, IsNamed), ByKey(leq)), Sort(Filter(ys, IsNamed), ByKey(leq));
    SortSorted(Filter(xs, IsNamed), ByKey(leq));
    SortSorted(Filter(ys, IsNamed), ByKey(leq));
    forall x, y | x in a && y in a && ByKey(leq)(x, y) && ByKey(leq)(y, x)
      ensures x == y
    {
      ApartIsEqual(xs, x, y, leq);
    }
    SortedUnique(a, b, ByKey(leq));
  }

  lemma CanonicalOrderUnique(xs: seq<Entry>, ys: seq<Entry>, leq: Comparison)
    requires multiset(xs) == multiset(ys) && DistinctKeys(xs) && TotalPreorder(leq) && KeysApart(xs, leq)
    ensures FromEntries(Sort(xs, ByKey(leq))) == FromEntries(Sort(ys, ByKey(leq)))
  {
    NamedPartUnique(xs, ys, leq);
    var a, b := Sort(xs, ByKey(leq)), Sort(ys, ByKey(leq));
    PermutationKeepsDistinct(xs, a);
    IndexPartUnique(a, b);
  }

  lemma PermutationKeepsDistinct(xs: seq<Entry>, ys: seq<Entry>)
    requires DistinctKeys(xs) && multiset(xs) == multiset(ys)
    ensures DistinctKeys(ys)
  {
    DistinctCount(xs);
    forall i, j | 0 <= i < j < |ys|
      ensures ys[i].key != ys[j].key
    {
      assert ys[i] in multiset(ys) && ys[j] in multiset(ys);
      if ys[i].key == ys[j].key {
        assert ys[i] in xs && ys[j] in xs;
        KeyDeterminesEntry(xs, ys[i], ys[j]);
        TwoOccurrences(ys, i, j);
      }
    }
  }

  lemma TwoOccurrences(ys: seq<Entry>, i: nat, j: nat)
    requires i < j < |ys| && ys[i] == ys[j]
    ensures multiset(ys)[ys[i]] >= 2
  {
    assert ys == ys[..i] + [ys[i]] + ys[i + 1..j] + [ys[j]] + ys[j + 1..];
  }

  lemma CanonicalEntriesMembers(es: seq<Entry>, leq: Comparison)
    ensures forall e :: e in es ==> CanonicalEntry(e, leq) in CanonicalEntries(es, leq)
    ensures forall c :: c in CanonicalEntries(es, leq) ==> exists e :: e in es && c == CanonicalEntry(e, leq)
    ensures DistinctKeys(es) ==> DistinctKeys(CanonicalEntries(es, leq))
  {
    forall e | e in es
      ensures CanonicalEntry(e, leq) in CanonicalEntries(es, leq)
    {
      var i :| 0 <= i < |es| && es[i] == e;
      assert CanonicalEntries(es, leq)[i] == CanonicalEntry(e, leq);
    }
  }

  /** A canonical object has the same entries as the original, with canonical values. */
  lemma CanonicalObjectEntries(es: seq<Entry>, leq: Comparison)
    ensures Canonicalize(Object(es), leq).Object?
    ensures multiset(Canonicalize(Object(es), leq).entries) == multiset(CanonicalEntries(es, leq))
  {
    CanonicalObject(es, leq);
    FromEntriesPermutes(Sort(CanonicalEntries(es, leq), ByKey(leq)));
  }

  // ---- the two directions ----

  lemma {:induction false} CanonicalEqualImpliesSame(a: Json, b: Json, leq: Comparison)
    requires WellFormed(a) && WellFormed(b) && Canonicalize(a, leq) == Canonicalize(b, leq)
    ensures SameUpToKeyOrder(a, b)
    decreases a
  {
    match a
    case Scalar(_) =>
    case Array(items) =>
      assert b.Array? && |Canonicalize(a, leq).items| == |items| && |Canonicalize(b, leq).items| == |b.items|;
      forall i | 0 <= i < |items|
        ensures SameUpToKeyOrder(items[i], b.items[i])
      {
        assert Canonicalize(items[i], leq) == Canonicalize(a, leq).items[i] == Canonicalize(b.items[i], leq);
        CanonicalEqualImpliesSame(items[i], b.items[i], leq);
      }
    case Object(es) =>
      var fs := b.entries;
      EqualCanonicalEntries(es, fs, leq);
      forall e, f | e in es && f in fs && e.key == f.key
        ensures SameUpToKeyOrder(e.value, f.value)
      {
        CanonicalEqualImpliesSame(e.value, f.value, leq);
      }
  }

  lemma EqualCanonicalEntries(es: seq<Entry>, fs: seq<Entry>, leq: Comparison)
    requires DistinctKeys(es) && DistinctKeys(fs)
    requires Canonicalize(Object(es), leq) == Canonicalize(Object(fs), leq)
    ensures Keys(es) == Keys(fs)
    ensures forall e, f :: e in es && f in fs && e.key == f.key ==>
      Canonicalize(e.value, leq) == Canonicalize(f.value, leq)
  {
    CanonicalObjectEntries(es, leq);
    CanonicalObjectEntries(fs, leq);
    EntriesMatch(es, fs, leq);
    EntriesMatch(fs, es, leq);
  }

  lemma EntriesMatch(es: seq<Entry>, fs: seq<Entry>, leq: Comparison)
    requires DistinctKeys(fs) && multiset(CanonicalEntries(es, leq)) == multiset(CanonicalEntries(fs, leq))
    ensures Keys(es) <= Keys(fs)
    ensures forall e, f :: e in es && f in fs && e.key == f.key ==>
      Canonicalize(e.value, leq) == Canonicalize(f.value, leq)
  {
    CanonicalEntriesMembers(es, leq);
    CanonicalEntriesMembers(fs, leq);
    forall e | e in es
      ensures e.key in Keys(fs)
      ensures forall f :: f in fs && e.key == f.key ==> Canonicalize(e.value, leq) == Canonicalize(f.value, leq)
    {
      var c := CanonicalEntry(e, leq);
      assert c in multiset(CanonicalEntries(fs, leq));
      var g :| g in fs && c == CanonicalEntry(g, leq);
      assert g.key == e.key;
    }
  }

  lemma {:induction false} SameImpliesCanonicalEqual(a: Json, b: Json, leq: Comparison)
    requires WellFormed(a) && WellFormed(b) && SameUpToKeyOrder(a, b)
    requires TotalPreorder(leq) && NoTies(a, leq)
    ensures Canonicalize(a, leq) == Canonicalize(b, leq)
    decreases a
  {
    match a
    case Scalar(_) =>
    case Array(items) =>
      forall i | 0 <= i < |items|
        ensures Canonicalize(items[i], leq) == Canonicalize(b.items[i], leq)
      {
        SameImpliesCanonicalEqual(items[i], b.items[i], leq);
      }
    case Object(es) =>
      var fs := b.entries;
      forall e, f | e in es && f in fs && e.key == f.key
        ensures CanonicalEntry(e, leq) == CanonicalEntry(f, leq)
      {
        SameImpliesCanonicalEqual(e.value, f.value, leq);
      }
      SameEntries(es, fs, leq);
      CanonicalOrderUnique(CanonicalEntries(es, leq), CanonicalEntries(fs, leq), leq);
      CanonicalObject(es, leq);
      CanonicalObject(fs, leq);
  }

  lemma SameEntries(es: seq<Entry>, fs: seq<Entry>, leq: Comparison)
    requires DistinctKeys(es) && DistinctKeys(fs) && Keys(es) == Keys(fs)
    requires forall e, f :: e in es && f in fs && e.key == f.key ==> CanonicalEntry(e, leq) == CanonicalEntry(f, leq)
    ensures DistinctKeys(CanonicalEntries(es, leq))
    ensures multiset(CanonicalEntries(es, leq)) == multiset(CanonicalEntries(fs, leq))
  {
    CanonicalEntriesMembers(es, leq);
    CanonicalEntriesMembers(fs, leq);
    EntriesIncluded(es, fs, leq);
    EntriesIncluded(fs, es, leq);
    SameMembersSameMultiset(CanonicalEntries(es, leq), CanonicalEntries(fs, leq));
  }

  lemma EntriesIncluded(es: seq<Entry>, fs: seq<Entry>, leq: Comparison)
    requires Keys(es) <= Keys(fs)
    requires forall e, f :: e in es && f in fs && e.key == f.key ==> CanonicalEntry(e, leq) == CanonicalEntry(f, leq)
    ensures forall c :: c in CanonicalEntries(es, leq) ==> c in CanonicalEntries(fs, leq)
  {
    CanonicalEntriesMembers(es, leq);
    CanonicalEntriesMembers(fs, leq);
    forall c | c in CanonicalEntries(es, leq)
      ensures c in CanonicalEntries(fs, leq)
    {
      var e :| e in es && c == CanonicalEntry(e, leq);
      assert e.key in Keys(fs);
      var f :| f in fs && f.key == e.key;
      assert CanonicalEntry(f, leq) in CanonicalEntries(fs, leq);
    }
  }

  /** Where no object holds tied keys, two values have one canonical form exactly when they differ only in key order, at
      any depth. Only one of the two need be checked for ties. */
  lemma CanonicalEqualIffSame(a: Json, b: Json, leq: Comparison)
    requires WellFormed(a) && WellFormed(b) && TotalPreorder(leq) && NoTies(a, leq)
    ensures Canonicalize(a, leq) == Canonicalize(b, leq) <==> SameUpToKeyOrder(a, b)
  {
    if SameUpToKeyOrder(a, b) {
      SameImpliesCanonicalEqual(a, b, leq);
    } else if Canonicalize(a, leq) == Canonicalize(b, leq) {
      CanonicalEqualImpliesSame(a, b, leq);
    }
  }

  // ---- what a tie lets through ----

  lemma NamesEnumerateInOrder(es: seq<Entry>)
    requires forall e :: e in es ==> IsNamed(e)
    ensures FromEntries(es) == es
  {
    FilterAll(es, IsIndex);
    FilterAll(es, IsNamed);
    assert [] + es == es;
  }

  /** The order of enumeration is a matter of keys alone. */
  predicate Enumerated(es: seq<Entry>) {
    forall i, j :: 0 <= i < j < |es| ==>
      if es[i].key.Named? then es[j].key.Named? else Rank(es[j]) >= Rank(es[i]) || es[j].key.Named?
  }

  lemma IndexGoesFirst(e: Entry, rest: seq<Entry>)
    requires IsIndex(e) && FromEntries(rest) == rest
    requires rest != [] && IsIndex(rest[0]) ==> IndexBefore(e, rest[0])
    ensures FromEntries([e] + rest) == [e] + rest
  {
    hide Filter, Sort;
    var kept := Filter(rest, IsIndex);
    var index := Sort(kept, IndexBefore);
    FilterCons(e, rest, IsIndex);
    FilterCons(e, rest, IsNamed);
    FilterMembers(rest, IsIndex);
    if index != [] {
      assert index[0] in kept && index[0] == rest[0];
    }
    SortInFront(e, kept, IndexBefore);
    assert [e] + index + Filter(rest, IsNamed) == [e] + (index + Filter(rest, IsNamed));
  }

  lemma {:induction false} EnumeratedStays(es: seq<Entry>)
    requires Enumerated(es)
    ensures FromEntries(es) == es
  {
    hide FromEntries;
    if es == [] || IsNamed(es[0]) {
      NamesEnumerateInOrder(es);
    } else {
      EnumeratedStays(es[1..]);
      IndexGoesFirst(es[0], es[1..]);
      assert es == [es[0]] + es[1..];
    }
  }

  lemma StaysEnumerated(es: seq<Entry>)
    requires FromEntries(es) == es
    ensures Enumerated(es)
  {
    var index, named := Filter(es, IsIndex), Filter(es, IsNamed);
    SortSorted(index, IndexBefore);
    FilterMembers(es, IsIndex);
    FilterMembers(es, IsNamed);
    SameMembers(index, Sort(index, IndexBefore));
    forall i, j | 0 <= i < j < |es|
      ensures if es[i].key.Named? then es[j].key.Named? else Rank(es[j]) >= Rank(es[i]) || es[j].key.Named?
    {
      if j < |index| {
        assert es[i] == Sort(index, IndexBefore)[i] && es[j] == Sort(index, IndexBefore)[j];
        assert es[i] in index;
      } else {
        assert es[j] == named[j - |index|] && es[j] in named;
      }
    }
  }

  lemma {:induction false} SameAsItself(v: Json)
    requires WellFormed(v)
    ensures SameUpToKeyOrder(v, v)
  {
    match v
    case Scalar(_) =>
    case Array(items) =>
      forall i | 0 <= i < |items|
        ensures SameUpToKeyOrder(items[i], items[i])
      {
        SameAsItself(items[i]);
      }
    case Object(es) =>
      forall e, f | e in es && f in es && e.key == f.key
        ensures SameUpToKeyOrder(e.value, f.value)
      {
        KeyDeterminesEntry(es, e, f);
        SameAsItself(e.value);
      }
  }

  /** `b` differs from `a` only in key order, and yet canonicalizes differently. */
  ghost predicate Escapes(a: Json, b: Json, leq: Comparison) {
    WellFormed(b) && SameUpToKeyOrder(a, b) && Canonicalize(a, leq) != Canonicalize(b, leq)
  }

  lemma ItemEscapes(a: Json, k: nat, item: Json, leq: Comparison)
    requires WellFormed(a) && a.Array? && k < |a.items| && Escapes(a.items[k], item, leq)
    ensures Escapes(a, Array(a.items[k := item]), leq)
  {
    var b := Array(a.items[k := item]);
    forall i | 0 <= i < |a.items|
      ensures SameUpToKeyOrder(a.items[i], b.items[i]) && WellFormed(b.items[i])
    {
      SameAsItself(a.items[i]);
    }
    assert Canonicalize(a, leq).items[k] != Canonicalize(b, leq).items[k];
  }

  lemma ValueReplaced(es: seq<Entry>, k: nat, value: Json)
    requires WellFormed(Object(es)) && k < |es| && WellFormed(value) && SameUpToKeyOrder(es[k].value, value)
    ensures var fs := es[k := Entry(es[k].key, value)];
      WellFormed(Object(fs)) && SameUpToKeyOrder(Object(es), Object(fs))
  {
    hide FromEntries;
    var fs := es[k := Entry(es[k].key, value)];
    StaysEnumerated(es);
    EnumeratedStays(fs);
    SameKeys(es, fs);
    forall e, f | e in es && f in fs && e.key == f.key
      ensures SameUpToKeyOrder(e.value, f.value)
    {
      if f == fs[k] {
        KeyDeterminesEntry(es, e, es[k]);
      } else {
        KeyDeterminesEntry(es, e, f);
        SameAsItself(e.value);
      }
    }
  }

  lemma ValueEscapes(a: Json, k: nat, value: Json, leq: Comparison)
    requires WellFormed(a) && a.Object? && k < |a.entries| && Escapes(a.entries[k].value, value, leq)
    ensures Escapes(a, Object(a.entries[k := Entry(a.entries[k].key, value)]), leq)
  {
    hide FromEntries, SameUpToKeyOrder, Canonicalize;
    var es, key := a.entries, a.entries[k].key;
    var fs := es[k := Entry(key, value)];
    ValueReplaced(es, k, value);
    GetFinds(es, key);
    GetFinds(fs, key);
    assert es[k] in es && fs[k] in fs;
    GetCanonical(es, key, leq);
    GetCanonical(fs, key, leq);
  }

  lemma SameKeys(es: seq<Entry>, fs: seq<Entry>)
    requires |es| == |fs| && forall i :: 0 <= i < |es| ==> es[i].key == fs[i].key
    ensures Keys(es) == Keys(fs)
  {
    forall key
      ensures key in Keys(es) <==> key in Keys(fs)
    {
      if key in Keys(es) {
        var i :| 0 <= i < |es| && es[i].key == key;
        assert fs[i] in fs;
      }
      if key in Keys(fs) {
        var i :| 0 <= i < |fs| && fs[i].key == key;
        assert es[i] in es;
      }
    }
  }

  function KeyIn(keys: set<Key>): Entry -> bool { (e: Entry) => e.key in keys }

  lemma FilterAroundTwo(before: seq<Entry>, x: Entry, between: seq<Entry>, y: Entry, after: seq<Entry>,
                        keep: Entry -> bool)
    requires keep(x) && keep(y) && forall e :: e in before || e in between || e in after ==> !keep(e)
    ensures Filter(before + ([x] + (between + ([y] + after))), keep) == [x, y]
  {
    hide Filter;
    FilterAll(before, keep);
    FilterAll(between, keep);
    FilterAll(after, keep);
    FilterConcat(before, [x] + (between + ([y] + after)), keep);
    FilterCons(x, between + ([y] + after), keep);
    FilterConcat(between, [y] + after, keep);
    FilterCons(y, after, keep);
  }

  lemma SplitAroundTwo(es: seq<Entry>, i: nat, j: nat)
    requires i < j < |es|
    ensures es == es[..i] + ([es[i]] + (es[i + 1..j] + ([es[j]] + es[j + 1..])))
  {
    assert es[j..] == [es[j]] + es[j + 1..];
    assert es[i..] == [es[i]] + es[i + 1..];
    assert es[i + 1..] == es[i + 1..j] + es[j..];
    assert es == es[..i] + es[i..];
  }

  lemma OthersHaveOtherKeys(es: seq<Entry>, i: nat, j: nat, e: Entry)
    requires DistinctKeys(es) && i < j < |es| && (e in es[..i] || e in es[i + 1..j] || e in es[j + 1..])
    ensures e.key != es[i].key && e.key != es[j].key
  {
    if e in es[..i] {
      var k :| 0 <= k < i && es[..i][k] == e;
      assert es[k].key != es[i].key && es[k].key != es[j].key;
    } else if e in es[i + 1..j] {
      var k :| 0 <= k < j - i - 1 && es[i + 1..j][k] == e;
      assert es[i + 1 + k].key != es[i].key && es[i + 1 + k].key != es[j].key;
    } else {
      var k :| 0 <= k < |es| - j - 1 && es[j + 1..][k] == e;
      assert es[j + 1 + k].key != es[i].key && es[j + 1 + k].key != es[j].key;
    }
  }

  lemma KeepsTwo(es: seq<Entry>, i: nat, j: nat)
    requires DistinctKeys(es) && i < j < |es|
    ensures Filter(es, KeyIn({es[i].key, es[j].key})) == [es[i], es[j]]
  {
    hide Filter, DistinctKeys;
    var keep := KeyIn({es[i].key, es[j].key});
    forall e | e in es[..i] || e in es[i + 1..j] || e in es[j + 1..]
      ensures !keep(e)
    {
      OthersHaveOtherKeys(es, i, j, e);
    }
    FilterAroundTwo(es[..i], es[i], es[i + 1..j], es[j], es[j + 1..], keep);
    SplitAroundTwo(es, i, j);
  }

  /** Two tied keys keep their order in the canonical object. */
  lemma TieKeepsOrder(es: seq<Entry>, i: nat, j: nat, leq: Comparison)
    requires DistinctKeys(es) && TotalPreorder(leq) && i < j < |es| && Tied(es[i].key, es[j].key, leq)
    ensures Filter(Canonicalize(Object(es), leq).entries, KeyIn({es[i].key, es[j].key}))
      == [CanonicalEntry(es[i], leq), CanonicalEntry(es[j], leq)]
  {
    hide Canonicalize, Filter, Sort, FromEntries;
    var cs, keep := CanonicalEntries(es, leq), KeyIn({es[i].key, es[j].key});
    var sorted := Sort(cs, ByKey(leq));
    CanonicalObject(es, leq);
    CanonicalEntriesMembers(es, leq);
    ByKeyIsPreorder(leq);
    CanonicalParts(sorted);
    FilterTwice(FromEntries(sorted), IsNamed, keep);
    FilterTwice(sorted, IsNamed, keep);
    SortFilter(cs, ByKey(leq), keep);
    KeepsTwo(cs, i, j);
    SortOfSorted([cs[i], cs[j]], ByKey(leq));
  }

  function Swapped(es: seq<Entry>, i: nat, j: nat): seq<Entry>
    requires i < j < |es|
  {
    es[i := es[j]][j := es[i]]
  }

  lemma SwapOnlyReorders(es: seq<Entry>, i: nat, j: nat)
    requires WellFormed(Object(es)) && i < j < |es| && es[i].key.Named? && es[j].key.Named?
    ensures WellFormed(Object(Swapped(es, i, j))) && SameUpToKeyOrder(Object(es), Object(Swapped(es, i, j)))
  {
    hide FromEntries;
    var fs := Swapped(es, i, j);
    StaysEnumerated(es);
    EnumeratedStays(fs);
    assert forall e :: e in es <==> e in fs by {
      assert forall k :: 0 <= k < |es| ==> es[k] == fs[if k == i then j else if k == j then i else k];
    }
    forall e, f | e in es && f in fs && e.key == f.key
      ensures SameUpToKeyOrder(e.value, f.value)
    {
      KeyDeterminesEntry(es, e, f);
      SameAsItself(e.value);
    }
  }

  lemma TieEscapes(a: Json, i: nat, j: nat, leq: Comparison)
    requires WellFormed(a) && TotalPreorder(leq) && a.Object? && i < j < |a.entries|
    requires Tied(a.entries[i].key, a.entries[j].key, leq)
    ensures Escapes(a, Object(Swapped(a.entries, i, j)), leq)
  {
    hide FromEntries, Filter, Canonicalize, SameUpToKeyOrder;
    var es, fs := a.entries, Swapped(a.entries, i, j);
    SwapOnlyReorders(es, i, j);
    TieKeepsOrder(es, i, j, leq);
    TieKeepsOrder(fs, i, j, leq);
    assert {es[i].key, es[j].key} == {fs[i].key, fs[j].key};
    assert CanonicalEntry(es[i], leq).key != CanonicalEntry(fs[i], leq).key;
  }

  lemma {:induction false} TiesEscape(a: Json, leq: Comparison) returns (b: Json)
    requires WellFormed(a) && TotalPreorder(leq) && !NoTies(a, leq)
    ensures Escapes(a, b, leq)
  {
    if a.Array? {
      var k: nat :| k < |a.items| && !NoTies(a.items[k], leq);
      var item := TiesEscape(a.items[k], leq);
      ItemEscapes(a, k, item, leq);
      b := Array(a.items[k := item]);
    } else if i: nat, j: nat :| i < j < |a.entries| && Tied(a.entries[i].key, a.entries[j].key, leq) {
      TieEscapes(a, i, j, leq);
      b := Object(Swapped(a.entries, i, j));
    } else {
      var k: nat :| k < |a.entries| && !NoTies(a.entries[k].value, leq);
      var value := TiesEscape(a.entries[k].value, leq);
      ValueEscapes(a, k, value, leq);
      b := Object(a.entries[k := Entry(a.entries[k].key, value)]);
    }
  }

  /** A payload canonicalizes the same in every key order exactly when none of its objects holds two tied keys. */
  lemma KeyOrderNeverMattersIff(a: Json, leq: Comparison)
    requires WellFormed(a) && TotalPreorder(leq)
    ensures (forall b :: WellFormed(b) && SameUpToKeyOrder(a, b) ==> Canonicalize(a, leq) == Canonicalize(b, leq))
      <==> NoTies(a, leq)
  {
    hide WellFormed, SameUpToKeyOrder, Canonicalize, NoTies;
    if NoTies(a, leq) {
      forall b | WellFormed(b) && SameUpToKeyOrder(a, b)
        ensures Canonicalize(a, leq) == Canonicalize(b, leq)
      {
        SameImpliesCanonicalEqual(a, b, leq);
      }
    } else {
      var b := TiesEscape(a, leq);
      assert WellFormed(b) && SameUpToKeyOrder(a, b) && Canonicalize(a, leq) != Canonicalize(b, leq);
    }
  }

  /** A comparison with any tie lets the key order of some payload through. */
  lemma TieShowsKeyOrder(k: Key, l: Key, leq: Comparison)
    requires TotalPreorder(leq) && Tied(k, l, leq)
    ensures var x, y := Entry(k, Scalar(Null)), Entry(l, Scalar(Null));
      WellFormed(Object([x, y])) && Escapes(Object([x, y]), Object([y, x]), leq)
  {
    hide Escapes, FromEntries;
    var x, y := Entry(k, Scalar(Null)), Entry(l, Scalar(Null));
    NamesEnumerateInOrder([x, y]);
    TieEscapes(Object([x, y]), 0, 1, leq);
    assert Swapped([x, y], 0, 1) == [y, x];
  }

  // ---- the order of keys ----

  /** In every object at every depth integer-like keys come first and ascend, and names follow in the order of `leq`. */
  predicate InKeyOrder(v: Json, leq: Comparison) {
    match v
    case Scalar(_) => true
    case Array(items) => forall i :: 0 <= i < |items| ==> InKeyOrder(items[i], leq)
    case Object(es) =>
      && (forall i :: 0 <= i < |es| ==> InKeyOrder(es[i].value, leq))
      && (forall i, j :: 0 <= i < j < |es| ==>
            match es[i].key
            case Index(m) => es[j].key.Named? || m <= es[j].key.value
            case Named(_) => es[j].key.Named? && leq(es[i].key, es[j].key))
  }

  lemma NamesComeLast(es: seq<Entry>) returns (n: nat)
    ensures var c, named := FromEntries(es), Filter(es, IsNamed);
      && |c| == n + |named| && c[n..] == named
      && (forall k :: 0 <= k < n ==> c[k].key.Index?) && (forall k :: 0 <= k < |named| ==> named[k].key.Named?)
  {
    hide Filter, Sort;
    var kept, named := Filter(es, IsIndex), Filter(es, IsNamed);
    var index := Sort(kept, IndexBefore);
    SameMembers(kept, index);
    FilterMembers(es, IsIndex);
    FilterMembers(es, IsNamed);
    n := |index|;
    forall k | 0 <= k < n
      ensures FromEntries(es)[k].key.Index?
    {
      assert index[k] in kept;
    }
    forall k | 0 <= k < |named|
      ensures named[k].key.Named?
    {
      assert named[k] in named;
    }
  }

  lemma NamesInOrder(es: seq<Entry>, leq: Comparison, i: nat, j: nat)
    requires TotalPreorder(leq) && i < j
    requires var c := FromEntries(Sort(es, ByKey(leq))); j < |c| && c[i].key.Named?
    ensures var c := FromEntries(Sort(es, ByKey(leq))); c[j].key.Named? && leq(c[i].key, c[j].key)
  {
    hide Filter, Sort, FromEntries, TotalPreorder;
    var sorted := Sort(es, ByKey(leq));
    var c, named := FromEntries(sorted), Filter(sorted, IsNamed);
    ByKeyIsPreorder(leq);
    SortFilter(es, ByKey(leq), IsNamed);
    SortSorted(Filter(es, IsNamed), ByKey(leq));
    var n := NamesComeLast(sorted);
    assert c[i] == c[n..][i - n] && c[j] == c[n..][j - n];
    assert ByKey(leq)(c[i], c[j]);
  }

  lemma IndicesInOrder(es: seq<Entry>, i: nat, j: nat)
    requires FromEntries(es) == es && i < j < |es| && es[i].key.Index? && es[j].key.Index?
    ensures es[i].key.value <= es[j].key.value
  {
    StaysEnumerated(es);
  }

  /** A canonical value is in key order throughout. */
  lemma {:induction false} CanonicalInKeyOrder(v: Json, leq: Comparison)
    requires WellFormed(v) && TotalPreorder(leq)
    ensures InKeyOrder(Canonicalize(v, leq), leq)
  {
    match v
    case Scalar(_) =>
    case Array(items) =>
      forall i | 0 <= i < |items|
        ensures InKeyOrder(Canonicalize(items[i], leq), leq)
      {
        CanonicalInKeyOrder(items[i], leq);
      }
    case Object(es) =>
      forall e | e in es
        ensures InKeyOrder(Canonicalize(e.value, leq), leq)
      {
        CanonicalInKeyOrder(e.value, leq);
      }
      CanonicalEntriesInOrder(es, leq);
  }

  lemma CanonicalEntriesInOrder(es: seq<Entry>, leq: Comparison)
    requires DistinctKeys(es) && TotalPreorder(leq)
    requires forall e :: e in es ==> InKeyOrder(Canonicalize(e.value, leq), leq)
    ensures InKeyOrder(Canonicalize(Object(es), leq), leq)
  {
    hide Canonicalize, Sort, FromEntries, TotalPreorder;
    CanonicalObject(es, leq);
    CanonicalEntriesMembers(es, leq);
    CanonicalObjectEntries(es, leq);
    var xs := CanonicalEntries(es, leq);
    var c := FromEntries(Sort(xs, ByKey(leq)));
    CanonicalOrderStable(xs, leq);
    SameMembers(c, xs);
    forall i | 0 <= i < |c|
      ensures InKeyOrder(c[i].value, leq)
    {
      assert c[i] in xs;
      var e :| e in es && c[i] == CanonicalEntry(e, leq);
    }
    forall i, j | 0 <= i < j < |c|
      ensures match c[i].key
        case Index(m) => c[j].key.Named? || m <= c[j].key.value
        case Named(_) => c[j].key.Named? && leq(c[i].key, c[j].key)
    {
      if c[i].key.Named? {
        NamesInOrder(xs, leq, i, j);
      } else if c[j].key.Index? {
        IndicesInOrder(c, i, j);
      }
    }
  }

  // ---- idempotence and paths ----

  /** The canonical order of entries is a fixed point of sorting and enumerating again. */
  lemma CanonicalOrderStable(xs: seq<Entry>, leq: Comparison)
    requires DistinctKeys(xs) && TotalPreorder(leq)
    ensures var c := FromEntries(Sort(xs, ByKey(leq)));
      FromEntries(Sort(c, ByKey(leq))) == c && FromEntries(c) == c
  {
    ByKeyIsPreorder(leq);
    var sorted := Sort(xs, ByKey(leq));
    PermutationKeepsDistinct(xs, sorted);
    var index, named := Sort(Filter(sorted, IsIndex), IndexBefore), Filter(sorted, IsNamed);
    var c := FromEntries(sorted);
    FromEntriesPermutes(sorted);
    PermutationKeepsDistinct(sorted, c);
    CanonicalParts(sorted);
    SortFilter(xs, ByKey(leq), IsNamed);
    SortSorted(Filter(xs, IsNamed), ByKey(leq));
    SortOfSorted(named, ByKey(leq));
    SortFilter(c, ByKey(leq), IsNamed);
    IndexPartUnique(c, Sort(c, ByKey(leq)));
    SortSorted(Filter(sorted, IsIndex), IndexBefore);
    SortOfSorted(index, IndexBefore);
  }

  lemma CanonicalParts(sorted: seq<Entry>)
    ensures Filter(FromEntries(sorted), IsIndex) == Sort(Filter(sorted, IsIndex), IndexBefore)
    ensures Filter(FromEntries(sorted), IsNamed) == Filter(sorted, IsNamed)
  {
    var index, named := Sort(Filter(sorted, IsIndex), IndexBefore), Filter(sorted, IsNamed);
    FilterMembers(sorted, IsIndex);
    FilterMembers(sorted, IsNamed);
    FilterConcat(index, named, IsIndex);
    FilterConcat(index, named, IsNamed);
    FilterAll(index, IsIndex);
    FilterAll(index, IsNamed);
    FilterAll(named, IsIndex);
    FilterAll(named, IsNamed);
  }

  /** Canonicalizing once is enough, and gives a value of the same kind. */
  lemma {:induction false} CanonicalizeIdempotent(v: Json, leq: Comparison)
    requires WellFormed(v) && TotalPreorder(leq)
    ensures WellFormed(Canonicalize(v, leq))
    ensures Canonicalize(Canonicalize(v, leq), leq) == Canonicalize(v, leq)
  {
    match v
    case Scalar(_) =>
    case Array(items) =>
      forall i | 0 <= i < |items|
        ensures WellFormed(Canonicalize(items[i], leq))
        ensures Canonicalize(Canonicalize(items[i], leq), leq) == Canonicalize(items[i], leq)
      {
        CanonicalizeIdempotent(items[i], leq);
      }
    case Object(es) =>
      forall e | e in es
        ensures WellFormed(Canonicalize(e.value, leq))
        ensures Canonicalize(Canonicalize(e.value, leq), leq) == Canonicalize(e.value, leq)
      {
        CanonicalizeIdempotent(e.value, leq);
      }
      CanonicalObjectIdempotent(es, leq);
  }

  lemma CanonicalObjectIdempotent(es: seq<Entry>, leq: Comparison)
    requires DistinctKeys(es) && TotalPreorder(leq)
    requires forall e :: e in es ==>
      && WellFormed(Canonicalize(e.value, leq))
      && Canonicalize(Canonicalize(e.value, leq), leq) == Canonicalize(e.value, leq)
    ensures var c := Canonicalize(Object(es), leq); WellFormed(c) && Canonicalize(c, leq) == c
  {
    hide Canonicalize, Sort, FromEntries;
    CanonicalObject(es, leq);
    CanonicalEntriesMembers(es, leq);
    var xs := CanonicalEntries(es, leq);
    var c := FromEntries(Sort(xs, ByKey(leq)));
    CanonicalOrderStable(xs, leq);
    FromEntriesPermutes(Sort(xs, ByKey(leq)));
    PermutationKeepsDistinct(xs, c);
    forall e | e in c
      ensures WellFormed(e.value) && CanonicalEntry(e, leq) == e
    {
      assert e in multiset(c);
      var o :| o in es && e == CanonicalEntry(o, leq);
    }
    assert CanonicalEntries(c, leq) == c;
    CanonicalObject(c, leq);
  }

  datatype PathStep = Field(key: Key) | Item(index: nat)
  datatype Lookup = Missing | Found(value: Json)

  function Get(es: seq<Entry>, key: Key): Lookup {
    if es == [] then Missing else if es[0].key == key then Found(es[0].value) else Get(es[1..], key)
  }

  function At(v: Json, path: seq<PathStep>): Lookup
    decreases |path|
  {
    if path == [] then Found(v) else
      match path[0]
      case Item(i) => if v.Array? && i < |v.items| then At(v.items[i], path[1..]) else Missing
      case Field(key) =>
        if !v.Object? then Missing else
          match Get(v.entries, key)
          case Missing => Missing
          case Found(nested) => At(nested, path[1..])
  }

  lemma {:induction false} GetFinds(es: seq<Entry>, key: Key)
    requires DistinctKeys(es)
    ensures forall e :: e in es && e.key == key ==> Get(es, key) == Found(e.value)
    ensures Get(es, key).Found? ==> Entry(key, Get(es, key).value) in es
    ensures Get(es, key).Found? <==> key in Keys(es)
  {
    if es != [] {
      GetFinds(es[1..], key);
      assert es == [es[0]] + es[1..];
    }
  }

  lemma GetCanonical(es: seq<Entry>, key: Key, leq: Comparison)
    requires DistinctKeys(es)
    ensures Get(Canonicalize(Object(es), leq).entries, key) ==
      match Get(es, key)
      case Missing => Missing
      case Found(v) => Found(Canonicalize(v, leq))
  {
    hide Canonicalize;
    CanonicalObjectEntries(es, leq);
    CanonicalEntriesMembers(es, leq);
    var c := Canonicalize(Object(es), leq).entries;
    PermutationKeepsDistinct(CanonicalEntries(es, leq), c);
    GetFinds(es, key);
    GetFinds(c, key);
    if Get(es, key).Found? {
      var e := Entry(key, Get(es, key).value);
      assert CanonicalEntry(e, leq) in multiset(c);
    }
    forall e | e in c
      ensures e.key in Keys(es)
    {
      assert e in multiset(c);
    }
  }

  /** Every path leads to the same place, holding the canonical form of what was there. */
  lemma {:induction false} PathsKept(v: Json, path: seq<PathStep>, leq: Comparison)
    requires WellFormed(v)
    ensures At(Canonicalize(v, leq), path) ==
      match At(v, path)
      case Missing => Missing
      case Found(w) => Found(Canonicalize(w, leq))
    decreases |path|
  {
    if path != [] {
      if path[0].Item? && v.Array? && path[0].index < |v.items| {
        PathsKept(v.items[path[0].index], path[1..], leq);
      } else if path[0].Field? && v.Object? {
        GetCanonical(v.entries, path[0].key, leq);
        GetFinds(v.entries, path[0].key);
        if Get(v.entries, path[0].key).Found? {
          PathsKept(Get(v.entries, path[0].key).value, path[1..], leq);
        }
      }
    }
  }
}
