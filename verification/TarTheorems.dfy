/** What the canonical tar format is for: which member lists it accepts, and that an archive determines them. */
module TarTheorems {
  import opened Prelude
  import opened Utf8Names
  import opened TarBytes
  import opened TarWriter
  import opened TarReader

  /** A name, mode and content as the caller gave them. */
  datatype Original = Original(name: Name, mode: int, data: Bytes)

  function Originals(es: seq<Entry>): seq<Original> {
    seq(|es|, i requires 0 <= i < |es| => Original(es[i].name, es[i].mode, es[i].data))
  }

  /** Reading an archive all the way back to strings. */
  function Restore(archive: Bytes, signed: bool): Option<seq<Original>> {
    match ReadArchive(archive, signed)
    case None => None
    case Some(files) => Some(seq(|files|, i requires 0 <= i < |files| =>
      Original(Decode(files[i].name), files[i].mode, files[i].data)))
  }

  /** No name hides a character behind escapes. */
  ghost predicate NamesAreFaithful(es: seq<Entry>) {
    forall i :: 0 <= i < |es| ==> !SpellsCharacter(es[i].name)
  }

  lemma {:induction false} FilesInOrder(es: seq<Entry>)
    requires forall i :: 0 <= i < |es| ==> Encodable(es[i].name)
    ensures |AsFiles(es)| == |es| && forall i :: 0 <= i < |es| ==> AsFiles(es)[i] == AsFile(es[i])
  {
    if es != [] { FilesInOrder(es[1..]); }
  }

  /** A strict reader restores names, modes and contents exactly when no mode is negative and every name is faithful. */
  lemma RestoredIff(es: seq<Entry>)
    requires Archive(es).Ok?
    ensures Restore(Archive(es).value, false) == Some(Originals(es))
      <==> (forall i :: 0 <= i < |es| ==> es[i].mode >= 0) && NamesAreFaithful(es)
  {
    hide Archive, ReadArchive;
    ArchiveReadsBack(es, false);
    if AllReadable(es, false) {
      assert forall i :: 0 <= i < |es| ==> Readable(es[i], false);
      FilesInOrder(es);
      forall i | 0 <= i < |es|
        ensures Decode(AsFiles(es)[i].name) == es[i].name <==> !SpellsCharacter(es[i].name)
      {
        NameRecoveredIff(es[i].name);
      }
      var restored := Restore(Archive(es).value, false).value;
      assert forall i :: 0 <= i < |es| ==> restored[i].name == Decode(AsFiles(es)[i].name);
      if restored == Originals(es) {
        assert forall i :: 0 <= i < |es| ==> restored[i].name == Originals(es)[i].name;
      }
    }
  }

  /** Two lists with the same archive hold the same name bytes, modes and contents, negative modes included. */
  lemma ArchiveIsInjectiveOnBytes(a: seq<Entry>, b: seq<Entry>)
    requires Archive(a).Ok? && Archive(a) == Archive(b)
    ensures |a| == |b|
    ensures forall i :: 0 <= i < |a| ==> Encodable(a[i].name) && Encodable(b[i].name) && AsFile(a[i]) == AsFile(b[i])
  {
    hide Archive, ReadArchive;
    ArchiveReadsBack(a, true);
    ArchiveReadsBack(b, true);
    assert AllReadable(a, true) && AllReadable(b, true);
    FilesInOrder(a);
    FilesInOrder(b);
    forall i | 0 <= i < |a|
      ensures AsFile(a[i]) == AsFile(b[i])
    {
      assert AsFiles(a)[i] == AsFiles(b)[i];
    }
  }

  /** With faithful names the archive is an injective image of the whole list. */
  lemma ArchiveIsInjective(a: seq<Entry>, b: seq<Entry>)
    requires Archive(a).Ok? && Archive(a) == Archive(b)
    requires NamesAreFaithful(a) && NamesAreFaithful(b)
    ensures Originals(a) == Originals(b)
  {
    hide Archive;
    ArchiveIsInjectiveOnBytes(a, b);
    forall i | 0 <= i < |a|
      ensures Originals(a)[i] == Originals(b)[i]
    {
      NameRecoveredIff(a[i].name);
      NameRecoveredIff(b[i].name);
      assert AsFile(a[i]) == AsFile(b[i]);
    }
  }

  // ---- acceptance ----

  predicate Acceptable(e: Entry) {
    && e.typeflag == [REGULAR]
    && Encodable(e.name)
    && (forall i :: 0 <= i < |Encode(e.name)| ==> Encode(e.name)[i] >= 0x20 && Encode(e.name)[i] != 0x7F)
    && 0 < e.mode + Power(8, 6) && e.mode < Power(8, 7)
    && |e.data| < Power(8, 11)
    && (NeedsPax(Encode(e.name)) ==> |PaxRecord(PATH_KEY, Encode(e.name))| < Power(8, 11))
  }

  lemma MemberAcceptedIff(e: Entry)
    ensures MemberBytes(e).Ok? <==> Acceptable(e)
  {
    hide OctalField, Encode, Encodable, Power, NeedsPax, PaxRecord, Front, Back, ChecksumField;
    OctalFieldFits(e.mode, 8);
    OctalFieldFits(|e.data|, 12);
    OctalFieldFits(0x1A4, 8);
    ModeOfPaxHeaderFits();
    if Encodable(e.name) {
      OctalFieldFits(|PaxRecord(PATH_KEY, Encode(e.name))|, 12);
    }
  }

  lemma ModeOfPaxHeaderFits()
    ensures 0x1A4 < Power(8, 7)
  {
    assert Power(8, 3) == 512;
  }

  /** The serializer refuses a list exactly when it would refuse one of its members. */
  lemma {:induction false} ArchiveAcceptedIff(es: seq<Entry>)
    ensures Archive(es).Ok? <==> forall i :: 0 <= i < |es| ==> Acceptable(es[i])
  {
    hide MemberBytes, Acceptable;
    if es != [] {
      MemberAcceptedIff(es[0]);
      ArchiveAcceptedIff(es[1..]);
      assert forall i :: 1 <= i < |es| ==> es[i] == es[1..][i - 1];
    }
  }

  // ---- the bytes themselves ----

  /** A field of the number zero: zero digits and a NUL. */
  predicate IsZeroField(field: Bytes) {
    field != [] && field[|field| - 1] == 0 && forall i :: 0 <= i < |field| - 1 ==> field[i] == 0x30
  }

  predicate AllNul(bs: Bytes) { forall i :: 0 <= i < |bs| ==> bs[i] == 0 }

  /** The ustar header of a name, mode, size and type, byte by byte. */
  ghost predicate IsUstarHeader(h: Bytes, name: Bytes, mode: int, size: nat, typeflag: Byte) {
    && |h| == 512
    && (forall i :: 0 <= i < 100 ==> h[i] == if i < |name| then name[i] else 0)
    && ReadNumber(h[100..108], true) == Some(mode)
    && IsZeroField(h[108..116]) && IsZeroField(h[116..124])
    && ReadOctal(h[124..136]) == Some(size)
    && IsZeroField(h[136..148])
    && ParseDigits(h[148..154], 8) == Some(Sum(h[..148]) + 8 * 0x20 + Sum(h[156..])) && h[154] == 0 && h[155] == 0x20
    && h[156] == typeflag
    && AllNul(h[157..257])
    && h[257..265] == [0x75, 0x73, 0x74, 0x61, 0x72, 0x00, 0x30, 0x30]
    && AllNul(h[265..512])
  }

  lemma BackBytes(typeflag: Byte)
    ensures var b := Back(typeflag);
      && b[0] == typeflag && AllNul(b[1..101]) && AllNul(b[109..])
      && b[101..109] == [0x75, 0x73, 0x74, 0x61, 0x72, 0x00, 0x30, 0x30]
  {
  }

  lemma ZeroFieldBytes(width: nat)
    requires width > 1
    ensures IsZeroField(OctalZero(width))
  {
  }

  lemma {:induction false} SumOfSpaces(n: nat)
    ensures Sum(seq(n, _ => 0x20)) == n * 0x20
  {
    if n > 0 {
      SumOfSpaces(n - 1);
      var spaces: Bytes := seq(n, _ => 0x20);
      assert spaces[1..] == seq(n - 1, _ => 0x20);
    }
  }

  lemma SumOfBlanked(front: Bytes, back: Bytes)
    ensures Sum(front + BLANK_CHECKSUM + back) == Sum(front) + 8 * 0x20 + Sum(back)
  {
    SumConcat(front + BLANK_CHECKSUM, back);
    SumConcat(front, BLANK_CHECKSUM);
    SumOfSpaces(8);
    assert BLANK_CHECKSUM == seq(8, _ => 0x20);
  }

  /** Every field of a header is what the standard and the caller say, and every other byte is NUL. */
  lemma HeaderIsUstar(name: Bytes, size: nat, mode: int, typeflag: Byte)
    requires HeaderBytes(name, size, mode, typeflag).Ok?
    ensures IsUstarHeader(HeaderBytes(name, size, mode, typeflag).value, name, mode, size, typeflag)
  {
    hide ReadNumber, ReadOctal, Front, Back, OctalZero, OctalField, Sum, ZeroFilled, Digits, Power, ParseDigits,
      IsZeroField, AllNul;
    OctalFieldFits(mode, 8);
    OctalFieldFits(size, 12);
    var h := HeaderBytes(name, size, mode, typeflag).value;
    var short, modeField, sizeField := TruncatedName(name), OctalField(mode, 8).value, OctalField(size, 12).value;
    var front, back := Front(short, modeField, sizeField), Back(typeflag);
    var checksum := ChecksumField(Sum(front + BLANK_CHECKSUM + back));
    ChecksumFits(front + BLANK_CHECKSUM + back);
    HeaderSlices(h, front, checksum, back);
    BackSlices(h, front, checksum, back);
    FrontFields(short, modeField, sizeField);
    BackBytes(typeflag);
    ZeroFieldBytes(8);
    ZeroFieldBytes(12);
    FieldReadsBack(mode, 8, true);
    FieldReadsBack(size, 12, true);
    SumOfBlanked(front, back);
    ChecksumReadsBack(Sum(front + BLANK_CHECKSUM + back));
    assert forall i :: 0 <= i < 100 ==> h[i] == h[..100][i];
  }

  lemma BackSlices(h: Bytes, front: Bytes, checksum: Bytes, back: Bytes)
    requires |front| == 148 && |checksum| == 8 && |back| == 356 && h == front + checksum + back
    ensures h[157..257] == back[1..101] && h[257..265] == back[101..109] && h[265..512] == back[109..]
    ensures h[148..154] == checksum[..6] && h[154] == checksum[6] && h[155] == checksum[7]
  {
  }

  lemma ChecksumReadsBack(sum: nat)
    requires |ChecksumField(sum)| == 8
    ensures ParseDigits(ChecksumField(sum)[..6], 8) == Some(sum)
    ensures ChecksumField(sum)[6] == 0 && ChecksumField(sum)[7] == 0x20
  {
    hide ParseDigits, Digits;
    var d := Digits(sum, 8);
    assert ChecksumField(sum)[..6] == ZeroFilled(d, 6);
    LeadingZerosDoNotCount(if |d| < 6 then 6 - |d| else 0, d, 8);
    DigitsParseBack(sum, 8);
  }

  /** A name that ASCII in 100 bytes does not hold. */
  ghost predicate IsLongOrForeign(name: Bytes) {
    |name| > 100 || exists i :: 0 <= i < |name| && name[i] > 0x7F
  }

  /** The one record of an extended header: its own length, the keyword and the name. */
  ghost predicate IsPathRecord(record: Bytes, name: Bytes) {
    exists digits: Bytes ::
      && record == digits + [0x20, 0x70, 0x61, 0x74, 0x68, 0x3D] + name + [0x0A]
      && ParseDigits(digits, 10) == Some(|record|)
  }

  /** Bytes filled up with NULs to a whole number of blocks. */
  ghost predicate IsFilled(filled: Bytes, content: Bytes) {
    && |content| <= |filled| < |content| + 512 && |filled| % 512 == 0
    && content == filled[..|content|] && AllNul(filled[|content|..])
  }

  lemma FilledUp(content: Bytes)
    ensures IsFilled(content + Zeros(Padding(|content|, BLOCKSIZE)), content)
  {
    hide Padding;
    var filled := content + Zeros(Padding(|content|, BLOCKSIZE));
    assert filled[..|content|] == content;
  }

  /** The header and content of a regular member. */
  ghost predicate IsRegularMember(bs: Bytes, e: Entry, name: Bytes) {
    && |bs| >= 512
    && IsUstarHeader(bs[..512], name, e.mode, |e.data|, 0x30) && IsFilled(bs[512..], e.data)
  }

  /** An extended header in front: a block named "pax_header" of mode 0644 and type x, and its record. */
  ghost predicate IsExtendedHeader(bs: Bytes, name: Bytes) {
    exists record: Bytes ::
      && IsPathRecord(record, name) && |bs| >= 512
      && IsUstarHeader(bs[..512], [0x70, 0x61, 0x78, 0x5F, 0x68, 0x65, 0x61, 0x64, 0x65, 0x72], 420, |record|, 0x78)
      && IsFilled(bs[512..], record)
  }

  lemma PaxHeaderIsExtended(name: Bytes)
    requires PaxHeader(name).Ok?
    ensures IsExtendedHeader(PaxHeader(name).value, name)
  {
    hide HeaderBytes, Padding, IsUstarHeader, IsFilled, ParseDigits, Digits, PaxLength;
    var record := PaxRecord(PATH_KEY, name);
    var payload := PATH_KEY + [EQUALS] + name + [NEWLINE];
    PaxLengthIsLeast(|payload|);
    var digits := Digits(|record|, 10);
    DigitsParseBack(|record|, 10);
    assert record == digits + [0x20, 0x70, 0x61, 0x74, 0x68, 0x3D] + name + [0x0A];
    assert IsPathRecord(record, name);
    HeaderIsUstar(PAX_NAME, |record|, 0x1A4, EXTENDED);
    FilledUp(record);
    var block, bs := HeaderBytes(PAX_NAME, |record|, 0x1A4, EXTENDED).value, PaxHeader(name).value;
    assert bs[..512] == block && bs[512..] == record + Zeros(Padding(|record|, BLOCKSIZE));
  }

  lemma RegularMemberBytes(e: Entry, name: Bytes)
    requires HeaderBytes(name, |e.data|, e.mode, REGULAR).Ok?
    ensures IsRegularMember(
      HeaderBytes(name, |e.data|, e.mode, REGULAR).value + e.data + Zeros(Padding(|e.data|, BLOCKSIZE)), e, name)
  {
    hide HeaderBytes, Padding, IsUstarHeader, IsFilled;
    HeaderIsUstar(name, |e.data|, e.mode, REGULAR);
    FilledUp(e.data);
    var block := HeaderBytes(name, |e.data|, e.mode, REGULAR).value;
    var bs := block + e.data + Zeros(Padding(|e.data|, BLOCKSIZE));
    assert bs[..512] == block && bs[512..] == e.data + Zeros(Padding(|e.data|, BLOCKSIZE));
  }

  /** A member is its header and content alone, with an extended header in front exactly for a long or foreign name. */
  ghost predicate IsMember(bs: Bytes, e: Entry, name: Bytes) {
    if IsLongOrForeign(name)
    then exists n: nat :: n <= |bs| && IsExtendedHeader(bs[..n], name) && IsRegularMember(bs[n..], e, name)
    else IsRegularMember(bs, e, name)
  }

  lemma MemberIsLaidOut(e: Entry)
    requires MemberBytes(e).Ok?
    ensures Encodable(e.name) && IsMember(MemberBytes(e).value, e, Encode(e.name))
  {
    hide MemberBytes, HeaderBytes, PaxHeader, Padding, Encode, Encodable, IsRegularMember, IsExtendedHeader;
    AcceptedName(e);
    var name, bs := Encode(e.name), MemberBytes(e).value;
    var regular := HeaderBytes(name, |e.data|, e.mode, REGULAR).value + e.data + Zeros(Padding(|e.data|, BLOCKSIZE));
    RegularMemberBytes(e, name);
    if IsLongOrForeign(name) {
      PaxHeaderIsExtended(name);
      var pax := PaxHeader(name).value;
      assert bs == pax + regular && bs[..|pax|] == pax && bs[|pax|..] == regular;
    } else {
      assert bs == regular;
    }
  }

  /** The members one after another, then at least two NUL blocks up to the next multiple of 10240 bytes. */
  ghost predicate IsArchive(bs: Bytes, es: seq<Entry>, parts: seq<Bytes>) {
    && |parts| == |es|
    && (forall i :: 0 <= i < |es| ==> Encodable(es[i].name) && IsMember(parts[i], es[i], Encode(es[i].name)))
    && var body := Joined(parts);
    && |bs| % 10240 == 0 && |body| + 1024 <= |bs| < |body| + 1024 + 10240
    && bs[..|body|] == body && AllNul(bs[|body|..])
  }

  function Joined(parts: seq<Bytes>): Bytes {
    if parts == [] then [] else parts[0] + Joined(parts[1..])
  }

  lemma {:induction false} BodyIsLaidOut(es: seq<Entry>) returns (parts: seq<Bytes>)
    requires Body(es).Ok?
    ensures |parts| == |es| && Joined(parts) == Body(es).value
    ensures forall i :: 0 <= i < |es| ==> Encodable(es[i].name) && IsMember(parts[i], es[i], Encode(es[i].name))
  {
    hide MemberBytes, IsMember, Encodable, Encode;
    if es == [] {
      parts := [];
    } else {
      MemberIsLaidOut(es[0]);
      var rest := BodyIsLaidOut(es[1..]);
      parts := [MemberBytes(es[0]).value] + rest;
      assert parts[1..] == rest;
    }
  }

  /** Byte by byte, what an archive is. */
  lemma ArchiveIsLaidOut(es: seq<Entry>) returns (parts: seq<Bytes>)
    requires Archive(es).Ok?
    ensures IsArchive(Archive(es).value, es, parts)
  {
    hide Body, IsMember, Padding, Encodable, Encode, Joined;
    parts := BodyIsLaidOut(es);
    var body, bs := Body(es).value, Archive(es).value;
    assert bs[..|body|] == body;
  }

  /** In particular an archive starts with an extended header exactly when its first name is long or foreign. */
  lemma FirstHeaderIsExtendedIff(es: seq<Entry>)
    requires Archive(es).Ok? && es != []
    ensures Encodable(es[0].name) && |Archive(es).value| > 156
    ensures Archive(es).value[156] ==
      if |Encode(es[0].name)| > 100 || exists i :: 0 <= i < |Encode(es[0].name)| && Encode(es[0].name)[i] > 0x7F
      then 0x78 else 0x30
  {
    hide Archive, Encode, Encodable;
    var parts := ArchiveIsLaidOut(es);
    FirstHeaderType(parts[0], es[0], Encode(es[0].name));
    assert Joined(parts) == parts[0] + Joined(parts[1..]);
    assert Archive(es).value[156] == Joined(parts)[156] == parts[0][156];
  }

  lemma FirstHeaderType(bs: Bytes, e: Entry, name: Bytes)
    requires IsMember(bs, e, name)
    ensures |bs| >= 512 && bs[156] == if IsLongOrForeign(name) then 0x78 else 0x30
  {
    hide ReadNumber, ReadOctal, IsFilled, IsPathRecord, ParseDigits, Sum, AllNul, IsZeroField;
    if IsLongOrForeign(name) {
      var n: nat :| n <= |bs| && IsExtendedHeader(bs[..n], name) && IsRegularMember(bs[n..], e, name);
      assert bs[156] == bs[..n][..512][156];
    } else {
      assert bs[156] == bs[..512][156];
    }
  }

  // ---- where the two conditions bite ----

  /** A negative mode is written, sign and all, and no strict reader takes the header. */
  lemma NegativeModeIsWrittenButUnreadable()
    ensures var e := [Entry([0x61], [REGULAR], -1, [])];
      Archive(e).Ok? && ReadArchive(Archive(e).value, false) == None
  {
    var e := Entry([0x61], [REGULAR], -1, []);
    assert Encode(e.name) == EncodeChar(0x61) + Encode([]);
    assert Power(8, 6) > 1 && Power(8, 7) > 0 && Power(8, 11) > 0 by { assert Power(8, 2) == 64; }
    assert Acceptable(e);
    ArchiveAcceptedIff([e]);
    ArchiveReadsBack([e], false);
    assert !Readable([e][0], false);
  }

  /** Two member lists with different names and one archive. */
  lemma DifferentNamesSameArchive()
    ensures var plain, hidden := [Entry([0xE9], [REGULAR], 0x1A4, [])], [Entry([0xDCC3, 0xDCA9], [REGULAR], 0x1A4, [])];
      plain != hidden && Archive(plain) == Archive(hidden) && Archive(plain).Ok?
  {
    EncodeIsNotInjective();
    var plain, hidden := Entry([0xE9], [REGULAR], 0x1A4, []), Entry([0xDCC3, 0xDCA9], [REGULAR], 0x1A4, []);
    assert plain.name[0] != hidden.name[0];
    assert MemberBytes(plain) == MemberBytes(hidden);
    assert [plain][1..] == [] && [hidden][1..] == [];
    assert Encode(plain.name) == [0xC3, 0xA9];
    assert Acceptable(plain) by {
      ShortPaxRecordFits([0xC3, 0xA9]);
      assert Power(8, 7) > 0x1A4 && Power(8, 11) > 4096 by { assert Power(8, 3) == 512; }
    }
    ArchiveAcceptedIff([plain]);
  }

  lemma ShortPaxRecordFits(name: Bytes)
    requires |name| == 2
    ensures |PaxRecord(PATH_KEY, name)| <= 4096
  {
    PaxLengthIsLeast(8);
    assert Digits(11, 10) == Digits(1, 10) + [ZERO + 1];
    assert CountsItself(11, 8);
  }
}
