/** A pax-aware ustar reader after IEEE Std 1003.1-2017, `pax` utility, EXTENDED DESCRIPTION, sections
    "ustar Interchange Format" and "pax Extended Header", and the proof that it undoes the serializer.

    With `signed` the numeric fields may also start with a minus sign, which the standard does not allow. */
module TarReader {
  import opened Prelude
  import opened Utf8Names
  import opened TarBytes
  import opened TarWriter

  datatype Header = Header(path: Bytes, mode: int, uid: int, gid: int, size: nat, mtime: int, typeflag: Byte)
  datatype File = File(name: Bytes, mode: int, data: Bytes)

  predicate IsTerminator(b: Byte) { b == 0 || b == SPACE }

  /** Leading zero-filled octal digits ended by one or more spaces or NULs. */
  function ReadOctal(field: Bytes): Option<nat> {
    var n := DigitRun(field);
    if n == 0 || n == |field| || exists i :: n <= i < |field| && !IsTerminator(field[i]) then None
    else ParseDigits(field[..n], 8)
  }

  /** How many bytes come before the first terminator. */
  function DigitRun(field: Bytes): (n: nat)
    ensures n <= |field|
  {
    if field == [] || IsTerminator(field[0]) then 0 else 1 + DigitRun(field[1..])
  }

  function ReadNumber(field: Bytes, signed: bool): Option<int> {
    if signed && field != [] && field[0] == MINUS then
      match ReadOctal(field[1..])
      case Some(n) => Some(0 - (n as int))
      case None => None
    else
      match ReadOctal(field)
      case Some(n) => Some(n as int)
      case None => None
  }

  /** The text of a field: everything before the first NUL, or the whole field. */
  function Text(field: Bytes): Bytes { field[..IndexOf(field, 0)] }

  function ReadHeader(h: Bytes, signed: bool): Option<Header>
    requires |h| == BLOCKSIZE
  {
    var mode := ReadNumber(h[100..108], signed);
    var uid, gid := ReadNumber(h[108..116], signed), ReadNumber(h[116..124], signed);
    var size, mtime, checksum := ReadOctal(h[124..136]), ReadNumber(h[136..148], signed), ReadOctal(h[148..156]);
    if h[257..263] != USTAR_MAGIC || h[263..265] != USTAR_VERSION
       || checksum != Some(Sum(h[..148] + BLANK_CHECKSUM + h[156..]))
       || mode == None || uid == None || gid == None || size == None || mtime == None then None
    else
      var prefix := Text(h[345..500]);
      var path := if prefix == [] then Text(h[..100]) else prefix + [0x2F] + Text(h[..100]);
      Some(Header(path, mode.value, uid.value, gid.value, size.value, mtime.value, h[156]))
  }

  datatype Record = Record(length: nat, key: Bytes, value: Bytes)

  /** The record at the front: its length in decimal, a space, key=value and a newline. */
  function ReadRecord(records: Bytes): (r: Option<Record>)
    ensures r.Some? ==> 0 < r.value.length <= |records|
  {
    var space := IndexOf(records, SPACE);
    match ParseDigits(records[..space], 10)
    case None => None
    case Some(length) =>
      if space == 0 || length <= space + 1 || length > |records| || records[length - 1] != NEWLINE then None else
        var text := records[space + 1..length - 1];
        var equals := IndexOf(text, EQUALS);
        if equals == |text| then None else Some(Record(length, text[..equals], text[equals + 1..]))
  }

  /** The `path` keyword after applying every record of an extended header; an empty value cancels it. */
  function ReadPaxPath(records: Bytes, path: Option<Bytes>): Option<Option<Bytes>>
    decreases |records|
  {
    if records == [] then Some(path) else
      match ReadRecord(records)
      case None => None
      case Some(r) =>
        ReadPaxPath(records[r.length..],
                    if r.key != PATH_KEY then path else if r.value == [] then None else Some(r.value))
  }

  /** Members up to the end-of-archive marker. `path` is the name an extended header gave the next member. */
  function ReadMembers(bs: Bytes, path: Option<Bytes>, signed: bool): Option<seq<File>>
    decreases |bs|
  {
    if |bs| < BLOCKSIZE then None
    else if bs[..BLOCKSIZE] == Zeros(BLOCKSIZE) then
      if path == None && |bs| >= 2 * BLOCKSIZE && bs[BLOCKSIZE..2 * BLOCKSIZE] == Zeros(BLOCKSIZE)
      then Some([]) else None
    else match ReadHeader(bs[..BLOCKSIZE], signed)
      case None => None
      case Some(h) =>
        var content := bs[BLOCKSIZE..];
        var occupied := h.size + Padding(h.size, BLOCKSIZE);
        if |content| < occupied then None
        else if h.typeflag == EXTENDED then
          match ReadPaxPath(content[..h.size], None)
          case None => None
          case Some(named) => ReadMembers(content[occupied..], named, signed)
        else if h.typeflag == REGULAR || h.typeflag == 0 then
          match ReadMembers(content[occupied..], None, signed)
          case None => None
          case Some(rest) => Some([File(if path == None then h.path else path.value, h.mode, content[..h.size])] + rest)
        else None
  }

  function ReadArchive(bs: Bytes, signed: bool): Option<seq<File>> {
    ReadMembers(bs, None, signed)
  }

  // ---- one field ----

  lemma {:induction false} DigitRunStops(digits: Bytes, end: Bytes)
    requires forall i :: 0 <= i < |digits| ==> !IsTerminator(digits[i])
    requires end != [] && IsTerminator(end[0])
    ensures DigitRun(digits + end) == |digits|
  {
    if digits == [] {
      assert digits + end == end;
    } else {
      DigitRunStops(digits[1..], end);
      assert (digits + end)[1..] == digits[1..] + end;
    }
  }

  lemma OctalReadsBack(n: nat, width: nat, end: Bytes)
    requires end != [] && forall i :: 0 <= i < |end| ==> IsTerminator(end[i])
    ensures ReadOctal(ZeroFilled(Digits(n, 8), width) + end) == Some(n)
  {
    var d := Digits(n, 8);
    var text := ZeroFilled(d, width);
    var field := text + end;
    DigitRunStops(text, end);
    assert field[..|text|] == text;
    assert forall i :: |text| <= i < |field| ==> field[i] == end[i - |text|];
    LeadingZerosDoNotCount(if |d| < width then width - |d| else 0, d, 8);
    DigitsParseBack(n, 8);
  }

  /** A numeric field is the number written into it; a negative one is readable only with `signed`. */
  lemma FieldReadsBack(value: int, width: nat, signed: bool)
    requires width > 2 && OctalField(value, width).Ok?
    ensures ReadNumber(OctalField(value, width).value, signed) == if value < 0 && !signed then None else Some(value)
    ensures value >= 0 ==> ReadOctal(OctalField(value, width).value) == Some(value)
  {
    hide ReadOctal, Digits;
    var field := OctalField(value, width).value;
    if value >= 0 {
      OctalReadsBack(value, width - 1, [0]);
      assert Digits(value, 8)[0] >= ZERO;
    } else {
      assert field[1..] == ZeroFilled(Digits(-value, 8), width - 2) + [0];
      OctalReadsBack(-value, width - 2, [0]);
      MinusIsNoDigit(field);
    }
  }

  lemma {:induction false} MinusIsNoDigit(field: Bytes)
    requires field != [] && field[0] == MINUS
    ensures ReadOctal(field) == None
  {
    var n := DigitRun(field);
    if n != 0 { LeadingMinusDoesNotParse(field[..n]); }
  }

  lemma {:induction false} LeadingMinusDoesNotParse(d: Bytes)
    requires d != [] && d[0] == MINUS
    ensures ParseDigits(d, 8) == None
  {
    if |d| > 1 { LeadingMinusDoesNotParse(d[..|d| - 1]); }
  }

  // ---- one header ----

  lemma FrontFields(name: Bytes, mode: Bytes, size: Bytes)
    requires |name| <= NAME_FIELD && |mode| == 8 && |size| == 12
    ensures var f := Front(name, mode, size);
      f[..100] == name + Zeros(NAME_FIELD - |name|) && f[100..108] == mode
      && f[108..116] == OctalZero(8) && f[116..124] == OctalZero(8)
      && f[124..136] == size && f[136..148] == OctalZero(12)
  {
  }

  lemma BackFields(typeflag: Byte)
    ensures var b := Back(typeflag);
      b[0] == typeflag && b[101..107] == USTAR_MAGIC && b[107..109] == USTAR_VERSION
      && b[189..344] == Zeros(155)
  {
  }

  lemma TextStopsAtNul(name: Bytes, width: nat)
    requires |name| <= width && 0 !in name
    ensures Text(name + Zeros(width - |name|)) == name
  {
    if |name| < width {
      IndexOfAppend(name, 0, Zeros(width - |name| - 1));
      assert name + Zeros(width - |name|) == name + [0] + Zeros(width - |name| - 1);
    } else {
      assert name + Zeros(0) == name;
    }
  }

  /** A header written by the serializer is no end marker, and it reads back field by field. */
  lemma HeaderReadsBack(name: Bytes, size: nat, mode: int, typeflag: Byte, signed: bool)
    requires HeaderBytes(name, size, mode, typeflag).Ok? && 0 !in name
    ensures var h := HeaderBytes(name, size, mode, typeflag).value;
      h != Zeros(BLOCKSIZE)
      && ReadHeader(h, signed) == if mode < 0 && !signed then None
                                  else Some(Header(TruncatedName(name), mode, 0, 0, size, 0, typeflag))
  {
    hide ReadNumber, ReadOctal, Text, Front, Back, OctalZero, OctalField, Sum, ZeroFilled, Digits, Power;
    var h := HeaderBytes(name, size, mode, typeflag).value;
    OctalFieldFits(mode, 8);
    OctalFieldFits(size, 12);
    var short, modeField, sizeField := TruncatedName(name), OctalField(mode, 8).value, OctalField(size, 12).value;
    var front, back := Front(short, modeField, sizeField), Back(typeflag);
    var blank := front + BLANK_CHECKSUM + back;
    var checksum := ChecksumField(Sum(blank));
    ChecksumFits(blank);
    assert h == front + checksum + back;
    FrontFields(short, modeField, sizeField);
    BackFields(typeflag);
    HeaderSlices(h, front, checksum, back);
    assert h[257] == h[257..263][0] == USTAR_MAGIC[0];
    OctalReadsBack(Sum(blank), 6, [0, SPACE]);
    FieldReadsBack(mode, 8, signed);
    FieldReadsBack(size, 12, signed);
    FieldReadsBack(0, 8, signed);
    FieldReadsBack(0, 12, signed);
    TextStopsAtNul(short, NAME_FIELD);
    TextStopsAtNul([], 155);
    assert [] + Zeros(155) == Zeros(155);
  }

  lemma HeaderSlices(h: Bytes, front: Bytes, checksum: Bytes, back: Bytes)
    requires |front| == 148 && |checksum| == 8 && |back| == 356 && h == front + checksum + back
    ensures h[..148] == front && h[148..156] == checksum && h[156..] == back
    ensures h[..100] == front[..100] && h[100..108] == front[100..108] && h[108..116] == front[108..116]
    ensures h[116..124] == front[116..124] && h[124..136] == front[124..136] && h[136..148] == front[136..148]
    ensures h[156] == back[0] && h[257..263] == back[101..107] && h[263..265] == back[107..109]
    ensures h[345..500] == back[189..344]
  {
  }

  // ---- one member ----

  lemma RecordSlices(record: Bytes, digits: Bytes, inner: Bytes, rest: Bytes)
    requires record == digits + [SPACE] + inner + [NEWLINE]
    ensures var records := record + rest;
      && records == digits + [SPACE] + (inner + [NEWLINE] + rest)
      && records[..|digits|] == digits && records[|digits| + 1..|record| - 1] == inner
      && records[|record|..] == rest && records[|record| - 1] == NEWLINE
  {
  }

  lemma PairSlices(key: Bytes, value: Bytes)
    ensures var inner := key + [EQUALS] + value; inner[..|key|] == key && inner[|key| + 1..] == value
  {
  }

  /** A record whose number is its own length reads back, whatever bytes its value contains and whatever follows. */
  lemma RecordReadsBack(record: Bytes, digits: Bytes, key: Bytes, value: Bytes, rest: Bytes)
    requires record == digits + [SPACE] + (key + [EQUALS] + value) + [NEWLINE] && EQUALS !in key
    requires digits != [] && SPACE !in digits && ParseDigits(digits, 10) == Some(|record|)
    ensures ReadRecord(record + rest) == Some(Record(|record|, key, value))
  {
    hide ParseDigits, IndexOf;
    var inner := key + [EQUALS] + value;
    RecordSlices(record, digits, inner, rest);
    IndexOfAppend(digits, SPACE, inner + [NEWLINE] + rest);
    IndexOfAppend(key, EQUALS, value);
    PairSlices(key, value);
  }

  /** The record `pax_header_block` writes gives back the path, whatever bytes it contains. */
  lemma PaxRecordReadsBack(value: Bytes)
    requires value != []
    ensures ReadPaxPath(PaxRecord(PATH_KEY, value), None) == Some(Some(value))
  {
    hide ParseDigits, Digits, PaxLength, ReadRecord;
    var payload := PATH_KEY + [EQUALS] + value + [NEWLINE];
    PaxLengthIsLeast(|payload|);
    var record := PaxRecord(PATH_KEY, value);
    var digits := Digits(|record|, 10);
    assert record == digits + [SPACE] + (PATH_KEY + [EQUALS] + value) + [NEWLINE];
    DigitsParseBack(|record|, 10);
    RecordReadsBack(record, digits, PATH_KEY, value, []);
    assert record + [] == record;
    assert record[|record|..] == [];
    assert ReadPaxPath([], Some(value)) == Some(Some(value));
  }

  /** One header with its padded content in front of anything else. */
  lemma BlockStep(block: Bytes, h: Option<Header>, content: Bytes, rest: Bytes, path: Option<Bytes>, signed: bool)
    requires |block| == BLOCKSIZE && block != Zeros(BLOCKSIZE) && ReadHeader(block, signed) == h
    requires h.Some? ==> h.value.size == |content| && (h.value.typeflag == EXTENDED || h.value.typeflag == REGULAR)
    ensures var bs := block + content + Zeros(Padding(|content|, BLOCKSIZE)) + rest;
      ReadMembers(bs, path, signed) ==
        if h == None then None
        else if h.value.typeflag == EXTENDED then
          match ReadPaxPath(content, None)
          case None => None
          case Some(named) => ReadMembers(rest, named, signed)
        else
          match ReadMembers(rest, None, signed)
          case None => None
          case Some(files) =>
            Some([File(if path == None then h.value.path else path.value, h.value.mode, content)] + files)
  {
    hide Padding, ReadHeader, ReadPaxPath;
    var pad := Zeros(Padding(|content|, BLOCKSIZE));
    var bs := block + content + pad + rest;
    assert bs[..BLOCKSIZE] == block;
    var body := bs[BLOCKSIZE..];
    assert body == content + pad + rest;
    assert body[..|content|] == content;
    assert body[|content| + |pad|..] == rest;
  }

  /** Names the reader gets to see: no control byte, so no NUL. */
  lemma AcceptedName(e: Entry)
    requires MemberBytes(e).Ok?
    ensures e.typeflag == [REGULAR] && Encodable(e.name) && 0 !in Encode(e.name)
    ensures NeedsPax(Encode(e.name)) ==> PaxHeader(Encode(e.name)).Ok? && Encode(e.name) != []
    ensures !NeedsPax(Encode(e.name)) ==> |Encode(e.name)| <= NAME_FIELD
    ensures HeaderBytes(Encode(e.name), |e.data|, e.mode, REGULAR).Ok?
    ensures MemberBytes(e).value ==
      (if NeedsPax(Encode(e.name)) then PaxHeader(Encode(e.name)).value else [])
      + HeaderBytes(Encode(e.name), |e.data|, e.mode, REGULAR).value + e.data + Zeros(Padding(|e.data|, BLOCKSIZE))
  {
    var name := Encode(e.name);
    assert forall i :: 0 <= i < |name| && name[i] == 0 ==> IsControl(name[i]);
  }

  ghost predicate Readable(e: Entry, signed: bool) { e.mode < 0 ==> signed }

  function AsFile(e: Entry): File
    requires Encodable(e.name)
  {
    File(Encode(e.name), e.mode, e.data)
  }

  lemma MemberReadsBack(e: Entry, rest: Bytes, signed: bool)
    requires MemberBytes(e).Ok?
    ensures Encodable(e.name)
    ensures ReadMembers(MemberBytes(e).value + rest, None, signed) ==
      if !Readable(e, signed) || ReadMembers(rest, None, signed) == None then None
      else Some([AsFile(e)] + ReadMembers(rest, None, signed).value)
  {
    hide ReadMembers, HeaderBytes, MemberBytes, PaxHeader, NeedsPax, Encode, Encodable, Padding;
    AcceptedName(e);
    var name := Encode(e.name);
    var block := HeaderBytes(name, |e.data|, e.mode, REGULAR).value;
    var pad := Zeros(Padding(|e.data|, BLOCKSIZE));
    var regular := block + e.data + pad + rest;
    if NeedsPax(name) {
      RegularStep(name, e, rest, Some(name), signed);
      ExtendedStep(name, regular, signed);
      var pax := PaxHeader(name).value;
      Regroup(pax, block, e.data, pad, rest);
    } else {
      RegularStep(name, e, rest, None, signed);
      Regroup([], block, e.data, pad, rest);
    }
  }

  lemma Regroup(a: Bytes, b: Bytes, c: Bytes, d: Bytes, e: Bytes)
    ensures a + b + c + d + e == a + (b + c + d + e)
    ensures a == [] ==> a + b + c + d + e == b + c + d + e
  {
  }

  /** The regular header of a member: its path is the header's own name only when that was not cut. */
  lemma RegularStep(name: Bytes, e: Entry, rest: Bytes, path: Option<Bytes>, signed: bool)
    requires HeaderBytes(name, |e.data|, e.mode, REGULAR).Ok? && 0 !in name
    requires path == None ==> |name| <= NAME_FIELD
    ensures var block := HeaderBytes(name, |e.data|, e.mode, REGULAR).value;
      ReadMembers(block + e.data + Zeros(Padding(|e.data|, BLOCKSIZE)) + rest, path, signed) ==
      if !Readable(e, signed) || ReadMembers(rest, None, signed) == None then None
      else Some([File(if path == None then name else path.value, e.mode, e.data)]
                + ReadMembers(rest, None, signed).value)
  {
    hide ReadMembers, ReadHeader, HeaderBytes, Padding;
    var block := HeaderBytes(name, |e.data|, e.mode, REGULAR).value;
    HeaderReadsBack(name, |e.data|, e.mode, REGULAR, signed);
    BlockStep(block, ReadHeader(block, signed), e.data, rest, path, signed);
  }

  lemma ExtendedStep(name: Bytes, next: Bytes, signed: bool)
    requires name != [] && PaxHeader(name).Ok?
    ensures ReadMembers(PaxHeader(name).value + next, None, signed) == ReadMembers(next, Some(name), signed)
  {
    var record := PaxRecord(PATH_KEY, name);
    var block := HeaderBytes(PAX_NAME, |record|, 0x1A4, EXTENDED).value;
    HeaderReadsBack(PAX_NAME, |record|, 0x1A4, EXTENDED, signed);
    BlockStep(block, ReadHeader(block, signed), record, next, None, signed);
    PaxRecordReadsBack(name);
  }

  // ---- the archive ----

  ghost predicate AllReadable(es: seq<Entry>, signed: bool) {
    forall i :: 0 <= i < |es| ==> Readable(es[i], signed)
  }

  function AsFiles(es: seq<Entry>): seq<File>
    requires forall i :: 0 <= i < |es| ==> Encodable(es[i].name)
  {
    if es == [] then [] else [AsFile(es[0])] + AsFiles(es[1..])
  }

  lemma {:induction false} BodyReadsBack(es: seq<Entry>, end: Bytes, signed: bool)
    requires Body(es).Ok? && ReadMembers(end, None, signed) == Some([])
    ensures forall i :: 0 <= i < |es| ==> Encodable(es[i].name)
    ensures ReadMembers(Body(es).value + end, None, signed) ==
      if AllReadable(es, signed) then Some(AsFiles(es)) else None
  {
    hide MemberBytes, ReadMembers, Readable, Encodable;
    if es == [] {
      assert [] + end == end;
    } else {
      var first, rest := MemberBytes(es[0]).value, Body(es[1..]).value;
      BodyReadsBack(es[1..], end, signed);
      MemberReadsBack(es[0], rest + end, signed);
      assert first + rest + end == first + (rest + end);
      assert AllReadable(es, signed) <==> Readable(es[0], signed) && AllReadable(es[1..], signed);
    }
  }

  lemma MarkerEndsArchive(padding: nat, signed: bool)
    ensures ReadMembers(Zeros(2 * BLOCKSIZE) + Zeros(padding), None, signed) == Some([])
  {
    var bs := Zeros(2 * BLOCKSIZE) + Zeros(padding);
    assert bs[..BLOCKSIZE] == Zeros(BLOCKSIZE);
    assert bs[BLOCKSIZE..2 * BLOCKSIZE] == Zeros(BLOCKSIZE);
  }

  /** An archive is a whole number of records, and reading it gives back the names (as bytes), modes and contents
      of all its members in order; a strict reader does so exactly when no mode is negative. */
  lemma ArchiveReadsBack(es: seq<Entry>, signed: bool)
    requires Archive(es).Ok?
    ensures |Archive(es).value| % RECORDSIZE == 0
    ensures forall i :: 0 <= i < |es| ==> Encodable(es[i].name)
    ensures ReadArchive(Archive(es).value, signed) == if AllReadable(es, signed) then Some(AsFiles(es)) else None
  {
    hide ReadMembers, Body, Padding;
    var body := Body(es).value;
    var marked := body + Zeros(2 * BLOCKSIZE);
    var padding := Padding(|marked|, RECORDSIZE);
    MarkerEndsArchive(padding, signed);
    BodyReadsBack(es, Zeros(2 * BLOCKSIZE) + Zeros(padding), signed);
    assert marked + Zeros(padding) == body + (Zeros(2 * BLOCKSIZE) + Zeros(padding));
  }
}
