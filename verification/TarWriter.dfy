/** The serializer of task168_canonical_tar.py: what it writes, as functions, and the methods that write it. */
module TarWriter {
  import opened Prelude
  import opened Utf8Names
  import opened TarBytes

  const BLOCKSIZE := 512
  const RECORDSIZE := BLOCKSIZE * 20
  const NAME_FIELD := 100
  const USTAR_MAGIC: Bytes := [0x75, 0x73, 0x74, 0x61, 0x72, 0x00]
  const USTAR_VERSION: Bytes := [0x30, 0x30]
  const REGULAR: Byte := 0x30
  const EXTENDED: Byte := 0x78
  const PATH_KEY: Bytes := [0x70, 0x61, 0x74, 0x68]
  const PAX_NAME: Bytes := [0x70, 0x61, 0x78, 0x5F, 0x68, 0x65, 0x61, 0x64, 0x65, 0x72]
  const EQUALS: Byte := 0x3D
  const NEWLINE: Byte := 0x0A

  datatype TarError = UnsupportedTypeflag | NameNotEncodable | ControlByte | OctalOverflow
  datatype Result<+T> = Ok(value: T) | Err(error: TarError)

  datatype Entry = Entry(name: Name, typeflag: Bytes, mode: int, data: Bytes)

  /** (-n) % size: the padding that fills the last block or record. */
  function Padding(n: nat, size: nat): (p: nat)
    requires size == BLOCKSIZE || size == RECORDSIZE
    ensures p < size && (n + p) % size == 0
  {
    var length: int := n;
    if size == BLOCKSIZE then (-length) % BLOCKSIZE else (-length) % RECORDSIZE
  }

  // ---- octal fields ----

  /** Python's "%0*o": the sign counts towards the width, and a number too long is not cut. */
  function OctalText(value: int, width: nat): Bytes {
    if value < 0 then [MINUS] + ZeroFilled(Digits(-value, 8), width - 1)
    else ZeroFilled(Digits(value, 8), width)
  }

  function ZeroFilled(d: Bytes, width: int): (z: Bytes)
    ensures |z| == if |d| < width then width else |d|
  {
    seq(if |d| < width then width - |d| else 0, _ => ZERO) + d
  }

  function OctalField(value: int, width: nat): Result<Bytes>
    requires width > 0
  {
    var text := OctalText(value, width - 1);
    if |text| > width - 1 then Err(OctalOverflow) else Ok(text + [0])
  }

  // A width too small for the sign and one digit never occurs; the two widths used are 8 and 12.
  lemma OctalFieldFits(value: int, width: nat)
    requires width > 2
    ensures OctalField(value, width).Ok? <==> 0 < value + Power(8, width - 2) && value < Power(8, width - 1)
    ensures OctalField(value, width).Ok? ==> |OctalField(value, width).value| == width
  {
    if value < 0 {
      DigitCount(-value, 8, width - 2);
    } else {
      DigitCount(value, 8, width - 1);
    }
  }

  // ---- header block ----

  /** Bytes 0..148: name, mode, uid, gid, size and mtime. */
  function Front(name: Bytes, mode: Bytes, size: Bytes): (f: Bytes)
    requires |name| <= NAME_FIELD && |mode| == 8 && |size| == 12
    ensures |f| == 148
  {
    name + Zeros(NAME_FIELD - |name|) + mode + OctalZero(8) + OctalZero(8) + size + OctalZero(12)
  }

  /** Bytes 156..512: typeflag, NUL linkname, magic, version, and NUL to the end. */
  function Back(typeflag: Byte): (b: Bytes)
    ensures |b| == 356
  {
    [typeflag] + Zeros(100) + (USTAR_MAGIC + USTAR_VERSION) + Zeros(247)
  }

  /** The field of the number zero, as the uid, gid and mtime fields hold it. */
  function OctalZero(width: nat): (f: Bytes)
    requires width > 1
    ensures |f| == width && OctalField(0, width) == Ok(f)
  {
    assert Digits(0, 8) == [ZERO];
    assert seq(width - 2, _ => ZERO) + [ZERO] == seq(width - 1, _ => ZERO);
    seq(width - 1, _ => ZERO) + [0]
  }

  const BLANK_CHECKSUM: Bytes := [SPACE, SPACE, SPACE, SPACE, SPACE, SPACE, SPACE, SPACE]

  /** "%06o" followed by NUL and a space. */
  function ChecksumField(sum: nat): Bytes {
    ZeroFilled(Digits(sum, 8), 6) + [0, SPACE]
  }

  /** A block sums to at most 512 * 255, which has six octal digits, so the field never outgrows its place. */
  lemma ChecksumFits(block: Bytes)
    requires |block| == BLOCKSIZE
    ensures |ChecksumField(Sum(block))| == 8
  {
    SumBound(block);
    assert Power(8, 6) == 262144 by { assert Power(8, 3) == 512; }
    DigitCount(Sum(block), 8, 6);
  }

  function HeaderBytes(name: Bytes, size: nat, mode: int, typeflag: Byte): (r: Result<Bytes>)
    ensures r.Ok? ==> |r.value| == BLOCKSIZE
  {
    OctalFieldFits(mode, 8);
    OctalFieldFits(size, 12);
    if OctalField(mode, 8).Err? || OctalField(size, 12).Err? then Err(OctalOverflow) else
      var front := Front(TruncatedName(name), OctalField(mode, 8).value, OctalField(size, 12).value);
      var blank := front + BLANK_CHECKSUM + Back(typeflag);
      ChecksumFits(blank);
      Ok(front + ChecksumField(Sum(blank)) + Back(typeflag))
  }

  function TruncatedName(name: Bytes): (t: Bytes)
    ensures |t| <= NAME_FIELD
  {
    if |name| > NAME_FIELD then name[..NAME_FIELD] else name
  }

  /** `header[lo:hi] = s` on a buffer written up to `p` and NUL after it; it must not change the buffer's length. */
  method WriteSlice(header: array<Byte>, ghost p: Bytes, lo: nat, hi: nat, s: Bytes) returns (ghost written: Bytes)
    requires |p| <= lo <= hi <= header.Length && hi - lo == |s|
    requires header[..] == p + Zeros(header.Length - |p|)
    modifies header
    ensures written == p + Zeros(lo - |p|) + s && |written| == hi
    ensures lo == |p| ==> written == p + s
    ensures header[..] == written + Zeros(header.Length - hi)
  {
    forall i | 0 <= i < |s| {
      header[lo + i] := s[i];
    }
    written := p + Zeros(lo - |p|) + s;
    assert lo == |p| ==> p + Zeros(lo - |p|) == p;
  }

  method HeaderBlock(name: Bytes, size: nat, mode: int, typeflag: Byte) returns (r: Result<Bytes>)
    ensures r == HeaderBytes(name, size, mode, typeflag)
  {
    hide OctalField, OctalText, OctalZero, Power, Sum, Back, ChecksumField;
    OctalFieldFits(mode, 8);
    OctalFieldFits(size, 12);
    var header := new Byte[BLOCKSIZE](_ => 0);
    assert header[..] == [] + Zeros(BLOCKSIZE);
    var short := TruncatedName(name);
    ghost var p := WriteSlice(header, [], 0, |short|, short);
    assert p == short;
    var modeField := OctalField(mode, 8);
    if modeField.Err? { return Err(OctalOverflow); }
    p := WriteSlice(header, p, 100, 108, modeField.value);
    p := WriteSlice(header, p, 108, 116, OctalZero(8));
    p := WriteSlice(header, p, 116, 124, OctalZero(8));
    var sizeField := OctalField(size, 12);
    if sizeField.Err? { return Err(OctalOverflow); }
    p := WriteSlice(header, p, 124, 136, sizeField.value);
    p := WriteSlice(header, p, 136, 148, OctalZero(12));
    assert p == Front(short, modeField.value, sizeField.value);
    r := Seal(header, p, typeflag);
  }

  /** The second half of `header_block`: blank checksum, typeflag, magic, then the checksum over all of it. */
  method Seal(header: array<Byte>, ghost front: Bytes, typeflag: Byte) returns (r: Result<Bytes>)
    requires header.Length == BLOCKSIZE && |front| == 148
    requires header[..] == front + Zeros(BLOCKSIZE - 148)
    modifies header
    ensures r == Ok(front + ChecksumField(Sum(front + BLANK_CHECKSUM + Back(typeflag))) + Back(typeflag))
  {
    hide Sum, ChecksumField, Back;
    ghost var p := WriteSlice(header, front, 148, 156, BLANK_CHECKSUM);
    p := WriteSlice(header, p, 156, 157, [typeflag]);
    p := WriteSlice(header, p, 257, 265, USTAR_MAGIC + USTAR_VERSION);
    BackRegroups(front, typeflag);
    ghost var blank := header[..];
    assert blank == front + BLANK_CHECKSUM + Back(typeflag);
    ChecksumFits(blank);
    var field := ChecksumField(Sum(header[..]));
    forall i | 0 <= i < 8 {
      header[148 + i] := field[i];
    }
    assert header[..] == front + field + Back(typeflag);
    r := Ok(header[..]);
  }

  lemma BackRegroups(front: Bytes, typeflag: Byte)
    ensures front + BLANK_CHECKSUM + [typeflag] + Zeros(100) + (USTAR_MAGIC + USTAR_VERSION) + Zeros(247)
      == front + BLANK_CHECKSUM + Back(typeflag)
  {
  }

  // ---- pax extended header ----

  function DecimalLength(n: nat): (d: nat)
    ensures d > 0
  {
    |Digits(n, 10)|
  }

  /** "%d key=value\n" with `length` written in front is `length` bytes long. */
  predicate CountsItself(length: nat, payload: nat) {
    DecimalLength(length) + 1 + payload == length
  }

  /** The length `_pax_record` settles on: its first, second or third guess. */
  function PaxLength(payload: nat): nat {
    var first := payload + 2;
    var second := DecimalLength(first) + 1 + payload;
    DecimalLength(second) + 1 + payload
  }

  lemma DecimalLengthMonotone(a: nat, b: nat)
    requires a <= b
    ensures DecimalLength(a) <= DecimalLength(b)
  {
    DigitCount(b, 10, DecimalLength(b));
    DigitCount(a, 10, DecimalLength(b));
  }

  lemma {:induction false} PowerOutgrows(k: nat)
    ensures k < Power(10, k)
  {
    if k > 0 { PowerOutgrows(k - 1); }
  }

  /** Adding a number's digit count to it adds at most one digit. */
  lemma DecimalLengthGrowsSlowly(n: nat)
    ensures DecimalLength(n + DecimalLength(n)) <= DecimalLength(n) + 1
  {
    var d := DecimalLength(n);
    DigitCount(n, 10, d);
    PowerOutgrows(d);
    DigitCount(n + d, 10, d + 1);
  }

  /** The settled length counts itself, and no smaller one does (a payload of 7 allows 9 and 10). */
  lemma PaxLengthIsLeast(payload: nat)
    ensures CountsItself(PaxLength(payload), payload)
    ensures forall other: nat :: CountsItself(other, payload) ==> PaxLength(payload) <= other
  {
    var first := payload + 2;
    var second := DecimalLength(first) + 1 + payload;
    var third := PaxLength(payload);
    DecimalLengthMonotone(first, second);
    DecimalLengthMonotone(second, third);
    DecimalLengthGrowsSlowly(first);
    DecimalLengthMonotone(second, first + DecimalLength(first));
    DecimalLengthMonotone(third, first + DecimalLength(first));
    forall other: nat | CountsItself(other, payload)
      ensures third <= other
    {
      DecimalLengthMonotone(first, other);
      DecimalLengthMonotone(second, other);
    }
  }

  lemma TwoLengthsCountThemselves()
    ensures CountsItself(9, 7) && CountsItself(10, 7)
  {
    assert Digits(10, 10) == Digits(1, 10) + [ZERO];
  }

  function PaxRecord(key: Bytes, value: Bytes): (r: Bytes) {
    var payload := key + [EQUALS] + value + [NEWLINE];
    Digits(PaxLength(|payload|), 10) + [SPACE] + payload
  }

  method BuildPaxRecord(key: Bytes, value: Bytes) returns (r: Bytes, tests: nat)
    ensures r == PaxRecord(key, value)
    ensures r == Digits(|r|, 10) + [SPACE] + key + [EQUALS] + value + [NEWLINE]
    ensures 1 <= tests <= 3
  {
    var payload := key + [EQUALS] + value + [NEWLINE];
    PaxLengthIsLeast(|payload|);
    ghost var first := |payload| + 2;
    ghost var second := DecimalLength(first) + 1 + |payload|;
    var length := |payload| + 2;
    tests := 0;
    while true
      invariant tests <= 2
      invariant length == if tests == 0 then first else if tests == 1 then second else PaxLength(|payload|)
      decreases 3 - tests
    {
      var candidate := DecimalLength(length) + 1 + |payload|;
      tests := tests + 1;
      if candidate == length { break; }
      length := candidate;
    }
    r := Digits(length, 10) + [SPACE] + payload;
    assert length == |r|;
  }

  function PaxHeader(name: Bytes): Result<Bytes> {
    var record := PaxRecord(PATH_KEY, name);
    match HeaderBytes(PAX_NAME, |record|, 0x1A4, EXTENDED)
    case Err(e) => Err(e)
    case Ok(block) => Ok(block + record + Zeros(Padding(|record|, BLOCKSIZE)))
  }

  method PaxHeaderBlock(name: Bytes) returns (r: Result<Bytes>)
    ensures r == PaxHeader(name)
  {
    var record, _ := BuildPaxRecord(PATH_KEY, name);
    r := HeaderBlock(PAX_NAME, |record|, 0x1A4, EXTENDED);
    if r.Ok? {
      r := Ok(r.value + record + Zeros(Padding(|record|, BLOCKSIZE)));
    }
  }

  // ---- members and archive ----

  predicate IsControl(b: Byte) { b < 0x20 || b == 0x7F }

  predicate NeedsPax(name: Bytes) {
    |name| > NAME_FIELD || exists i :: 0 <= i < |name| && name[i] > 0x7F
  }

  function MemberBytes(e: Entry): Result<Bytes> {
    if e.typeflag != [REGULAR] then Err(UnsupportedTypeflag)
    else if !Encodable(e.name) then Err(NameNotEncodable)
    else
      var name := Encode(e.name);
      if exists i :: 0 <= i < |name| && IsControl(name[i]) then Err(ControlByte)
      else if NeedsPax(name) && PaxHeader(name).Err? then Err(PaxHeader(name).error)
      else match HeaderBytes(name, |e.data|, e.mode, REGULAR)
        case Err(error) => Err(error)
        case Ok(block) =>
          Ok((if NeedsPax(name) then PaxHeader(name).value else [])
             + block + e.data + Zeros(Padding(|e.data|, BLOCKSIZE)))
  }

  method EncodeMember(e: Entry) returns (r: Result<Bytes>)
    ensures r == MemberBytes(e)
  {
    if e.typeflag != [REGULAR] { return Err(UnsupportedTypeflag); }
    if !Encodable(e.name) { return Err(NameNotEncodable); }
    var name := Encode(e.name);
    if exists i :: 0 <= i < |name| && IsControl(name[i]) { return Err(ControlByte); }
    var out: Bytes := [];
    if NeedsPax(name) {
      var pax := PaxHeaderBlock(name);
      if pax.Err? { return pax; }
      out := pax.value;
    }
    var block := HeaderBlock(TruncatedName(name), |e.data|, e.mode, REGULAR);
    if block.Err? { return block; }
    out := out + block.value;
    out := out + e.data;
    out := out + Zeros(Padding(|e.data|, BLOCKSIZE));
    r := Ok(out);
  }

  /** The concatenated members, or the error of the first member refused. */
  function Body(es: seq<Entry>): Result<Bytes> {
    if es == [] then Ok([])
    else match MemberBytes(es[0])
      case Err(e) => Err(e)
      case Ok(first) =>
        match Body(es[1..])
        case Err(e) => Err(e)
        case Ok(rest) => Ok(first + rest)
  }

  function Archive(es: seq<Entry>): Result<Bytes> {
    match Body(es)
    case Err(e) => Err(e)
    case Ok(body) =>
      var marked := body + Zeros(2 * BLOCKSIZE);
      Ok(marked + Zeros(Padding(|marked|, RECORDSIZE)))
  }

  lemma {:induction false} BodySnoc(es: seq<Entry>, e: Entry)
    requires Body(es).Ok?
    ensures Body(es + [e]) == if MemberBytes(e).Err? then Err(MemberBytes(e).error)
                              else Ok(Body(es).value + MemberBytes(e).value)
  {
    var all := es + [e];
    if es == [] {
      assert all[1..] == [] && all[0] == e;
      if MemberBytes(e).Ok? {
        assert MemberBytes(e).value + [] == [] + MemberBytes(e).value;
      }
    } else {
      assert all[1..] == es[1..] + [e] && all[0] == es[0];
      BodySnoc(es[1..], e);
      if MemberBytes(e).Ok? {
        Associate(MemberBytes(es[0]).value, Body(es[1..]).value, MemberBytes(e).value);
      }
    }
  }

  lemma Associate(a: Bytes, b: Bytes, c: Bytes)
    ensures a + (b + c) == (a + b) + c
  {
  }

  lemma {:induction false} BodyFailsEarly(es: seq<Entry>, more: seq<Entry>)
    requires Body(es).Err?
    ensures Body(es + more) == Body(es)
  {
    assert (es + more)[1..] == es[1..] + more;
    if MemberBytes(es[0]).Ok? { BodyFailsEarly(es[1..], more); }
  }

  method CanonicalTarBytes(members: seq<Entry>) returns (r: Result<Bytes>)
    ensures r == Archive(members)
  {
    var out: Bytes := [];
    for i := 0 to |members|
      invariant Body(members[..i]) == Ok(out)
    {
      var next := EncodeMember(members[i]);
      PrefixStep(members, i);
      if next.Err? { return next; }
      out := out + next.value;
    }
    assert members[..|members|] == members;
    out := out + Zeros(2 * BLOCKSIZE);
    out := out + Zeros(Padding(|out|, RECORDSIZE));
    r := Ok(out);
  }

  lemma PrefixStep(es: seq<Entry>, i: nat)
    requires i < |es| && Body(es[..i]).Ok?
    ensures MemberBytes(es[i]).Ok? ==> Body(es[..i + 1]) == Ok(Body(es[..i]).value + MemberBytes(es[i]).value)
    ensures MemberBytes(es[i]).Err? ==> Body(es) == Err(MemberBytes(es[i]).error)
  {
    hide MemberBytes, Body;
    var before, upTo, after := es[..i], es[..i + 1], es[i + 1..];
    assert before + [es[i]] == upTo;
    BodySnoc(before, es[i]);
    if Body(upTo).Err? {
      BodyFailsEarly(upTo, after);
      assert upTo + after == es;
    }
  }
}
