/** The rows of a SELF database that the loaders read, as elf2self.py writes them and self2elf.py reads them back. */
module SelfRows {
  import opened Wrappers
  import opened Bytes
  import opened ElfImage

  /** The `type` column: PT_NAMES, and "other". */
  datatype SegType = Load | Dynamic | Interp | Note | PhdrTable | Tls | EhFrame | Stack | Relro | Property | Other

  /** One row of `segments`; rows are kept in `id` order, the order every reader asks for. */
  datatype Segment = Segment(id: nat, typ: SegType, ptype: nat, offset: nat, vaddr: nat, filesz: nat, memsz: nat,
                             r: bool, w: bool, x: bool, align: nat, content: Option<seq<Byte>>)

  /** The integer keys of `self_meta`. */
  datatype MetaKey = Et | Em | Entry | Phoff | Eflags | Phnum | Phentsize | Osabi

  datatype SelfDb = SelfDb(meta: map<MetaKey, nat>, segments: seq<Segment>)

  const PT_INTERP: nat := 3

  /** The sqlite3 module refuses integers that do not fit SQLite's signed 64-bit column. */
  const SQLITE_LIMIT: nat := 0x8000_0000_0000_0000

  function TypeName(ptype: nat): SegType {
    match ptype
    case 1 => Load
    case 2 => Dynamic
    case 3 => Interp
    case 4 => Note
    case 6 => PhdrTable
    case 7 => Tls
    case 0x6474E550 => EhFrame
    case 0x6474E551 => Stack
    case 0x6474E552 => Relro
    case 0x6474E553 => Property
    case _ => Other
  }

  // ---- elf2self ----

  predicate Storable(p: Phdr) {
    forall i :: 0 <= i < |PhdrValues(p)| ==> PhdrValues(p)[i] < SQLITE_LIMIT
  }

  predicate StorableEhdr(e: Ehdr) {
    e.et < SQLITE_LIMIT && e.em < SQLITE_LIMIT && e.entry < SQLITE_LIMIT && e.phoff < SQLITE_LIMIT
    && e.eflags < SQLITE_LIMIT && e.osabi < SQLITE_LIMIT
  }

  /** `p.flags & PF_R`, PF_W and PF_X: bits 2, 1 and 0. */
  function ToRow(i: nat, p: Phdr): Segment {
    Segment(i, TypeName(p.ptype), p.ptype, p.offset, p.vaddr, p.filesz, p.memsz,
            p.flags / 4 % 2 == 1, p.flags / 2 % 2 == 1, p.flags % 2 == 1, p.align, p.content)
  }

  function ToRows(ps: seq<Phdr>): (rows: seq<Segment>)
    ensures |rows| == |ps|
    ensures forall i :: 0 <= i < |ps| ==> rows[i] == ToRow(i, ps[i])
  {
    if ps == [] then [] else ToRows(ps[..|ps| - 1]) + [ToRow(|ps| - 1, ps[|ps| - 1])]
  }

  function MetaOf(e: Ehdr, phnum: nat): map<MetaKey, nat> {
    map[Et := e.et, Em := e.em, Osabi := e.osabi, Eflags := e.eflags, Entry := e.entry, Phoff := e.phoff,
        Phnum := phnum, Phentsize := PHDR_SIZE]
  }

  // The row loop also decodes the interpreter's path.

  predicate Trails(b: Byte) {
    0x80 <= b < 0xC0
  }

  /** The length of the UTF-8 sequence at the start of `bs` (RFC 3629, section 4); 0 when there is none. */
  function CharLength(bs: seq<Byte>): (n: nat)
    requires bs != []
    ensures n <= |bs|
  {
    var b := bs[0];
    if b < 0x80 then 1
    else if 0xC2 <= b < 0xE0 && |bs| >= 2 && Trails(bs[1]) then 2
    else if 0xE0 <= b < 0xF0 && |bs| >= 3 && Trails(bs[1]) && Trails(bs[2])
      && (b == 0xE0 ==> bs[1] >= 0xA0) && (b == 0xED ==> bs[1] < 0xA0) then 3
    else if 0xF0 <= b < 0xF5 && |bs| >= 4 && Trails(bs[1]) && Trails(bs[2]) && Trails(bs[3])
      && (b == 0xF0 ==> bs[1] >= 0x90) && (b == 0xF4 ==> bs[1] < 0x90) then 4
    else 0
  }

  /** bytes.decode() succeeds. */
  predicate Utf8(bs: seq<Byte>) {
    bs == [] || (CharLength(bs) > 0 && Utf8(bs[CharLength(bs)..]))
  }

  /** rstrip(b"\0"). */
  function StripNuls(bs: seq<Byte>): (r: seq<Byte>)
    ensures r <= bs && (r != [] ==> r[|r| - 1] != 0) && forall k :: |r| <= k < |bs| ==> bs[k] == 0
  {
    if bs != [] && bs[|bs| - 1] == 0 then StripNuls(bs[..|bs| - 1]) else bs
  }

  predicate InterpReadable(data: seq<Byte>, p: Phdr) {
    p.ptype == PT_INTERP ==> Utf8(StripNuls(Slice(data, p.offset, p.offset + p.filesz)))
  }

  /** What one turn of the row loop raises. */
  function RowError(data: seq<Byte>, p: Phdr): Option<Error> {
    if !InterpReadable(data, p) then Some(UnicodeDecodeError)
    else if !Storable(p) then Some(OverflowError)
    else None
  }

  function FirstError(data: seq<Byte>, ps: seq<Phdr>): Option<Error> {
    if ps == [] then None else
      var before := FirstError(data, ps[..|ps| - 1]);
      if before.Some? then before else RowError(data, ps[|ps| - 1])
  }

  function ToSelf(data: seq<Byte>): Result<SelfDb, Error> {
    var (e, ps) :- Parse(data);
    var error := FirstError(data, ps);
    if error.Some? then Failure(error.value)
    else if !StorableEhdr(e) then Failure(OverflowError)
    else Success(SelfDb(MetaOf(e, |ps|), ToRows(ps)))
  }

  method Elf2Self(data: seq<Byte>) returns (r: Result<SelfDb, Error>)
    requires |data| < SSIZE_LIMIT
    ensures r == ToSelf(data)
  {
    hide Parse, Storable, ToRow, Utf8, StripNuls;
    var parsed := ParseImage(data);
    if parsed.Failure? {
      return Failure(parsed.error);
    }
    var (ehdr, phdrs) := parsed.value;
    var segments := [];
    for i := 0 to |phdrs|
      invariant segments == ToRows(phdrs[..i])
      invariant FirstError(data, phdrs[..i]).None?
    {
      assert phdrs[..i + 1][..i] == phdrs[..i];
      var p := phdrs[i];
      assert FirstError(data, phdrs[..i + 1]) == RowError(data, p);
      if p.ptype == PT_INTERP && !Utf8(StripNuls(Slice(data, p.offset, p.offset + p.filesz))) {
        FirstErrorStays(data, phdrs, i + 1);
        return Failure(UnicodeDecodeError);
      }
      if !Storable(p) {
        FirstErrorStays(data, phdrs, i + 1);
        return Failure(OverflowError);
      }
      segments := segments + [ToRow(i, p)];
    }
    assert phdrs[..|phdrs|] == phdrs;
    if !StorableEhdr(ehdr) {
      return Failure(OverflowError);
    }
    return Success(SelfDb(MetaOf(ehdr, |phdrs|), segments));
  }

  lemma {:induction false} FirstErrorStays(data: seq<Byte>, ps: seq<Phdr>, n: nat)
    requires n <= |ps| && FirstError(data, ps[..n]).Some?
    ensures FirstError(data, ps) == FirstError(data, ps[..n])
    decreases |ps|
  {
    hide RowError;
    if n < |ps| {
      assert ps[..|ps| - 1][..n] == ps[..n];
      FirstErrorStays(data, ps[..|ps| - 1], n);
    } else {
      assert ps[..n] == ps;
    }
  }

  // ---- self2elf ----

  function FlagsOf(row: Segment): nat {
    (if row.r then 4 else 0) + (if row.w then 2 else 0) + (if row.x then 1 else 0)
  }

  function AsPhdr(row: Segment): Phdr {
    Phdr(row.ptype, FlagsOf(row), row.offset, row.vaddr, row.filesz, row.memsz, row.align, row.content)
  }

  function AsPhdrs(rows: seq<Segment>): (ps: seq<Phdr>)
    ensures |ps| == |rows|
    ensures forall i :: 0 <= i < |rows| ==> ps[i] == AsPhdr(rows[i])
  {
    if rows == [] then [] else AsPhdrs(rows[..|rows| - 1]) + [AsPhdr(rows[|rows| - 1])]
  }

  predicate Complete(meta: map<MetaKey, nat>) {
    Et in meta && Em in meta && Entry in meta && Phoff in meta && Eflags in meta && Phentsize in meta
    && Phnum in meta && Osabi in meta
  }

  function EhdrOf(meta: map<MetaKey, nat>): Ehdr
    requires Complete(meta)
  {
    Ehdr(meta[Et], meta[Em], meta[Entry], meta[Phoff], meta[Eflags], meta[Phentsize], meta[Phnum], meta[Osabi])
  }

  function FromSelf(db: SelfDb): Result<(Ehdr, seq<Phdr>), Error> {
    if !Complete(db.meta) then Failure(KeyError) else Success((EhdrOf(db.meta), AsPhdrs(db.segments)))
  }

  method LoadImage(db: SelfDb) returns (r: Result<(Ehdr, seq<Phdr>), Error>)
    ensures r == FromSelf(db)
  {
    if !Complete(db.meta) {
      return Failure(KeyError);
    }
    var phdrs := [];
    for i := 0 to |db.segments|
      invariant phdrs == AsPhdrs(db.segments[..i])
    {
      assert db.segments[..i + 1][..i] == db.segments[..i];
      phdrs := phdrs + [AsPhdr(db.segments[i])];
    }
    assert db.segments[..|db.segments|] == db.segments;
    return Success((EhdrOf(db.meta), phdrs));
  }
}

/** elf2self and self2elf undo each other, up to what the format drops. */
module ConversionLaws {
  import opened Wrappers
  import opened Bytes
  import opened ElfImage
  import opened ElfImageLaws
  import opened SelfRows

  /** What the r, w and x columns keep of p_flags. */
  function Masked(p: Phdr): Phdr {
    p.(flags := p.flags % 8)
  }

  lemma {:induction false} FlagsRoundTrip(i: nat, p: Phdr)
    ensures AsPhdr(ToRow(i, p)) == Masked(p)
  {
    LowBits(p.flags);
  }

  lemma {:induction false} LowBits(n: nat)
    ensures n % 8 == 4 * (n / 4 % 2) + 2 * (n / 2 % 2) + n % 2
  {
    assert n / 4 == n / 2 / 2 && n / 8 == n / 4 / 2;
  }

  predicate InHeaders(e: Ehdr, n: nat, k: nat) {
    k < EHDR_SIZE || InTable(e.phoff, n, k)
  }

  lemma {:induction false} ParsedPhdrFits(data: seq<Byte>, at: nat)
    requires at + PHDR_SIZE <= |data|
    ensures PhdrFits(Masked(ReadPhdr(data, at)))
  {
    hide Unpack, Capacity;
    FormatSizes();
    var v := Unpack(PhdrFields(), data[at..at + PHDR_SIZE]);
    assert PhdrFields()[4] == PhdrFields()[3];
    assert PhdrValues(Masked(ReadPhdr(data, at))) == [v[0], v[1] % 8, v[2], v[3], v[3], v[5], v[6], v[7]];
  }

  lemma {:induction false} ParsedEhdrFits(data: seq<Byte>)
    requires |data| >= EHDR_SIZE
    ensures var e := ReadEhdr(data); EhdrFits(e, e.phnum)
  {
    hide Unpack;
    FormatSizes();
    var v := Unpack(EhdrFields(), data[16..EHDR_SIZE]);
    assert EhdrFields()[2] == 4 && EhdrFields()[7] == 2 && EhdrFields()[8] == 2;
    assert Capacity(2) == 0x1_0000 && Capacity(4) >= Capacity(2);
    assert EhdrValues(ReadEhdr(data), v[9]) == [v[0], v[1], 1, v[3], v[4], 0, v[6], 64, 56, v[9], 0, 0, 0];
  }

  lemma {:induction false} NoRowErrors(data: seq<Byte>, ps: seq<Phdr>)
    ensures FirstError(data, ps).None? <==> forall i :: 0 <= i < |ps| ==> InterpReadable(data, ps[i]) && Storable(ps[i])
  {
    hide InterpReadable, Storable;
    if ps != [] {
      NoRowErrors(data, ps[..|ps| - 1]);
    }
  }

  /** elf2self succeeds exactly on parseable files whose numbers fit SQLite's integers and whose interpreter paths, up
      to trailing NULs, are UTF-8. */
  lemma {:induction false} StoresExactly(data: seq<Byte>)
    ensures ToSelf(data).Success? <==>
            && Parse(data).Success?
            && var (e, ps) := Parse(data).value;
              && StorableEhdr(e)
              && forall i :: 0 <= i < |ps| ==> InterpReadable(data, ps[i]) && Storable(ps[i])
  {
    hide Parse, InterpReadable, Storable;
    if Parse(data).Success? {
      NoRowErrors(data, Parse(data).value.1);
    }
  }

  /** An ELF file that elf2self accepts and whose load segments are complete. */
  ghost predicate Stored(data: seq<Byte>) {
    && Parse(data).Success?
    && ToSelf(data).Success?
    && LoadsInside(Parse(data).value.1, |data|)
  }

  /** A stored file that self2elf can rebuild without loss: it has program headers, they do not overlap the file
      header, and the image they describe is not too large for a bytearray. */
  ghost predicate Convertible(data: seq<Byte>) {
    && Stored(data)
    && var (e, ps) := Parse(data).value;
      ps != [] && e.phoff >= EHDR_SIZE && ImageSize(e, ps) < SSIZE_LIMIT
  }

  /** A parsed file: every field fits its record again, and contents are slices of the file. */
  lemma {:induction false} ParsedHeaders(data: seq<Byte>)
    requires Parse(data).Success?
    ensures var (e, ps) := Parse(data).value;
      && |ps| == e.phnum && EhdrFits(e, |ps|) && ContentsFrom(data, ps)
      && forall i :: 0 <= i < |ps| ==> PhdrFits(Masked(ps[i]))
  {
    hide ReadPhdr, ReadEhdr, EhdrFits, PhdrFits, Masked;
    var (e, ps) := Parse(data).value;
    ParsedEhdrFits(data);
    forall i | 0 <= i < |ps|
      ensures PhdrFits(Masked(ps[i]))
      ensures ps[i].content ==
        if ps[i].ptype == PT_LOAD then Some(Slice(data, ps[i].offset, ps[i].offset + ps[i].filesz)) else None
    {
      ParsedPhdrFits(data, e.phoff + i * PHDR_SIZE);
      ParsedContent(data, e.phoff + i * PHDR_SIZE);
    }
  }

  lemma {:induction false} ParsedContent(data: seq<Byte>, at: nat)
    requires at + PHDR_SIZE <= |data|
    ensures var p := ReadPhdr(data, at);
      p.content == if p.ptype == PT_LOAD then Some(Slice(data, p.offset, p.offset + p.filesz)) else None
  {
    hide Unpack;
  }

  lemma {:induction false} RowsAreHeaders(data: seq<Byte>)
    requires Stored(data)
    ensures var (e, ps) := Parse(data).value;
      var db := ToSelf(data).value;
      FromSelf(db).Success? &&
      var (f, qs) := FromSelf(db).value;
      && f == CanonicalEhdr(e, |ps|)
      && |qs| == |ps| && (forall i :: 0 <= i < |ps| ==> qs[i] == Masked(ps[i]))
  {
    hide Parse, ToRow, AsPhdr, FirstError, StorableEhdr, Masked;
    var (e, ps) := Parse(data).value;
    var qs := FromSelf(ToSelf(data).value).value.1;
    forall i | 0 <= i < |ps|
      ensures qs[i] == Masked(ps[i])
    {
      FlagsRoundTrip(i, ps[i]);
    }
    ParsedCount(data);
  }

  lemma {:induction false} ParsedCount(data: seq<Byte>)
    requires Parse(data).Success?
    ensures Parse(data).value.0.phnum == |Parse(data).value.1|
  {
    hide ReadEhdr, ReadPhdr;
  }

  /** The headers that come back from the database, before any byte is laid out; self2elf can lay them out exactly
      when there are any and their image is not too large for a bytearray. */
  lemma {:induction false} RowsKeepHeaders(data: seq<Byte>)
    requires Stored(data)
    ensures var (e, ps) := Parse(data).value;
      var db := ToSelf(data).value;
      FromSelf(db).Success? &&
      var (f, qs) := FromSelf(db).value;
      && f == CanonicalEhdr(e, |ps|)
      && |qs| == |ps| && (forall i :: 0 <= i < |ps| ==> qs[i] == Masked(ps[i]))
      && WholeContents(qs) && ContentsFrom(data, qs) && LoadsInside(qs, |data|)
      && (Serializable(f, qs) <==> ps != [] && ImageSize(e, ps) < SSIZE_LIMIT)
      && (Serialize(f, qs).Success? <==> ps != [] && ImageSize(e, ps) < SSIZE_LIMIT)
  {
    hide Parse, ToSelf, FromSelf, EhdrFits, PhdrFits, Serialize;
    RowsAreHeaders(data);
    ParsedHeaders(data);
    var (e, ps) := Parse(data).value;
    var (f, qs) := FromSelf(ToSelf(data).value).value;
    SameEhdrRecord(e, |ps|);
    SameExtent(ps, qs);
    SerializeBytes(f, qs);
  }

  lemma {:induction false} SerializableOsabi(e: Ehdr, ps: seq<Phdr>)
    requires Serializable(e, ps)
    ensures e.osabi < 256
  {
  }

  /** elf2self, then self2elf, then parse: the same file header, the same program headers in the same order up to
      non-RWX flag bits, and load contents equal at every byte outside the headers. */
  lemma {:induction false} FullRoundTrip(data: seq<Byte>)
    requires Convertible(data)
    ensures FromSelf(ToSelf(data).value).Success?
    ensures var (f, qs) := FromSelf(ToSelf(data).value).value; Serialize(f, qs).Success?
    ensures var (e, ps) := Parse(data).value;
      var (f, qs) := FromSelf(ToSelf(data).value).value;
      var img := Serialize(f, qs).value;
      && Parse(img).Success?
      && Parse(img).value.0 == CanonicalEhdr(e, |ps|)
      && |Parse(img).value.1| == |ps|
      && (forall i :: 0 <= i < |ps| ==> Parse(img).value.1[i] == Reread(Masked(ps[i]), img))
      && (forall k :: 0 <= k < |img| && InLoad(ps, k) && !InHeaders(e, |ps|, k) ==> k < |data| && img[k] == data[k])
  {
    hide ToSelf, FromSelf, Serialize, Serializable, Parse, EhdrFits, EhdrBytes, PhdrBytes;
    RowsKeepHeaders(data);
    var (e, ps) := Parse(data).value;
    var (f, qs) := FromSelf(ToSelf(data).value).value;
    SerializableOsabi(f, qs);
    SerializeBytes(f, qs);
    ParseSerialized(f, qs);
    var img := Serialize(f, qs).value;
    forall k | 0 <= k < |img| && InLoad(ps, k) && !InHeaders(e, |ps|, k)
      ensures k < |data| && img[k] == data[k]
    {
      var i :| 0 <= i < |ps| && Loads(ps[i], k);
      assert Loads(qs[i], k);
      SlicesShowData(data, qs, k);
    }
  }
}
