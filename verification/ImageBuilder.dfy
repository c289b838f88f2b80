/** loader/image.c: self_build_elf, the C twin of serialize_image. */
module ImageBuilder {
  import opened Wrappers
  import opened Bytes
  import opened ElfImage
  import opened SelfRows

  /** The keys self_build_elf insists on; it recomputes e_phentsize. */
  predicate HasKeys(meta: map<MetaKey, nat>) {
    Et in meta && Em in meta && Entry in meta && Phoff in meta && Eflags in meta && Phnum in meta && Osabi in meta
  }

  /** The header fields as the C code sees them; osabi is cast to one byte. */
  function CEhdr(meta: map<MetaKey, nat>): (e: Ehdr)
    requires HasKeys(meta)
    ensures e.osabi < 256
  {
    Ehdr(meta[Et], meta[Em], meta[Entry], meta[Phoff], meta[Eflags], PHDR_SIZE, meta[Phnum], meta[Osabi] % 256)
  }

  function CSize(meta: map<MetaKey, nat>, rows: seq<Segment>): (size: nat)
    requires HasKeys(meta)
    ensures size >= EHDR_SIZE && meta[Phoff] + meta[Phnum] * PHDR_SIZE <= size
    ensures forall i :: 0 <= i < |rows| ==> rows[i].offset + rows[i].filesz <= size
  {
    Max(SegmentsEnd(AsPhdrs(rows)), Max(EHDR_SIZE, meta[Phoff] + meta[Phnum] * PHDR_SIZE))
  }

  /** What keeps the C code inside its two buffers: no more rows than `phnum`, and no blob longer than `filesz`. */
  ghost predicate SafeRows(db: SelfDb) {
    HasKeys(db.meta) ==>
      && |db.segments| <= db.meta[Phnum]
      && forall i :: 0 <= i < |db.segments| && db.segments[i].content.Some? ==>
           |db.segments[i].content.value| <= db.segments[i].filesz
  }

  /** Row by row: program header i, then content i. */
  function CRows(img: seq<Byte>, phoff: nat, rows: seq<Segment>): (r: seq<Byte>)
    requires phoff + |rows| * PHDR_SIZE <= |img|
    requires forall i :: 0 <= i < |rows| && rows[i].content.Some? ==>
      rows[i].offset + |rows[i].content.value| <= |img|
    ensures |r| == |img|
  {
    if rows == [] then img else
      var n := |rows| - 1;
      var before := CRows(img, phoff, rows[..n]);
      var headed := Overwrite(before, phoff + n * PHDR_SIZE, PhdrBytes(AsPhdr(rows[n])));
      if rows[n].content.None? then headed else Overwrite(headed, rows[n].offset, rows[n].content.value)
  }

  ghost function CImage(db: SelfDb): (img: seq<Byte>)
    requires SafeRows(db) && HasKeys(db.meta)
    ensures |img| == CSize(db.meta, db.segments)
  {
    var e := CEhdr(db.meta);
    var blank := Zeros(CSize(db.meta, db.segments));
    CRows(Overwrite(blank, 0, EhdrBytes(e, e.phnum)), e.phoff, db.segments)
  }

  method MeasureRows(meta: map<MetaKey, nat>, rows: seq<Segment>) returns (size: nat)
    requires HasKeys(meta)
    ensures size == CSize(meta, rows)
  {
    hide AsPhdrs;
    ghost var ps := AsPhdrs(rows);
    size := 0;
    for i := 0 to |rows|
      invariant size == SegmentsEnd(ps[..i])
    {
      assert ps[..i + 1][..i] == ps[..i];
      size := Max(size, rows[i].offset + rows[i].filesz);
    }
    assert ps[..|rows|] == ps;
    size := Max(size, Max(EHDR_SIZE, meta[Phoff] + meta[Phnum] * PHDR_SIZE));
  }

  method WriteRows(img: array<Byte>, phoff: nat, rows: seq<Segment>)
    requires phoff + |rows| * PHDR_SIZE <= img.Length
    requires forall i :: 0 <= i < |rows| && rows[i].content.Some? ==>
      rows[i].offset + |rows[i].content.value| <= img.Length
    modifies img
    ensures img[..] == CRows(old(img[..]), phoff, rows)
  {
    hide PhdrBytes, AsPhdr;
    for i := 0 to |rows|
      invariant img[..] == CRows(old(img[..]), phoff, rows[..i])
    {
      assert rows[..i + 1][..i] == rows[..i];
      Memcpy(img, phoff + i * PHDR_SIZE, PhdrBytes(AsPhdr(rows[i])));
      if rows[i].content.Some? {
        Memcpy(img, rows[i].offset, rows[i].content.value);
      }
    }
    assert rows[..|rows|] == rows;
  }

  method SelfBuildElf(db: SelfDb) returns (r: Option<array<Byte>>)
    requires SafeRows(db)
    ensures r.Some? <==> HasKeys(db.meta)
    ensures r.Some? <==> {Et, Em, Entry, Phoff, Eflags, Phnum, Osabi} <= db.meta.Keys
    ensures r.Some? ==> fresh(r.value) && r.value[..] == CImage(db)
  {
    hide EhdrBytes, CRows;
    if !HasKeys(db.meta) {
      return None;
    }
    var e := CEhdr(db.meta);
    var size := MeasureRows(db.meta, db.segments);
    var img := new Byte[size](_ => 0);
    assert img[..] == Zeros(size);
    Memcpy(img, 0, EhdrBytes(e, e.phnum));
    WriteRows(img, e.phoff, db.segments);
    return Some(img);
  }
}

/** self_build_elf against serialize_image. */
module TwinLaws {
  import opened Wrappers
  import opened Bytes
  import opened ElfImage
  import opened ElfImageLaws
  import opened SelfRows
  import opened ConversionLaws
  import opened ImageBuilder

  /** The byte the C row loop leaves at k, if it writes there at all. */
  function RowByte(phoff: nat, ps: seq<Phdr>, k: nat): Option<Byte> {
    if ps == [] then None else
      var n := |ps| - 1;
      if Covers(ps[n], k) then Some(ps[n].content.value[k - ps[n].offset])
      else if phoff + n * PHDR_SIZE <= k < phoff + |ps| * PHDR_SIZE then
        Some(PhdrBytes(ps[n])[k - phoff - n * PHDR_SIZE])
      else RowByte(phoff, ps[..n], k)
  }

  lemma {:induction false} CRowsBytes(img: seq<Byte>, phoff: nat, rows: seq<Segment>)
    requires phoff + |rows| * PHDR_SIZE <= |img|
    requires forall i :: 0 <= i < |rows| && rows[i].content.Some? ==>
      rows[i].offset + |rows[i].content.value| <= |img|
    ensures forall k :: 0 <= k < |img| ==>
      CRows(img, phoff, rows)[k] == var b := RowByte(phoff, AsPhdrs(rows), k); if b.Some? then b.value else img[k]
  {
    hide PhdrBytes;
    if rows != [] {
      CRowsBytes(img, phoff, rows[..|rows| - 1]);
    }
  }

  /** Outside the header table, the interleaving of header and content writes does not show. */
  lemma {:induction false} RowByteOutside(phoff: nat, ps: seq<Phdr>, k: nat)
    requires !InTable(phoff, |ps|, k)
    ensures RowByte(phoff, ps, k) == ContentByte(ps, k)
  {
    hide PhdrBytes;
    if ps != [] {
      RowByteOutside(phoff, ps[..|ps| - 1], k);
    }
  }

  /** Inside entry i, only the contents of rows i and later come after the entry is written. */
  lemma {:induction false} RowByteInside(phoff: nat, ps: seq<Phdr>, i: nat, j: nat)
    requires i < |ps| && j < PHDR_SIZE
    ensures var late := ContentByte(ps[i..], phoff + i * PHDR_SIZE + j);
      RowByte(phoff, ps, phoff + i * PHDR_SIZE + j) == if late.Some? then late else Some(PhdrBytes(ps[i])[j])
  {
    hide PhdrBytes;
    var n := |ps| - 1;
    assert ps[i..][..n - i] == ps[..n][i..];
    if i < n {
      RowByteInside(phoff, ps[..n], i, j);
    }
  }

  /** The condition of agreement: wherever C writes a content after a header byte, and that content covers the byte,
      the last such content carries the canonical header byte itself. */
  ghost predicate CarriesHeaders(e: Ehdr, ps: seq<Phdr>)
    requires e.osabi < 256
  {
    && (forall k :: 0 <= k < EHDR_SIZE && ContentByte(ps, k).Some? ==>
          ContentByte(ps, k).value == EhdrBytes(e, |ps|)[k])
    && (forall i, j :: 0 <= i < |ps| && 0 <= j < PHDR_SIZE ==> CarriesEntry(e.phoff, ps, i, j))
  }

  ghost predicate CarriesEntry(phoff: nat, ps: seq<Phdr>, i: nat, j: nat)
    requires i < |ps| && j < PHDR_SIZE
  {
    var late := ContentByte(ps[i..], phoff + i * PHDR_SIZE + j);
    late.Some? ==> late.value == PhdrBytes(ps[i])[j]
  }

  /** A database both builders accept, with one row per program header. */
  ghost predicate TwinReady(db: SelfDb) {
    && Complete(db.meta) && db.meta[Phnum] == |db.segments| && db.meta[Phoff] >= EHDR_SIZE
    && WholeContents(AsPhdrs(db.segments)) && Serializable(EhdrOf(db.meta), AsPhdrs(db.segments))
  }

  lemma {:induction false} TwinReadyIsSafe(db: SelfDb)
    requires TwinReady(db)
    ensures SafeRows(db) && CEhdr(db.meta).osabi == EhdrOf(db.meta).osabi < 256
    ensures EhdrBytes(CEhdr(db.meta), db.meta[Phnum]) == EhdrBytes(EhdrOf(db.meta), |db.segments|)
    ensures CSize(db.meta, db.segments) == ImageSize(EhdrOf(db.meta), AsPhdrs(db.segments))
  {
    hide PhdrFits, Pack;
    assert forall i :: 0 <= i < |db.segments| ==> AsPhdrs(db.segments)[i].content == db.segments[i].content;
  }

  /** The image memfd mode executes. */
  ghost function MemfdImage(db: SelfDb): seq<Byte>
    requires TwinReady(db)
  {
    TwinReadyIsSafe(db);
    CImage(db)
  }

  lemma {:induction false} CImageBytes(db: SelfDb, k: nat)
    requires TwinReady(db) && k < ImageSize(EhdrOf(db.meta), AsPhdrs(db.segments))
    ensures SafeRows(db) && k < |CImage(db)| && EhdrOf(db.meta).osabi < 256
    ensures CImage(db)[k] ==
      var b := RowByte(db.meta[Phoff], AsPhdrs(db.segments), k);
      if b.Some? then b.value else if k < EHDR_SIZE then EhdrBytes(EhdrOf(db.meta), |db.segments|)[k] else 0
  {
    hide EhdrBytes, PhdrBytes, Serializable, CRows, RowByte;
    TwinReadyIsSafe(db);
    var e := CEhdr(db.meta);
    var headed := Overwrite(Zeros(CSize(db.meta, db.segments)), 0, EhdrBytes(e, e.phnum));
    CRowsBytes(headed, e.phoff, db.segments);
  }

  lemma {:induction false} TwinsOutsideTable(db: SelfDb, k: nat)
    requires TwinReady(db) && k < ImageSize(EhdrOf(db.meta), AsPhdrs(db.segments))
    requires !InTable(db.meta[Phoff], |db.segments|, k)
    ensures SafeRows(db) && k < |CImage(db)| && EhdrOf(db.meta).osabi < 256
    ensures var e, ps := EhdrOf(db.meta), AsPhdrs(db.segments);
      CImage(db)[k] ==
      if k < EHDR_SIZE && ContentByte(ps, k).Some? then ContentByte(ps, k).value else ReferenceByte(e, ps, k)
  {
    hide EhdrBytes, PhdrBytes, Serializable, CImage, RowByte, ContentByte;
    TwinReadyIsSafe(db);
    CImageBytes(db, k);
    RowByteOutside(db.meta[Phoff], AsPhdrs(db.segments), k);
  }

  lemma {:induction false} TwinsInsideTable(db: SelfDb, i: nat, j: nat)
    requires TwinReady(db) && i < |db.segments| && j < PHDR_SIZE
    ensures SafeRows(db) && EhdrOf(db.meta).osabi < 256
    ensures var e, ps, k := EhdrOf(db.meta), AsPhdrs(db.segments), db.meta[Phoff] + i * PHDR_SIZE + j;
      && k < |CImage(db)|
      && InTable(e.phoff, |ps|, k)
      && (CImage(db)[k] == ReferenceByte(e, ps, k) <==> CarriesEntry(e.phoff, ps, i, j))
  {
    hide EhdrBytes, PhdrBytes, Serializable, CImage, RowByte, ContentByte;
    TwinReadyIsSafe(db);
    var phoff := db.meta[Phoff];
    var k := phoff + i * PHDR_SIZE + j;
    assert (k - phoff) / PHDR_SIZE == i && (k - phoff) % PHDR_SIZE == j;
    CImageBytes(db, k);
    RowByteInside(phoff, AsPhdrs(db.segments), i, j);
  }

  lemma {:induction false} TableIndex(phoff: nat, n: nat, k: nat) returns (i: nat, j: nat)
    requires InTable(phoff, n, k)
    ensures i < n && j < PHDR_SIZE && k == phoff + i * PHDR_SIZE + j
  {
    i, j := (k - phoff) / PHDR_SIZE, (k - phoff) % PHDR_SIZE;
  }

  lemma {:induction false} CarryingTwinsAgree(db: SelfDb, img: seq<Byte>)
    requires TwinReady(db)
    requires Serialize(EhdrOf(db.meta), AsPhdrs(db.segments)) == Success(img)
    ensures SafeRows(db) && EhdrOf(db.meta).osabi < 256
    ensures CarriesHeaders(EhdrOf(db.meta), AsPhdrs(db.segments)) ==> CImage(db) == img
  {
    hide EhdrBytes, PhdrBytes, Serializable, Serialize, CImage, ContentByte, CarriesEntry, ReferenceByte, InTable;
    TwinReadyIsSafe(db);
    var e, ps := EhdrOf(db.meta), AsPhdrs(db.segments);
    SerializedTwin(db);
    if CarriesHeaders(e, ps) {
      forall k | 0 <= k < |img|
        ensures CImage(db)[k] == img[k]
      {
        CarriedByte(db, k);
      }
      assert CImage(db) == img;
    }
  }

  lemma {:induction false} SerializedTwin(db: SelfDb)
    requires TwinReady(db)
    ensures EhdrOf(db.meta).osabi < 256
    ensures var e, ps := EhdrOf(db.meta), AsPhdrs(db.segments);
      && Serialize(e, ps).Success?
      && |Serialize(e, ps).value| == ImageSize(e, ps)
      && (forall k :: 0 <= k < ImageSize(e, ps) ==> Serialize(e, ps).value[k] == ReferenceByte(e, ps, k))
    ensures SafeRows(db) && |CImage(db)| == ImageSize(EhdrOf(db.meta), AsPhdrs(db.segments))
  {
    hide Serializable, Serialize, ReferenceByte, ImageSize;
    TwinReadyIsSafe(db);
    SerializeBytes(EhdrOf(db.meta), AsPhdrs(db.segments));
  }

  lemma {:induction false} CarriedByte(db: SelfDb, k: nat)
    requires TwinReady(db) && EhdrOf(db.meta).osabi < 256
    requires CarriesHeaders(EhdrOf(db.meta), AsPhdrs(db.segments))
    requires k < ImageSize(EhdrOf(db.meta), AsPhdrs(db.segments))
    ensures SafeRows(db) && k < |CImage(db)|
    ensures CImage(db)[k] == ReferenceByte(EhdrOf(db.meta), AsPhdrs(db.segments), k)
  {
    hide EhdrBytes, PhdrBytes, Serializable, CImage, ContentByte, CarriesEntry, InTable, ImageSize;
    TwinReadyIsSafe(db);
    var e, ps := EhdrOf(db.meta), AsPhdrs(db.segments);
    if InTable(e.phoff, |ps|, k) {
      var i, j := TableIndex(e.phoff, |ps|, k);
      assert CarriesEntry(e.phoff, ps, i, j);
      TwinsInsideTable(db, i, j);
    } else {
      TwinsOutsideTable(db, k);
    }
  }

  lemma {:induction false} AgreeingTwinsCarry(db: SelfDb, img: seq<Byte>)
    requires TwinReady(db)
    requires Serialize(EhdrOf(db.meta), AsPhdrs(db.segments)) == Success(img)
    ensures SafeRows(db) && EhdrOf(db.meta).osabi < 256
    ensures CImage(db) == img ==> CarriesHeaders(EhdrOf(db.meta), AsPhdrs(db.segments))
  {
    hide EhdrBytes, PhdrBytes, Serializable, Serialize, CImage, ContentByte, CarriesEntry, TableByte;
    TwinReadyIsSafe(db);
    var e, ps := EhdrOf(db.meta), AsPhdrs(db.segments);
    SerializedTwin(db);
    if CImage(db) == img {
      forall k | 0 <= k < EHDR_SIZE && ContentByte(ps, k).Some?
        ensures ContentByte(ps, k).value == EhdrBytes(e, |ps|)[k]
      {
        TwinsOutsideTable(db, k);
      }
      forall i, j | 0 <= i < |ps| && 0 <= j < PHDR_SIZE
        ensures CarriesEntry(e.phoff, ps, i, j)
      {
        TwinsInsideTable(db, i, j);
      }
    }
  }

  /** The C and the Python builder give images of the same length that agree outside the headers. They agree
      everywhere exactly when the contents already carry the canonical headers. */
  lemma {:induction false} TwinsAgree(db: SelfDb)
    requires TwinReady(db)
    ensures SafeRows(db) && EhdrOf(db.meta).osabi < 256
    ensures Serialize(EhdrOf(db.meta), AsPhdrs(db.segments)).Success?
    ensures var e, ps := EhdrOf(db.meta), AsPhdrs(db.segments);
      var img := Serialize(e, ps).value;
      && |CImage(db)| == |img|
      && (forall k :: 0 <= k < |img| && !InTable(e.phoff, |ps|, k) && k >= EHDR_SIZE ==> CImage(db)[k] == img[k])
      && (CImage(db) == img <==> CarriesHeaders(e, ps))
  {
    hide EhdrBytes, PhdrBytes, Serializable, Serialize, CImage, ContentByte, ReferenceByte, CarriesHeaders;
    SerializedTwin(db);
    var e, ps := EhdrOf(db.meta), AsPhdrs(db.segments);
    var img := Serialize(e, ps).value;
    forall k | 0 <= k < |img| && !InTable(e.phoff, |ps|, k) && k >= EHDR_SIZE
      ensures CImage(db)[k] == img[k]
    {
      TwinsOutsideTable(db, k);
    }
    CarryingTwinsAgree(db, img);
    AgreeingTwinsCarry(db, img);
  }

  // ---- converted files ----

  /** What elf2self stores satisfies the hypotheses above. */
  lemma {:induction false} ConvertedTwin(data: seq<Byte>)
    requires Convertible(data)
    ensures var db := ToSelf(data).value;
      TwinReady(db) && ContentsFrom(data, AsPhdrs(db.segments)) && LoadsInside(AsPhdrs(db.segments), |data|)
  {
    hide Parse, Serializable, Serialize, Storable, EhdrFits, FirstError, StorableEhdr;
    RowsKeepHeaders(data);
  }

  /** The file's own header bytes are the canonical ones wherever C writes a load segment over them. */
  ghost predicate FileCarriesHeaders(data: seq<Byte>, e: Ehdr, ps: seq<Phdr>)
    requires e.osabi < 256 && LoadsInside(ps, |data|)
  {
    && (forall k :: 0 <= k < EHDR_SIZE && InLoad(ps, k) ==> k < |data| && data[k] == EhdrBytes(e, |ps|)[k])
    && (forall i, j :: 0 <= i < |ps| && 0 <= j < PHDR_SIZE ==> FileCarriesEntry(data, e.phoff, ps, i, j))
  }

  ghost predicate FileCarriesEntry(data: seq<Byte>, phoff: nat, ps: seq<Phdr>, i: nat, j: nat)
    requires i < |ps| && j < PHDR_SIZE
  {
    var k := phoff + i * PHDR_SIZE + j;
    InLoad(ps[i..], k) ==> k < |data| && data[k] == PhdrBytes(ps[i])[j]
  }

  lemma {:induction false} FileCarries(data: seq<Byte>, e: Ehdr, ps: seq<Phdr>)
    requires e.osabi < 256 && ContentsFrom(data, ps) && LoadsInside(ps, |data|)
    ensures CarriesHeaders(e, ps) <==> FileCarriesHeaders(data, e, ps)
  {
    hide EhdrBytes, PhdrBytes, ContentByte, InLoad;
    forall k: nat
      ensures InLoad(ps, k) ==> k < |data|
      ensures ContentByte(ps, k) == if InLoad(ps, k) then Some(data[k]) else None
    {
      SlicesShowData(data, ps, k);
    }
    forall i, j | 0 <= i < |ps| && 0 <= j < PHDR_SIZE
      ensures CarriesEntry(e.phoff, ps, i, j) <==> FileCarriesEntry(data, e.phoff, ps, i, j)
    {
      SlicesShowData(data, ps[i..], e.phoff + i * PHDR_SIZE + j);
    }
  }

  /** For every convertible ELF file: the memfd image and the re-serialized file are identical if and only if the file
      carries canonical headers wherever its load segments cover them late. */
  lemma {:induction false} ConvertedTwinsAgree(data: seq<Byte>, db: SelfDb)
    requires Convertible(data) && ToSelf(data) == Success(db)
    ensures TwinReady(db) && EhdrOf(db.meta).osabi < 256 && LoadsInside(AsPhdrs(db.segments), |data|)
    ensures Success(MemfdImage(db)) == Serialize(EhdrOf(db.meta), AsPhdrs(db.segments)) <==>
            FileCarriesHeaders(data, EhdrOf(db.meta), AsPhdrs(db.segments))
  {
    hide EhdrBytes, PhdrBytes, Serializable, Serialize, CImage, CarriesHeaders, FileCarriesHeaders, Convertible, ToSelf;
    ConvertedTwin(data);
    TwinsAgree(db);
    FileCarries(data, EhdrOf(db.meta), AsPhdrs(db.segments));
  }

  /** A file header with a section header table at `shoff`. */
  function LinkedEhdr(e: Ehdr, n: nat, shoff: nat): (bs: seq<Byte>)
    requires e.osabi < 256
    ensures |bs| == EHDR_SIZE
  {
    FormatSizes();
    Ident(e.osabi) + Pack(EhdrFields(), EhdrValues(e, n)[5 := shoff])
  }

  lemma {:induction false} FieldsBeforeShoff()
    ensures Span([2, 2, 4, 8, 8]) == 24
  {
  }

  /** Bytes 40 to 47 are e_shoff. */
  lemma {:induction false} ShoffBytes(e: Ehdr, n: nat, shoff: nat)
    requires e.osabi < 256
    ensures LinkedEhdr(e, n, shoff)[40..48] == Encode(shoff, 8)
  {
    hide Encode, Pack, Span;
    FormatSizes();
    var before, after := [2, 2, 4, 8, 8], [4] + seq(6, _ => 2);
    var x, y := [e.et, e.em, 1, e.entry, e.phoff], [e.eflags, EHDR_SIZE, PHDR_SIZE, n, 0, 0, 0];
    FieldsBeforeShoff();
    assert EhdrFields() == before + ([8] + after) && EhdrValues(e, n)[5 := shoff] == x + ([shoff] + y);
    PackConcat(before, x, [8] + after, [shoff] + y);
    PackConcat([8], [shoff], after, y);
    PackOne(8, shoff);
    var head, rest := Ident(e.osabi) + Pack(before, x), Pack(after, y);
    assert LinkedEhdr(e, n, shoff) == head + Encode(shoff, 8) + rest;
  }

  lemma {:induction false} NoSectionOffset(e: Ehdr, n: nat)
    requires e.osabi < 256
    ensures EhdrBytes(e, n)[40..48] == Zeros(8)
  {
    hide Encode, Pack;
    assert EhdrValues(e, n)[5 := 0] == EhdrValues(e, n);
    ShoffBytes(e, n, 0);
    EncodeZero(8);
  }

  /** Every converted file that loads its own header keeps its e_shoff in the memfd image and loses it in the
      re-serialized file. */
  lemma {:induction false} SectionOffsetSurvives(data: seq<Byte>, db: SelfDb, k: nat)
    requires Convertible(data) && ToSelf(data) == Success(db)
    requires 40 <= k < 48 && InLoad(AsPhdrs(db.segments), k)
    ensures TwinReady(db) && k < |data| && k < |MemfdImage(db)| && MemfdImage(db)[k] == data[k]
    ensures var r := Serialize(EhdrOf(db.meta), AsPhdrs(db.segments));
      r.Success? && k < |r.value| && r.value[k] == 0
  {
    hide EhdrBytes, PhdrBytes, Serializable, Serialize, CImage, Convertible, ToSelf, ContentByte, InLoad;
    ConvertedTwin(data);
    var e, ps := EhdrOf(db.meta), AsPhdrs(db.segments);
    SlicesShowData(data, ps, k);
    SerializedTwin(db);
    TwinsOutsideTable(db, k);
    NoSectionOffset(e, |ps|);
    assert EhdrBytes(e, |ps|)[k] == EhdrBytes(e, |ps|)[40..48][k - 40];
  }

  // ---- such a file ----

  const LINKED_EHDR := Ehdr(3, 62, 0, EHDR_SIZE, 0, PHDR_SIZE, 1, 0)
  const LINKED_PHDR := Phdr(PT_LOAD, 5, 0, 0, 120, 120, 4096, None)

  /** A file header and one load segment over the whole file; e_shoff points behind its end. */
  function LinkedFile(): (data: seq<Byte>)
    ensures |data| == 120
  {
    LinkedEhdr(LINKED_EHDR, 1, 120) + PhdrBytes(LINKED_PHDR)
  }

  lemma {:induction false} LinkedFits()
    ensures PhdrFits(LINKED_PHDR)
    ensures Fits(EhdrFields(), EhdrValues(LINKED_EHDR, 1)[5 := 120])
  {
    Capacities();
  }

  lemma {:induction false} LinkedHead()
    ensures var data := LinkedFile();
      data[..4] == ELF_MAGIC && data[4] == 2 && data[5] == 1 && ReadEhdr(data) == LINKED_EHDR
  {
    hide Unpack, Pack, PhdrBytes, Fits;
    var data := LinkedFile();
    FormatSizes();
    LinkedFits();
    var values := EhdrValues(LINKED_EHDR, 1)[5 := 120];
    UnpackPack(EhdrFields(), values);
    assert data[16..EHDR_SIZE] == Pack(EhdrFields(), values);
  }

  lemma {:induction false} LinkedParses()
    ensures Parse(LinkedFile()) == Success((LINKED_EHDR, [Reread(LINKED_PHDR, LinkedFile())]))
  {
    hide PhdrBytes, PhdrFits, ReadEhdr, ReadPhdr, LinkedEhdr;
    LinkedHead();
    LinkedFits();
    var data := LinkedFile();
    ReadPhdrBytes(data, EHDR_SIZE, LINKED_PHDR);
    assert ReadTable(data, EHDR_SIZE, 1) == [ReadPhdr(data, EHDR_SIZE)];
  }

  lemma {:induction false} LinkedConverts()
    ensures Convertible(LinkedFile()) && ToSelf(LinkedFile()).Success?
    ensures ToSelf(LinkedFile()).value.segments == ToRows([Reread(LINKED_PHDR, LinkedFile())])
  {
    hide Parse, LinkedFile;
    LinkedParses();
    var ps := [Reread(LINKED_PHDR, LinkedFile())];
    assert ps[..0] == [];
    assert FirstError(LinkedFile(), ps) == RowError(LinkedFile(), ps[0]);
  }

  lemma {:induction false} LinkedLoadsHeader()
    ensures InLoad(AsPhdrs(ToRows([Reread(LINKED_PHDR, LinkedFile())])), 40)
  {
    hide LinkedFile;
    assert Loads(AsPhdrs(ToRows([Reread(LINKED_PHDR, LinkedFile())]))[0], 40);
  }

  lemma {:induction false} LinkedOffset()
    ensures LinkedFile()[40] == 120
  {
    hide PhdrBytes, LinkedEhdr;
    ShoffBytes(LINKED_EHDR, 1, 120);
    assert LinkedFile()[40] == LinkedEhdr(LINKED_EHDR, 1, 120)[40..48][0];
  }

  /** The "identical byte layout" of image.c fails on this file: its e_shoff of 120 is in one image only. */
  lemma {:induction false} LinkedFileDiffers()
    ensures Convertible(LinkedFile())
    ensures var db := ToSelf(LinkedFile()).value;
      TwinReady(db) && Success(MemfdImage(db)) != Serialize(EhdrOf(db.meta), AsPhdrs(db.segments))
  {
    hide Convertible, ToSelf, Serialize, Serializable, CImage, LinkedFile, InLoad, Reread, ToRows, AsPhdrs, Encode;
    LinkedConverts();
    LinkedLoadsHeader();
    LinkedOffset();
    SectionOffsetSurvives(LinkedFile(), ToSelf(LinkedFile()).value, 40);
  }
}
