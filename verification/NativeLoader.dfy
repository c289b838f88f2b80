/** loader/native.c: mapping a program straight from its rows. */
module NativeLoader {
  import opened Wrappers
  import opened SelfRows
  import opened AddressSpace

  const ET_DYN: nat := 3

  /** struct object: where the program landed and what the auxiliary vector says about it. */
  datatype Object = Object(loadBias: nat, entry: nat, phdr: nat, phnum: nat, phent: nat)

  /** `WHERE type='load' ORDER BY id`. */
  function LoadRows(rows: seq<Segment>): (loads: seq<Segment>)
    ensures forall i :: 0 <= i < |loads| ==> loads[i].typ == Load && loads[i] in rows
    ensures forall row :: row in rows && row.typ == Load ==> row in loads
  {
    if rows == [] then [] else
      var last := rows[|rows| - 1];
      LoadRows(rows[..|rows| - 1]) + if last.typ == Load then [last] else []
  }

  predicate HoldsPhoff(row: Segment, phoff: nat) {
    row.offset <= phoff < row.offset + row.filesz
  }

  /** The last row whose file range contains `phoff`. */
  function PhdrRow(rows: seq<Segment>, phoff: nat): (row: Option<Segment>)
    ensures row.Some? ==> row.value in rows && HoldsPhoff(row.value, phoff)
    ensures row.None? ==> forall row :: row in rows ==> !HoldsPhoff(row, phoff)
  {
    if rows == [] then None else
      var last := rows[|rows| - 1];
      if HoldsPhoff(last, phoff) then Some(last) else PhdrRow(rows[..|rows| - 1], phoff)
  }

  /** That row gives AT_PHDR; without one it stays 0. */
  function PhdrAddress(rows: seq<Segment>, bias: nat, phoff: nat): nat {
    var row := PhdrRow(rows, phoff);
    if row.None? then 0 else Wrap(bias + row.value.vaddr + (phoff - row.value.offset))
  }

  predicate HasKeys(meta: map<MetaKey, nat>) {
    Et in meta && Entry in meta && Phoff in meta && Phnum in meta && Phentsize in meta
  }

  /** reserve_span: the bias and the memory after the reservation. A fixed-address program reserves nothing. */
  function AfterSpan(m: Memory, rows: seq<Segment>, pie: bool, base: nat): Option<(Memory, nat)> {
    if !pie then Some((m, 0)) else
      var reserved :- AfterReserve(m, SpanLength(rows), base);
      Some((reserved, Wrap(base - SpanLo(rows))))
  }

  /** map_program; None is any of its calls to die(). */
  function AfterProgram(m: Memory, db: SelfDb, base: nat): Option<(Memory, Object)>
    requires forall row :: row in db.segments && row.typ == Load ==> WellFormed(row)
  {
    if !HasKeys(db.meta) then None else
      var rows := LoadRows(db.segments);
      var (reserved, bias) :- AfterSpan(m, rows, db.meta[Et] == ET_DYN, base);
      var mapped :- AfterLoads(reserved, bias, rows, false);
      Some((mapped, Object(bias, Wrap(bias + db.meta[Entry]), PhdrAddress(rows, bias, db.meta[Phoff]),
                           db.meta[Phnum], db.meta[Phentsize])))
  }

  /** reserve_span, with `base` the kernel's answer to mmap(NULL). */
  method ReserveSpan(p: Process, rows: seq<Segment>, pie: bool, base: nat) returns (bias: Option<nat>)
    modifies p
    ensures AfterSpan(old(p.mem), rows, pie, base) == if bias.Some? then Some((p.mem, bias.value)) else None
  {
    hide Wrap, MinVaddr, MaxEnd, AlignDown, AlignUp, AfterReserve;
    if !pie {
      return Some(0);
    }
    var min, max := p.Bounds(rows);
    var lo: int, hi: int := AlignDown(min), AlignUp(max);
    var reserved := AfterReserve(p.mem, Wrap(hi - lo), base);
    if reserved.None? {
      return None;
    }
    p.mem := reserved.value;
    return Some(Wrap(base - lo));
  }

  /** Pass 2: map each load row and note where `phoff` lands. */
  method MapAndLocate(p: Process, rows: seq<Segment>, bias: nat, phoff: nat) returns (phdr: Option<nat>)
    requires forall i :: 0 <= i < |rows| ==> WellFormed(rows[i])
    modifies p
    ensures phdr.Some? ==> AfterLoads(old(p.mem), bias, rows, false) == Some(p.mem)
    ensures phdr.Some? ==> phdr.value == PhdrAddress(rows, bias, phoff)
    ensures phdr.None? ==> AfterLoads(old(p.mem), bias, rows, false).None?
  {
    hide WellFormed, Wrap, AfterSegment, HoldsPhoff;
    var address := 0;
    for i := 0 to |rows|
      invariant AfterLoads(old(p.mem), bias, rows[..i], false) == Some(p.mem)
      invariant address == PhdrAddress(rows[..i], bias, phoff)
    {
      assert rows[..i + 1][..i] == rows[..i];
      var ok := p.MapSegment(bias, rows[i], false);
      if !ok {
        AfterLoadsStops(old(p.mem), bias, rows, false, i + 1);
        return None;
      }
      if HoldsPhoff(rows[i], phoff) {
        address := Wrap(bias + rows[i].vaddr + (phoff - rows[i].offset));
      }
    }
    assert rows[..|rows|] == rows;
    return Some(address);
  }

  method MapProgram(p: Process, db: SelfDb, base: nat) returns (out: Option<Object>)
    requires forall row :: row in db.segments && row.typ == Load ==> WellFormed(row)
    modifies p
    ensures AfterProgram(old(p.mem), db, base) == if out.Some? then Some((p.mem, out.value)) else None
  {
    hide WellFormed, Wrap, AfterSpan, AfterLoads, PhdrAddress;
    if !HasKeys(db.meta) {
      return None;
    }
    var rows := LoadRows(db.segments);
    var bias := ReserveSpan(p, rows, db.meta[Et] == ET_DYN, base);
    if bias.None? {
      return None;
    }
    var phdr := MapAndLocate(p, rows, bias.value, db.meta[Phoff]);
    if phdr.None? {
      return None;
    }
    return Some(Object(bias.value, Wrap(bias.value + db.meta[Entry]), phdr.value, db.meta[Phnum], db.meta[Phentsize]));
  }
}

/** What the mapped program looks like, and how it compares with the image memfd mode would execute. */
module NativeLaws {
  import opened Wrappers
  import opened Bytes
  import opened ElfImage
  import opened ElfImageLaws
  import opened SelfRows
  import opened ConversionLaws
  import opened ImageBuilder
  import opened TwinLaws
  import opened AddressSpace
  import opened NativeLoader

  /** The true displacement of the program. */
  function Displacement(db: SelfDb, base: nat): int {
    if Et in db.meta && db.meta[Et] == ET_DYN then base - SpanLo(LoadRows(db.segments)) else 0
  }

  ghost predicate TrustedRows(db: SelfDb) {
    && (forall row :: row in db.segments && row.typ == Load ==> WellFormed(row))
    && PagesDisjoint(LoadRows(db.segments))
  }

  lemma {:induction false} FixedPlacement(row: Segment)
    requires WellFormed(row)
    ensures Placed(row, 0)
  {
  }

  lemma {:induction false} WrapZero()
    ensures Wrap(0) == 0
  {
  }

  /** The reservation places every row, for position-independent and for fixed programs alike. */
  lemma {:induction false} SpanPlaced(m: Memory, rows: seq<Segment>, pie: bool, base: nat)
    requires forall i :: 0 <= i < |rows| ==> WellFormed(rows[i])
    requires AfterSpan(m, rows, pie, base).Some?
    ensures var delta := if pie then base - SpanLo(rows) else 0;
      var (reserved, bias) := AfterSpan(m, rows, pie, base).value;
      && bias == Wrap(delta)
      && (forall i :: 0 <= i < |rows| ==> Placed(rows[i], delta))
      && reserved == if pie then MapFixed(m, base, base + SpanLength(rows), NO_ACCESS) else m
  {
    hide WellFormed, Placed, Wrap, SpanLo, SpanLength;
    WrapZero();
    if pie {
      SpanSafety(m, rows, base);
    } else {
      forall i | 0 <= i < |rows|
        ensures Placed(rows[i], 0)
      {
        FixedPlacement(rows[i]);
      }
    }
  }

  /** The addresses map_program may touch: the pages of the rows, and the hole of a position-independent program. */
  ghost predicate ProgramRange(db: SelfDb, base: nat, a: nat) {
    var rows := LoadRows(db.segments);
    || InSomePages(rows, Displacement(db, base), a)
    || (Et in db.meta && db.meta[Et] == ET_DYN && InRange(a, base, base + SpanLength(rows)))
  }

  /** Whenever map_program survives on page-disjoint rows, every row is intact in memory at vaddr plus one common
      displacement, with its own protection, and nothing outside the program's range changed. */
  lemma {:induction false} ProgramMapped(m: Memory, db: SelfDb, base: nat)
    requires TrustedRows(db) && AfterProgram(m, db, base).Some?
    ensures var rows, delta := LoadRows(db.segments), Displacement(db, base);
      var (r, obj) := AfterProgram(m, db, base).value;
      && obj.loadBias == Wrap(delta)
      && Placeable(rows, delta)
      && (forall i :: 0 <= i < |rows| ==> HoldsRow(r, rows[i], delta, false))
      && (forall a: nat :: !ProgramRange(db, base, a) ==> (a in r <==> a in m) && (a in r ==> r[a] == m[a]))
  {
    hide WellFormed, Wrap, Placed, PageLo, PageHi, AfterLoads, AfterSpan, SpanLo, SpanLength, PhdrAddress;
    hide PagesDisjoint, HoldsRow;
    var rows, delta := LoadRows(db.segments), Displacement(db, base);
    var pie := db.meta[Et] == ET_DYN;
    SpanPlaced(m, rows, pie, base);
    var (reserved, bias) := AfterSpan(m, rows, pie, base).value;
    MapLoadsSucceeds(reserved, delta, rows, false);
    MapLoadsHolds(reserved, delta, rows, false);
  }

  lemma {:induction false} NoLoadRows()
    ensures LoadRows([]) == []
  {
  }

  lemma {:induction false} LoadRowsLast(rows: seq<Segment>, row: Segment)
    ensures LoadRows(rows + [row]) == LoadRows(rows) + if row.typ == Load then [row] else []
  {
    var both := rows + [row];
    assert both[..|both| - 1] == rows;
  }

  /** The rows a loader maps: the load rows, in the order of the table. */
  lemma {:induction false} LoadRowsSplit(rows: seq<Segment>, more: seq<Segment>)
    ensures LoadRows(rows + more) == LoadRows(rows) + LoadRows(more)
  {
    hide LoadRows;
    if more == [] {
      assert rows + more == rows;
      NoLoadRows();
    } else {
      var n := |more| - 1;
      LoadRowsSplit(rows, more[..n]);
      LoadRowsLast(rows + more[..n], more[n]);
      LoadRowsLast(more[..n], more[n]);
      assert rows + more == rows + more[..n] + [more[n]] && more == more[..n] + [more[n]];
    }
  }

  /** e_type 3, ET_DYN, is moved to where the kernel found room for its span; any other program stays where it is. */
  lemma {:induction false} BiasIs(m: Memory, db: SelfDb, base: nat)
    requires TrustedRows(db) && AfterProgram(m, db, base).Some?
    ensures Et in db.meta
    ensures AfterProgram(m, db, base).value.1.loadBias ==
            if db.meta[Et] == 3 then (base - SpanLo(LoadRows(db.segments))) % 0x1_0000_0000_0000_0000 else 0
    ensures db.meta[Et] == 3 ==> AfterReserve(m, SpanLength(LoadRows(db.segments)), base).Some?
  {
    hide LoadRows, AfterLoads, PhdrAddress, PagesDisjoint, WellFormed, SpanLength, SpanLo;
  }

  /** The entry point is the file's, displaced; without a load row that holds phoff, AT_PHDR stays 0. */
  lemma {:induction false} ProgramEntry(m: Memory, db: SelfDb, base: nat)
    requires TrustedRows(db) && AfterProgram(m, db, base).Some?
    ensures Entry in db.meta && Phoff in db.meta
    ensures var obj := AfterProgram(m, db, base).value.1;
      && obj.entry == Wrap(Displacement(db, base) + db.meta[Entry])
      && obj.entry == Wrap(obj.loadBias + db.meta[Entry])
      && ((forall row :: row in LoadRows(db.segments) ==> !HoldsPhoff(row, db.meta[Phoff])) ==> obj.phdr == 0)
  {
    hide LoadRows, AfterLoads, AfterReserve, PhdrRow, PagesDisjoint, WellFormed, SpanLength, SpanLo, Wrap, HoldsPhoff;
    WrapSum(Displacement(db, base), db.meta[Entry]);
    WrapZero();
  }

  // ---- against the memfd image ----

  /** Rows cut from one file: what elf2self stores. */
  ghost predicate CutFrom(data: seq<Byte>, db: SelfDb) {
    && ContentsFrom(data, AsPhdrs(db.segments)) && LoadsInside(AsPhdrs(db.segments), |data|)
    && forall row :: row in db.segments ==> (row.typ == Load <==> row.ptype == PT_LOAD)
  }

  lemma {:induction false} LoadType(ptype: nat)
    ensures TypeName(ptype) == Load <==> ptype == PT_LOAD
  {
  }

  /** The rows are the file's own program header table, and the meta rows say how many and how long they are. */
  ghost predicate ListsTable(data: seq<Byte>, db: SelfDb) {
    && Phnum in db.meta && db.meta[Phnum] == |db.segments|
    && Phentsize in db.meta && db.meta[Phentsize] == PHDR_SIZE
    && Phoff in db.meta && TableInside(db.meta[Phoff], |db.segments|, |data|)
    && forall i :: 0 <= i < |db.segments| ==>
         db.segments[i] == ToRow(i, ReadPhdr(data, db.meta[Phoff] + i * PHDR_SIZE))
  }

  /** A converted file satisfies the hypotheses of the theorems below. */
  lemma {:induction false} ConvertedIsCut(data: seq<Byte>)
    requires Convertible(data)
    ensures TwinReady(ToSelf(data).value) && CutFrom(data, ToSelf(data).value)
  {
    hide Parse, TwinReady, FirstError, StorableEhdr, ImageSize;
    ConvertedTwin(data);
    forall row | row in ToRows(Parse(data).value.1)
      ensures row.typ == Load <==> row.ptype == PT_LOAD
    {
      LoadType(row.ptype);
    }
  }

  lemma {:induction false} ConvertedListsTable(data: seq<Byte>)
    requires Convertible(data)
    ensures ListsTable(data, ToSelf(data).value)
  {
    hide ReadPhdr, ReadEhdr, FirstError, StorableEhdr, ToRow, ImageSize;
  }

  /** A load row carries exactly its slice of the file. */
  lemma {:induction false} LoadRowBytes(data: seq<Byte>, db: SelfDb, row: Segment)
    requires CutFrom(data, db) && row in LoadRows(db.segments) && WellFormed(row)
    ensures row.offset + row.filesz <= |data| && FileBytes(row) == data[row.offset..row.offset + row.filesz]
    ensures forall k :: row.offset <= k < row.offset + row.filesz ==> InLoad(AsPhdrs(db.segments), k)
  {
    var i :| 0 <= i < |db.segments| && db.segments[i] == row;
    var ps := AsPhdrs(db.segments);
    assert ps[i] == AsPhdr(row);
    assert forall k :: row.offset <= k < row.offset + row.filesz ==> Loads(ps[i], k);
  }

  predicate InDbHeaders(db: SelfDb, k: nat) {
    k < EHDR_SIZE || (Phoff in db.meta && InTable(db.meta[Phoff], |db.segments|, k))
  }

  /** Outside the headers, the rebuilt image shows the file wherever a load segment covers it. */
  lemma {:induction false} MemfdByte(data: seq<Byte>, db: SelfDb, k: nat)
    requires TwinReady(db) && CutFrom(data, db) && InLoad(AsPhdrs(db.segments), k) && !InDbHeaders(db, k)
    ensures k < |data| && k < |MemfdImage(db)| && MemfdImage(db)[k] == data[k]
  {
    hide Serializable, CImage;
    var ps := AsPhdrs(db.segments);
    SlicesShowData(data, ps, k);
    ImageCoversLoads(EhdrOf(db.meta), ps, k);
    TwinsOutsideTable(db, k);
  }

  lemma {:induction false} ImageCoversLoads(e: Ehdr, ps: seq<Phdr>, k: nat)
    requires InLoad(ps, k)
    ensures k < ImageSize(e, ps)
  {
    hide ImageSize;
    var i :| 0 <= i < |ps| && Loads(ps[i], k);
  }

  /** Byte k of the row is at vaddr + k plus the bias, under the row's own protection: a file byte equals the byte of
      the memfd image at the row's offset, outside the image's headers, and the tail up to memsz is zero. */
  predicate ShowsByte(r: Memory, bias: nat, row: Segment, img: seq<Byte>, db: SelfDb, k: nat) {
    var a := Wrap(bias + row.vaddr + k);
    && a in r && r[a].prot == Prot(row.r, row.w, row.x)
    && (k >= row.filesz ==> r[a].value == 0)
    && (k < row.filesz && !InDbHeaders(db, row.offset + k) ==>
          row.offset + k < |img| && r[a].value == img[row.offset + k])
  }

  lemma {:induction false} IntactRowShows(data: seq<Byte>, db: SelfDb, r: Memory, delta: int, row: Segment, k: nat)
    requires WellFormed(row) && Placed(row, delta) && row in LoadRows(db.segments) && k < row.memsz
    requires HoldsRow(r, row, delta, false)
    requires TwinReady(db) && CutFrom(data, db)
    ensures ShowsByte(r, Wrap(delta), row, MemfdImage(db), db, k)
  {
    hide TwinReady, CutFrom, MemfdImage, LoadRows, Wrap, PageLo, PageHi, InDbHeaders;
    SegmentRange(row, delta);
    WrapAdd(delta, row.vaddr + k);
    assert InPages(row, delta, delta + row.vaddr + k);
    LoadRowBytes(data, db, row);
    if k < row.filesz && !InDbHeaders(db, row.offset + k) {
      MemfdByte(data, db, row.offset + k);
    }
  }

  /** Native mode refines memfd mode. */
  lemma {:induction false} NativeRefinesMemfd(data: seq<Byte>, db: SelfDb, m: Memory, base: nat)
    requires TrustedRows(db) && AfterProgram(m, db, base).Some?
    requires TwinReady(db) && CutFrom(data, db)
    ensures var (r, obj) := AfterProgram(m, db, base).value;
      forall row, k: nat :: row in LoadRows(db.segments) && k < row.memsz ==>
        ShowsByte(r, obj.loadBias, row, MemfdImage(db), db, k)
  {
    hide TwinReady, CutFrom, MemfdImage, AfterProgram, LoadRows, Wrap, ShowsByte, HoldsRow, Placed;
    ProgramMapped(m, db, base);
    var rows, delta := LoadRows(db.segments), Displacement(db, base);
    var (r, obj) := AfterProgram(m, db, base).value;
    forall row, k: nat | row in rows && k < row.memsz
      ensures ShowsByte(r, obj.loadBias, row, MemfdImage(db), db, k)
    {
      var i :| 0 <= i < |rows| && rows[i] == row;
      IntactRowShows(data, db, r, delta, row, k);
    }
  }

  /** The instruction at the entry point: inside a load row it is mapped under the row's protection, and is the memfd
      image's byte wherever the file has one outside the headers. */
  predicate EntryShows(r: Memory, obj: Object, row: Segment, img: seq<Byte>, db: SelfDb) {
    Entry in db.meta && row.vaddr <= db.meta[Entry] < row.vaddr + row.memsz ==>
      var k := db.meta[Entry] - row.vaddr;
      && obj.entry in r && r[obj.entry].prot == Prot(row.r, row.w, row.x)
      && (k >= row.filesz ==> r[obj.entry].value == 0)
      && (k < row.filesz && !InDbHeaders(db, row.offset + k) ==>
            row.offset + k < |img| && r[obj.entry].value == img[row.offset + k])
  }

  lemma {:induction false} EntryRuns(data: seq<Byte>, db: SelfDb, m: Memory, base: nat)
    requires TrustedRows(db) && AfterProgram(m, db, base).Some?
    requires TwinReady(db) && CutFrom(data, db)
    ensures var (r, obj) := AfterProgram(m, db, base).value;
      forall row :: row in LoadRows(db.segments) ==> EntryShows(r, obj, row, MemfdImage(db), db)
  {
    hide TwinReady, CutFrom, MemfdImage, AfterProgram, LoadRows, Wrap, InDbHeaders, PagesDisjoint, WellFormed;
    ProgramEntry(m, db, base);
    NativeRefinesMemfd(data, db, m, base);
    var (r, obj) := AfterProgram(m, db, base).value;
    forall row | row in LoadRows(db.segments)
      ensures EntryShows(r, obj, row, MemfdImage(db), db)
    {
      if row.vaddr <= db.meta[Entry] < row.vaddr + row.memsz {
        assert ShowsByte(r, obj.loadBias, row, MemfdImage(db), db, db.meta[Entry] - row.vaddr);
      }
    }
  }

  // ---- AT_PHDR ----

  /** The bytes a process reads at `at`. */
  function MemBytes(r: Memory, at: nat, n: nat): seq<Byte>
    requires forall a :: at <= a < at + n ==> a in r
  {
    seq<Byte>(n, i requires 0 <= i < n => r[at + i].value)
  }

  /** A program header in memory tells the row's story: all fields but p_paddr, and the RWX bits of p_flags. */
  predicate Describes(bs: seq<Byte>, row: Segment)
    requires |bs| == PHDR_SIZE
  {
    FormatSizes();
    var v := Unpack(PhdrFields(), bs);
    && v[0] == row.ptype && v[1] % 8 == FlagsOf(row) && v[2] == row.offset && v[3] == row.vaddr
    && v[5] == row.filesz && v[6] == row.memsz && v[7] == row.align
  }

  predicate EntryAt(r: Memory, at: nat, row: Segment) {
    (forall a :: at <= a < at + PHDR_SIZE ==> a in r) && Describes(MemBytes(r, at, PHDR_SIZE), row)
  }

  lemma {:induction false} TableEntryDescribes(data: seq<Byte>, i: nat, at: nat)
    requires at + PHDR_SIZE <= |data|
    ensures Describes(data[at..at + PHDR_SIZE], ToRow(i, ReadPhdr(data, at)))
  {
    hide Unpack, AsPhdr;
    FormatSizes();
    FlagsRoundTrip(i, ReadPhdr(data, at));
    FlagsAgree(ToRow(i, ReadPhdr(data, at)));
  }

  lemma {:induction false} FlagsAgree(row: Segment)
    ensures AsPhdr(row).flags == FlagsOf(row)
  {
  }

  /** The last load row that holds the start of the header table, the one AT_PHDR points into, holds all of it. */
  predicate TableLoaded(db: SelfDb) {
    && Phoff in db.meta
    && var row := PhdrRow(LoadRows(db.segments), db.meta[Phoff]);
      row.Some? && db.meta[Phoff] + |db.segments| * PHDR_SIZE <= row.value.offset + row.value.filesz
  }

  lemma {:induction false} IntactRowShowsTable(data: seq<Byte>, db: SelfDb, r: Memory, delta: int, row: Segment, i: nat)
    requires WellFormed(row) && Placed(row, delta) && row in LoadRows(db.segments) && HoldsRow(r, row, delta, false)
    requires CutFrom(data, db) && ListsTable(data, db) && i < |db.segments|
    requires HoldsPhoff(row, db.meta[Phoff])
    requires db.meta[Phoff] + |db.segments| * PHDR_SIZE <= row.offset + row.filesz
    ensures var at := delta + row.vaddr + (db.meta[Phoff] - row.offset) + i * PHDR_SIZE;
      at >= 0 && EntryAt(r, at, db.segments[i])
  {
    hide LoadRows, Wrap, PageLo, PageHi, Describes, ReadPhdr, ToRow;
    var phoff := db.meta[Phoff];
    var from := phoff + i * PHDR_SIZE;
    var at: int := delta + row.vaddr + (from - row.offset);
    SegmentRange(row, delta);
    LoadRowBytes(data, db, row);
    forall a | at <= a < at + PHDR_SIZE
      ensures a in r && r[a].value == data[from + (a - at)]
    {
      assert InPages(row, delta, a);
    }
    assert MemBytes(r, at, PHDR_SIZE) == data[from..from + PHDR_SIZE];
    TableEntryDescribes(data, i, from);
  }

  lemma {:induction false} ProgramObject(m: Memory, db: SelfDb, base: nat)
    requires TrustedRows(db) && AfterProgram(m, db, base).Some?
    ensures Phoff in db.meta && Phnum in db.meta && Phentsize in db.meta
    ensures var obj := AfterProgram(m, db, base).value.1;
      && obj.phnum == db.meta[Phnum] && obj.phent == db.meta[Phentsize]
      && obj.phdr == PhdrAddress(LoadRows(db.segments), obj.loadBias, db.meta[Phoff])
  {
    hide LoadRows, AfterLoads, AfterSpan, PhdrAddress, PagesDisjoint, WellFormed, Wrap;
  }

  /** The row AT_PHDR points into, and where. */
  lemma {:induction false} ChosenRow(db: SelfDb, m: Memory, base: nat) returns (row: Segment)
    requires TrustedRows(db) && AfterProgram(m, db, base).Some? && TableLoaded(db)
    ensures row in LoadRows(db.segments) && HoldsPhoff(row, db.meta[Phoff]) && WellFormed(row)
    ensures db.meta[Phoff] + |db.segments| * PHDR_SIZE <= row.offset + row.filesz
    ensures var delta := Displacement(db, base);
      var (r, obj) := AfterProgram(m, db, base).value;
      && Placed(row, delta) && HoldsRow(r, row, delta, false)
      && obj.phdr == delta + row.vaddr + (db.meta[Phoff] - row.offset)
  {
    hide AfterProgram, LoadRows, Wrap, HoldsRow, PageLo, PageHi, PagesDisjoint, AlignDown, AlignUp, PhdrRow;
    ProgramMapped(m, db, base);
    ProgramObject(m, db, base);
    var rows, delta, phoff := LoadRows(db.segments), Displacement(db, base), db.meta[Phoff];
    row := PhdrRow(rows, phoff).value;
    var j :| 0 <= j < |rows| && rows[j] == row;
    SegmentRange(row, delta);
    WrapAdd(delta, row.vaddr + (phoff - row.offset));
  }

  /** The auxiliary vector is truthful: AT_PHNUM and AT_PHENT are the number and the size of the stored rows, and the
      memory at `out->phdr` decodes to exactly those rows. */
  lemma {:induction false} PhdrTruthful(data: seq<Byte>, db: SelfDb, m: Memory, base: nat)
    requires TrustedRows(db) && AfterProgram(m, db, base).Some?
    requires CutFrom(data, db) && ListsTable(data, db) && TableLoaded(db)
    ensures var (r, obj) := AfterProgram(m, db, base).value;
      && obj.phnum == |db.segments| && obj.phent == PHDR_SIZE
      && forall i :: 0 <= i < |db.segments| ==> EntryAt(r, obj.phdr + i * PHDR_SIZE, db.segments[i])
  {
    hide AfterProgram, CutFrom, LoadRows, HoldsRow, Placed, EntryAt, PagesDisjoint, WellFormed, ReadPhdr;
    ProgramObject(m, db, base);
    var row := ChosenRow(db, m, base);
    var (r, obj) := AfterProgram(m, db, base).value;
    forall i | 0 <= i < |db.segments|
      ensures EntryAt(r, obj.phdr + i * PHDR_SIZE, db.segments[i])
    {
      IntactRowShowsTable(data, db, r, Displacement(db, base), row, i);
    }
  }

  /** From ELF file to process: what elf2self stores, native mode maps byte for byte like the rebuilt image, and AT_PHDR
      finds the file's own program headers. */
  lemma {:induction false} ConvertedFileLoads(data: seq<Byte>, db: SelfDb, m: Memory, base: nat)
    requires Convertible(data) && ToSelf(data) == Success(db)
    requires TrustedRows(db) && AfterProgram(m, db, base).Some?
    ensures TwinReady(db)
    ensures var (r, obj) := AfterProgram(m, db, base).value;
      && (forall row, k: nat :: row in LoadRows(db.segments) && k < row.memsz ==>
            ShowsByte(r, obj.loadBias, row, MemfdImage(db), db, k))
      && (forall row :: row in LoadRows(db.segments) ==> EntryShows(r, obj, row, MemfdImage(db), db))
      && obj.phnum == |db.segments| && obj.phent == PHDR_SIZE
      && (TableLoaded(db) ==>
            forall i :: 0 <= i < |db.segments| ==> EntryAt(r, obj.phdr + i * PHDR_SIZE, db.segments[i]))
  {
    hide Convertible, ToSelf, TwinReady, CutFrom, AfterProgram, LoadRows, ShowsByte, EntryAt, MemfdImage, ReadPhdr;
    hide EntryShows;
    ConvertedIsCut(data);
    EntryRuns(data, db, m, base);
    ConvertedListsTable(data);
    ProgramObject(m, db, base);
    NativeRefinesMemfd(data, db, m, base);
    if TableLoaded(db) {
      PhdrTruthful(data, db, m, base);
    }
  }
}
