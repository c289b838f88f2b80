/** A process address space: pages, mmap, memcpy and mprotect, and the segment mapping both loaders build on them
    (loader/native.c and loader/selfld.c). Addresses are 64-bit and wrap. */
module AddressSpace {
  import opened Wrappers
  import opened Bytes
  import opened SelfRows

  const PAGE: nat := 4096
  const WORD: nat := 0x1_0000_0000_0000_0000

  function Wrap(x: int): (w: nat)
    ensures w < WORD
    ensures 0 <= x < WORD ==> w == x
  {
    x % WORD
  }

  /** ALIGN_DOWN: clearing the low twelve bits. */
  function AlignDown(x: nat): (y: nat)
    ensures y % PAGE == 0 && y <= x < y + PAGE
  {
    x - x % PAGE
  }

  /** ALIGN_UP, whose addition may wrap. */
  function AlignUp(x: nat): nat {
    AlignDown(Wrap(x + PAGE - 1))
  }

  datatype Prot = Prot(r: bool, w: bool, x: bool)

  datatype Cell = Cell(value: Byte, prot: Prot)

  /** The mapped addresses. */
  type Memory = map<nat, Cell>

  const NO_ACCESS := Prot(false, false, false)
  const READ_WRITE := Prot(true, true, false)

  predicate InRange(a: nat, start: nat, end: nat) {
    start <= a < end
  }

  /** mmap(MAP_FIXED | MAP_ANONYMOUS): fresh zero pages over whatever was there. */
  function MapFixed(m: Memory, start: nat, end: nat, prot: Prot): (r: Memory)
    ensures forall a :: a in r <==> a in m || start <= a < end
    ensures forall a :: a in r ==> r[a] == if start <= a < end then Cell(0, prot) else m[a]
  {
    m + map a: nat | start <= a < end && InRange(a, start, end) :: Cell(0, prot)
  }

  /** mprotect. */
  function Protect(m: Memory, start: nat, end: nat, prot: Prot): (r: Memory)
    ensures r.Keys == m.Keys
    ensures forall a :: a in r ==> r[a] == if start <= a < end then m[a].(prot := prot) else m[a]
  {
    map a | a in m :: if start <= a < end then m[a].(prot := prot) else m[a]
  }

  predicate Writable(m: Memory, at: nat, n: nat) {
    forall a :: at <= a < at + n ==> a in m && m[a].prot.w
  }

  /** Stores through a pointer; None is the fault on an unmapped or read-only address. */
  function AfterStore(m: Memory, at: nat, bs: seq<Byte>): (r: Option<Memory>)
    ensures r.Some? <==> Writable(m, at, |bs|)
    ensures r.Some? ==> r.value.Keys == m.Keys
    ensures r.Some? ==> forall a :: a in m ==>
      r.value[a] == if at <= a < at + |bs| then m[a].(value := bs[a - at]) else m[a]
  {
    if !Writable(m, at, |bs|) then None
    else Some(map a | a in m :: if at <= a < at + |bs| then m[a].(value := bs[a - at]) else m[a])
  }

  /** mmap(NULL, len): the kernel answers with `base`. An answer that is not a fresh page-aligned hole below the top of
      the address space stands for MAP_FAILED, as does a zero length. */
  function AfterReserve(m: Memory, len: nat, base: nat): (r: Option<Memory>)
    ensures r.Some? ==> r.value == MapFixed(m, base, base + len, NO_ACCESS)
  {
    if len > 0 && base % PAGE == 0 && base + len < WORD && forall a :: base <= a < base + len ==> a !in m
    then Some(MapFixed(m, base, base + len, NO_ACCESS))
    else None
  }

  // ---- one segment ----

  /** The bytes memcpy takes from the row: `filesz` of them, or none when the blob is NULL or empty. */
  function FileBytes(row: Segment): seq<Byte>
    requires WellFormed(row)
  {
    if row.content.None? || row.content.value == [] then [] else row.content.value[..row.filesz]
  }

  /** What the code takes on trust about a row: no copy beyond the blob or beyond the segment, no 64-bit overflow. */
  predicate WellFormed(row: Segment) {
    && row.filesz <= row.memsz
    && (row.content.None? || row.content.value == [] || row.filesz <= |row.content.value|)
    && row.vaddr + row.memsz + PAGE < WORD
  }

  function PageLo(row: Segment): nat {
    AlignDown(row.vaddr)
  }

  function PageHi(row: Segment): nat {
    AlignDown(row.vaddr + row.memsz + PAGE - 1)
  }

  /** The memory byte a segment defines at virtual address v of its pages. */
  function SegmentByte(row: Segment, v: int): Byte
    requires WellFormed(row)
  {
    if row.vaddr <= v < row.vaddr + |FileBytes(row)| then FileBytes(row)[v - row.vaddr] else 0
  }

  /** Page protection; the binder leaves every page writable until it has relocated. */
  function ProtOf(row: Segment, hold: bool): Prot {
    Prot(row.r, row.w || hold, row.x)
  }

  /** map_segment: None when mmap refuses an empty range or a store faults. */
  function AfterSegment(m: Memory, bias: nat, row: Segment, hold: bool): Option<Memory>
    requires WellFormed(row)
  {
    var start := AlignDown(Wrap(bias + row.vaddr));
    var end := AlignUp(Wrap(bias + row.vaddr + row.memsz));
    if end <= start then None
    else
      var copied :- AfterStore(MapFixed(m, start, end, READ_WRITE), Wrap(bias + row.vaddr), FileBytes(row));
      Some(Protect(copied, start, end, ProtOf(row, hold)))
  }

  /** `delta` is the true displacement of an object; its load bias is Wrap(delta). The row's pages stay inside the
      address space, so no address of theirs wraps. */
  predicate Placed(row: Segment, delta: int) {
    delta % PAGE == 0 && 0 <= delta + PageLo(row) && delta + PageHi(row) < WORD
  }

  predicate InPages(row: Segment, delta: int, a: int) {
    delta + PageLo(row) <= a < delta + PageHi(row)
  }

  /** Adding to a wrapped number wraps once. */
  lemma {:induction false} WrapSum(delta: int, v: int)
    ensures Wrap(Wrap(delta) + v) == Wrap(delta + v)
  {
    var q := delta / WORD;
    assert delta == q * WORD + Wrap(delta);
    WrapMultiple(Wrap(delta) + v, q);
  }

  lemma {:induction false} WrapMultiple(x: int, q: int)
    ensures Wrap(x + q * WORD) == Wrap(x)
  {
    var p := x / WORD;
    assert x == p * WORD + x % WORD;
    assert x + q * WORD == (p + q) * WORD + x % WORD;
  }

  lemma {:induction false} WrapAdd(delta: int, v: int)
    requires 0 <= delta + v < WORD
    ensures Wrap(Wrap(delta) + v) == delta + v
  {
  }

  lemma {:induction false} AlignShift(delta: int, v: nat)
    requires delta % PAGE == 0 && delta + v >= 0
    ensures AlignDown(delta + v) == delta + AlignDown(v)
  {
  }

  lemma {:induction false} SegmentRange(row: Segment, delta: int)
    requires WellFormed(row) && Placed(row, delta)
    ensures Wrap(Wrap(delta) + row.vaddr) == delta + row.vaddr
    ensures AlignDown(Wrap(Wrap(delta) + row.vaddr)) == delta + PageLo(row)
    ensures AlignUp(Wrap(Wrap(delta) + row.vaddr + row.memsz)) == delta + PageHi(row)
    ensures delta + PageLo(row) <= delta + row.vaddr <= delta + row.vaddr + row.memsz <= delta + PageHi(row)
  {
    hide AlignDown, Wrap;
    var end := row.vaddr + row.memsz;
    AlignDownMonotone(row.vaddr, end + PAGE - 1);
    PageSum(delta, PageHi(row));
    PageBelow(delta + PageHi(row));
    WrapAdd(delta, row.vaddr);
    AlignShift(delta, row.vaddr);
    WrapAdd(delta, end);
    AlignShift(delta, end + PAGE - 1);
    assert delta + end + PAGE - 1 < WORD;
  }

  lemma {:induction false} PageSum(a: int, b: int)
    requires a % PAGE == 0 && b % PAGE == 0
    ensures (a + b) % PAGE == 0
  {
  }

  /** A page boundary below the top of the address space leaves room for a page. */
  lemma {:induction false} PageBelow(x: int)
    requires x % PAGE == 0 && x < WORD
    ensures x + PAGE <= WORD
  {
  }

  /** A segment is mapped exactly when its page range is not empty; then its pages hold file bytes, zeros elsewhere,
      under the row's own protection, and nothing else changes. */
  lemma {:induction false} MapSegmentCells(m: Memory, delta: int, row: Segment, hold: bool)
    requires WellFormed(row) && Placed(row, delta)
    ensures var r := AfterSegment(m, Wrap(delta), row, hold);
      && (r.Some? <==> PageLo(row) < PageHi(row))
      && (r.Some? ==>
            && (forall a :: a in r.value <==> a in m || InPages(row, delta, a))
            && (forall a :: a in r.value ==>
                  r.value[a] ==
                  if InPages(row, delta, a) then Cell(SegmentByte(row, a - delta), ProtOf(row, hold)) else m[a]))
  {
    hide AlignDown, AlignUp, Wrap;
    SegmentRange(row, delta);
  }

  // ---- all load segments of an object ----

  function AfterLoads(m: Memory, bias: nat, rows: seq<Segment>, hold: bool): Option<Memory>
    requires forall i :: 0 <= i < |rows| ==> WellFormed(rows[i])
  {
    if rows == [] then Some(m) else
      var before :- AfterLoads(m, bias, rows[..|rows| - 1], hold);
      AfterSegment(before, bias, rows[|rows| - 1], hold)
  }

  /** Rows the loaders can place: trusted fields, inside the address space, and a non-empty page range each. */
  ghost predicate Placeable(rows: seq<Segment>, delta: int) {
    forall i :: 0 <= i < |rows| ==> WellFormed(rows[i]) && Placed(rows[i], delta) && PageLo(rows[i]) < PageHi(rows[i])
  }

  /** No page is shared between two rows: mapping the later one would wipe the earlier one. */
  ghost predicate PagesDisjoint(rows: seq<Segment>) {
    forall i, j :: 0 <= i < j < |rows| ==> PageHi(rows[i]) <= PageLo(rows[j]) || PageHi(rows[j]) <= PageLo(rows[i])
  }

  ghost predicate InSomePages(rows: seq<Segment>, delta: int, a: int) {
    exists i :: 0 <= i < |rows| && InPages(rows[i], delta, a)
  }

  /** The row's pages hold the row, under its protection. */
  ghost predicate HoldsRow(r: Memory, row: Segment, delta: int, hold: bool)
    requires WellFormed(row)
  {
    forall a: nat :: InPages(row, delta, a) ==> a in r && r[a] == Cell(SegmentByte(row, a - delta), ProtOf(row, hold))
  }

  /** The memory every loader wants: each row's pages hold the row, the rest is as before. */
  ghost predicate HoldsRows(m: Memory, r: Memory, rows: seq<Segment>, delta: int, hold: bool)
    requires forall i :: 0 <= i < |rows| ==> WellFormed(rows[i])
  {
    && (forall i :: 0 <= i < |rows| ==> HoldsRow(r, rows[i], delta, hold))
    && (forall a: nat :: !InSomePages(rows, delta, a) ==> (a in r <==> a in m) && (a in r ==> r[a] == m[a]))
  }

  /** The cell at `a` once the rows are mapped in order: the last row whose pages contain `a` decides. */
  function PageCell(m: Memory, rows: seq<Segment>, delta: int, hold: bool, a: nat): Option<Cell>
    requires forall i :: 0 <= i < |rows| ==> WellFormed(rows[i])
  {
    if rows == [] then (if a in m then Some(m[a]) else None) else
      var last := rows[|rows| - 1];
      if InPages(last, delta, a) then Some(Cell(SegmentByte(last, a - delta), ProtOf(last, hold)))
      else PageCell(m, rows[..|rows| - 1], delta, hold, a)
  }

  lemma {:induction false} MapLoadsCells(m: Memory, delta: int, rows: seq<Segment>, hold: bool)
    requires Placeable(rows, delta)
    ensures var r := AfterLoads(m, Wrap(delta), rows, hold);
      && r.Some?
      && (forall a :: a in r.value <==> PageCell(m, rows, delta, hold, a).Some?)
      && (forall a :: a in r.value ==> r.value[a] == PageCell(m, rows, delta, hold, a).value)
  {
    hide AfterSegment, PageLo, PageHi, Placed, WellFormed, SegmentByte, Wrap;
    if rows != [] {
      var n := |rows| - 1;
      MapLoadsCells(m, delta, rows[..n], hold);
      MapSegmentCells(AfterLoads(m, Wrap(delta), rows[..n], hold).value, delta, rows[n], hold);
    }
  }

  lemma {:induction false} PageCellOfRow(m: Memory, rows: seq<Segment>, delta: int, hold: bool, i: nat, a: nat)
    requires forall i :: 0 <= i < |rows| ==> WellFormed(rows[i])
    requires PagesDisjoint(rows) && i < |rows| && InPages(rows[i], delta, a)
    ensures PageCell(m, rows, delta, hold, a) == Some(Cell(SegmentByte(rows[i], a - delta), ProtOf(rows[i], hold)))
  {
    hide WellFormed, SegmentByte, PageLo, PageHi;
    if i < |rows| - 1 {
      PageCellOfRow(m, rows[..|rows| - 1], delta, hold, i, a);
    }
  }

  lemma {:induction false} PageCellOutside(m: Memory, rows: seq<Segment>, delta: int, hold: bool, a: nat)
    requires forall i :: 0 <= i < |rows| ==> WellFormed(rows[i])
    requires !InSomePages(rows, delta, a)
    ensures PageCell(m, rows, delta, hold, a) == if a in m then Some(m[a]) else None
  {
    hide WellFormed, SegmentByte, PageLo, PageHi;
    if rows != [] {
      PageCellOutside(m, rows[..|rows| - 1], delta, hold, a);
    }
  }

  /** Page-disjoint rows are all intact after mapping. */
  lemma {:induction false} MapLoadsHolds(m: Memory, delta: int, rows: seq<Segment>, hold: bool)
    requires Placeable(rows, delta) && PagesDisjoint(rows)
    ensures AfterLoads(m, Wrap(delta), rows, hold).Some?
    ensures HoldsRows(m, AfterLoads(m, Wrap(delta), rows, hold).value, rows, delta, hold)
  {
    hide AfterLoads, WellFormed, SegmentByte, Wrap, PageCell, Placed, InPages, ProtOf, PagesDisjoint;
    MapLoadsCells(m, delta, rows, hold);
    var r := AfterLoads(m, Wrap(delta), rows, hold).value;
    forall i, a: nat | 0 <= i < |rows| && InPages(rows[i], delta, a)
      ensures a in r && r[a] == Cell(SegmentByte(rows[i], a - delta), ProtOf(rows[i], hold))
    {
      PageCellOfRow(m, rows, delta, hold, i, a);
    }
    forall a: nat | !InSomePages(rows, delta, a)
      ensures (a in r <==> a in m) && (a in r ==> r[a] == m[a])
    {
      PageCellOutside(m, rows, delta, hold, a);
    }
  }

  /** The only way mapping trusted rows fails: mmap refuses the empty page range of a zero-size, page-aligned row. */
  lemma {:induction false} MapLoadsSucceeds(m: Memory, delta: int, rows: seq<Segment>, hold: bool)
    requires forall i :: 0 <= i < |rows| ==> WellFormed(rows[i]) && Placed(rows[i], delta)
    ensures AfterLoads(m, Wrap(delta), rows, hold).Some? <==>
            forall i :: 0 <= i < |rows| ==> PageLo(rows[i]) < PageHi(rows[i])
  {
    hide AfterSegment, PageLo, PageHi, Placed, WellFormed, SegmentByte, Wrap;
    if rows != [] {
      var n := |rows| - 1;
      MapLoadsSucceeds(m, delta, rows[..n], hold);
      var before := AfterLoads(m, Wrap(delta), rows[..n], hold);
      if before.Some? {
        MapSegmentCells(before.value, delta, rows[n], hold);
      } else {
        var i :| 0 <= i < n && !(PageLo(rows[..n][i]) < PageHi(rows[..n][i]));
        assert rows[i] == rows[..n][i];
      }
    }
  }

  /** That is a zero-size segment at a page-aligned address, and nothing else. */
  lemma {:induction false} EmptyPages(row: Segment)
    ensures PageLo(row) < PageHi(row) <==> !(row.memsz == 0 && row.vaddr % PAGE == 0)
  {
  }

  // ---- the reserved span ----

  /** The running minimum of the bounds pass, from UINT64_MAX. */
  function MinVaddr(rows: seq<Segment>): (min: nat)
    ensures forall i :: 0 <= i < |rows| ==> min <= rows[i].vaddr
    ensures min < WORD
  {
    if rows == [] then WORD - 1 else Min(MinVaddr(rows[..|rows| - 1]), rows[|rows| - 1].vaddr)
  }

  /** The running maximum of vaddr + memsz, each sum taken modulo 2^64. */
  function MaxEnd(rows: seq<Segment>): (max: nat)
    ensures forall i :: 0 <= i < |rows| ==> Wrap(rows[i].vaddr + rows[i].memsz) <= max
    ensures (forall i :: 0 <= i < |rows| ==> WellFormed(rows[i])) ==> max + PAGE < WORD
  {
    if rows == [] then 0 else
      var last := rows[|rows| - 1];
      Max(MaxEnd(rows[..|rows| - 1]), Wrap(last.vaddr + last.memsz))
  }

  lemma {:induction false} BoundsAttained(rows: seq<Segment>)
    ensures MinVaddr(rows) == WORD - 1 || exists row :: row in rows && MinVaddr(rows) == row.vaddr
    ensures MaxEnd(rows) == 0 || exists row :: row in rows && MaxEnd(rows) == Wrap(row.vaddr + row.memsz)
  {
    hide Wrap;
    if rows != [] {
      BoundsAttained(rows[..|rows| - 1]);
      assert rows[|rows| - 1] in rows;
    }
  }

  lemma {:induction false} BoundsContain(rows: seq<Segment>, others: seq<Segment>)
    requires forall row :: row in others ==> row in rows
    ensures MinVaddr(rows) <= MinVaddr(others) && MaxEnd(others) <= MaxEnd(rows)
  {
    hide Wrap, MinVaddr, MaxEnd;
    BoundsAttained(others);
  }

  /** The bounds query has no ORDER BY: rows in any order, and any repetition, give the same bounds. */
  lemma {:induction false} BoundsIgnoreOrder(rows: seq<Segment>, others: seq<Segment>)
    requires forall row :: row in rows <==> row in others
    ensures MinVaddr(rows) == MinVaddr(others) && MaxEnd(rows) == MaxEnd(others)
  {
    hide MinVaddr, MaxEnd;
    BoundsContain(rows, others);
    BoundsContain(others, rows);
  }

  function SpanLo(rows: seq<Segment>): nat {
    AlignDown(MinVaddr(rows))
  }

  function SpanLength(rows: seq<Segment>): nat {
    Wrap(AlignUp(MaxEnd(rows)) - SpanLo(rows))
  }

  lemma {:induction false} AlignDownMonotone(x: nat, y: nat)
    requires x <= y
    ensures AlignDown(x) <= AlignDown(y)
  {
  }

  /** The row's pages lie in [base, end), and its runtime address is its virtual address moved by delta, with the same
      offset in its page, although the load bias is computed modulo 2^64. */
  predicate SafeIn(row: Segment, delta: int, base: nat, end: int) {
    && base <= delta + PageLo(row) && delta + PageHi(row) <= end
    && Wrap(Wrap(delta) + row.vaddr) == delta + row.vaddr
    && (delta + row.vaddr) % PAGE == row.vaddr % PAGE
  }

  /** In the hole reserved for a PIE, the bias is page-aligned and every segment's pages stay inside the hole, although
      base - lo is computed modulo 2^64. Distances between addresses are those between virtual addresses. */
  lemma {:induction false} SpanSafety(m: Memory, rows: seq<Segment>, base: nat)
    requires forall i :: 0 <= i < |rows| ==> WellFormed(rows[i])
    requires AfterReserve(m, SpanLength(rows), base).Some?
    ensures var delta := base - SpanLo(rows);
      && Wrap(delta) % PAGE == 0
      && forall i :: 0 <= i < |rows| ==> Placed(rows[i], delta) && SafeIn(rows[i], delta, base, base + SpanLength(rows))
  {
    hide MinVaddr, MaxEnd, WellFormed, Placed, SafeIn, SpanLength, Wrap, AlignDown;
    var delta := base - SpanLo(rows);
    PageDifference(base, SpanLo(rows));
    WrapPage(delta);
    forall i | 0 <= i < |rows|
      ensures Placed(rows[i], delta) && SafeIn(rows[i], delta, base, base + SpanLength(rows))
    {
      SpanLengthIs(rows, i);
      assert MinVaddr(rows) <= rows[i].vaddr;
      RowInSpan(rows[i], MinVaddr(rows), MaxEnd(rows), base);
    }
  }

  lemma {:induction false} SpanLengthIs(rows: seq<Segment>, i: nat)
    requires i < |rows| && forall i :: 0 <= i < |rows| ==> WellFormed(rows[i])
    ensures rows[i].vaddr + rows[i].memsz <= MaxEnd(rows) && MaxEnd(rows) + PAGE < WORD
    ensures SpanLength(rows) == AlignDown(MaxEnd(rows) + PAGE - 1) - SpanLo(rows)
  {
    hide MinVaddr, MaxEnd;
    assert WellFormed(rows[i]);
    assert Wrap(rows[i].vaddr + rows[i].memsz) == rows[i].vaddr + rows[i].memsz;
    AlignDownMonotone(MinVaddr(rows), MaxEnd(rows) + PAGE - 1);
  }

  lemma {:induction false} RowInSpan(row: Segment, min: nat, max: nat, base: nat)
    requires WellFormed(row) && min <= row.vaddr && row.vaddr + row.memsz <= max
    requires base % PAGE == 0 && base + AlignDown(max + PAGE - 1) - AlignDown(min) < WORD
    ensures var delta := base - AlignDown(min);
      Placed(row, delta) && SafeIn(row, delta, base, delta + AlignDown(max + PAGE - 1))
  {
    hide AlignDown, Wrap;
    var lo := AlignDown(min);
    var delta := base - lo;
    PageDifference(base, lo);
    PageShift(delta, row.vaddr);
    AlignDownMonotone(min, row.vaddr);
    AlignDownMonotone(row.vaddr + row.memsz + PAGE - 1, max + PAGE - 1);
    assert row.vaddr <= AlignDown(max + PAGE - 1);
    WrapAdd(delta, row.vaddr);
  }

  lemma {:induction false} PageDifference(a: nat, b: nat)
    requires a % PAGE == 0 && b % PAGE == 0
    ensures (a - b) % PAGE == 0
  {
  }

  lemma {:induction false} PageShift(delta: int, v: nat)
    requires delta % PAGE == 0
    ensures (delta + v) % PAGE == v % PAGE
  {
  }

  lemma {:induction false} WrapPage(delta: int)
    requires delta % PAGE == 0
    ensures Wrap(delta) % PAGE == 0
  {
  }

  // ---- the loaders' view: one process, mutated in place ----

  /** The process being built. A method that returns false has called die(); the memory is then of no interest. */
  class Process {
    var mem: Memory

    constructor (mem: Memory)
      ensures this.mem == mem
    {
      this.mem := mem;
    }

    method MapSegment(bias: nat, row: Segment, hold: bool) returns (ok: bool)
      requires WellFormed(row)
      modifies this
      ensures AfterSegment(old(mem), bias, row, hold) == if ok then Some(mem) else None
    {
      hide AlignDown, AlignUp, Wrap, FileBytes, WellFormed, MapFixed, AfterStore, Protect;
      var start := AlignDown(Wrap(bias + row.vaddr));
      var end := AlignUp(Wrap(bias + row.vaddr + row.memsz));
      if end <= start {
        return false;
      }
      mem := MapFixed(mem, start, end, READ_WRITE);
      var copied := AfterStore(mem, Wrap(bias + row.vaddr), FileBytes(row));
      if copied.None? {
        return false;
      }
      mem := Protect(copied.value, start, end, ProtOf(row, hold));
      return true;
    }

    /** The bounds pass. */
    method Bounds(rows: seq<Segment>) returns (min: nat, max: nat)
      ensures min == MinVaddr(rows) && max == MaxEnd(rows)
    {
      hide Wrap, WellFormed;
      min, max := WORD - 1, 0;
      for i := 0 to |rows|
        invariant min == MinVaddr(rows[..i]) && max == MaxEnd(rows[..i])
      {
        assert rows[..i + 1][..i] == rows[..i];
        if rows[i].vaddr < min {
          min := rows[i].vaddr;
        }
        var end := Wrap(rows[i].vaddr + rows[i].memsz);
        if end > max {
          max := end;
        }
      }
      assert rows[..|rows|] == rows;
    }

    method MapRows(bias: nat, rows: seq<Segment>, hold: bool) returns (ok: bool)
      requires forall i :: 0 <= i < |rows| ==> WellFormed(rows[i])
      modifies this
      ensures AfterLoads(old(mem), bias, rows, hold) == if ok then Some(mem) else None
    {
      hide AfterSegment, WellFormed;
      for i := 0 to |rows|
        invariant AfterLoads(old(mem), bias, rows[..i], hold) == Some(mem)
      {
        assert rows[..i + 1][..i] == rows[..i];
        ok := MapSegment(bias, rows[i], hold);
        if !ok {
          AfterLoadsStops(old(mem), bias, rows, hold, i + 1);
          return;
        }
      }
      assert rows[..|rows|] == rows;
      return true;
    }
  }

  lemma {:induction false} AfterLoadsStops(m: Memory, bias: nat, rows: seq<Segment>, hold: bool, n: nat)
    requires forall i :: 0 <= i < |rows| ==> WellFormed(rows[i])
    requires n <= |rows| && AfterLoads(m, bias, rows[..n], hold).None?
    ensures AfterLoads(m, bias, rows, hold).None?
    decreases |rows|
  {
    hide AfterSegment, WellFormed;
    if n < |rows| {
      assert rows[..|rows| - 1][..n] == rows[..n];
      AfterLoadsStops(m, bias, rows[..|rows| - 1], hold, n);
    } else {
      assert rows[..n] == rows;
    }
  }
}
