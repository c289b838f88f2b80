/** What eager binding leaves in memory. */
module RelocationLaws {
  import opened Wrappers
  import opened Bytes
  import opened AddressSpace
  import opened Exports
  import opened Binder

  predicate InSlot(job: Job, a: nat) {
    job.Slot() <= a < job.Slot() + 8
  }

  /** The byte a job stores at an address of its slot. */
  function JobByte(job: Job, exports: seq<Export>, a: nat): Byte
    requires InSlot(job, a) && JobValue(job, exports).Some?
  {
    Encode(JobValue(job, exports).value, 8)[a - job.Slot()]
  }

  predicate Resolves(jobs: seq<Job>, exports: seq<Export>) {
    forall i :: 0 <= i < |jobs| ==> JobValue(jobs[i], exports).Some?
  }

  /** The byte of the last job whose slot contains `a`. */
  function LastByte(jobs: seq<Job>, exports: seq<Export>, a: nat): Option<Byte>
    requires Resolves(jobs, exports)
  {
    if jobs == [] then None else
      var last := jobs[|jobs| - 1];
      if InSlot(last, a) then Some(JobByte(last, exports, a)) else LastByte(jobs[..|jobs| - 1], exports, a)
  }

  predicate SameShape(m: Memory, r: Memory) {
    r.Keys == m.Keys && forall a :: a in m ==> r[a].prot == m[a].prot
  }

  lemma {:induction false} JobStep(m: Memory, job: Job, exports: seq<Export>)
    ensures AfterJob(m, job, exports).Some? <==> JobValue(job, exports).Some? && Writable(m, job.Slot(), 8)
    ensures AfterJob(m, job, exports).Some? ==>
      && SameShape(m, AfterJob(m, job, exports).value)
      && forall a :: a in m ==>
           AfterJob(m, job, exports).value[a].value == if InSlot(job, a) then JobByte(job, exports, a) else m[a].value
  {
    hide JobValue, Encode, Job.Slot;
  }

  lemma {:induction false} SameWritable(m: Memory, r: Memory, at: nat)
    requires SameShape(m, r)
    ensures Writable(r, at, 8) <==> Writable(m, at, 8)
  {
  }

  /** Binding survives exactly when every symbol resolves, every type is known and every slot is mapped writable,
      whatever the order of the jobs. */
  lemma {:induction false} BindingSucceeds(m: Memory, jobs: seq<Job>, exports: seq<Export>)
    ensures AfterJobs(m, jobs, exports).Some? <==>
            Resolves(jobs, exports) && forall i :: 0 <= i < |jobs| ==> Writable(m, jobs[i].Slot(), 8)
    ensures AfterJobs(m, jobs, exports).Some? ==>
      && SameShape(m, AfterJobs(m, jobs, exports).value)
      && forall a :: a in m ==>
           AfterJobs(m, jobs, exports).value[a].value ==
           var b := LastByte(jobs, exports, a); if b.Some? then b.value else m[a].value
  {
    hide JobValue, Encode, AfterJob, Writable, InSlot, JobByte;
    if jobs != [] {
      var n := |jobs| - 1;
      BindingSucceeds(m, jobs[..n], exports);
      var before := AfterJobs(m, jobs[..n], exports);
      if before.Some? {
        JobStep(before.value, jobs[n], exports);
        SameWritable(m, before.value, jobs[n].Slot());
      } else {
        assert forall i :: 0 <= i < n ==> jobs[..n][i] == jobs[i];
      }
    }
  }

  // ---- disjoint slots ----

  predicate Apart(x: nat, y: nat) {
    x + 8 <= y || y + 8 <= x
  }

  ghost predicate SlotsApart(jobs: seq<Job>) {
    forall i, j :: 0 <= i < j < |jobs| ==> Apart(jobs[i].Slot(), jobs[j].Slot())
  }

  lemma {:induction false} LastByteOfJob(jobs: seq<Job>, exports: seq<Export>, i: nat, a: nat)
    requires Resolves(jobs, exports) && SlotsApart(jobs) && i < |jobs| && InSlot(jobs[i], a)
    ensures LastByte(jobs, exports, a) == Some(JobByte(jobs[i], exports, a))
  {
    hide JobValue, Encode;
    if i < |jobs| - 1 {
      assert Apart(jobs[i].Slot(), jobs[|jobs| - 1].Slot());
      LastByteOfJob(jobs[..|jobs| - 1], exports, i, a);
    }
  }

  lemma {:induction false} LastByteOutside(jobs: seq<Job>, exports: seq<Export>, a: nat)
    requires Resolves(jobs, exports) && forall i :: 0 <= i < |jobs| ==> !InSlot(jobs[i], a)
    ensures LastByte(jobs, exports, a) == None
  {
    hide JobValue, Encode;
    if jobs != [] {
      LastByteOutside(jobs[..|jobs| - 1], exports, a);
    }
  }

  lemma {:induction false} Twice<T>(s: seq<T>, i: nat, j: nat)
    requires i < j < |s| && s[i] == s[j]
    ensures multiset(s)[s[i]] >= 2
  {
    assert s == s[..j] + [s[j]] + s[j + 1..];
    assert s[..j][i] == s[i];
  }

  lemma {:induction false} Once(jobs: seq<Job>, job: Job)
    requires SlotsApart(jobs)
    ensures multiset(jobs)[job] <= 1
  {
    if jobs != [] {
      var n := |jobs| - 1;
      Once(jobs[..n], job);
      assert jobs == jobs[..n] + [jobs[n]];
      assert jobs[n] !in jobs[..n];
    }
  }

  lemma {:induction false} ApartPermutes(js: seq<Job>, ks: seq<Job>)
    requires multiset(js) == multiset(ks) && SlotsApart(js)
    ensures SlotsApart(ks)
  {
    forall i, j | 0 <= i < j < |ks|
      ensures Apart(ks[i].Slot(), ks[j].Slot())
    {
      if ks[i] == ks[j] {
        Twice(ks, i, j);
        Once(js, ks[i]);
      } else {
        assert ks[i] in multiset(js) && ks[j] in multiset(js);
      }
    }
  }

  /** Relocation is order-free: any reordering of the jobs of all objects, whether rows within an object or whole
      objects, survives or dies alike and leaves the same memory. */
  lemma {:induction false} OrderFree(m: Memory, js: seq<Job>, ks: seq<Job>, exports: seq<Export>)
    requires multiset(js) == multiset(ks) && SlotsApart(js)
    ensures AfterJobs(m, js, exports) == AfterJobs(m, ks, exports)
  {
    hide AfterJobs, JobValue, LastByte, Resolves, Writable;
    SameMembers(js, ks);
    ApartPermutes(js, ks);
    BindingSucceeds(m, js, exports);
    BindingSucceeds(m, ks, exports);
    ResolvesPermutes(js, ks, exports);
    assert AfterJobs(m, js, exports).Some? == AfterJobs(m, ks, exports).Some? by {
      forall i | 0 <= i < |js|
        ensures exists j :: 0 <= j < |ks| && ks[j] == js[i]
      {
        assert js[i] in ks;
      }
      forall i | 0 <= i < |ks|
        ensures exists j :: 0 <= j < |js| && js[j] == ks[i]
      {
        assert ks[i] in js;
      }
    }
    if AfterJobs(m, js, exports).Some? {
      var r, s := AfterJobs(m, js, exports).value, AfterJobs(m, ks, exports).value;
      forall a | a in m
        ensures r[a] == s[a]
      {
        SameLastByte(js, ks, exports, a);
      }
      assert r == s;
    }
  }

  lemma {:induction false} SameMembers<T>(s: seq<T>, t: seq<T>)
    requires multiset(s) == multiset(t)
    ensures forall x :: x in s <==> x in t
  {
    assert forall x :: x in s <==> x in multiset(s);
    assert forall x :: x in t <==> x in multiset(t);
  }

  lemma {:induction false} ResolvesPermutes(js: seq<Job>, ks: seq<Job>, exports: seq<Export>)
    requires forall x :: x in js <==> x in ks
    ensures Resolves(js, exports) <==> Resolves(ks, exports)
  {
    hide JobValue;
    assert Resolves(js, exports) <==> forall job :: job in js ==> JobValue(job, exports).Some?;
    assert Resolves(ks, exports) <==> forall job :: job in ks ==> JobValue(job, exports).Some?;
  }

  lemma {:induction false} SameLastByte(js: seq<Job>, ks: seq<Job>, exports: seq<Export>, a: nat)
    requires Resolves(js, exports) && Resolves(ks, exports) && SlotsApart(js) && SlotsApart(ks)
    requires forall x :: x in js <==> x in ks
    ensures LastByte(js, exports, a) == LastByte(ks, exports, a)
  {
    hide JobValue, LastByte, Resolves;
    if i :| 0 <= i < |js| && InSlot(js[i], a) {
      assert js[i] in ks;
      var j :| 0 <= j < |ks| && ks[j] == js[i];
      LastByteOfJob(js, exports, i, a);
      LastByteOfJob(ks, exports, j, a);
    } else {
      forall j | 0 <= j < |ks|
        ensures !InSlot(ks[j], a)
      {
        assert ks[j] in js;
      }
      LastByteOutside(js, exports, a);
      LastByteOutside(ks, exports, a);
    }
  }

  // ---- the two reorderings SQL and the binding loop allow ----

  lemma {:induction false} JobsFromRows(relocs: seq<Reloc>, symbols: seq<Symbol>, bias: nat, job: Job)
    ensures multiset(Jobs(relocs, symbols, bias))[job] ==
            if job == Job(bias, job.reloc, JoinedName(symbols, job.reloc.symbol)) then multiset(relocs)[job.reloc]
            else 0
  {
    if relocs != [] {
      var n := |relocs| - 1;
      JobsFromRows(relocs[..n], symbols, bias, job);
      assert relocs == relocs[..n] + [relocs[n]];
    }
  }

  /** The relocation query has no ORDER BY: any row order gives the same bag of jobs. */
  lemma {:induction false} RowOrder(relocs: seq<Reloc>, shuffled: seq<Reloc>, symbols: seq<Symbol>, bias: nat)
    requires multiset(relocs) == multiset(shuffled)
    ensures multiset(Jobs(relocs, symbols, bias)) == multiset(Jobs(shuffled, symbols, bias))
  {
    forall job
      ensures multiset(Jobs(relocs, symbols, bias))[job] == multiset(Jobs(shuffled, symbols, bias))[job]
    {
      JobsFromRows(relocs, symbols, bias, job);
      JobsFromRows(shuffled, symbols, bias, job);
    }
  }

  lemma {:induction false} LastJobs(objs: seq<Loaded>)
    requires objs != []
    ensures multiset(AllJobs(objs)) ==
            multiset(AllJobs(objs[..|objs| - 1])) + multiset(JobsOf(objs[|objs| - 1]))
  {
  }

  lemma {:induction false} RemoveObject(objs: seq<Loaded>, i: nat)
    requires i < |objs|
    ensures multiset(AllJobs(objs)) == multiset(AllJobs(objs[..i] + objs[i + 1..])) + multiset(JobsOf(objs[i]))
    decreases |objs|
  {
    hide AllJobs, JobsOf;
    var n, rest := |objs| - 1, objs[..i] + objs[i + 1..];
    LastJobs(objs);
    if i == n {
      assert rest == objs[..n];
    } else {
      RemoveObject(objs[..n], i);
      assert rest[..n - 1] == objs[..n][..i] + objs[..n][i + 1..];
      LastJobs(rest);
    }
  }

  /** The objects may be relocated in any order. */
  lemma {:induction false} ObjectOrder(objs: seq<Loaded>, shuffled: seq<Loaded>)
    requires multiset(objs) == multiset(shuffled)
    ensures multiset(AllJobs(objs)) == multiset(AllJobs(shuffled))
    decreases |objs|
  {
    hide JobsOf;
    if objs == [] {
      assert |multiset(shuffled)| == 0;
    } else {
      var n := |objs| - 1;
      assert objs[n] in multiset(shuffled);
      var i :| 0 <= i < |shuffled| && shuffled[i] == objs[n];
      var rest := shuffled[..i] + shuffled[i + 1..];
      assert objs == objs[..n] + [objs[n]];
      assert shuffled == shuffled[..i] + [shuffled[i]] + shuffled[i + 1..];
      assert multiset(rest) == multiset(shuffled) - multiset{objs[n]};
      assert multiset(objs[..n]) == multiset(objs) - multiset{objs[n]};
      ObjectOrder(objs[..n], rest);
      RemoveObject(shuffled, i);
    }
  }
}

/** From .self files to bound memory. */
module BinderLaws {
  import opened Wrappers
  import opened Bytes
  import opened SelfRows
  import opened AddressSpace
  import opened NativeLoader
  import NativeLaws
  import opened Exports
  import opened Binder
  import opened ExportOrder
  import opened RelocationLaws

  /** A mapped object is intact: its rows fill their pages, still writable, inside its own hole. */
  ghost predicate Resident(r: Memory, obj: Loaded)
    requires TrustedLoads(obj.file)
  {
    var rows, delta := obj.file.Loads(), obj.Delta();
    && obj.loadBias == Wrap(delta)
    && Placeable(rows, delta)
    && (forall i :: 0 <= i < |rows| ==> HoldsRow(r, rows[i], delta, true))
    && (forall a: nat :: obj.InHole(a) ==> a in r)
    && (forall a: nat :: InSomePages(rows, delta, a) ==> obj.InHole(a))
    && obj.base + SpanLength(rows) < WORD
  }

  /** The files the end-to-end theorem is about: trusted load rows that share no page. */
  ghost predicate SoundFile(file: ObjectFile) {
    TrustedLoads(file) && PagesDisjoint(file.Loads())
  }

  lemma {:induction false} PagesInHole(m: Memory, rows: seq<Segment>, base: nat, a: nat)
    requires forall i :: 0 <= i < |rows| ==> WellFormed(rows[i])
    requires AfterReserve(m, SpanLength(rows), base).Some? && InSomePages(rows, base - SpanLo(rows), a)
    ensures base <= a < base + SpanLength(rows)
  {
    hide SpanLo, SpanLength, WellFormed, PageLo, PageHi, AfterReserve, Wrap;
    SpanSafety(m, rows, base);
    var i :| 0 <= i < |rows| && InPages(rows[i], base - SpanLo(rows), a);
  }

  lemma {:induction false} ObjectHoldsRows(m: Memory, file: ObjectFile, base: nat)
    requires SoundFile(file) && AfterObject(m, file, base).Some?
    ensures var (r, obj) := AfterObject(m, file, base).value;
      var rows := file.Loads();
      && obj.file == file && obj.base == base && obj.loadBias == Wrap(obj.Delta())
      && Placeable(rows, obj.Delta())
      && AfterReserve(m, SpanLength(rows), base).Some?
      && HoldsRows(AfterReserve(m, SpanLength(rows), base).value, r, rows, obj.Delta(), true)
  {
    hide WellFormed, Placed, PagesDisjoint, SpanLo, SpanLength, AfterLoads, AfterReserve, PageLo, PageHi, HoldsRows;
    hide Wrap;
    var rows := file.Loads();
    var delta := base - SpanLo(rows);
    NativeLaws.SpanPlaced(m, rows, true, base);
    var (reserved, bias) := AfterSpan(m, rows, true, base).value;
    MapLoadsSucceeds(reserved, delta, rows, true);
    MapLoadsHolds(reserved, delta, rows, true);
  }

  /** map_object leaves the object resident and everything outside its fresh hole as it was. */
  lemma {:induction false} ObjectMapped(m: Memory, file: ObjectFile, base: nat)
    requires SoundFile(file) && AfterObject(m, file, base).Some?
    ensures var (r, obj) := AfterObject(m, file, base).value;
      && obj.file == file && obj.base == base && Resident(r, obj)
      && (forall a: nat :: a in m ==> !obj.InHole(a))
      && (forall a: nat :: !obj.InHole(a) ==> (a in r <==> a in m) && (a in r ==> r[a] == m[a]))
  {
    hide WellFormed, PagesDisjoint, SpanLo, SpanLength, AfterObject, Placeable, HoldsRow, Wrap, InPages;
    ObjectHoldsRows(m, file, base);
    var rows := file.Loads();
    var delta := base - SpanLo(rows);
    forall a: nat | InSomePages(rows, delta, a)
      ensures base <= a < base + SpanLength(rows)
    {
      PagesInHole(m, rows, base, a);
    }
    var (r, obj) := AfterObject(m, file, base).value;
    forall a: nat | obj.InHole(a)
      ensures a in r
    {
      if i :| 0 <= i < |rows| && InPages(rows[i], delta, a) {
        RowIsMapped(r, rows[i], delta, a);
      }
    }
  }

  /** The entry point is the file's, displaced; 0 when the file names none. */
  lemma {:induction false} ObjectEntryIs(m: Memory, file: ObjectFile, base: nat)
    requires TrustedLoads(file) && AfterObject(m, file, base).Some?
    ensures var obj := AfterObject(m, file, base).value.1;
      obj.entry == if Entry in file.db.meta then Wrap(obj.Delta() + file.db.meta[Entry]) else 0
  {
    hide Wrap, AfterLoads, AfterReserve, WellFormed, SpanLo, SpanLength;
    if Entry in file.db.meta {
      WrapSum(base - SpanLo(file.Loads()), file.db.meta[Entry]);
    }
  }

  /** When a load row holds the entry point, it is at its distance from the displacement, with the row's byte, and
      executable exactly when the row is. */
  lemma {:induction false} ObjectEntry(m: Memory, file: ObjectFile, base: nat, i: nat)
    requires SoundFile(file) && AfterObject(m, file, base).Some? && Entry in file.db.meta
    requires i < |file.Loads()|
    requires file.Loads()[i].vaddr <= file.db.meta[Entry] < file.Loads()[i].vaddr + file.Loads()[i].memsz
    ensures WellFormed(file.Loads()[i])
    ensures var (r, obj) := AfterObject(m, file, base).value;
      var row, entry := file.Loads()[i], file.db.meta[Entry];
      && obj.entry == obj.Delta() + entry && obj.entry in r
      && r[obj.entry] == Cell(SegmentByte(row, entry), Prot(row.r, true, row.x))
  {
    hide PagesDisjoint, SpanLo, SpanLength, AfterObject, Wrap, InSomePages, AlignDown, AlignUp, SegmentByte;
    ObjectMapped(m, file, base);
    ObjectEntryIs(m, file, base);
    var (r, obj) := AfterObject(m, file, base).value;
    var row, entry := file.Loads()[i], file.db.meta[Entry];
    assert Placed(row, obj.Delta()) && HoldsRow(r, row, obj.Delta(), true);
    SegmentRange(row, obj.Delta());
    WrapAdd(obj.Delta(), entry);
    RowIsMapped(r, row, obj.Delta(), obj.Delta() + entry);
  }

  lemma {:induction false} RowIsMapped(r: Memory, row: Segment, delta: int, a: nat)
    requires WellFormed(row) && HoldsRow(r, row, delta, true) && InPages(row, delta, a)
    ensures a in r && r[a] == Cell(SegmentByte(row, a - delta), ProtOf(row, true))
  {
  }

  lemma {:induction false} ResidentStays(m: Memory, r: Memory, obj: Loaded)
    requires TrustedLoads(obj.file) && Resident(m, obj)
    requires forall a: nat :: obj.InHole(a) ==> a in r && r[a] == m[a]
    ensures Resident(r, obj)
  {
    hide WellFormed, Placeable, InPages, SpanLength, SpanLo, Wrap;
    var rows, delta := obj.file.Loads(), obj.Delta();
    forall i | 0 <= i < |rows|
      ensures HoldsRow(r, rows[i], delta, true)
    {
      assert HoldsRow(m, rows[i], delta, true);
      forall a: nat | InPages(rows[i], delta, a)
        ensures a in r && r[a] == Cell(SegmentByte(rows[i], a - delta), ProtOf(rows[i], true))
      {
        assert InSomePages(rows, delta, a);
      }
    }
  }

  ghost predicate InSomeHole(objs: seq<Loaded>, a: nat) {
    exists i :: 0 <= i < |objs| && objs[i].InHole(a)
  }

  /** All files mapped, each in a hole of its own, nothing else touched. */
  ghost predicate AllMapped(m: Memory, r: Memory, files: seq<ObjectFile>, objs: seq<Loaded>) {
    && |objs| == |files|
    && (forall i :: 0 <= i < |files| ==>
          objs[i].file == files[i] && TrustedLoads(files[i]) && Resident(r, objs[i]))
    && (forall i, j, a: nat :: 0 <= i < j < |objs| && objs[i].InHole(a) ==> !objs[j].InHole(a))
    && (forall a: nat :: !InSomeHole(objs, a) ==> (a in r <==> a in m) && (a in r ==> r[a] == m[a]))
  }

  lemma {:induction false} ObjectsMapped(m: Memory, files: seq<ObjectFile>, bases: seq<nat>)
    requires |files| == |bases| && forall i :: 0 <= i < |files| ==> TrustedLoads(files[i]) && SoundFile(files[i])
    requires AfterObjects(m, files, bases).Some?
    ensures AllMapped(m, AfterObjects(m, files, bases).value.0, files, AfterObjects(m, files, bases).value.1)
  {
    hide SoundFile, TrustedLoads, Resident, AfterObject, Loaded.InHole;
    if files != [] {
      var n := |files| - 1;
      ObjectsMapped(m, files[..n], bases[..n]);
      var (before, olds) := AfterObjects(m, files[..n], bases[..n]).value;
      MapsOneMore(m, before, files, olds, bases[n]);
    }
  }

  lemma {:induction false} SomeHole(olds: seq<Loaded>, obj: Loaded, a: nat)
    ensures InSomeHole(olds + [obj], a) <==> InSomeHole(olds, a) || obj.InHole(a)
  {
    var objs := olds + [obj];
    assert objs[|olds|] == obj;
    if i :| 0 <= i < |olds| && olds[i].InHole(a) {
      assert objs[i].InHole(a);
    }
  }

  lemma {:induction false} MapsOneMore(m: Memory, before: Memory, files: seq<ObjectFile>, olds: seq<Loaded>, base: nat)
    requires files != [] && SoundFile(files[|files| - 1])
    requires AllMapped(m, before, files[..|files| - 1], olds)
    requires AfterObject(before, files[|files| - 1], base).Some?
    ensures var (r, obj) := AfterObject(before, files[|files| - 1], base).value;
      AllMapped(m, r, files, olds + [obj])
  {
    hide TrustedLoads, Resident, AfterObject, PagesDisjoint, Loaded.InHole;
    var n := |files| - 1;
    ObjectMapped(before, files[n], base);
    var (r, obj) := AfterObject(before, files[n], base).value;
    var objs := olds + [obj];
    forall i | 0 <= i < n
      ensures Resident(r, olds[i])
      ensures forall a: nat :: olds[i].InHole(a) ==> !obj.InHole(a)
    {
      assert olds[i].file == files[..n][i];
      HoleIsMapped(before, olds[i]);
      ResidentStays(before, r, olds[i]);
    }
    forall a: nat | !InSomeHole(objs, a)
      ensures (a in r <==> a in m) && (a in r ==> r[a] == m[a])
    {
      SomeHole(olds, obj, a);
    }
  }

  lemma {:induction false} HoleIsMapped(r: Memory, obj: Loaded)
    requires TrustedLoads(obj.file) && Resident(r, obj)
    ensures forall a: nat :: obj.InHole(a) ==> a in r
  {
  }

  // ---- slots ----

  ghost predicate SlotInPages(file: ObjectFile, reloc: Reloc) {
    exists i :: 0 <= i < |file.Loads()| &&
      PageLo(file.Loads()[i]) <= reloc.offset && reloc.offset + 8 <= PageHi(file.Loads()[i])
  }

  /** A sound file whose relocation slots are disjoint and lie in its load segments' pages. */
  ghost predicate BindableFile(file: ObjectFile) {
    && SoundFile(file)
    && (forall i :: 0 <= i < |file.relocs| ==> SlotInPages(file, file.relocs[i]))
    && (forall i, j :: 0 <= i < j < |file.relocs| ==> Apart(file.relocs[i].offset, file.relocs[j].offset))
  }

  /** Where a job's slot is: at the displacement, in the object's hole, writable. */
  lemma {:induction false} SlotPlace(r: Memory, obj: Loaded, i: nat)
    requires BindableFile(obj.file) && Resident(r, obj) && i < |obj.file.relocs|
    ensures var slot := JobsOf(obj)[i].Slot();
      && slot == obj.Delta() + obj.file.relocs[i].offset
      && Writable(r, slot, 8)
      && forall a :: slot <= a < slot + 8 ==> obj.InHole(a)
  {
    hide Wrap, PageLo, PageHi, SpanLo, SpanLength, PagesDisjoint, WellFormed;
    var rows, delta, offset := obj.file.Loads(), obj.Delta(), obj.file.relocs[i].offset;
    assert SlotInPages(obj.file, obj.file.relocs[i]);
    var j :| 0 <= j < |rows| && PageLo(rows[j]) <= offset && offset + 8 <= PageHi(rows[j]);
    assert Placed(rows[j], delta);
    WrapAdd(delta, offset);
    forall a: nat | delta + offset <= a < delta + offset + 8
      ensures a in r && r[a].prot.w && obj.InHole(a)
    {
      assert InPages(rows[j], delta, a);
      RowIsMapped(r, rows[j], delta, a);
      assert InSomePages(rows, delta, a);
    }
  }

  lemma {:induction false} ObjectSlotsApart(r: Memory, obj: Loaded)
    requires BindableFile(obj.file) && Resident(r, obj)
    ensures SlotsApart(JobsOf(obj))
  {
    hide Resident, SoundFile, SlotInPages;
    forall i, j | 0 <= i < j < |obj.file.relocs|
      ensures Apart(JobsOf(obj)[i].Slot(), JobsOf(obj)[j].Slot())
    {
      assert Apart(obj.file.relocs[i].offset, obj.file.relocs[j].offset);
      SlotPlace(r, obj, i);
      SlotPlace(r, obj, j);
    }
  }

  /** Every job of the whole run belongs to some object. */
  lemma {:induction false} JobOwner(objs: seq<Loaded>, job: Job) returns (k: nat, i: nat)
    requires job in AllJobs(objs)
    ensures k < |objs| && i < |JobsOf(objs[k])| && JobsOf(objs[k])[i] == job
  {
    hide JobsOf;
    var n := |objs| - 1;
    if job in JobsOf(objs[n]) {
      k := n;
      i :| 0 <= i < |JobsOf(objs[n])| && JobsOf(objs[n])[i] == job;
    } else {
      k, i := JobOwner(objs[..n], job);
    }
  }

  ghost predicate HolesApart(objs: seq<Loaded>) {
    forall i, j, a: nat :: 0 <= i < j < |objs| && objs[i].InHole(a) ==> !objs[j].InHole(a)
  }

  ghost predicate AllResident(r: Memory, objs: seq<Loaded>) {
    forall k :: 0 <= k < |objs| ==> BindableFile(objs[k].file) && Resident(r, objs[k])
  }

  /** Across objects, slots are apart because holes are. */
  lemma {:induction false} AllSlotsApart(r: Memory, objs: seq<Loaded>)
    requires AllResident(r, objs) && HolesApart(objs)
    ensures SlotsApart(AllJobs(objs))
  {
    hide Resident, BindableFile, JobsOf, Job.Slot, Loaded.InHole;
    if objs != [] {
      var n := |objs| - 1;
      AllSlotsApart(r, objs[..n]);
      ObjectSlotsApart(r, objs[n]);
      var olds, news := AllJobs(objs[..n]), JobsOf(objs[n]);
      forall i, j | 0 <= i < |olds| && 0 <= j < |news|
        ensures Apart(olds[i].Slot(), news[j].Slot())
      {
        var k, l := JobOwner(objs[..n], olds[i]);
        CrossSlotsApart(r, objs[k], l, objs[n], j);
      }
    }
  }

  lemma {:induction false} CrossSlotsApart(r: Memory, x: Loaded, i: nat, y: Loaded, j: nat)
    requires BindableFile(x.file) && Resident(r, x) && BindableFile(y.file) && Resident(r, y)
    requires forall a: nat :: x.InHole(a) ==> !y.InHole(a)
    requires i < |JobsOf(x)| && j < |JobsOf(y)|
    ensures Apart(JobsOf(x)[i].Slot(), JobsOf(y)[j].Slot())
  {
    hide BindableFile, Resident, SpanLength, SpanLo, Wrap;
    SlotPlace(r, x, i);
    SlotPlace(r, y, j);
    var s, t := JobsOf(x)[i].Slot(), JobsOf(y)[j].Slot();
    var a: nat := Max(s, t);
    assert a < s + 8 ==> x.InHole(a);
    assert a < t + 8 ==> y.InHole(a);
  }

  // ---- end to end ----

  lemma {:induction false} MappedIsResident(m: Memory, r: Memory, files: seq<ObjectFile>, objs: seq<Loaded>)
    requires AllMapped(m, r, files, objs) && forall i :: 0 <= i < |files| ==> BindableFile(files[i])
    ensures AllResident(r, objs) && HolesApart(objs)
  {
    hide Resident, BindableFile, Loaded.InHole;
  }

  /** Libraries in load order, the main program last. */
  lemma {:induction false} BindOrderIs(objs: seq<Loaded>)
    requires objs != []
    ensures var order := BindOrder(objs);
      |order| == |objs| && order[|objs| - 1] == objs[0] && forall i :: 1 <= i < |objs| ==> order[i - 1] == objs[i]
  {
  }

  /** Binding libraries first and the main program last is one of the orders. */
  lemma {:induction false} BindOrderJobs(objs: seq<Loaded>)
    requires objs != []
    ensures multiset(AllJobs(BindOrder(objs))) == multiset(AllJobs(objs))
  {
    assert objs == [objs[0]] + objs[1..];
    ObjectOrder(BindOrder(objs), objs);
  }

  lemma {:induction false} ResidentSlotsWritable(r: Memory, objs: seq<Loaded>)
    requires AllResident(r, objs)
    ensures forall job :: job in AllJobs(objs) ==> Writable(r, job.Slot(), 8)
  {
    hide Resident, BindableFile, JobsOf, AllJobs, Writable;
    forall job | job in AllJobs(objs)
      ensures Writable(r, job.Slot(), 8)
    {
      var k, i := JobOwner(objs, job);
      JobCount(objs[k]);
      SlotPlace(r, objs[k], i);
    }
  }

  lemma {:induction false} JobCount(obj: Loaded)
    ensures |JobsOf(obj)| == |obj.file.relocs|
  {
  }

  ghost predicate InSomeSlot(jobs: seq<Job>, a: nat) {
    exists i :: 0 <= i < |jobs| && InSlot(jobs[i], a)
  }

  /** Bound memory: every slot holds its job's word, every other address is as the mapping left it. */
  ghost predicate Bound(mapped: Memory, r: Memory, jobs: seq<Job>, exports: seq<Export>) {
    && Resolves(jobs, exports)
    && SameShape(mapped, r)
    && (forall i, a: nat :: 0 <= i < |jobs| && InSlot(jobs[i], a) ==>
          a in r && r[a].value == JobByte(jobs[i], exports, a))
    && (forall a: nat :: a in r && !InSomeSlot(jobs, a) ==> r[a] == mapped[a])
  }

  lemma {:induction false} ApartJobsBind(m: Memory, jobs: seq<Job>, exports: seq<Export>)
    requires SlotsApart(jobs) && Resolves(jobs, exports)
    requires forall job :: job in jobs ==> Writable(m, job.Slot(), 8)
    ensures AfterJobs(m, jobs, exports).Some?
    ensures Bound(m, AfterJobs(m, jobs, exports).value, jobs, exports)
  {
    hide JobValue, AfterJobs, LastByte, Encode, Job.Slot, SlotsApart;
    BindingSucceeds(m, jobs, exports);
    var r := AfterJobs(m, jobs, exports).value;
    forall i, a: nat | 0 <= i < |jobs| && InSlot(jobs[i], a)
      ensures a in r && r[a].value == JobByte(jobs[i], exports, a)
    {
      assert Writable(m, jobs[i].Slot(), 8);
      LastByteOfJob(jobs, exports, i, a);
    }
    forall a: nat | a in r && !InSomeSlot(jobs, a)
      ensures r[a] == m[a]
    {
      LastByteOutside(jobs, exports, a);
    }
  }

  /** Once every object is mapped, the run survives exactly when every relocation resolves. Each slot then holds the
      word of its relocation under the final export table; every other byte of every object's pages holds segment
      content or zero, with the protection the row asks for plus write; nothing outside the objects' holes changed. */
  lemma {:induction false} RunBinds(m: Memory, files: seq<ObjectFile>, bases: seq<nat>, mapped: Memory,
                                    objs: seq<Loaded>)
    requires files != [] && |files| == |bases|
    requires forall i :: 0 <= i < |files| ==> TrustedLoads(files[i]) && BindableFile(files[i])
    requires AfterObjects(m, files, bases) == Some((mapped, objs))
    ensures AllMapped(m, mapped, files, objs)
    ensures AfterRun(m, files, bases).Some? <==> Resolves(AllJobs(objs), AllExports(objs))
    ensures AfterRun(m, files, bases).Some? ==>
      Bound(mapped, AfterRun(m, files, bases).value, AllJobs(objs), AllExports(objs))
  {
    hide BindableFile, TrustedLoads, AllMapped, AfterObjects, AllJobs, AllExports, Resolves, Bound, AllResident;
    hide AfterJobs, HolesApart;
    BindableIsSound(files);
    ObjectsMapped(m, files, bases);
    AfterObjectsCount(m, files, bases);
    MappedIsResident(m, mapped, files, objs);
    AllSlotsApart(mapped, objs);
    ResidentSlotsWritable(mapped, objs);
    BindOrderJobs(objs);
    OrderFree(mapped, AllJobs(objs), AllJobs(BindOrder(objs)), AllExports(objs));
    BindingSucceeds(mapped, AllJobs(objs), AllExports(objs));
    if Resolves(AllJobs(objs), AllExports(objs)) {
      ApartJobsBind(mapped, AllJobs(objs), AllExports(objs));
    }
  }

  // ---- resolution, read off the files ----

  predicate Publishes(file: ObjectFile, name: string) {
    exists i :: 0 <= i < |file.symbols| && Published(file.symbols[i]) && file.symbols[i].name == name
  }

  predicate SomePublishes(files: seq<ObjectFile>, name: string) {
    exists k :: 0 <= k < |files| && Publishes(files[k], name)
  }

  /** A known type, and for a symbolic one a name that some file publishes. */
  predicate Answered(files: seq<ObjectFile>, file: ObjectFile, reloc: Reloc) {
    && (reloc.rtype == R_RELATIVE || Symbolic(reloc))
    && (Symbolic(reloc) ==>
          var name := JoinedName(file.symbols, reloc.symbol);
          name.Some? && SomePublishes(files, name.value))
  }

  /** Every relocation of every file is answered by the files. */
  predicate AllAnswered(files: seq<ObjectFile>) {
    forall k, i :: 0 <= k < |files| && 0 <= i < |files[k].relocs| ==> Answered(files, files[k], files[k].relocs[i])
  }

  /** What the file publishes lies in its own load span. */
  predicate PublishesInside(file: ObjectFile) {
    forall i :: 0 <= i < |file.symbols| && Published(file.symbols[i]) ==>
      SpanLo(file.Loads()) <= file.symbols[i].value.value < SpanLo(file.Loads()) + SpanLength(file.Loads())
  }

  predicate IsExport(s: Symbol, bias: nat, e: Export) {
    Published(s) && e == Export(s.name, Wrap(bias + s.value.value))
  }

  lemma {:induction false} ExportSymbol(symbols: seq<Symbol>, bias: nat, e: Export) returns (i: nat)
    requires e in ExportsOf(symbols, bias)
    ensures i < |symbols| && IsExport(symbols[i], bias, e)
  {
    hide Published, Wrap;
    i := |symbols| - 1;
    if !Published(symbols[i]) || e in ExportsOf(symbols[..i], bias) {
      i := ExportSymbol(symbols[..i], bias, e);
    } else {
      PublishedHasValue(symbols[i]);
    }
  }

  lemma {:induction false} SymbolIsListed(symbols: seq<Symbol>, bias: nat, e: Export, i: nat)
    requires i < |symbols| && IsExport(symbols[i], bias, e)
    ensures e in ExportsOf(symbols, bias)
  {
    hide IsExport;
    var n := |symbols| - 1;
    if i < n {
      SymbolIsListed(symbols[..n], bias, e, i);
    } else {
      LastIsListed(symbols, bias, e);
    }
  }

  lemma {:induction false} LastIsListed(symbols: seq<Symbol>, bias: nat, e: Export)
    requires symbols != [] && IsExport(symbols[|symbols| - 1], bias, e)
    ensures e in ExportsOf(symbols, bias)
  {
  }

  /** Every node of the table was published by some symbol of some object. */
  lemma {:induction false} ExportOwner(objs: seq<Loaded>, e: Export) returns (k: nat, i: nat)
    requires e in AllExports(objs)
    ensures k < |objs| && i < |objs[k].file.symbols| && IsExport(objs[k].file.symbols[i], objs[k].loadBias, e)
  {
    hide ExportsOf, IsExport;
    k := |objs| - 1;
    if e in ExportsOf(objs[k].file.symbols, objs[k].loadBias) {
      i := ExportSymbol(objs[k].file.symbols, objs[k].loadBias, e);
    } else {
      k, i := ExportOwner(objs[..k], e);
    }
  }

  lemma {:induction false} ExportIsListed(objs: seq<Loaded>, e: Export, k: nat, i: nat)
    requires k < |objs| && i < |objs[k].file.symbols| && IsExport(objs[k].file.symbols[i], objs[k].loadBias, e)
    ensures e in AllExports(objs)
  {
    hide ExportsOf, IsExport;
    if k < |objs| - 1 {
      ExportIsListed(objs[..|objs| - 1], e, k, i);
    } else {
      SymbolIsListed(objs[k].file.symbols, objs[k].loadBias, e, i);
    }
  }

  /** Nothing inside a span is published at address 0. */
  lemma {:induction false} PublishedNotNull(r: Memory, obj: Loaded, i: nat)
    requires TrustedLoads(obj.file) && Resident(r, obj) && PublishesInside(obj.file) && obj.base > 0
    requires i < |obj.file.symbols| && Published(obj.file.symbols[i])
    ensures obj.file.symbols[i].value.Some? && Wrap(obj.loadBias + obj.file.symbols[i].value.value) != 0
  {
    hide Wrap, SpanLo, SpanLength, Placeable, InSomePages, HoldsRow;
    WrapAdd(obj.Delta(), obj.file.symbols[i].value.value);
  }

  /** The mapped objects of a closure whose published symbols have addresses. */
  ghost predicate Addressed(r: Memory, files: seq<ObjectFile>, objs: seq<Loaded>) {
    && |objs| == |files|
    && forall k :: 0 <= k < |objs| ==>
         && objs[k].file == files[k] && objs[k].base > 0
         && TrustedLoads(files[k]) && Resident(r, objs[k]) && PublishesInside(files[k])
  }

  lemma {:induction false} NoNullExport(r: Memory, files: seq<ObjectFile>, objs: seq<Loaded>, e: Export)
    requires Addressed(r, files, objs) && e in AllExports(objs)
    ensures e.addr != 0 && SomePublishes(files, e.name)
  {
    hide AllExports, TrustedLoads, Resident, PublishesInside, Published, Wrap;
    var k, i := ExportOwner(objs, e);
    PublishedNotNull(r, objs[k], i);
    assert Publishes(files[k], e.name);
  }

  lemma {:induction false} PublishedIsExported(objs: seq<Loaded>, k: nat, name: string)
    requires k < |objs| && Publishes(objs[k].file, name)
    ensures exists e :: e in AllExports(objs) && e.name == name
  {
    hide AllExports;
    var symbols, bias := objs[k].file.symbols, objs[k].loadBias;
    var i :| 0 <= i < |symbols| && Published(symbols[i]) && symbols[i].name == name;
    ExportIsListed(objs, Export(name, Wrap(bias + symbols[i].value.value)), k, i);
  }

  /** The table knows a name exactly when some file publishes it. */
  lemma {:induction false} TableKnows(r: Memory, files: seq<ObjectFile>, objs: seq<Loaded>, name: string)
    requires Addressed(r, files, objs)
    ensures Lookup(AllExports(objs), name) != 0 <==> SomePublishes(files, name)
  {
    hide AllExports, Lookup, TrustedLoads, Resident, PublishesInside, Publishes;
    forall e | e in AllExports(objs)
      ensures e.addr != 0 && SomePublishes(files, e.name)
    {
      NoNullExport(r, files, objs, e);
    }
    LookupFinds(AllExports(objs), name);
    if SomePublishes(files, name) {
      var k :| 0 <= k < |files| && Publishes(files[k], name);
      PublishedIsExported(objs, k, name);
    }
  }

  lemma {:induction false} JobAnswered(r: Memory, files: seq<ObjectFile>, objs: seq<Loaded>, k: nat, i: nat)
    requires Addressed(r, files, objs) && k < |objs| && i < |files[k].relocs|
    ensures i < |JobsOf(objs[k])|
    ensures JobValue(JobsOf(objs[k])[i], AllExports(objs)).Some? <==> Answered(files, files[k], files[k].relocs[i])
  {
    hide AllExports, Lookup, TrustedLoads, Resident, PublishesInside, SomePublishes, JoinedName, Wrap;
    var name := JoinedName(files[k].symbols, files[k].relocs[i].symbol);
    if name.Some? {
      TableKnows(r, files, objs, name.value);
    }
  }

  lemma {:induction false} JobIsListed(objs: seq<Loaded>, k: nat, i: nat)
    requires k < |objs| && i < |JobsOf(objs[k])|
    ensures JobsOf(objs[k])[i] in AllJobs(objs)
  {
    hide JobsOf;
    if k < |objs| - 1 {
      JobIsListed(objs[..|objs| - 1], k, i);
    }
  }

  /** Whether a closure resolves can be read off its files. */
  lemma {:induction false} ResolvesExactly(r: Memory, files: seq<ObjectFile>, objs: seq<Loaded>)
    requires Addressed(r, files, objs)
    ensures Resolves(AllJobs(objs), AllExports(objs)) <==> AllAnswered(files)
  {
    hide AllExports, AllJobs, JobsOf, JobValue, Answered, TrustedLoads, Resident, PublishesInside;
    var jobs, exports := AllJobs(objs), AllExports(objs);
    if Resolves(jobs, exports) {
      forall k, i | 0 <= k < |files| && 0 <= i < |files[k].relocs|
        ensures Answered(files, files[k], files[k].relocs[i])
      {
        JobAnswered(r, files, objs, k, i);
        JobIsListed(objs, k, i);
        var j :| 0 <= j < |jobs| && jobs[j] == JobsOf(objs[k])[i];
      }
    }
    if AllAnswered(files) {
      forall j | 0 <= j < |jobs|
        ensures JobValue(jobs[j], exports).Some?
      {
        var k, i := JobOwner(objs, jobs[j]);
        JobCount(objs[k]);
        JobAnswered(r, files, objs, k, i);
      }
    }
  }

  lemma {:induction false} ObjectBases(m: Memory, files: seq<ObjectFile>, bases: seq<nat>)
    requires |files| == |bases| && forall i :: 0 <= i < |files| ==> TrustedLoads(files[i])
    requires AfterObjects(m, files, bases).Some?
    ensures var objs := AfterObjects(m, files, bases).value.1;
      |objs| == |files| && forall i :: 0 <= i < |files| ==> objs[i].base == bases[i]
  {
    hide TrustedLoads, AfterSpan, AfterLoads, Wrap;
    if files != [] {
      ObjectBases(m, files[..|files| - 1], bases[..|files| - 1]);
    }
  }

  lemma {:induction false} MappedIsAddressed(m: Memory, files: seq<ObjectFile>, bases: seq<nat>, mapped: Memory,
                                             objs: seq<Loaded>)
    requires |files| == |bases| && forall i :: 0 <= i < |files| ==> TrustedLoads(files[i])
    requires forall i :: 0 <= i < |files| ==> SoundFile(files[i]) && PublishesInside(files[i]) && bases[i] > 0
    requires AfterObjects(m, files, bases) == Some((mapped, objs))
    ensures Addressed(mapped, files, objs)
  {
    hide TrustedLoads, SoundFile, Resident, PublishesInside, AfterObjects;
    ObjectsMapped(m, files, bases);
    ObjectBases(m, files, bases);
  }

  /** End to end, from files to bound memory. When the files publish only addresses of their own spans and the kernel
      never maps at address 0, the run of a mapped closure survives if and only if every relocation is of a known type
      and every name it asks for is published by some file; and then the memory is bound. */
  lemma {:induction false} EndToEnd(m: Memory, files: seq<ObjectFile>, bases: seq<nat>, mapped: Memory,
                                    objs: seq<Loaded>)
    requires files != [] && |files| == |bases|
    requires forall i :: 0 <= i < |files| ==> TrustedLoads(files[i]) && BindableFile(files[i])
    requires forall i :: 0 <= i < |files| ==> PublishesInside(files[i]) && bases[i] > 0
    requires AfterObjects(m, files, bases) == Some((mapped, objs))
    ensures AllMapped(m, mapped, files, objs)
    ensures AfterRun(m, files, bases).Some? <==> AllAnswered(files)
    ensures AfterRun(m, files, bases).Some? ==>
      Bound(mapped, AfterRun(m, files, bases).value, AllJobs(objs), AllExports(objs))
  {
    hide BindableFile, TrustedLoads, AllMapped, AfterObjects, AfterRun, Bound, Addressed, PublishesInside, AllAnswered;
    hide AllJobs, AllExports, Resolves, SoundFile;
    BindableIsSound(files);
    MappedIsAddressed(m, files, bases, mapped, objs);
    ResolvesExactly(mapped, files, objs);
    RunBinds(m, files, bases, mapped, objs);
  }

  /** The pages of a row are writable, and their protection is the row's own exactly when the row asks for write. */
  ghost predicate LeftWritable(r: Memory, row: Segment, delta: int) {
    forall a: nat :: InPages(row, delta, a) ==>
      a in r && r[a].prot.w && (r[a].prot == Prot(row.r, row.w, row.x) <==> row.w)
  }

  lemma {:induction false} PagesHeld(r: Memory, obj: Loaded, i: nat)
    requires TrustedLoads(obj.file) && Resident(r, obj) && i < |obj.file.Loads()|
    ensures LeftWritable(r, obj.file.Loads()[i], obj.Delta())
  {
    hide Placeable, InPages, SegmentByte, SpanLo, SpanLength, Wrap;
    assert HoldsRow(r, obj.file.Loads()[i], obj.Delta(), true);
  }

  /** "hardened later" never happens: when the run ends, every page of every object is still writable. */
  lemma {:induction false} NeverHardened(m: Memory, files: seq<ObjectFile>, bases: seq<nat>, mapped: Memory,
                                         objs: seq<Loaded>)
    requires files != [] && |files| == |bases|
    requires forall i :: 0 <= i < |files| ==> TrustedLoads(files[i]) && SoundFile(files[i])
    requires AfterObjects(m, files, bases) == Some((mapped, objs)) && AfterRun(m, files, bases).Some?
    ensures forall k, i :: 0 <= k < |objs| && 0 <= i < |objs[k].file.Loads()| ==>
      LeftWritable(AfterRun(m, files, bases).value, objs[k].file.Loads()[i], objs[k].Delta())
  {
    hide SoundFile, TrustedLoads, AfterObjects, AllJobs, AllExports, AfterJobs, LastByte, Resolves, SegmentByte;
    hide WellFormed, Placeable, InPages, SpanLo, SpanLength;
    ObjectsMapped(m, files, bases);
    AfterObjectsCount(m, files, bases);
    BindingSucceeds(mapped, AllJobs(BindOrder(objs)), AllExports(objs));
    var r := AfterRun(m, files, bases).value;
    forall k, i | 0 <= k < |objs| && 0 <= i < |objs[k].file.Loads()|
      ensures LeftWritable(r, objs[k].file.Loads()[i], objs[k].Delta())
    {
      assert Resident(mapped, objs[k]);
      PagesHeld(mapped, objs[k], i);
    }
  }

  lemma {:induction false} BindableIsSound(files: seq<ObjectFile>)
    requires forall i :: 0 <= i < |files| ==> BindableFile(files[i])
    ensures forall i :: 0 <= i < |files| ==> SoundFile(files[i])
  {
    hide SoundFile;
  }

  // ---- consequences ----

  /** After mapping, the objects may be bound in any order. */
  lemma {:induction false} AnyBindingOrder(m: Memory, files: seq<ObjectFile>, bases: seq<nat>, mapped: Memory,
                                           objs: seq<Loaded>, order: seq<Loaded>)
    requires files != [] && |files| == |bases|
    requires forall i :: 0 <= i < |files| ==> TrustedLoads(files[i]) && BindableFile(files[i])
    requires AfterObjects(m, files, bases) == Some((mapped, objs)) && multiset(order) == multiset(objs)
    ensures AfterRun(m, files, bases) == AfterJobs(mapped, AllJobs(order), AllExports(objs))
  {
    hide BindableFile, TrustedLoads, AllMapped, AfterObjects, AllJobs, AllExports, AllResident, AfterJobs, HolesApart;
    BindableIsSound(files);
    ObjectsMapped(m, files, bases);
    AfterObjectsCount(m, files, bases);
    MappedIsResident(m, mapped, files, objs);
    AllSlotsApart(mapped, objs);
    BindOrderJobs(objs);
    ObjectOrder(objs, order);
    OrderFree(mapped, AllJobs(objs), AllJobs(BindOrder(objs)), AllExports(objs));
    OrderFree(mapped, AllJobs(objs), AllJobs(order), AllExports(objs));
  }

  /** `id` is a primary key. */
  ghost predicate IdsUnique(symbols: seq<Symbol>) {
    forall s, t :: s in symbols && t in symbols && s.id == t.id ==> s == t
  }

  /** The file publishes no name with two values. */
  ghost predicate OneValueEach(symbols: seq<Symbol>) {
    forall s, t :: s in symbols && t in symbols && Published(s) && Defines(t, s.name) ==> s.value == t.value
  }

  /** The same file with its relocation rows delivered in another order; its symbol rows too, if the file publishes no
      name twice with different values. */
  ghost predicate Shuffled(file: ObjectFile, other: ObjectFile) {
    && other == file.(relocs := other.relocs, symbols := other.symbols)
    && multiset(other.relocs) == multiset(file.relocs)
    && (other.symbols == file.symbols
        || (SameSymbols(file.symbols, other.symbols) && IdsUnique(file.symbols) && OneValueEach(file.symbols)))
  }

  ghost predicate ShuffledObjects(objs: seq<Loaded>, others: seq<Loaded>) {
    && |objs| == |others|
    && forall i :: 0 <= i < |objs| ==>
         others[i] == objs[i].(file := others[i].file) && Shuffled(objs[i].file, others[i].file)
  }

  lemma {:induction false} ShuffledMapping(m: Memory, files: seq<ObjectFile>, others: seq<ObjectFile>, bases: seq<nat>)
    requires |files| == |others| && |files| == |bases|
    requires forall i :: 0 <= i < |files| ==>
      TrustedLoads(files[i]) && TrustedLoads(others[i]) && Shuffled(files[i], others[i])
    ensures AfterObjects(m, files, bases).Some? <==> AfterObjects(m, others, bases).Some?
    ensures AfterObjects(m, files, bases).Some? ==>
      && AfterObjects(m, others, bases).value.0 == AfterObjects(m, files, bases).value.0
      && ShuffledObjects(AfterObjects(m, files, bases).value.1, AfterObjects(m, others, bases).value.1)
  {
    hide TrustedLoads, AfterSpan, AfterLoads;
    if files != [] {
      var n := |files| - 1;
      ShuffledMapping(m, files[..n], others[..n], bases[..n]);
    }
  }

  ghost predicate SameLookups(xs: seq<Export>, ys: seq<Export>) {
    forall name :: Lookup(xs, name) == Lookup(ys, name)
  }

  lemma {:induction false} LookupsConcat(newer: seq<Export>, xs: seq<Export>, ys: seq<Export>)
    requires SameLookups(xs, ys)
    ensures SameLookups(newer + xs, newer + ys)
  {
    hide Lookup, HasName;
    forall name
      ensures Lookup(newer + xs, name) == Lookup(newer + ys, name)
    {
      LookupConcat(newer, xs, name);
      LookupConcat(newer, ys, name);
      assert Lookup(xs, name) == Lookup(ys, name);
    }
  }

  lemma {:induction false} ShuffledObjectLookups(obj: Loaded, other: Loaded, older: seq<Export>)
    requires other == obj.(file := other.file) && Shuffled(obj.file, other.file)
    ensures SameLookups(ExportsOf(obj.file.symbols, obj.loadBias) + older,
                        ExportsOf(other.file.symbols, obj.loadBias) + older)
  {
    hide Lookup, ExportsOf, Wrap;
    var symbols := obj.file.symbols;
    if other.file.symbols != symbols {
      forall name
        ensures Lookup(ExportsOf(symbols, obj.loadBias) + older, name) ==
                Lookup(ExportsOf(other.file.symbols, obj.loadBias) + older, name)
      {
        OrderIrrelevant(symbols, other.file.symbols, obj.loadBias, older, name);
      }
    }
  }

  lemma {:induction false} ShuffledExports(objs: seq<Loaded>, others: seq<Loaded>)
    requires ShuffledObjects(objs, others)
    ensures SameLookups(AllExports(objs), AllExports(others))
  {
    hide ExportsOf, Lookup, Shuffled;
    if objs != [] {
      var n := |objs| - 1;
      ShuffledExports(objs[..n], others[..n]);
      ShuffledObjectLookups(objs[n], others[n], AllExports(objs[..n]));
      var newer := ExportsOf(others[n].file.symbols, others[n].loadBias);
      LookupsConcat(newer, AllExports(objs[..n]), AllExports(others[..n]));
      SameLookupsChain(AllExports(objs), newer + AllExports(objs[..n]), AllExports(others));
    }
  }

  lemma {:induction false} SameLookupsChain(xs: seq<Export>, ys: seq<Export>, zs: seq<Export>)
    requires SameLookups(xs, ys) && SameLookups(ys, zs)
    ensures SameLookups(xs, zs)
  {
    hide Lookup;
    assert forall name :: Lookup(xs, name) == Lookup(ys, name);
  }

  /** Binding consults the table through lookups only. */
  lemma {:induction false} LookupsDecide(m: Memory, jobs: seq<Job>, xs: seq<Export>, ys: seq<Export>)
    requires SameLookups(xs, ys)
    ensures AfterJobs(m, jobs, xs) == AfterJobs(m, jobs, ys)
  {
    hide Lookup, StoredWord, AfterStore, Encode;
    if jobs != [] {
      var n := |jobs| - 1;
      LookupsDecide(m, jobs[..n], xs, ys);
      assert JobValue(jobs[n], xs) == JobValue(jobs[n], ys);
    }
  }

  lemma {:induction false} JoinByMember(symbols: seq<Symbol>, id: nat)
    requires IdsUnique(symbols)
    ensures forall s :: s in symbols && s.id == id ==> JoinedName(symbols, Some(id)) == Some(s.name)
    ensures (forall s :: s in symbols ==> s.id != id) ==> JoinedName(symbols, Some(id)) == None
  {
    if symbols != [] {
      JoinByMember(symbols[1..], id);
      assert symbols == [symbols[0]] + symbols[1..];
    }
  }

  lemma {:induction false} JoinIgnoresOrder(symbols: seq<Symbol>, others: seq<Symbol>, id: Option<nat>)
    requires SameSymbols(symbols, others) && IdsUnique(symbols)
    ensures JoinedName(symbols, id) == JoinedName(others, id)
  {
    ExportOrder.SameMembers(symbols, others);
    if id.Some? {
      JoinByMember(symbols, id.value);
      JoinByMember(others, id.value);
    }
  }

  lemma {:induction false} ShuffledJobs(objs: seq<Loaded>, others: seq<Loaded>)
    requires ShuffledObjects(objs, others)
    ensures multiset(AllJobs(objs)) == multiset(AllJobs(others))
  {
    hide JobsOf;
    if objs != [] {
      var n := |objs| - 1;
      ShuffledJobs(objs[..n], others[..n]);
      ObjectRowOrder(objs[n], others[n]);
    }
  }

  lemma {:induction false} ObjectRowOrder(obj: Loaded, other: Loaded)
    requires other == obj.(file := other.file) && Shuffled(obj.file, other.file)
    ensures multiset(JobsOf(obj)) == multiset(JobsOf(other))
  {
    hide JoinedName, OneValueEach;
    var symbols, shuffled, bias := obj.file.symbols, other.file.symbols, obj.loadBias;
    RowOrder(obj.file.relocs, other.file.relocs, symbols, bias);
    var x, y := Jobs(other.file.relocs, symbols, bias), Jobs(other.file.relocs, shuffled, bias);
    forall i | 0 <= i < |x|
      ensures x[i] == y[i]
    {
      if shuffled != symbols {
        JoinIgnoresOrder(symbols, shuffled, other.file.relocs[i].symbol);
      }
    }
    assert x == y;
  }

  /** The whole run does not depend on the order in which SQLite delivers relocation rows, nor on the order of the
      symbol rows of a file that publishes no name with two values. */
  lemma {:induction false} AnyRowOrder(m: Memory, files: seq<ObjectFile>, others: seq<ObjectFile>, bases: seq<nat>)
    requires files != [] && |files| == |others| && |files| == |bases|
    requires forall i :: 0 <= i < |files| ==>
      TrustedLoads(files[i]) && BindableFile(files[i]) && TrustedLoads(others[i]) && Shuffled(files[i], others[i])
    ensures AfterRun(m, files, bases) == AfterRun(m, others, bases)
  {
    hide BindableFile, TrustedLoads, Shuffled, AfterObjects, AllJobs, AllExports, AfterJobs, ShuffledObjects, BindOrder;
    hide SameLookups;
    hide AllMapped, AllResident, HolesApart;
    ShuffledMapping(m, files, others, bases);
    if AfterObjects(m, files, bases).Some? {
      var (mapped, objs) := AfterObjects(m, files, bases).value;
      var shuffled := AfterObjects(m, others, bases).value.1;
      AfterObjectsCount(m, files, bases);
      AfterObjectsCount(m, others, bases);
      ShuffledExports(objs, shuffled);
      ShuffledJobs(objs, shuffled);
      BindOrderJobs(objs);
      BindOrderJobs(shuffled);
      BindableIsSound(files);
      ObjectsMapped(m, files, bases);
      MappedIsResident(m, mapped, files, objs);
      AllSlotsApart(mapped, objs);
      var jobs, exports := AllJobs(objs), AllExports(objs);
      OrderFree(mapped, jobs, AllJobs(BindOrder(objs)), exports);
      OrderFree(mapped, jobs, AllJobs(BindOrder(shuffled)), exports);
      LookupsDecide(mapped, AllJobs(BindOrder(shuffled)), exports, AllExports(shuffled));
    }
  }

  lemma {:induction false} NoExports()
    ensures AllExports([]) == []
  {
  }

  lemma {:induction false} LastExports(objs: seq<Loaded>)
    requires objs != []
    ensures var last := objs[|objs| - 1];
      AllExports(objs) == ExportsOf(last.file.symbols, last.loadBias) + AllExports(objs[..|objs| - 1])
  {
  }

  lemma {:induction false} ExportsConcat(older: seq<Loaded>, newer: seq<Loaded>)
    ensures AllExports(older + newer) == AllExports(newer) + AllExports(older)
  {
    hide ExportsOf, AllExports;
    if newer == [] {
      assert older + newer == older;
      NoExports();
    } else {
      var n, both := |newer| - 1, older + newer;
      ExportsConcat(older, newer[..n]);
      assert both[..|both| - 1] == older + newer[..n] && both[|both| - 1] == newer[n];
      LastExports(both);
      LastExports(newer);
    }
  }

  /** A preload is an exact override: a relocation whose name some preload exports binds as if the preloads were alone,
      every other relocation as if they were absent. */
  lemma {:induction false} PreloadBinding(closure: seq<Loaded>, preloads: seq<Loaded>, job: Job)
    ensures PreloadOverridesJob(closure, preloads, job)
  {
    hide AllExports, JobValue, ExportMap;
    ExportsConcat(closure, preloads);
    var news, olds := AllExports(preloads), AllExports(closure);
    if job.name.Some? {
      PreloadOverrides(news, olds, job.name.value);
    }
    ValueByName(job, news + olds, if job.name.Some? && job.name.value in ExportMap(news) then news else olds);
  }

  lemma {:induction false} ValueByName(job: Job, xs: seq<Export>, ys: seq<Export>)
    requires job.name.Some? ==> Lookup(xs, job.name.value) == Lookup(ys, job.name.value)
    ensures JobValue(job, xs) == JobValue(job, ys)
  {
    hide Lookup, Wrap;
  }

  lemma {:induction false} OpenConcat(disk: map<string, ObjectFile>, a: seq<string>, b: seq<string>)
    ensures OpenAll(disk, a + b) ==
            if OpenAll(disk, a).Some? && OpenAll(disk, b).Some?
            then Some(OpenAll(disk, a).value + OpenAll(disk, b).value) else None
  {
    if b == [] {
      assert a + b == a;
      assert OpenAll(disk, a).Some? ==> OpenAll(disk, a).value + [] == OpenAll(disk, a).value;
    } else {
      var n := |b| - 1;
      OpenConcat(disk, a, b[..n]);
      assert (a + b)[..|a + b| - 1] == a + b[..n] && (a + b)[|a + b| - 1] == b[n];
      if OpenAll(disk, a).Some? && OpenAll(disk, b).Some? {
        var x, y := OpenAll(disk, a).value, OpenAll(disk, b[..n]).value;
        assert x + (y + [disk[b[n]]]) == x + y + [disk[b[n]]];
      }
    }
  }

  lemma {:induction false} MappingPrefix(m: Memory, files: seq<ObjectFile>, bases: seq<nat>, n: nat)
    requires |files| == |bases| && forall i :: 0 <= i < |files| ==> TrustedLoads(files[i])
    requires n <= |files| && AfterObjects(m, files, bases).Some?
    ensures AfterObjects(m, files[..n], bases[..n]).Some? && |AfterObjects(m, files, bases).value.1| == |files|
    ensures AfterObjects(m, files[..n], bases[..n]).value.1 == AfterObjects(m, files, bases).value.1[..n]
    decreases |files|
  {
    hide AfterObject, TrustedLoads;
    var k := |files| - 1;
    AfterObjectsCount(m, files, bases);
    if n < |files| {
      assert files[..k][..n] == files[..n] && bases[..k][..n] == bases[..n];
      MappingPrefix(m, files[..k], bases[..k], n);
    } else {
      assert files[..n] == files && bases[..n] == bases;
    }
  }

  // ---- the load list, by position ----

  predicate Resolved(resolver: Option<Resolver>, soname: string) {
    resolver.Some? && soname in resolver.value.objects
  }

  /** A program of machine 62 is on disk, with every library it needs and every preload. */
  predicate Loadable(disk: map<string, ObjectFile>, resolver: Option<Resolver>, path: string) {
    && path in disk && Em in disk[path].db.meta && disk[path].db.meta[Em] == 62
    && (forall soname :: soname in disk[path].needed ==>
          Resolved(resolver, soname) && resolver.value.objects[soname] in disk)
    && (resolver.Some? ==> forall preload :: preload in resolver.value.preload ==> preload in disk)
  }

  lemma {:induction false} ResolvedAre(resolver: Option<Resolver>, sonames: seq<string>)
    ensures ResolveAll(resolver, sonames).Some? <==> forall soname :: soname in sonames ==> Resolved(resolver, soname)
    ensures ResolveAll(resolver, sonames).Some? ==>
      && |ResolveAll(resolver, sonames).value| == |sonames|
      && forall i :: 0 <= i < |sonames| ==>
           Resolved(resolver, sonames[i])
           && ResolveAll(resolver, sonames).value[i] == resolver.value.objects[sonames[i]]
  {
    if sonames != [] {
      var n := |sonames| - 1;
      ResolvedAre(resolver, sonames[..n]);
      assert sonames == sonames[..n] + [sonames[n]];
      assert forall soname :: soname in sonames <==> soname in sonames[..n] || soname == sonames[n];
      assert ResolveAll(resolver, sonames).Some? <==>
             ResolveAll(resolver, sonames[..n]).Some? && Resolved(resolver, sonames[n]);
      if !Resolved(resolver, sonames[n]) {
        assert sonames[n] in sonames;
      }
    }
  }

  lemma {:induction false} OpensExactly(disk: map<string, ObjectFile>, paths: seq<string>)
    ensures OpenAll(disk, paths).Some? <==> forall path :: path in paths ==> path in disk
  {
    if paths != [] {
      var n := |paths| - 1;
      OpensExactly(disk, paths[..n]);
      assert paths == paths[..n] + [paths[n]];
      assert forall path :: path in paths <==> path in paths[..n] || path == paths[n];
    }
  }

  /** run_selfld loads the program, then its NEEDED libraries in their order, then the preloads in theirs; it dies
      exactly when one of them is missing or the machine is not 62. */
  lemma {:induction false} LoadListIs(disk: map<string, ObjectFile>, resolver: Option<Resolver>, path: string)
    ensures LoadList(disk, resolver, path).Some? <==> Loadable(disk, resolver, path)
    ensures Loadable(disk, resolver, path) ==>
      var files, needed := LoadList(disk, resolver, path).value, disk[path].needed;
      var preload := if resolver.Some? then resolver.value.preload else [];
      && |files| == 1 + |needed| + |preload|
      && files[0] == disk[path]
      && (forall i :: 0 <= i < |needed| ==>
            needed[i] in needed && files[1 + i] == disk[resolver.value.objects[needed[i]]])
      && (forall j :: 0 <= j < |preload| ==> files[1 + |needed| + j] == disk[preload[j]])
  {
    hide ResolveAll, OpenAll;
    if path in disk {
      var needed := disk[path].needed;
      var preload := if resolver.Some? then resolver.value.preload else [];
      ResolvedAre(resolver, needed);
      var libs := ResolveAll(resolver, needed);
      if libs.Some? {
        var paths := [path] + libs.value + preload;
        OpensExactly(disk, paths);
        ResolvedMembers(resolver, needed);
        assert forall p :: p in paths <==> p == path || p in libs.value || p in preload;
        if OpenAll(disk, paths).Some? {
          OpenedFiles(disk, paths);
          LoadedByPosition(disk, path, libs.value, preload);
        }
      }
    }
  }

  /** The resolved paths are the images of the sonames. */
  lemma {:induction false} ResolvedMembers(resolver: Option<Resolver>, sonames: seq<string>)
    requires ResolveAll(resolver, sonames).Some?
    ensures forall soname :: soname in sonames ==>
      Resolved(resolver, soname) && resolver.value.objects[soname] in ResolveAll(resolver, sonames).value
    ensures forall p :: p in ResolveAll(resolver, sonames).value ==>
      exists soname :: soname in sonames && Resolved(resolver, soname) && resolver.value.objects[soname] == p
  {
    hide ResolveAll;
    ResolvedAre(resolver, sonames);
    var paths := ResolveAll(resolver, sonames).value;
    forall soname | soname in sonames
      ensures Resolved(resolver, soname) && resolver.value.objects[soname] in paths
    {
      var i :| 0 <= i < |sonames| && sonames[i] == soname;
      assert paths[i] in paths;
    }
    forall p | p in paths
      ensures exists soname :: soname in sonames && Resolved(resolver, soname) && resolver.value.objects[soname] == p
    {
      var i :| 0 <= i < |paths| && paths[i] == p;
      assert sonames[i] in sonames;
    }
  }

  lemma {:induction false} LoadedByPosition(disk: map<string, ObjectFile>, path: string, libs: seq<string>,
                                            preload: seq<string>)
    requires OpenAll(disk, [path] + libs + preload).Some?
    ensures var files := OpenAll(disk, [path] + libs + preload).value;
      && |files| == 1 + |libs| + |preload| && path in disk && files[0] == disk[path]
      && (forall i :: 0 <= i < |libs| ==> libs[i] in disk && files[1 + i] == disk[libs[i]])
      && (forall j :: 0 <= j < |preload| ==> preload[j] in disk && files[1 + |libs| + j] == disk[preload[j]])
  {
    hide OpenAll;
    var paths := [path] + libs + preload;
    OpenedFiles(disk, paths);
    assert paths[0] == path;
    assert forall i :: 0 <= i < |libs| ==> paths[1 + i] == libs[i];
    assert forall j :: 0 <= j < |preload| ==> paths[1 + |libs| + j] == preload[j];
  }

  /** The preloads come last: the load list is the list without the `preload` table, then the preloaded files. */
  lemma {:induction false} PreloadsComeLast(disk: map<string, ObjectFile>, resolver: Resolver, path: string)
    ensures var plain := LoadList(disk, Some(resolver.(preload := [])), path);
      LoadList(disk, Some(resolver), path) ==
      if plain.Some? && OpenAll(disk, resolver.preload).Some?
      then Some(plain.value + OpenAll(disk, resolver.preload).value) else None
  {
    hide OpenAll, ResolveAll;
    if path in disk {
      ResolveIgnoresPreload(resolver, disk[path].needed);
      var libs := ResolveAll(Some(resolver), disk[path].needed);
      if libs.Some? {
        OpenConcat(disk, [path] + libs.value, resolver.preload);
        assert [path] + libs.value + [] == [path] + libs.value;
      }
    }
  }

  /** Mapping with preloads against mapping without: the closure's objects land in the same places, and for every
      relocation the preloads' exports override, and nothing else changes. */
  lemma {:induction false} PreloadRun(m: Memory, closure: seq<ObjectFile>, preloads: seq<ObjectFile>, bases: seq<nat>)
    requires |closure| + |preloads| == |bases|
    requires forall i :: 0 <= i < |closure + preloads| ==> TrustedLoads((closure + preloads)[i])
    requires forall i :: 0 <= i < |closure| ==> TrustedLoads(closure[i])
    requires AfterObjects(m, closure + preloads, bases).Some?
    ensures AfterObjects(m, closure, bases[..|closure|]).Some?
    ensures var objs := AfterObjects(m, closure + preloads, bases).value.1;
      && |objs| == |bases|
      && AfterObjects(m, closure, bases[..|closure|]).value.1 == objs[..|closure|]
      && forall job :: PreloadOverridesJob(objs[..|closure|], objs[|closure|..], job)
  {
    hide TrustedLoads, AfterObjects, PreloadOverridesJob;
    var n := |closure|;
    assert (closure + preloads)[..n] == closure;
    MappingPrefix(m, closure + preloads, bases, n);
    var objs := AfterObjects(m, closure + preloads, bases).value.1;
    forall job
      ensures PreloadOverridesJob(objs[..n], objs[n..], job)
    {
      PreloadBinding(objs[..n], objs[n..], job);
    }
  }

  predicate PreloadOverridesJob(closure: seq<Loaded>, preloads: seq<Loaded>, job: Job) {
    JobValue(job, AllExports(closure + preloads)) ==
    if job.name.Some? && job.name.value in ExportMap(AllExports(preloads))
    then JobValue(job, AllExports(preloads)) else JobValue(job, AllExports(closure))
  }

  lemma {:induction false} ResolveIgnoresPreload(resolver: Resolver, sonames: seq<string>)
    ensures ResolveAll(Some(resolver.(preload := [])), sonames) == ResolveAll(Some(resolver), sonames)
  {
    if sonames != [] {
      ResolveIgnoresPreload(resolver, sonames[..|sonames| - 1]);
    }
  }

  /** The word by the relocation's number, in 64-bit arithmetic: 8 is base plus addend, 7 the symbol, 1 and 6 the
      symbol plus addend; anything else is fatal, and so is a symbol at 0. */
  lemma {:induction false} WordByNumber(job: Job, exports: seq<Export>)
    ensures var s := if job.name.Some? then Lookup(exports, job.name.value) else 0;
      var mod := 0x1_0000_0000_0000_0000;
      JobValue(job, exports) ==
      match job.reloc.rtype
      case 8 => Some((job.bias + job.reloc.addend) % mod)
      case 7 => if s == 0 then None else Some(s % mod)
      case 1 => if s == 0 then None else Some((s + job.reloc.addend) % mod)
      case 6 => if s == 0 then None else Some((s + job.reloc.addend) % mod)
      case _ => None
  {
    hide Lookup;
  }

  /** AMD64 psABI, section 4.4.1: B + A, S, S and S + A. */
  function PsAbiValue(rtype: int, b: nat, s: nat, a: int): int {
    if rtype == R_RELATIVE then b + a else if rtype == R_64 then s + a else s
  }

  /** The binder stores the psABI value, except that it adds a non-zero addend to GLOB_DAT. */
  lemma {:induction false} PsAbiAgreement(job: Job, exports: seq<Export>)
    requires JobValue(job, exports).Some? && job.reloc.addend < WORD && job.reloc.addend + WORD > 0
    ensures var s := if job.name.Some? then Lookup(exports, job.name.value) else 0;
      JobValue(job, exports).value == Wrap(PsAbiValue(job.reloc.rtype, job.bias, s, job.reloc.addend)) <==>
      (job.reloc.rtype == R_GLOB_DAT ==> job.reloc.addend == 0)
  {
    var s := if job.name.Some? then Lookup(exports, job.name.value) else 0;
    WrapDiffers(s, job.reloc.addend);
  }

  /** A GLOB_DAT row with an addend of 8 for a symbol at 4096 stores 4104, where the psABI says 4096. */
  lemma {:induction false} GlobDatAddsAddend()
    ensures var job, exports := Job(0, Reloc(0, R_GLOB_DAT, Some(1), 8), Some("f")), [Export("f", 4096)];
      JobValue(job, exports) == Some(4104) && Wrap(PsAbiValue(R_GLOB_DAT, 0, Lookup(exports, "f"), 8)) == 4096
  {
  }

  lemma {:induction false} WrapDiffers(s: int, a: int)
    requires a < WORD && a + WORD > 0
    ensures Wrap(s + a) == Wrap(s) <==> a == 0
  {
    var q, p := (s + a) / WORD, s / WORD;
    assert s + a == q * WORD + Wrap(s + a) && s == p * WORD + Wrap(s);
  }
}
