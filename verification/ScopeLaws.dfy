/** The binder's newest-first rule against DESIGN.md's breadth-first scope, relocation by relocation. */
module ScopeLaws {
  import opened Wrappers
  import opened SelfRows
  import opened AddressSpace
  import opened NativeLoader
  import NativeLaws
  import opened Exports
  import opened Binder
  import opened ExportOrder
  import opened BinderLaws

  /** The word a relocation would store if its name were looked up in breadth-first order, first definer first. */
  function ScopeValue(job: Job, exports: seq<Export>): Option<nat> {
    StoredWord(job, if job.name.Some? then ScopeLookup(exports, job.name.value) else 0)
  }

  ghost predicate BindsByScope(exports: seq<Export>) {
    forall job :: JobValue(job, exports) == ScopeValue(job, exports)
  }

  lemma {:induction false} ExportsAreWords(objs: seq<Loaded>, e: Export)
    requires e in AllExports(objs)
    ensures e.addr < WORD
  {
    hide AllExports, Published, Wrap;
    var k, i := ExportOwner(objs, e);
  }

  /** A jump slot tells two addresses of a name apart. */
  function NameJob(name: string): Job {
    Job(0, Reloc(0, R_JUMP_SLOT, None, 0), Some(name))
  }

  lemma {:induction false} JumpSlotWord(name: string, s: nat, t: nat)
    requires s < WORD && t < WORD && StoredWord(NameJob(name), s) == StoredWord(NameJob(name), t)
    ensures s == t
  {
  }

  /** For any table: every relocation one could write binds as breadth-first scope would bind it exactly when, for
      every name, the newest and the oldest definition have one address; in particular when no name is exported
      twice. */
  lemma {:induction false} TableBinding(objs: seq<Loaded>)
    ensures BindsByScope(AllExports(objs)) <==> EndsAgree(AllExports(objs))
    ensures NamesUnique(AllExports(objs)) ==> BindsByScope(AllExports(objs))
  {
    hide AllExports, StoredWord, EndsAgree, NamesUnique, Lookup, ScopeLookup;
    var exports := AllExports(objs);
    ScopeOrderAgrees(exports);
    if EndsAgree(exports) {
      forall job
        ensures JobValue(job, exports) == ScopeValue(job, exports)
      {
        if job.name.Some? {
          ScopeOrderOfName(exports, job.name.value);
        }
      }
    }
    if BindsByScope(exports) {
      forall name
        ensures Lookup(exports, name) == ScopeLookup(exports, name)
      {
        assert JobValue(NameJob(name), exports) == ScopeValue(NameJob(name), exports);
        forall e | e in exports
          ensures e.addr < WORD
        {
          ExportsAreWords(objs, e);
        }
        LookupBelow(exports, name, WORD);
        JumpSlotWord(name, Lookup(exports, name), ScopeLookup(exports, name));
      }
    }
  }

  // ---- read off the files ----

  /** Every one of these relocations binds as breadth-first scope would bind it. */
  ghost predicate BoundByScope(jobs: seq<Job>, exports: seq<Export>) {
    forall job :: job in jobs ==> JobValue(job, exports) == ScopeValue(job, exports)
  }

  /** The name is safe to ask for: at most one file publishes it, and that file's first and last value for it agree. */
  ghost predicate ScopeSafe(files: seq<ObjectFile>, name: string) {
    && (forall k, l :: 0 <= k < l < |files| ==> !(Publishes(files[k], name) && Publishes(files[l], name)))
    && (forall k :: 0 <= k < |files| ==> FirstValue(files[k].symbols, name) == LastValue(files[k].symbols, name))
  }

  /** Every name a relocation asks for is safe. */
  ghost predicate AsksSafely(files: seq<ObjectFile>) {
    forall k, i :: 0 <= k < |files| && 0 <= i < |files[k].relocs| ==> AsksSafelyAt(files, files[k], files[k].relocs[i])
  }

  ghost predicate AsksSafelyAt(files: seq<ObjectFile>, file: ObjectFile, reloc: Reloc) {
    var name := JoinedName(file.symbols, reloc.symbol);
    Symbolic(reloc) && name.Some? ==> ScopeSafe(files, name.value)
  }

  lemma {:induction false} PublishesHasLast(file: ObjectFile, name: string)
    ensures Publishes(file, name) <==> LastValue(file.symbols, name).Some?
  {
    hide Published, LastValue;
    if Publishes(file, name) {
      var i :| 0 <= i < |file.symbols| && Published(file.symbols[i]) && file.symbols[i].name == name;
      DefinedHasLast(file.symbols, name, i);
    }
    if LastValue(file.symbols, name).Some? {
      var i := LastSymbol(file.symbols, name);
    }
  }

  predicate Definer(obj: Loaded, name: string) {
    LastValue(obj.file.symbols, name).Some?
  }

  /** The newest definition of a name is the last one of the last object that has any. */
  lemma {:induction false} NewestDefiner(objs: seq<Loaded>, name: string) returns (k: nat)
    ensures k <= |objs| && (forall l :: k < l < |objs| ==> !Definer(objs[l], name))
    ensures k < |objs| ==>
      && Definer(objs[k], name)
      && Lookup(AllExports(objs), name) == Wrap(objs[k].loadBias + LastValue(objs[k].file.symbols, name).value)
    ensures k == |objs| ==>
      (forall l :: 0 <= l < |objs| ==> !Definer(objs[l], name)) && Lookup(AllExports(objs), name) == 0
  {
    hide Wrap, Lookup, ExportsOf, LastValue, HasName, AllExports;
    if objs == [] {
      BinderLaws.NoExports();
      EmptyLookup(name);
      k := 0;
    } else {
      var n := |objs| - 1;
      LastExports(objs);
      ObjectLookups(objs[n].file.symbols, objs[n].loadBias, name);
      LookupConcat(ExportsOf(objs[n].file.symbols, objs[n].loadBias), AllExports(objs[..n]), name);
      if Definer(objs[n], name) {
        k := n;
      } else {
        k := NewestDefiner(objs[..n], name);
        if k == n {
          k := |objs|;
        }
      }
    }
  }

  /** In scope order it is the first one of the first object that has any. */
  lemma {:induction false} OldestDefiner(objs: seq<Loaded>, name: string) returns (k: nat)
    ensures k <= |objs| && (forall l :: 0 <= l < k ==> !Definer(objs[l], name))
    ensures HasName(AllExports(objs), name) <==> k < |objs|
    ensures k < |objs| ==>
      && Definer(objs[k], name) && FirstValue(objs[k].file.symbols, name).Some?
      && ScopeLookup(AllExports(objs), name) == Wrap(objs[k].loadBias + FirstValue(objs[k].file.symbols, name).value)
    ensures k == |objs| ==> ScopeLookup(AllExports(objs), name) == 0
  {
    hide Wrap, ScopeLookup, ExportsOf, LastValue, FirstValue, HasName, AllExports;
    if objs == [] {
      BinderLaws.NoExports();
      EmptyLookup(name);
      k := 0;
    } else {
      var n := |objs| - 1;
      LastExports(objs);
      var newer, older := ExportsOf(objs[n].file.symbols, objs[n].loadBias), AllExports(objs[..n]);
      ObjectLookups(objs[n].file.symbols, objs[n].loadBias, name);
      ScopeConcat(newer, older, name);
      HasNameConcat(newer, older, name);
      k := OldestDefiner(objs[..n], name);
      if k == n {
        NamelessLookup(older, name);
        if !Definer(objs[n], name) {
          NamelessLookup(newer, name);
          k := |objs|;
        }
      }
    }
  }

  lemma {:induction false} EmptyLookup(name: string)
    ensures !HasName([], name) && Lookup([], name) == 0 && ScopeLookup([], name) == 0
  {
  }

  /** A value inside the span is published at an address inside the hole, at its distance from the displacement. */
  lemma {:induction false} PublishedPlace(r: Memory, obj: Loaded, i: nat)
    requires TrustedLoads(obj.file) && Resident(r, obj) && PublishesInside(obj.file)
    requires i < |obj.file.symbols| && Published(obj.file.symbols[i])
    ensures var v := obj.file.symbols[i].value.value;
      Wrap(obj.loadBias + v) == obj.Delta() + v && obj.InHole(Wrap(obj.loadBias + v))
  {
    hide Wrap, SpanLo, SpanLength, Placeable, InSomePages, HoldsRow;
    WrapAdd(obj.Delta(), obj.file.symbols[i].value.value);
  }

  lemma {:induction false} DefinedPlace(r: Memory, obj: Loaded, name: string)
    requires TrustedLoads(obj.file) && Resident(r, obj) && PublishesInside(obj.file) && Definer(obj, name)
    ensures FirstValue(obj.file.symbols, name).Some?
    ensures var first, last := FirstValue(obj.file.symbols, name).value, LastValue(obj.file.symbols, name).value;
      && Wrap(obj.loadBias + first) == obj.Delta() + first && obj.InHole(Wrap(obj.loadBias + first))
      && Wrap(obj.loadBias + last) == obj.Delta() + last && obj.InHole(Wrap(obj.loadBias + last))
  {
    hide TrustedLoads, Resident, PublishesInside, LastValue, FirstValue, Published, Wrap, Loaded.InHole, Loaded.Delta;
    ObjectLookups(obj.file.symbols, obj.loadBias, name);
    var i := LastSymbol(obj.file.symbols, name);
    var j := FirstSymbol(obj.file.symbols, name);
    PublishedPlace(r, obj, i);
    PublishedPlace(r, obj, j);
  }

  /** The two rules find one address for a name exactly when it is safe. */
  lemma {:induction false} NameBinding(r: Memory, files: seq<ObjectFile>, objs: seq<Loaded>, name: string)
    requires Addressed(r, files, objs) && HolesApart(objs)
    ensures Lookup(AllExports(objs), name) == ScopeLookup(AllExports(objs), name) <==> ScopeSafe(files, name)
  {
    hide AllExports, Lookup, ScopeLookup, TrustedLoads, Resident, PublishesInside, Publishes, Wrap, Loaded.InHole;
    hide LastValue, FirstValue, Loaded.Delta;
    var k := NewestDefiner(objs, name);
    var l := OldestDefiner(objs, name);
    forall j | 0 <= j < |objs|
      ensures Publishes(files[j], name) <==> Definer(objs[j], name)
      ensures FirstValue(files[j].symbols, name).Some? <==> Definer(objs[j], name)
    {
      PublishesHasLast(files[j], name);
      ObjectLookups(files[j].symbols, objs[j].loadBias, name);
    }
    if k < |objs| {
      DefinedPlace(r, objs[k], name);
      DefinedPlace(r, objs[l], name);
    }
  }

  lemma {:induction false} WrapInjective(s: nat, t: nat, a: int)
    requires s < WORD && t < WORD && Wrap(s + a) == Wrap(t + a)
    ensures s == t
  {
    var p, q := (s + a) / WORD, (t + a) / WORD;
    assert s + a == p * WORD + Wrap(s + a) && t + a == q * WORD + Wrap(t + a);
  }

  lemma {:induction false} SymbolicWord(job: Job, s: nat, t: nat)
    requires Symbolic(job.reloc) && s < WORD && t < WORD && StoredWord(job, s) == StoredWord(job, t)
    ensures s == t
  {
    hide Wrap;
    if s != 0 && t != 0 {
      WrapInjective(s, t, if job.reloc.rtype == R_JUMP_SLOT then 0 else job.reloc.addend);
    }
  }

  lemma {:induction false} LookupsAreWords(objs: seq<Loaded>, name: string)
    ensures Lookup(AllExports(objs), name) < WORD && ScopeLookup(AllExports(objs), name) < WORD
  {
    hide AllExports, Lookup, ScopeLookup;
    forall e | e in AllExports(objs)
      ensures e.addr < WORD
    {
      ExportsAreWords(objs, e);
    }
    LookupBelow(AllExports(objs), name, WORD);
  }

  /** One relocation: it binds as scope order would bind it exactly when it asks safely. */
  lemma {:induction false} JobBinding(r: Memory, files: seq<ObjectFile>, objs: seq<Loaded>, k: nat, i: nat)
    requires Addressed(r, files, objs) && HolesApart(objs) && k < |objs| && i < |files[k].relocs|
    ensures i < |JobsOf(objs[k])|
    ensures JobValue(JobsOf(objs[k])[i], AllExports(objs)) == ScopeValue(JobsOf(objs[k])[i], AllExports(objs)) <==>
            AsksSafelyAt(files, files[k], files[k].relocs[i])
  {
    hide AllExports, Lookup, ScopeLookup, Addressed, HolesApart, ScopeSafe, JoinedName, StoredWord;
    assert objs[k].file == files[k] by {
      SameFile(r, files, objs, k);
    }
    var job := JobsOf(objs[k])[i];
    if job.name.Some? {
      NameBinding(r, files, objs, job.name.value);
      LookupsAreWords(objs, job.name.value);
    }
    if !Symbolic(job.reloc) {
      OtherWord(job);
    } else if job.name.Some? {
      var s, t := Lookup(AllExports(objs), job.name.value), ScopeLookup(AllExports(objs), job.name.value);
      if StoredWord(job, s) == StoredWord(job, t) {
        SymbolicWord(job, s, t);
      }
    }
  }

  lemma {:induction false} SameFile(r: Memory, files: seq<ObjectFile>, objs: seq<Loaded>, k: nat)
    requires Addressed(r, files, objs) && k < |objs|
    ensures |files| == |objs| && objs[k].file == files[k]
  {
    hide TrustedLoads, Resident, PublishesInside;
  }

  lemma {:induction false} OtherWord(job: Job)
    requires !Symbolic(job.reloc)
    ensures forall s, t :: StoredWord(job, s) == StoredWord(job, t)
  {
  }

  /** DESIGN.md's promise, exactly. When files publish only addresses of their own spans and the kernel never maps at
      address 0, every relocation of a mapped closure binds as breadth-first scope would bind it if and only if every
      name the files ask for is published by at most one of them, there with one value first and last. */
  lemma {:induction false} ScopeBinding(m: Memory, files: seq<ObjectFile>, bases: seq<nat>, mapped: Memory,
                                        objs: seq<Loaded>)
    requires |files| == |bases|
    requires forall i :: 0 <= i < |files| ==> TrustedLoads(files[i])
    requires forall i :: 0 <= i < |files| ==> SoundFile(files[i]) && PublishesInside(files[i]) && bases[i] > 0
    requires AfterObjects(m, files, bases) == Some((mapped, objs))
    ensures BoundByScope(AllJobs(objs), AllExports(objs)) <==> AsksSafely(files)
  {
    hide TrustedLoads, SoundFile, PublishesInside, AfterObjects, Addressed, AllJobs, AllExports, JobsOf, JobValue;
    hide ScopeValue, AsksSafelyAt, AllMapped;
    MappedIsAddressed(m, files, bases, mapped, objs);
    ObjectsMapped(m, files, bases);
    MappedApart(m, mapped, files, objs);
    var jobs, exports := AllJobs(objs), AllExports(objs);
    if BoundByScope(jobs, exports) {
      forall k, i | 0 <= k < |files| && 0 <= i < |files[k].relocs|
        ensures AsksSafelyAt(files, files[k], files[k].relocs[i])
      {
        JobBinding(mapped, files, objs, k, i);
        JobIsListed(objs, k, i);
      }
    }
    if AsksSafely(files) {
      forall job | job in jobs
        ensures JobValue(job, exports) == ScopeValue(job, exports)
      {
        var k, i := JobOwner(objs, job);
        JobCount(objs[k]);
        SameFile(mapped, files, objs, k);
        JobBinding(mapped, files, objs, k, i);
      }
    }
  }

  lemma {:induction false} MappedApart(m: Memory, r: Memory, files: seq<ObjectFile>, objs: seq<Loaded>)
    requires AllMapped(m, r, files, objs)
    ensures |objs| == |files| && HolesApart(objs)
  {
    hide TrustedLoads, Resident, Loaded.InHole, InSomeHole;
  }

  // ---- a closure on which the two rules differ ----

  const ONE_PAGE := Segment(0, Load, 1, 0, 0, 0, 4096, true, true, false, 4096, None)

  const F_INFO := SymbolInfo(None, 8, "object", "global", "default", Some(1), true)

  /** One page of zeros that publishes "f" at 16, asks for it at 8, and needs one library. */
  const F_FILE := ObjectFile(SelfDb(map[Em := EM_X86_64], [ONE_PAGE]), [Symbol(1, "f", Some(16), true, true, F_INFO)],
                             [Reloc(8, R_GLOB_DAT, Some(1), 0)], ["libf"])

  const F_DISK := map["a" := F_FILE, "b" := F_FILE]
  const F_RESOLVER := Resolver(map["libf" := "b"], [])

  lemma {:induction false} OnePageRows()
    ensures F_FILE.Loads() == [ONE_PAGE] && WellFormed(ONE_PAGE)
  {
    assert LoadRows([]) == [];
    assert LoadRows([ONE_PAGE]) == LoadRows([]) + [ONE_PAGE];
  }

  lemma {:induction false} OnePageBounds()
    ensures MinVaddr([ONE_PAGE]) == 0 && MaxEnd([ONE_PAGE]) == 4096
  {
    assert MinVaddr([]) == WORD - 1 && MaxEnd([]) == 0;
  }

  lemma {:induction false} OnePageSpan()
    ensures SpanLo([ONE_PAGE]) == 0 && SpanLength([ONE_PAGE]) == 4096
  {
    hide MinVaddr, MaxEnd;
    OnePageBounds();
  }

  lemma {:induction false} OnePageLayout()
    ensures F_FILE.Loads() == [ONE_PAGE] && WellFormed(ONE_PAGE) && TrustedLoads(F_FILE) && SoundFile(F_FILE)
    ensures PageLo(ONE_PAGE) == 0 && PageHi(ONE_PAGE) == 4096
    ensures SpanLo([ONE_PAGE]) == 0 && SpanLength([ONE_PAGE]) == 4096
  {
    hide SpanLo, SpanLength, LoadRows;
    OnePageRows();
    OnePageSpan();
  }

  /** Such a file can be mapped into any free page. */
  lemma {:induction false} OnePageMaps(m: Memory, base: nat)
    requires base % PAGE == 0 && base + PAGE < WORD && forall a :: base <= a < base + PAGE ==> a !in m
    ensures TrustedLoads(F_FILE)
    ensures AfterObject(m, F_FILE, base).Some?
    ensures AfterObject(m, F_FILE, base).value.1 == Loaded(F_FILE, base, base, 0)
    ensures forall a: nat :: a in AfterObject(m, F_FILE, base).value.0 ==> a in m || base <= a < base + PAGE
  {
    hide WellFormed, Placed, SpanLo, SpanLength, PageLo, PageHi, AfterLoads, SoundFile, Resident, TrustedLoads;
    OnePageLayout();
    var rows := F_FILE.Loads();
    NativeLaws.SpanPlaced(m, rows, true, base);
    var (reserved, bias) := AfterSpan(m, rows, true, base).value;
    MapLoadsSucceeds(reserved, base, rows, true);
    ObjectMapped(m, F_FILE, base);
  }

  lemma {:induction false} OpensNext(disk: map<string, ObjectFile>, paths: seq<string>, path: string)
    ensures OpenAll(disk, []) == Some([])
    ensures OpenAll(disk, paths).Some? && path in disk ==>
      OpenAll(disk, paths + [path]) == Some(OpenAll(disk, paths).value + [disk[path]])
  {
    assert (paths + [path])[..|paths|] == paths;
  }

  lemma {:induction false} ResolvesOne(resolver: Resolver, soname: string)
    requires soname in resolver.objects
    ensures ResolveAll(Some(resolver), [soname]) == Some([resolver.objects[soname]])
  {
    assert [soname][..0] == [];
    assert [] + [resolver.objects[soname]] == [resolver.objects[soname]];
  }

  /** Running "a" loads two objects: the program and its library. */
  lemma {:induction false} TwoDefinersLoad()
    ensures LoadList(F_DISK, Some(F_RESOLVER), "a") == Some([F_FILE, F_FILE])
  {
    hide ResolveAll, OpenAll;
    ResolvesOne(F_RESOLVER, "libf");
    OpensNext(F_DISK, [], "a");
    OpensNext(F_DISK, ["a"], "b");
    assert [] + ["a"] == ["a"] && ["a"] + ["b"] == ["a", "b"];
    assert ["a"] + ["b"] + [] == ["a", "b"];
    assert [] + [F_FILE] == [F_FILE] && [F_FILE] + [F_FILE] == [F_FILE, F_FILE];
  }

  /** A program and its library both export "f": the program's own reference binds to the library, the last one loaded,
      where breadth-first scope binds it to the program. */
  lemma {:induction false} TwoDefiners()
    ensures TrustedLoads(F_FILE)
    ensures AfterObjects(map[], [F_FILE, F_FILE], [4096, 8192]).Some?
    ensures var objs := AfterObjects(map[], [F_FILE, F_FILE], [4096, 8192]).value.1;
      && |objs| == 2 && |JobsOf(objs[0])| == 1
      && JobValue(JobsOf(objs[0])[0], AllExports(objs)) == Some(8208)
      && ScopeValue(JobsOf(objs[0])[0], AllExports(objs)) == Some(4112)
  {
    hide AfterObject, TrustedLoads;
    var m: Memory := map[];
    OnePageMaps(m, 4096);
    var r := AfterObject(m, F_FILE, 4096).value.0;
    OnePageMaps(r, 8192);
    MapsTwo(m, r);
    TwoExports();
  }

  lemma {:induction false} OnePageAnswers()
    ensures BindableFile(F_FILE) && PublishesInside(F_FILE) && AllAnswered([F_FILE, F_FILE])
  {
    OnePageLayout();
    hide WellFormed, SpanLo, SpanLength, PageLo, PageHi, SoundFile, LoadRows;
    assert SlotInPages(F_FILE, F_FILE.relocs[0]);
    assert Published(F_FILE.symbols[0]) && F_FILE.symbols[0].name == "f";
    assert JoinedName(F_FILE.symbols, Some(1)) == Some("f");
    assert Publishes([F_FILE, F_FILE][0], "f");
  }

  /** That closure is what running "a" loads, and the run survives: the difference is not one between failures. */
  lemma {:induction false} TwoDefinersRun()
    ensures LoadList(F_DISK, Some(F_RESOLVER), "a") == Some([F_FILE, F_FILE])
    ensures TrustedLoads(F_FILE)
    ensures AfterRun(map[], [F_FILE, F_FILE], [4096, 8192]).Some?
  {
    hide LoadList;
    TwoDefinersLoad();
    hide AfterObjects, AfterRun, TrustedLoads, BindableFile, PublishesInside, AllAnswered, Bound;
    TwoDefiners();
    OnePageAnswers();
    var (mapped, objs) := AfterObjects(map[], [F_FILE, F_FILE], [4096, 8192]).value;
    EndToEnd(map[], [F_FILE, F_FILE], [4096, 8192], mapped, objs);
  }

  lemma {:induction false} MapsTwo(m: Memory, r: Memory)
    requires TrustedLoads(F_FILE)
    requires AfterObject(m, F_FILE, 4096) == Some((r, Loaded(F_FILE, 4096, 4096, 0)))
    requires AfterObject(r, F_FILE, 8192).Some? && AfterObject(r, F_FILE, 8192).value.1 == Loaded(F_FILE, 8192, 8192, 0)
    ensures AfterObjects(m, [F_FILE, F_FILE], [4096, 8192]).Some?
    ensures AfterObjects(m, [F_FILE, F_FILE], [4096, 8192]).value.1 ==
            [Loaded(F_FILE, 4096, 4096, 0), Loaded(F_FILE, 8192, 8192, 0)]
  {
    hide AfterObject, TrustedLoads, AfterObjects;
    MapsNext(m, [], [], F_FILE, 4096);
    MapsNext(m, [F_FILE], [4096], F_FILE, 8192);
    assert [] + [F_FILE] == [F_FILE] && [F_FILE] + [F_FILE] == [F_FILE, F_FILE];
    assert [] + [4096] == [4096] && [4096] + [8192] == [4096, 8192];
  }

  lemma {:induction false} MapsNext(m: Memory, files: seq<ObjectFile>, bases: seq<nat>, file: ObjectFile, base: nat)
    requires |files| == |bases| && TrustedLoads(file) && forall i :: 0 <= i < |files| ==> TrustedLoads(files[i])
    ensures files == [] ==> AfterObjects(m, files, bases) == Some((m, []))
    ensures var before := AfterObjects(m, files, bases);
      before.Some? && AfterObject(before.value.0, file, base).Some? ==>
        var (after, obj) := AfterObject(before.value.0, file, base).value;
        AfterObjects(m, files + [file], bases + [base]) == Some((after, before.value.1 + [obj]))
  {
    hide AfterObject, TrustedLoads;
    assert (files + [file])[..|files|] == files && (bases + [base])[..|files|] == bases;
  }

  lemma {:induction false} TwoExports()
    ensures var objs := [Loaded(F_FILE, 4096, 4096, 0), Loaded(F_FILE, 8192, 8192, 0)];
      && |JobsOf(objs[0])| == 1
      && JobValue(JobsOf(objs[0])[0], AllExports(objs)) == Some(8208)
      && ScopeValue(JobsOf(objs[0])[0], AllExports(objs)) == Some(4112)
  {
    var x, y := Loaded(F_FILE, 4096, 4096, 0), Loaded(F_FILE, 8192, 8192, 0);
    assert ExportsOf(F_FILE.symbols[..0], 4096) == [] && ExportsOf(F_FILE.symbols[..0], 8192) == [];
    assert AllExports([x, y][..1][..0]) == [];
    assert AllExports([x, y][..1]) == [Export("f", 4112)];
    assert AllExports([x, y]) == [Export("f", 8208), Export("f", 4112)];
    assert JobsOf(x)[0] == Job(4096, F_FILE.relocs[0], Some("f"));
  }
}
