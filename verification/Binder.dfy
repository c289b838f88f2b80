/** loader/selfld.c: the eager binder. It maps every object, publishes every export, and only then relocates. */
module Binder {
  import opened Wrappers
  import opened Bytes
  import opened SelfRows
  import opened AddressSpace
  import opened Exports
  import opened NativeLoader

  const R_64 := 1
  const R_GLOB_DAT := 6
  const R_JUMP_SLOT := 7
  const R_RELATIVE := 8
  const EM_X86_64: nat := 62

  /** The columns of `symbols` that no loader reads. */
  datatype SymbolInfo = SymbolInfo(version: Option<string>, size: nat, typ: string, bind: string, visibility: string,
                                   shndx: Option<nat>, defined: bool)

  /** A row of `symbols`; `dynsym` is source='dynsym'. */
  datatype Symbol = Symbol(id: nat, name: string, value: Option<nat>, exported: bool, dynsym: bool, info: SymbolInfo)

  /** A row of `relocations`. */
  datatype Reloc = Reloc(offset: nat, rtype: int, symbol: Option<nat>, addend: int)

  /** A .self file as the binder reads it. */
  datatype ObjectFile = ObjectFile(db: SelfDb, symbols: seq<Symbol>, relocs: seq<Reloc>, needed: seq<string>) {
    function Loads(): seq<Segment> {
      LoadRows(db.segments)
    }
  }

  /** A mapped object; `base` is where the kernel reserved its span. */
  datatype Loaded = Loaded(file: ObjectFile, base: nat, loadBias: nat, entry: nat) {
    /** The true displacement, before it wraps into the load bias. */
    function Delta(): int {
      base - SpanLo(file.Loads())
    }

    predicate InHole(a: nat) {
      base <= a < base + SpanLength(file.Loads())
    }
  }

  // ---- what an object publishes ----

  /** `exported=1 AND source='dynsym' AND value IS NOT NULL`, and a non-empty name. */
  predicate Published(s: Symbol) {
    s.exported && s.dynsym && s.value.Some? && s.name != ""
  }

  /** Newest first, as export_add leaves them. */
  function ExportsOf(symbols: seq<Symbol>, bias: nat): seq<Export> {
    if symbols == [] then [] else
      var last := symbols[|symbols| - 1];
      (if Published(last) then [Export(last.name, Wrap(bias + last.value.value))] else [])
      + ExportsOf(symbols[..|symbols| - 1], bias)
  }

  function AllExports(objs: seq<Loaded>): seq<Export> {
    if objs == [] then [] else
      var last := objs[|objs| - 1];
      ExportsOf(last.file.symbols, last.loadBias) + AllExports(objs[..|objs| - 1])
  }

  // ---- what an object asks for ----

  /** `relocations LEFT JOIN symbols ON symbol = id`; ids are primary keys. */
  function JoinedName(symbols: seq<Symbol>, id: Option<nat>): Option<string> {
    if id.None? || symbols == [] then None
    else if symbols[0].id == id.value then Some(symbols[0].name)
    else JoinedName(symbols[1..], id)
  }

  /** One row of the join, with the bias of the object it belongs to. */
  datatype Job = Job(bias: nat, reloc: Reloc, name: Option<string>) {
    function Slot(): nat {
      Wrap(bias + reloc.offset)
    }
  }

  function Jobs(relocs: seq<Reloc>, symbols: seq<Symbol>, bias: nat): (jobs: seq<Job>)
    ensures |jobs| == |relocs|
    ensures forall i :: 0 <= i < |relocs| ==> jobs[i] == Job(bias, relocs[i], JoinedName(symbols, relocs[i].symbol))
  {
    if relocs == [] then [] else
      var last := relocs[|relocs| - 1];
      Jobs(relocs[..|relocs| - 1], symbols, bias) + [Job(bias, last, JoinedName(symbols, last.symbol))]
  }

  function JobsOf(obj: Loaded): seq<Job> {
    Jobs(obj.file.relocs, obj.file.symbols, obj.loadBias)
  }

  function AllJobs(objs: seq<Loaded>): seq<Job> {
    if objs == [] then [] else AllJobs(objs[..|objs| - 1]) + JobsOf(objs[|objs| - 1])
  }

  // ---- relocation ----

  /** The relocation types that ask for a symbol. */
  predicate Symbolic(reloc: Reloc) {
    reloc.rtype in {R_GLOB_DAT, R_JUMP_SLOT, R_64}
  }

  /** The word a relocation stores when its symbol is at `s`; None is die(), for an unresolved symbol or an unknown
      type. Address 0 counts as unresolved. */
  function StoredWord(job: Job, s: nat): (v: Option<nat>)
    ensures v.Some? ==> v.value < WORD
  {
    if job.reloc.rtype == R_RELATIVE then Some(Wrap(job.bias + job.reloc.addend))
    else if Symbolic(job.reloc) then
      if s == 0 then None else Some(Wrap(s + if job.reloc.rtype == R_JUMP_SLOT then 0 else job.reloc.addend))
    else None
  }

  function JobValue(job: Job, exports: seq<Export>): (v: Option<nat>)
    ensures v.Some? ==> v.value < WORD
  {
    StoredWord(job, if job.name.Some? then Lookup(exports, job.name.value) else 0)
  }

  function AfterJob(m: Memory, job: Job, exports: seq<Export>): Option<Memory> {
    var value :- JobValue(job, exports);
    AfterStore(m, job.Slot(), Encode(value, 8))
  }

  function AfterJobs(m: Memory, jobs: seq<Job>, exports: seq<Export>): Option<Memory> {
    if jobs == [] then Some(m) else
      var before :- AfterJobs(m, jobs[..|jobs| - 1], exports);
      AfterJob(before, jobs[|jobs| - 1], exports)
  }

  // ---- mapping ----

  /** What the binder takes on trust about a file's load rows. */
  predicate TrustedLoads(file: ObjectFile) {
    forall row :: row in file.db.segments && row.typ == Load ==> WellFormed(row)
  }

  /** map_object, with `base` the kernel's answer. The binder always reserves a hole, whatever e_type says. */
  function AfterObject(m: Memory, file: ObjectFile, base: nat): Option<(Memory, Loaded)>
    requires TrustedLoads(file)
  {
    var rows := file.Loads();
    var (reserved, bias) :- AfterSpan(m, rows, true, base);
    var mapped :- AfterLoads(reserved, bias, rows, true);
    var entry := if Entry in file.db.meta then Wrap(bias + file.db.meta[Entry]) else 0;
    Some((mapped, Loaded(file, base, bias, entry)))
  }

  function AfterObjects(m: Memory, files: seq<ObjectFile>, bases: seq<nat>): Option<(Memory, seq<Loaded>)>
    requires |files| == |bases| && forall i :: 0 <= i < |files| ==> TrustedLoads(files[i])
  {
    if files == [] then Some((m, [])) else
      var n := |files| - 1;
      var (before, objs) :- AfterObjects(m, files[..n], bases[..n]);
      var (after, obj) :- AfterObject(before, files[n], bases[n]);
      Some((after, objs + [obj]))
  }

  /** Libraries are relocated in load order, the main program last. */
  function BindOrder(objs: seq<Loaded>): seq<Loaded>
    requires objs != []
  {
    objs[1..] + [objs[0]]
  }

  /** Map everything, then bind everything. */
  function AfterRun(m: Memory, files: seq<ObjectFile>, bases: seq<nat>): Option<Memory>
    requires files != [] && |files| == |bases| && forall i :: 0 <= i < |files| ==> TrustedLoads(files[i])
  {
    var (mapped, objs) :- AfterObjects(m, files, bases);
    if objs == [] then None else AfterJobs(mapped, AllJobs(BindOrder(objs)), AllExports(objs))
  }

  // ---- which files, in which order ----

  /** The resolver database: `objects` as soname to path, and the `preload` table in order. */
  datatype Resolver = Resolver(objects: map<string, string>, preload: seq<string>)

  /** self_db_open on every path, in order; None when one is missing. */
  function OpenAll(disk: map<string, ObjectFile>, paths: seq<string>): Option<seq<ObjectFile>> {
    if paths == [] then Some([]) else
      var before :- OpenAll(disk, paths[..|paths| - 1]);
      var path := paths[|paths| - 1];
      if path in disk then Some(before + [disk[path]]) else None
  }

  /** Every NEEDED soname through the resolver; None when one does not resolve, or there is no resolver. */
  function ResolveAll(resolver: Option<Resolver>, sonames: seq<string>): Option<seq<string>> {
    if sonames == [] then Some([]) else
      var before :- ResolveAll(resolver, sonames[..|sonames| - 1]);
      var soname := sonames[|sonames| - 1];
      if resolver.Some? && soname in resolver.value.objects then Some(before + [resolver.value.objects[soname]])
      else None
  }

  /** The main program, its NEEDED libraries (one level), then the preloads. */
  function LoadList(disk: map<string, ObjectFile>, resolver: Option<Resolver>, path: string): Option<seq<ObjectFile>> {
    if path !in disk || Em !in disk[path].db.meta || disk[path].db.meta[Em] != EM_X86_64 then None
    else
      var libs :- ResolveAll(resolver, disk[path].needed);
      OpenAll(disk, [path] + libs + if resolver.Some? then resolver.value.preload else [])
  }

  // ---- the program ----

  class Linker {
    const p: Process
    const table: ExportTable

    constructor (mem: Memory)
      ensures fresh(p) && fresh(table) && p.mem == mem && table.Valid() && table.Contents() == []
    {
      p := new Process(mem);
      table := new ExportTable();
    }

    method MapObject(file: ObjectFile, base: nat) returns (obj: Option<Loaded>)
      requires table.Valid() && TrustedLoads(file)
      modifies p, table
      ensures table.Valid()
      ensures AfterObject(old(p.mem), file, base) == if obj.Some? then Some((p.mem, obj.value)) else None
      ensures obj.Some? ==> obj.value.file == file
      ensures obj.Some? ==>
        table.Contents() == ExportsOf(file.symbols, obj.value.loadBias) + old(table.Contents())
    {
      hide WellFormed, AfterSpan, AfterLoads, Wrap, Published;
      var rows := file.Loads();
      var bias := ReserveSpan(p, rows, true, base);
      if bias.None? {
        return None;
      }
      var ok := p.MapRows(bias.value, rows, true);
      if !ok {
        return None;
      }
      Publish(file.symbols, bias.value);
      return Some(Loaded(file, base, bias.value,
                         if Entry in file.db.meta then Wrap(bias.value + file.db.meta[Entry]) else 0));
    }

    method Publish(symbols: seq<Symbol>, bias: nat)
      requires table.Valid()
      modifies table
      ensures table.Valid() && table.Contents() == ExportsOf(symbols, bias) + old(table.Contents())
    {
      hide Wrap, ExportTable.Contents, Published;
      for i := 0 to |symbols|
        invariant table.Valid() && table.Contents() == ExportsOf(symbols[..i], bias) + old(table.Contents())
      {
        PublishNext(symbols, i, bias, old(table.Contents()));
        if Published(symbols[i]) {
          PublishedHasValue(symbols[i]);
          table.Add(symbols[i].name, Wrap(bias + symbols[i].value.value));
        }
      }
      assert symbols[..|symbols|] == symbols;
    }

    /** The switch on r_type. */
    method Resolve(job: Job) returns (value: Option<nat>)
      requires table.Valid()
      ensures value == JobValue(job, table.Contents())
    {
      if job.reloc.rtype == R_RELATIVE {
        return Some(Wrap(job.bias + job.reloc.addend));
      }
      if job.reloc.rtype in {R_GLOB_DAT, R_JUMP_SLOT, R_64} {
        var s := 0;
        if job.name.Some? {
          s := table.Find(job.name.value);
        }
        if s == 0 {
          return None;
        }
        return Some(Wrap(s + if job.reloc.rtype == R_JUMP_SLOT then 0 else job.reloc.addend));
      }
      return None;
    }

    method Relocate(obj: Loaded) returns (ok: bool)
      requires table.Valid()
      modifies p
      ensures AfterJobs(old(p.mem), JobsOf(obj), table.Contents()) == if ok then Some(p.mem) else None
    {
      hide AfterStore, Wrap, JobValue, Encode, JoinedName;
      ghost var jobs, exports := JobsOf(obj), table.Contents();
      for i := 0 to |obj.file.relocs|
        invariant AfterJobs(old(p.mem), jobs[..i], exports) == Some(p.mem)
      {
        assert jobs[..i + 1][..i] == jobs[..i];
        var r := obj.file.relocs[i];
        var job := Job(obj.loadBias, r, JoinedName(obj.file.symbols, r.symbol));
        assert job == jobs[..i + 1][i];
        var value := Resolve(job);
        var stored := if value.None? then None else AfterStore(p.mem, job.Slot(), Encode(value.value, 8));
        assert AfterJobs(old(p.mem), jobs[..i + 1], exports) == stored;
        if stored.None? {
          AfterJobsStops(old(p.mem), jobs, exports, i + 1);
          return false;
        }
        p.mem := stored.value;
      }
      assert jobs[..|jobs|] == jobs;
      return true;
    }

    /** Map the files in the order given. */
    method MapAll(files: seq<ObjectFile>, bases: seq<nat>) returns (objs: Option<seq<Loaded>>)
      requires table.Valid() && table.Contents() == []
      requires |files| == |bases| && forall i :: 0 <= i < |files| ==> TrustedLoads(files[i])
      modifies p, table
      ensures table.Valid()
      ensures AfterObjects(old(p.mem), files, bases) == if objs.Some? then Some((p.mem, objs.value)) else None
      ensures objs.Some? ==> table.Contents() == AllExports(objs.value)
    {
      hide AfterObject, TrustedLoads, ExportsOf;
      var loaded := [];
      for i := 0 to |files|
        invariant table.Valid() && table.Contents() == AllExports(loaded)
        invariant AfterObjects(old(p.mem), files[..i], bases[..i]) == Some((p.mem, loaded))
      {
        assert files[..i + 1][..i] == files[..i] && bases[..i + 1][..i] == bases[..i];
        var obj := MapObject(files[i], bases[i]);
        if obj.None? {
          AfterObjectsStops(old(p.mem), files, bases, i + 1);
          return None;
        }
        assert (loaded + [obj.value])[..|loaded|] == loaded;
        loaded := loaded + [obj.value];
      }
      assert files[..|files|] == files && bases[..|bases|] == bases;
      return Some(loaded);
    }

    /** run_selfld up to the jump: None when anything died. */
    method Run(files: seq<ObjectFile>, bases: seq<nat>) returns (ok: bool)
      requires table.Valid() && table.Contents() == []
      requires files != [] && |files| == |bases| && forall i :: 0 <= i < |files| ==> TrustedLoads(files[i])
      modifies p, table
      ensures AfterRun(old(p.mem), files, bases) == if ok then Some(p.mem) else None
    {
      hide AfterObjects, TrustedLoads, JobsOf, AllExports, AfterJob;
      var objs := MapAll(files, bases);
      if objs.None? {
        return false;
      }
      AfterObjectsCount(old(p.mem), files, bases);
      ghost var order, exports := BindOrder(objs.value), AllExports(objs.value);
      ghost var mapped := p.mem;
      for i := 1 to |objs.value|
        invariant table.Valid() && table.Contents() == exports
        invariant AfterJobs(mapped, AllJobs(order[..i - 1]), exports) == Some(p.mem)
      {
        ok := BindNext(objs.value[i], mapped, order, exports, i - 1);
        if !ok {
          return;
        }
      }
      ok := BindNext(objs.value[0], mapped, order, exports, |order| - 1);
      assert order[..|order|] == order;
    }

    /** run_selfld: read the closure's rows, then Run. `kernel` gives the answers to mmap(NULL). */
    method RunSelfld(disk: map<string, ObjectFile>, resolver: Option<Resolver>, path: string, kernel: nat -> nat)
      returns (ok: bool)
      requires table.Valid() && table.Contents() == []
      requires forall path :: path in disk ==> TrustedLoads(disk[path])
      modifies p, table
      ensures LoadList(disk, resolver, path).None? ==> !ok
      ensures LoadList(disk, resolver, path).Some? ==>
        var files := LoadList(disk, resolver, path).value;
        && files != [] && (forall i :: 0 <= i < |files| ==> TrustedLoads(files[i]))
        && AfterRun(old(p.mem), files, seq<nat>(|files|, kernel)) == if ok then Some(p.mem) else None
    {
      hide TrustedLoads, AfterRun;
      if path !in disk || Em !in disk[path].db.meta || disk[path].db.meta[Em] != EM_X86_64 {
        return false;
      }
      var libs := ResolveNeeded(resolver, disk[path].needed);
      if libs.None? {
        return false;
      }
      var paths := [path] + libs.value + if resolver.Some? then resolver.value.preload else [];
      var found := OpenAll(disk, paths);
      if found.None? {
        return false;
      }
      OpenedFiles(disk, paths);
      ok := Run(found.value, seq<nat>(|found.value|, kernel));
    }

    method ResolveNeeded(resolver: Option<Resolver>, sonames: seq<string>) returns (paths: Option<seq<string>>)
      ensures paths == ResolveAll(resolver, sonames)
    {
      var libs := [];
      for i := 0 to |sonames|
        invariant ResolveAll(resolver, sonames[..i]) == Some(libs)
      {
        assert sonames[..i + 1][..i] == sonames[..i];
        if resolver.None? || sonames[i] !in resolver.value.objects {
          ResolveAllStops(resolver, sonames, i + 1);
          return None;
        }
        libs := libs + [resolver.value.objects[sonames[i]]];
      }
      assert sonames[..|sonames|] == sonames;
      return Some(libs);
    }

    /** One turn of the binding loop. */
    method BindNext(obj: Loaded, ghost mapped: Memory, ghost order: seq<Loaded>, ghost exports: seq<Export>,
                    ghost i: nat)
      returns (ok: bool)
      requires table.Valid() && table.Contents() == exports && i < |order| && order[i] == obj
      requires AfterJobs(mapped, AllJobs(order[..i]), exports) == Some(p.mem)
      modifies p
      ensures ok ==> AfterJobs(mapped, AllJobs(order[..i + 1]), exports) == Some(p.mem)
      ensures !ok ==> AfterJobs(mapped, AllJobs(order), exports).None?
    {
      hide AfterJob, JobsOf;
      ok := Relocate(obj);
      assert order[..i + 1][..i] == order[..i];
      AfterJobsConcat(mapped, AllJobs(order[..i]), JobsOf(obj), exports);
      if !ok {
        AllJobsPrefix(order, i + 1);
        AfterJobsStops(mapped, AllJobs(order), exports, |AllJobs(order[..i + 1])|);
      }
    }
  }

  lemma {:induction false} ResolveAllStops(resolver: Option<Resolver>, sonames: seq<string>, n: nat)
    requires n <= |sonames| && ResolveAll(resolver, sonames[..n]).None?
    ensures ResolveAll(resolver, sonames).None?
    decreases |sonames|
  {
    if n < |sonames| {
      assert sonames[..|sonames| - 1][..n] == sonames[..n];
      ResolveAllStops(resolver, sonames[..|sonames| - 1], n);
    } else {
      assert sonames[..n] == sonames;
    }
  }

  lemma {:induction false} OpenedFiles(disk: map<string, ObjectFile>, paths: seq<string>)
    requires OpenAll(disk, paths).Some?
    ensures |OpenAll(disk, paths).value| == |paths|
    ensures forall i :: 0 <= i < |paths| ==> paths[i] in disk && OpenAll(disk, paths).value[i] == disk[paths[i]]
  {
    if paths != [] {
      OpenedFiles(disk, paths[..|paths| - 1]);
    }
  }

  lemma {:induction false} PublishedHasValue(s: Symbol)
    requires Published(s)
    ensures s.value.Some?
  {
  }

  lemma {:induction false} PublishNext(symbols: seq<Symbol>, i: nat, bias: nat, older: seq<Export>)
    requires i < |symbols|
    ensures ExportsOf(symbols[..i + 1], bias) + older ==
            if Published(symbols[i])
            then [Export(symbols[i].name, Wrap(bias + symbols[i].value.value))]
                 + (ExportsOf(symbols[..i], bias) + older)
            else ExportsOf(symbols[..i], bias) + older
  {
    assert symbols[..i + 1][..i] == symbols[..i];
  }

  lemma {:induction false} AfterJobsConcat(m: Memory, a: seq<Job>, b: seq<Job>, exports: seq<Export>)
    ensures AfterJobs(m, a + b, exports) ==
            if AfterJobs(m, a, exports).None? then None else AfterJobs(AfterJobs(m, a, exports).value, b, exports)
  {
    hide AfterJob;
    if b == [] {
      assert a + b == a;
    } else {
      AfterJobsConcat(m, a, b[..|b| - 1], exports);
      assert (a + b)[..|a + b| - 1] == a + b[..|b| - 1];
    }
  }

  lemma {:induction false} AllJobsPrefix(objs: seq<Loaded>, n: nat)
    requires n <= |objs|
    ensures |AllJobs(objs[..n])| <= |AllJobs(objs)| && AllJobs(objs)[..|AllJobs(objs[..n])|] == AllJobs(objs[..n])
    decreases |objs|
  {
    if n < |objs| {
      assert objs[..|objs| - 1][..n] == objs[..n];
      AllJobsPrefix(objs[..|objs| - 1], n);
    } else {
      assert objs[..n] == objs;
    }
  }

  lemma {:induction false} AfterObjectsCount(m: Memory, files: seq<ObjectFile>, bases: seq<nat>)
    requires |files| == |bases| && forall i :: 0 <= i < |files| ==> TrustedLoads(files[i])
    ensures var r := AfterObjects(m, files, bases); r.Some? ==> |r.value.1| == |files|
  {
    hide AfterObject, TrustedLoads;
    if files != [] {
      AfterObjectsCount(m, files[..|files| - 1], bases[..|files| - 1]);
    }
  }

  lemma {:induction false} AfterObjectsStops(m: Memory, files: seq<ObjectFile>, bases: seq<nat>, n: nat)
    requires |files| == |bases| && forall i :: 0 <= i < |files| ==> TrustedLoads(files[i])
    requires n <= |files| && AfterObjects(m, files[..n], bases[..n]).None?
    ensures AfterObjects(m, files, bases).None?
    decreases |files|
  {
    hide AfterObject, TrustedLoads;
    var k := |files| - 1;
    if n < |files| {
      assert files[..k][..n] == files[..n] && bases[..k][..n] == bases[..n];
      AfterObjectsStops(m, files[..k], bases[..k], n);
    } else {
      assert files[..n] == files && bases[..n] == bases;
    }
  }

  lemma {:induction false} AfterJobsStops(m: Memory, jobs: seq<Job>, exports: seq<Export>, n: nat)
    requires n <= |jobs| && AfterJobs(m, jobs[..n], exports).None?
    ensures AfterJobs(m, jobs, exports).None?
    decreases |jobs|
  {
    hide AfterJob;
    if n < |jobs| {
      assert jobs[..|jobs| - 1][..n] == jobs[..n];
      AfterJobsStops(m, jobs[..|jobs| - 1], exports, n);
    } else {
      assert jobs[..n] == jobs;
    }
  }
}
