/** From the ELF symbol tables that elf2self reads to the run of the binder. */
module ElfBinding {
  import opened Wrappers
  import opened Bytes
  import opened ElfLayout
  import opened AddressSpace
  import opened Exports
  import opened Binder
  import opened ExportOrder
  import opened RelocationLaws
  import opened BinderLaws
  import opened ScopeLaws
  import opened SymbolRows

  /** The dynamic-linking half of an ELF file, as LIEF reports it. */
  datatype ElfObject = ElfObject(dynsym: seq<ElfSymbol>, symtab: seq<ElfSymbol>, relocs: seq<ElfReloc>)

  /** The symbol and relocation rows elf2self writes; `delivered` is SQLite's answer to the query behind sym_ids. */
  ghost predicate FromElf(file: ObjectFile, elf: ElfObject, delivered: seq<Symbol>) {
    && file.symbols == SymbolTable(elf.dynsym, elf.symtab)
    && DynsymRows(delivered, file.symbols)
    && |file.relocs| == |elf.relocs|
    && forall i :: 0 <= i < |elf.relocs| ==> file.relocs[i] == RelocRow(SymIds(delivered), elf.relocs[i])
  }

  // ---- which rows a symbol table holds ----

  lemma {:induction false} RowsStay(rows: seq<Symbol>, syms: seq<ElfSymbol>, dynsym: bool, s: Symbol)
    requires s in rows
    ensures s in InsertedRows(rows, syms, dynsym)
  {
    hide SymbolRow;
    if syms != [] {
      RowsStay(rows, syms[..|syms| - 1], dynsym, s);
    }
  }

  lemma {:induction false} RowOrigin(rows: seq<Symbol>, syms: seq<ElfSymbol>, dynsym: bool, s: Symbol) returns (i: nat)
    requires s in InsertedRows(rows, syms, dynsym) && s !in rows
    ensures i < |syms| && syms[i].name != "" && s == SymbolRow(s.id, syms[i], dynsym)
  {
    i := |syms| - 1;
    var before := InsertedRows(rows, syms[..i], dynsym);
    if s in before {
      i := RowOrigin(rows, syms[..i], dynsym, s);
    }
  }

  lemma {:induction false} RowOf(rows: seq<Symbol>, syms: seq<ElfSymbol>, dynsym: bool, i: nat) returns (s: Symbol)
    requires i < |syms| && syms[i].name != ""
    ensures s in InsertedRows(rows, syms, dynsym) && s == SymbolRow(s.id, syms[i], dynsym)
  {
    var n := |syms| - 1;
    var before := InsertedRows(rows, syms[..n], dynsym);
    if i < n {
      s := RowOf(rows, syms[..n], dynsym, i);
    } else {
      s := SymbolRow(|before| + 1, syms[i], dynsym);
    }
  }

  // ---- publication and resolution in terms of ELF symbols ----

  /** The file's dynsym defines the name globally. */
  predicate Provides(elf: ElfObject, name: string) {
    name != "" && exists i :: 0 <= i < |elf.dynsym| && elf.dynsym[i].name == name && ExportedBy(elf.dynsym[i])
  }

  predicate SomeProvides(elfs: seq<ElfObject>, name: string) {
    exists k :: 0 <= k < |elfs| && Provides(elfs[k], name)
  }

  lemma {:induction false} PublishesIsProvides(file: ObjectFile, elf: ElfObject, name: string)
    requires file.symbols == SymbolTable(elf.dynsym, elf.symtab)
    ensures Publishes(file, name) <==> Provides(elf, name)
  {
    hide InsertedRows, ExportedBy, LowerCase;
    var dyn := InsertedRows([], elf.dynsym, true);
    if Publishes(file, name) {
      var j :| 0 <= j < |file.symbols| && Published(file.symbols[j]) && file.symbols[j].name == name;
      var s := file.symbols[j];
      if s !in dyn {
        var i := RowOrigin(dyn, elf.symtab, false, s);
      } else {
        var i := RowOrigin([], elf.dynsym, true, s);
      }
    }
    if Provides(elf, name) {
      var i :| 0 <= i < |elf.dynsym| && elf.dynsym[i].name == name && ExportedBy(elf.dynsym[i]);
      var s := RowOf([], elf.dynsym, true, i);
      RowsStay(dyn, elf.symtab, false, s);
      var j :| 0 <= j < |file.symbols| && file.symbols[j] == s;
      assert Published(file.symbols[j]);
    }
  }

  /** A known type, and for a symbolic one a symbol of the file's own dynsym that some file provides. */
  predicate Satisfied(elfs: seq<ElfObject>, elf: ElfObject, r: ElfReloc) {
    && (r.rtype == R_RELATIVE || r.rtype in {R_GLOB_DAT, R_JUMP_SLOT, R_64})
    && (r.rtype != R_RELATIVE ==>
          && r.symbol.Some? && r.symbol.value != ""
          && Named(elf.dynsym, r.symbol.value) && SomeProvides(elfs, r.symbol.value))
  }

  predicate AllSatisfied(elfs: seq<ElfObject>) {
    forall k, i :: 0 <= k < |elfs| && 0 <= i < |elfs[k].relocs| ==> Satisfied(elfs, elfs[k], elfs[k].relocs[i])
  }

  ghost predicate AllFromElf(files: seq<ObjectFile>, elfs: seq<ElfObject>, delivered: seq<seq<Symbol>>) {
    && |files| == |elfs| == |delivered|
    && forall k :: 0 <= k < |files| ==> FromElf(files[k], elfs[k], delivered[k])
  }

  lemma {:induction false} SomePublishesIsProvides(files: seq<ObjectFile>, elfs: seq<ElfObject>,
                                                   delivered: seq<seq<Symbol>>, name: string)
    requires AllFromElf(files, elfs, delivered)
    ensures SomePublishes(files, name) <==> SomeProvides(elfs, name)
  {
    hide Publishes, Provides, SymbolTable, DynsymRows, RelocRow;
    forall k | 0 <= k < |files|
      ensures Publishes(files[k], name) <==> Provides(elfs[k], name)
    {
      assert FromElf(files[k], elfs[k], delivered[k]);
      PublishesIsProvides(files[k], elfs[k], name);
    }
  }

  lemma {:induction false} AnsweredIsSatisfied(files: seq<ObjectFile>, elfs: seq<ElfObject>,
                                               delivered: seq<seq<Symbol>>, k: nat, i: nat)
    requires AllFromElf(files, elfs, delivered) && k < |files| && i < |elfs[k].relocs|
    ensures i < |files[k].relocs|
    ensures Answered(files, files[k], files[k].relocs[i]) <==> Satisfied(elfs, elfs[k], elfs[k].relocs[i])
  {
    hide SomePublishes, SomeProvides, SymbolTable, DynsymRows, SymIds, JoinedName, Named;
    var elf, r := elfs[k], elfs[k].relocs[i];
    assert FromElf(files[k], elf, delivered[k]);
    SymbolIdentity(elf.dynsym, elf.symtab, delivered[k], r);
    RelocRowKeeps(SymIds(delivered[k]), r);
    if r.symbol.Some? {
      SomePublishesIsProvides(files, elfs, delivered, r.symbol.value);
    }
  }

  lemma {:induction false} RelocRowKeeps(ids: map<string, nat>, r: ElfReloc)
    ensures RelocRow(ids, r) == Reloc(r.address, r.rtype, RelocRow(ids, r).symbol, r.addend)
  {
  }

  /** Whether converted files resolve each other can be read off the ELF files. */
  lemma {:induction false} AnsweredByElf(files: seq<ObjectFile>, elfs: seq<ElfObject>, delivered: seq<seq<Symbol>>)
    requires AllFromElf(files, elfs, delivered)
    ensures AllAnswered(files) <==> AllSatisfied(elfs)
  {
    hide Answered, Satisfied, SymbolTable, DynsymRows, RelocRow;
    forall k, i | 0 <= k < |files| && 0 <= i < |elfs[k].relocs|
      ensures |files[k].relocs| == |elfs[k].relocs|
      ensures Answered(files, files[k], files[k].relocs[i]) <==> Satisfied(elfs, elfs[k], elfs[k].relocs[i])
    {
      assert FromElf(files[k], elfs[k], delivered[k]);
      AnsweredIsSatisfied(files, elfs, delivered, k, i);
    }
    forall k | 0 <= k < |files|
      ensures |files[k].relocs| == |elfs[k].relocs|
    {
      assert FromElf(files[k], elfs[k], delivered[k]);
    }
  }

  // ---- what a slot holds ----

  predicate ExportsName(sym: ElfSymbol, name: string) {
    sym.name == name && ExportedBy(sym)
  }

  /** Symbol j is the last one of the file's dynsym that defines the name globally. */
  predicate LastGlobal(elf: ElfObject, name: string, j: nat) {
    && j < |elf.dynsym| && ExportsName(elf.dynsym[j], name)
    && forall i :: j < i < |elf.dynsym| ==> !ExportsName(elf.dynsym[i], name)
  }

  /** File l is the last one loaded that provides the name. */
  predicate LastProvider(elfs: seq<ElfObject>, name: string, l: nat) {
    l < |elfs| && Provides(elfs[l], name) && forall k :: l < k < |elfs| ==> !Provides(elfs[k], name)
  }

  lemma {:induction false} NotDefined(id: nat, sym: ElfSymbol, dynsym: bool, name: string)
    requires name != ""
    ensures Defines(SymbolRow(id, sym, dynsym), name) <==> dynsym && ExportsName(sym, name)
  {
  }

  lemma {:induction false} AppendedLast(rows: seq<Symbol>, row: Symbol, name: string)
    ensures LastValue(rows + [row], name) == if Defines(row, name) then row.value else LastValue(rows, name)
  {
    assert (rows + [row])[..|rows|] == rows;
  }

  /** The share of the last symbol. */
  lemma {:induction false} InsertedLast(rows: seq<Symbol>, syms: seq<ElfSymbol>, dynsym: bool, name: string)
    requires syms != [] && name != ""
    ensures var last, before := syms[|syms| - 1], InsertedRows(rows, syms[..|syms| - 1], dynsym);
      LastValue(InsertedRows(rows, syms, dynsym), name) ==
      if dynsym && ExportsName(last, name) then Some(last.value) else LastValue(before, name)
  {
    var last, before := syms[|syms| - 1], InsertedRows(rows, syms[..|syms| - 1], dynsym);
    var row := SymbolRow(|before| + 1, last, dynsym);
    assert InsertedRows(rows, syms, dynsym) == if last.name == "" then before else before + [row];
    hide InsertedRows, LastValue;
    NotDefined(|before| + 1, last, dynsym, name);
    AppendedLast(before, row, name);
  }

  /** Symbols of symtab publish nothing. */
  lemma {:induction false} SymtabIsSilent(rows: seq<Symbol>, syms: seq<ElfSymbol>, name: string)
    requires name != ""
    ensures LastValue(InsertedRows(rows, syms, false), name) == LastValue(rows, name)
  {
    hide LastValue;
    if syms == [] {
      assert InsertedRows(rows, [], false) == rows;
    } else {
      hide InsertedRows;
      SymtabIsSilent(rows, syms[..|syms| - 1], name);
      InsertedLast(rows, syms, false, name);
    }
  }

  /** Of the dynsym symbols, the last global definition is published last. */
  lemma {:induction false} DynsymSpeaks(syms: seq<ElfSymbol>, name: string, j: nat)
    requires name != "" && j < |syms| && ExportsName(syms[j], name)
    requires forall i :: j < i < |syms| ==> !ExportsName(syms[i], name)
    ensures LastValue(InsertedRows([], syms, true), name) == Some(syms[j].value)
  {
    hide LastValue, InsertedRows, ExportsName;
    InsertedLast([], syms, true, name);
    if j < |syms| - 1 {
      DynsymSpeaks(syms[..|syms| - 1], name, j);
    }
  }

  lemma {:induction false} LastValueOf(file: ObjectFile, elf: ElfObject, name: string, j: nat)
    requires file.symbols == SymbolTable(elf.dynsym, elf.symtab) && name != "" && LastGlobal(elf, name, j)
    ensures LastValue(file.symbols, name) == Some(elf.dynsym[j].value)
  {
    hide InsertedRows, LastValue, ExportsName;
    DynsymSpeaks(elf.dynsym, name, j);
    SymtabIsSilent(InsertedRows([], elf.dynsym, true), elf.symtab, name);
  }

  lemma {:induction false} FindLastGlobal(elf: ElfObject, name: string) returns (j: nat)
    requires Provides(elf, name)
    ensures LastGlobal(elf, name, j)
  {
    hide ExportedBy;
    j := |elf.dynsym| - 1;
    while !ExportsName(elf.dynsym[j], name)
      invariant j < |elf.dynsym| && forall i :: j < i < |elf.dynsym| ==> !ExportsName(elf.dynsym[i], name)
      decreases j
    {
      j := j - 1;
    }
  }

  /** The number in the eight bytes at `slot`, lowest byte first. */
  predicate WordInMemory(r: Memory, slot: int, w: int) {
    && slot >= 0 && (forall a :: slot <= a < slot + 8 ==> a in r)
    && LE8(seq<Byte>(8, i requires 0 <= i < 8 => r[slot + i].value), 0) == w
  }

  lemma {:induction false} EncodedWord(bs: seq<Byte>, w: nat)
    requires w < WORD && bs == Encode(w, 8)
    ensures LE8(bs, 0) == w
  {
    hide Encode, Decode, LE8;
    Capacities();
    DecodeEncode(w, 8);
    Decode8(bs, 0);
    assert bs[0..8] == bs;
  }

  /** In bound memory, the slot of every relocation holds its word. */
  lemma {:induction false} JobInMemory(mapped: Memory, r: Memory, jobs: seq<Job>, exports: seq<Export>, job: Job)
    requires Bound(mapped, r, jobs, exports) && job in jobs
    ensures JobValue(job, exports).Some? && WordInMemory(r, job.Slot(), JobValue(job, exports).value)
  {
    hide JobValue, Encode, LE8, Job.Slot;
    var x :| 0 <= x < |jobs| && jobs[x] == job;
    var slot, w := job.Slot(), JobValue(job, exports).value;
    forall a: nat | slot <= a < slot + 8
      ensures a in r && r[a].value == Encode(w, 8)[a - slot]
    {
      assert InSlot(jobs[x], a);
    }
    var bs := seq<Byte>(8, i requires 0 <= i < 8 => r[slot + i].value);
    assert bs == Encode(w, 8);
    EncodedWord(bs, w);
  }

  /** The slot of ELF relocation i of file k: at its address, displaced, it holds displacement plus addend for type 8,
      and otherwise the address of the last global definition of the symbol in the last file loaded that has one, plus
      the addend unless the type is 7. */
  ghost predicate SlotBound(r: Memory, objs: seq<Loaded>, elfs: seq<ElfObject>, k: nat, i: nat)
    requires k < |objs| == |elfs| && i < |elfs[k].relocs|
  {
    var reloc, mod := elfs[k].relocs[i], 0x1_0000_0000_0000_0000;
    var slot := objs[k].Delta() + reloc.address;
    if reloc.rtype == 8 then WordInMemory(r, slot, (objs[k].Delta() + reloc.addend) % mod)
    else reloc.symbol.Some? && exists l: nat, j: nat ::
      && LastProvider(elfs, reloc.symbol.value, l) && LastGlobal(elfs[l], reloc.symbol.value, j)
      && WordInMemory(r, slot, (objs[l].Delta() + elfs[l].dynsym[j].value
                                + if reloc.rtype == 7 then 0 else reloc.addend) % mod)
  }

  /** The table answers with the last global definition of the last provider. */
  lemma {:induction false} ProviderFound(m: Memory, files: seq<ObjectFile>, objs: seq<Loaded>, elfs: seq<ElfObject>,
                                         delivered: seq<seq<Symbol>>, name: string) returns (l: nat, j: nat)
    requires Addressed(m, files, objs) && AllFromElf(files, elfs, delivered) && Lookup(AllExports(objs), name) != 0
    ensures LastProvider(elfs, name, l) && LastGlobal(elfs[l], name, j) && l < |objs|
    ensures Lookup(AllExports(objs), name) == objs[l].Delta() + elfs[l].dynsym[j].value
  {
    hide TrustedLoads, Resident, PublishesInside, Lookup, AllExports, LastValue, Provides, LastGlobal, SymbolTable;
    hide DynsymRows, RelocRow, Wrap, Loaded.Delta, Publishes, Loaded.InHole;
    l := NewestDefiner(objs, name);
    assert l < |objs|;
    forall k | 0 <= k < |objs|
      ensures Provides(elfs[k], name) <==> Definer(objs[k], name)
    {
      assert FromElf(files[k], elfs[k], delivered[k]);
      PublishesIsProvides(files[k], elfs[k], name);
      PublishesHasLast(files[k], name);
    }
    j := FindLastGlobal(elfs[l], name);
    ProvidedNamed(elfs[l], name);
    assert FromElf(files[l], elfs[l], delivered[l]);
    LastValueOf(files[l], elfs[l], name, j);
    DefinedPlace(m, objs[l], name);
  }

  lemma {:induction false} ProvidedNamed(elf: ElfObject, name: string)
    requires Provides(elf, name)
    ensures name != ""
  {
  }

  lemma {:induction false} SlotIsBound(mapped: Memory, r: Memory, files: seq<ObjectFile>, objs: seq<Loaded>,
                                       elfs: seq<ElfObject>, delivered: seq<seq<Symbol>>, k: nat, i: nat)
    requires Addressed(mapped, files, objs) && AllFromElf(files, elfs, delivered)
    requires Bound(mapped, r, AllJobs(objs), AllExports(objs))
    requires k < |objs| && i < |elfs[k].relocs| && BindableFile(files[k])
    ensures SlotBound(r, objs, elfs, k, i)
  {
    hide TrustedLoads, Resident, PublishesInside, Lookup, AllExports, AllJobs, SymbolTable, DynsymRows, BindableFile;
    hide WordInMemory, LastGlobal, LastProvider, JoinedName, Bound, SymIds, Named, Loaded.Delta, Loaded.InHole, Wrap;
    var reloc := elfs[k].relocs[i];
    assert FromElf(files[k], elfs[k], delivered[k]);
    SlotPlace(mapped, objs[k], i);
    JobIsListed(objs, k, i);
    var job, exports := JobsOf(objs[k])[i], AllExports(objs);
    JobInMemory(mapped, r, AllJobs(objs), exports, job);
    WordByNumber(job, exports);
    SymbolIdentity(elfs[k].dynsym, elfs[k].symtab, delivered[k], reloc);
    if reloc.rtype == 8 {
      ResidentBias(mapped, objs[k]);
      WrapSum(objs[k].Delta(), reloc.addend);
      WrapIs(objs[k].Delta() + reloc.addend);
      WrapIs(job.bias + reloc.addend);
    } else {
      var l, j := ProviderFound(mapped, files, objs, elfs, delivered, reloc.symbol.value);
    }
  }

  lemma {:induction false} ResidentBias(r: Memory, obj: Loaded)
    requires TrustedLoads(obj.file) && Resident(r, obj)
    ensures obj.loadBias == Wrap(obj.Delta())
  {
  }

  lemma {:induction false} WrapIs(x: int)
    ensures Wrap(x) == x % 0x1_0000_0000_0000_0000
  {
  }

  /** From ELF files to a run: a mapped closure of converted files survives its run if and only if every relocation of
      the ELF files is of a known type and asks for a name of its own dynsym that some ELF file defines globally; and
      then every slot holds what its ELF relocation and the ELF symbols say. */
  lemma {:induction false} ElfEndToEnd(m: Memory, files: seq<ObjectFile>, elfs: seq<ElfObject>,
                                       delivered: seq<seq<Symbol>>, bases: seq<nat>)
    requires files != [] && |files| == |bases| && AllFromElf(files, elfs, delivered)
    requires forall i :: 0 <= i < |files| ==> TrustedLoads(files[i]) && BindableFile(files[i])
    requires forall i :: 0 <= i < |files| ==> PublishesInside(files[i]) && bases[i] > 0
    requires AfterObjects(m, files, bases).Some?
    ensures |AfterObjects(m, files, bases).value.1| == |elfs|
    ensures AfterRun(m, files, bases).Some? <==> AllSatisfied(elfs)
    ensures AfterRun(m, files, bases).Some? ==>
      forall k, i :: 0 <= k < |elfs| && 0 <= i < |elfs[k].relocs| ==>
        SlotBound(AfterRun(m, files, bases).value, AfterObjects(m, files, bases).value.1, elfs, k, i)
  {
    hide FromElf, TrustedLoads, BindableFile, PublishesInside, AfterObjects, AfterRun, AllAnswered, AllSatisfied;
    hide AllMapped, Bound, AllJobs, AllExports, SlotBound, Addressed, SoundFile;
    AnsweredByElf(files, elfs, delivered);
    var (mapped, objs) := AfterObjects(m, files, bases).value;
    EndToEnd(m, files, bases, mapped, objs);
    AfterObjectsCount(m, files, bases);
    BindableIsSound(files);
    MappedIsAddressed(m, files, bases, mapped, objs);
    if AfterRun(m, files, bases).Some? {
      forall k, i | 0 <= k < |elfs| && 0 <= i < |elfs[k].relocs|
        ensures SlotBound(AfterRun(m, files, bases).value, objs, elfs, k, i)
      {
        SlotIsBound(mapped, AfterRun(m, files, bases).value, files, objs, elfs, delivered, k, i);
      }
    }
  }
}
