# SELF, verified

SELF keeps an executable as a SQLite database: the program headers and segment bytes of an ELF file become rows, and
loaders run the program from those rows. This project models that pipeline in Dafny and proves what it promises:

- `ElfImage`, `SelfRows`: ELF bytes to headers to rows and back (`selfconv/elfimage.py`, `elf2self.py`, `self2elf.py`),
  with `ElfLayout` and `Utf8Laws` for what that means byte by byte;
- `ImageBuilder`: the C builder of the image that memfd mode executes (`loader/image.c`), against its Python twin;
- `AddressSpace`, `NativeLoader`: mapping a program straight from its rows (`loader/native.c`), in 64-bit wrapping
  arithmetic over pages with protections;
- `InitialStack`, `StackBuilders`: the initial process stack, against a reader that does what a C startup routine does;
- `Exports`, `ExportOrder`, `Binder`, `ScopeLaws`: the eager SQL binder (`loader/selfld.c`), its unordered queries, and
  its binding rule against breadth-first scope;
- `SymbolRows`, `ElfBinding`: the symbol ids it joins on, and its runs in terms of the ELF symbol tables;
- `ClosurePack`: packing several roots and their libraries (`selfconv/closure.py`);
- `WorkerPool`, `Template`, `RequestReader`, `RequestGrammar`: the supervisor, the template scanner and the request
  reader of the example server (`examples/server/server.c`), the last against requests as clients write them.

Code that works in place is a class or a method over arrays, sequences and maps, proved against a function
(`After...` for a mutation, `None` standing for a call to `die()` or a raised exception). The modules named `...Laws`
prove what those functions mean. The kernel's answers (`mmap(NULL)`, `fork`, `read`, `getauxval`) are parameters; an
answer to `mmap(NULL)` that is not a fresh page-aligned hole stands for `MAP_FAILED`.

## Where the code and its promises part

- The comment that `self_build_elf` has an "identical byte layout" to `serialize_image` does not hold in general: C
  writes content i after header i, Python writes all headers last. `TwinLaws.TwinsAgree` gives the exact condition on a
  database and `TwinLaws.ConvertedTwinsAgree` the exact condition on an ELF file. A file that loads its own header keeps
  e_shoff in one image and loses it in the other (`TwinLaws.SectionOffsetSurvives`); `TwinLaws.LinkedFileDiffers` is
  such a file.
- DESIGN.md describes breadth-first symbol scope; the code finds the newest definition. `ScopeLaws.ScopeBinding` says,
  from the files alone, exactly when the two agree. `ScopeLaws.TwoDefiners` is a program and its library on which they
  differ, loaded by name and run to the end (`ScopeLaws.TwoDefinersLoad`, `ScopeLaws.TwoDefinersRun`).
- The query that publishes an object's symbols has no ORDER BY. Its order shows exactly when the object publishes one
  name at two addresses, as with two symbol versions (`ExportOrder.ExportOrderExactly`).
- The binder's comment that pages are "hardened later" does not come true: they stay writable
  (`BinderLaws.NeverHardened`).
- The psABI ignores the addend of `GLOB_DAT`; the binder adds it (`BinderLaws.PsAbiAgreement`, with an example in
  `BinderLaws.GlobDatAddsAddend`).
- Both loaders refuse a load row whose page range is empty (`AddressSpace.MapLoadsSucceeds`), that is, one of zero size
  at a page-aligned address (`AddressSpace.EmptyPages`).
- `read_request` depends on how the network cuts the stream in exactly the cases `RequestLaws.FragmentationExactly`
  states, for instance an empty Content-Length (`RequestLaws.EmptyLengthDepends`) or a request line that goes on behind
  the blank line (`RequestLaws.LateLineOutcome`).
- A verb of more than seven bytes spills into the path (`RequestGrammar.LineIsRead`).
- A worker that dies is replaced only if `fork` succeeds: the parent serves with four workers less the number of failed
  forks so far (`WorkerPool.PoolIsExact`), for good; `WorkerPool.PoolShrinks` is a run that gets there.

## Model

| member | source | states |
|---|---|---|
| `Bytes.UnpackPack` | selfconv/elfimage.py:12-15 | unpacking a packed record gives back every in-range field value |
| `Bytes.PackUnpack` | selfconv/elfimage.py:12-15 | packing the fields of a record gives back its bytes |
| `ElfImage.ParseImage` | selfconv/elfimage.py:66-80 | the parsing loop computes `Parse`, with ValueError, IndexError, struct.error and OverflowError where Python raises them |
| `ElfImage.SerializeImage` | selfconv/elfimage.py:83-105 | the in-place writes compute `Serialize`, with bytearray resizing and with ValueError, OverflowError and struct.error where Python raises them |
| `ElfLayout.ParseLayout` | selfconv/elfimage.py:66-80 | parse_image accepts exactly the files with the ELF64 little-endian identification and a header table inside the file, and takes every field from its little-endian place |
| `ElfLayout.SerializeLayout` | selfconv/elfimage.py:96-105 | serialize_image puts every field at its little-endian place, with version 1, e_shoff 0, entry sizes 64 and 56, and p_paddr equal to p_vaddr |
| `ElfLayout.ImageSizeIs` | selfconv/elfimage.py:91-93 | the image is exactly as long as the longest of file header, header table and segments |
| `ElfImageLaws.SerializeBytes` | selfconv/elfimage.py:91-105 | serialization succeeds exactly on well-formed headers whose image size fits Py_ssize_t, and each byte of the image belongs to the header table, else the file header, else the last covering content, else is zero |
| `ElfImageLaws.ParseSerialized` | selfconv/elfimage.py:66-105 | parsing a serialized image gives the same file header and the same program headers in order, with contents cut from the image |
| `ElfImageLaws.NormalForm` | selfconv/elfimage.py:66-105 | a serialized image is a fixpoint of parse-then-serialize, byte for byte, whatever the segments overlap |
| `SelfRows.Elf2Self` | selfconv/elf2self.py:77-102 | the row loop computes `ToSelf`: one row per header, r, w and x from the flag bits; the first row whose interpreter path is not UTF-8 or whose numbers SQLite cannot hold raises UnicodeDecodeError or OverflowError |
| `ConversionLaws.StoresExactly` | selfconv/elf2self.py:91-102 | conversion succeeds exactly on parseable files whose numbers fit SQLite and whose interpreter paths are UTF-8 |
| `ElfLayout.StoresInBytes` | selfconv/elf2self.py:91-102 | the same condition on the file's bytes: acceptable, numbers below 2^63, interpreter paths UTF-8 |
| `ElfLayout.StoredLayout` | selfconv/elf2self.py:93-102 | every meta value and every column of a stored row is the number at its place in the file; r, w and x are bits 2, 1 and 0 of p_flags |
| `ElfLayout.TypeNames` | selfconv/elfimage.py:18-29 | the `type` column names exactly the gABI's and GNU's p_type values |
| `Utf8Laws.Utf8Exactly` | selfconv/elf2self.py:94-95 | decoding succeeds on exactly the UTF-8 encodings of Unicode texts |
| `SelfRows.LoadImage` | selfconv/self2elf.py:25-39 | reading the rows back computes `FromSelf`, with KeyError for a missing meta key |
| `ConversionLaws.FlagsRoundTrip` | selfconv/self2elf.py:32-38 | a header survives the r/w/x columns up to its non-RWX flag bits |
| `ConversionLaws.RowsKeepHeaders` | selfconv/elf2self.py:93-102 | every header of a stored file comes back from the database, in order, and self2elf can serialize them exactly when there are any and their image fits a bytearray |
| `ConversionLaws.FullRoundTrip` | selfconv/self2elf.py:25-46 | ELF to rows to ELF to headers: same file header, same program headers with flags masked to RWX, same load bytes outside the headers |
| `ImageBuilder.SelfBuildElf` | loader/image.c:76-179 | the C builder returns NULL exactly when a meta key is missing, and otherwise fills its buffer with `CImage` |
| `TwinLaws.CRowsBytes` | loader/image.c:158-175 | the row loop leaves at each byte what the last writer wrote, headers and contents interleaved row by row |
| `TwinLaws.RowByteInside` | loader/image.c:158-173 | inside header entry i, only contents of rows i and later can hide the header |
| `TwinLaws.TwinsAgree` | loader/image.c:73-75 | both builders give images of equal length that agree outside the headers, and identical images if and only if the late contents carry the canonical header bytes |
| `TwinLaws.ConvertedTwinsAgree` | loader/image.c:73-75 | for every convertible ELF file the two images are identical if and only if the file carries canonical header bytes wherever its load segments cover them late |
| `TwinLaws.SectionOffsetSurvives` | loader/image.c:142-173 | wherever a converted file loads its own e_shoff, the C image has the file's bytes and the Python image has zeros |
| `TwinLaws.LinkedFileDiffers` | loader/image.c:73-75 | an ELF file with one load segment over its headers converts, and its two images differ |
| `AddressSpace.MapSegmentCells` | loader/native.c:49-61 | a segment is mapped exactly when its page range is not empty; its pages then hold file bytes and zeros under the row's protection, and no other address changes |
| `AddressSpace.MapLoadsCells` | loader/native.c:141-164 | after all segments, the last row whose pages contain an address decides its byte and protection |
| `AddressSpace.MapLoadsHolds` | loader/native.c:141-164 | page-disjoint rows are all intact after mapping, each with its own protection |
| `AddressSpace.MapLoadsSucceeds` | loader/native.c:53-56 | mapping trusted rows fails exactly when some row has an empty page range |
| `AddressSpace.EmptyPages` | loader/native.c:52-56 | a page range is empty exactly for a row of zero size at a page-aligned address |
| `AddressSpace.BoundsIgnoreOrder` | loader/selfld.c:81-90 | the bounds do not depend on the order in which the query without ORDER BY delivers the rows |
| `AddressSpace.SpanSafety` | loader/native.c:63-74 | in a reserved hole the bias is page-aligned, every segment's pages lie inside the hole, and runtime addresses keep distance and page offset, although the bias wraps |
| `AddressSpace.Process.MapSegment` | loader/native.c:49-61 | mmap, memcpy and mprotect in sequence compute `AfterSegment` |
| `AddressSpace.Process.Bounds` | loader/native.c:123-136 | the bounds pass computes the minimum address and the maximum end, modulo 2^64 |
| `AddressSpace.Process.MapRows` | loader/selfld.c:99-126 | the segment loop computes `AfterLoads` |
| `NativeLoader.ReserveSpan` | loader/native.c:63-74 | the reservation computes `AfterSpan`: nothing for a fixed-address program, a hole and a wrapped bias otherwise |
| `NativeLoader.MapAndLocate` | loader/native.c:139-165 | pass 2 maps the rows and finds the last load row that contains `phoff` |
| `NativeLoader.MapProgram` | loader/native.c:117-172 | the whole of map_program computes `AfterProgram` |
| `NativeLaws.ProgramMapped` | loader/native.c:117-172 | on page-disjoint rows a mapped program is intact at one common displacement, and nothing outside its pages and its hole changed |
| `NativeLaws.LoadRowsSplit` | loader/native.c:141-144 | the loaders see the load rows in table order |
| `NativeLaws.BiasIs` | loader/native.c:63-74 | e_type 3 is moved to its reserved hole, anything else is not moved |
| `NativeLaws.ProgramEntry` | loader/native.c:167-169 | the entry point is the file's, displaced; AT_PHDR is 0 when no load row holds phoff |
| `NativeLaws.EntryRuns` | loader/native.c:168 | a load row that holds the entry point has its byte and its protection there, and the byte is the memfd image's |
| `NativeLaws.NativeRefinesMemfd` | loader/native.c:139-164 | every mapped file byte equals the byte of the memfd image at the row's offset, outside the image's headers, and the tail up to memsz is zero |
| `NativeLaws.PhdrTruthful` | loader/native.c:162-170 | when the load row AT_PHDR points into holds the whole header table, the memory at `out->phdr` decodes to exactly the stored rows, and phnum and phent are their number and size |
| `NativeLaws.ConvertedFileLoads` | selfconv/elf2self.py:91-102 | all these results hold for every convertible ELF file; phnum and phent count its program headers whether they are loaded or not |
| `InitialStack.StackBuf.PushBytes` | loader/native.c:183-193 | a push moves the cursor down by the length, stores the bytes there and leaves everything above alone |
| `InitialStack.StackBuf.PushStrings` | loader/native.c:206-211 | every pushed string is intact and NUL-terminated at its returned address |
| `InitialStack.StackBuf.LayWords` | loader/native.c:263-280 | the vector is 16-aligned, inside the buffer and below the cursor |
| `InitialStack.VectorReadsBack` | loader/native.c:195-196 | reading the stack the way a program starts gives back argc, the arguments, the environment and the auxiliary vector up to AT_NULL |
| `InitialStack.StackFigure` | loader/native.c:263-280 | a stack that reads back has argc, argument pointers, NULL, environment pointers, NULL and auxiliary pairs at their places above sp |
| `InitialStack.LayVector` | loader/native.c:260-283 | laying the vector keeps the strings and makes the stack readable |
| `StackBuilders.BuildNativeStack` | loader/native.c:197-284 | for all strings that fit with the vector and 15 bytes of slack, the program reads back exactly what it was given; each auxiliary type occurs once with the value its number stands for, and AT_RANDOM, AT_PLATFORM and AT_EXECFN lead to their bytes |
| `StackBuilders.NativeAuxSays` | loader/native.c:236-258 | the vector's entries by number: 3 phdr, 4 phent, 5 phnum, 6 page size, 7 interpreter base, 9 entry, 11 to 14 ids, 25, 15 and 31 the pointers, 33 only with a vDSO |
| `StackBuilders.KernelRandom` | loader/native.c:213-221 | the kernel's random bytes are passed on; without them each loader has a fixed substitute |
| `StackBuilders.BuildSelfldStack` | loader/selfld.c:180-239 | the same for the binder's shorter auxiliary vector |
| `Exports.ExportTable.Add` | loader/selfld.c:50-56 | prepends one export to the list |
| `Exports.ExportTable.Find` | loader/selfld.c:57-62 | returns the newest definition's address, or 0 |
| `Exports.LookupIsMap` | loader/selfld.c:57-62 | the list refines a map in which the last exporter of a name wins |
| `Exports.PreloadOverrides` | loader/selfld.c:291-295 | exports added last override, and only those names |
| `Exports.ScopeOrderAgrees` | loader/selfld.c:57-62 | newest-first lookup equals breadth-first scope lookup on all names if and only if every name's newest and oldest definition have one address; with distinct definitions at distinct addresses, if and only if no name is exported twice |
| `ScopeLaws.TableBinding` | loader/selfld.c:57-62 | for any table, every possible relocation binds as breadth-first scope would bind it if and only if the ends of every exported name agree |
| `ScopeLaws.ScopeBinding` | DESIGN.md:331-335 | every relocation of a mapped closure binds as breadth-first scope would bind it if and only if each name the files ask for is published by at most one file, there with one value first and last |
| `ScopeLaws.TwoDefiners` | loader/selfld.c:57-62 | a mapped program and library that export one name: the program's own reference binds to the library, and in scope order to the program |
| `ScopeLaws.TwoDefinersLoad` | loader/selfld.c:250-290 | running that program by name loads exactly the two |
| `ScopeLaws.TwoDefinersRun` | loader/selfld.c:309-312 | and the run survives |
| `ExportOrder.ExportOrderExactly` | loader/selfld.c:131-141 | the table's answer for a name is the same under every order of an object's symbol rows if and only if the object publishes the name at one address |
| `Binder.Linker.MapObject` | loader/selfld.c:72-142 | mapping an object computes `AfterObject` and prepends its exports, newest first |
| `Binder.Linker.Publish` | loader/selfld.c:131-141 | the export loop adds every exported dynsym symbol with a value and a name |
| `Binder.Linker.Resolve` | loader/selfld.c:158-174 | the switch on the relocation type computes `JobValue`, and dies on an unresolved symbol or unknown type |
| `Binder.Linker.Relocate` | loader/selfld.c:146-177 | the relocation loop computes `AfterJobs` over the joined rows |
| `Binder.Linker.MapAll` | loader/selfld.c:261-307 | after mapping everything, the table holds the exports of all objects |
| `Binder.Linker.Run` | loader/selfld.c:309-312 | libraries are bound in load order and the main program last, all against the complete table |
| `Binder.Linker.RunSelfld` | loader/selfld.c:250-312 | the run dies when a file, a soname or the machine does not fit, and otherwise computes `AfterRun` on the load list |
| `BinderLaws.LoadListIs` | loader/selfld.c:250-307 | the load list by position: the program, its NEEDED libraries in their order, the preloads in theirs; there is one exactly when the machine is 62 and every soname and path is found |
| `BinderLaws.BindOrderIs` | loader/selfld.c:309-312 | libraries are bound in load order, the program last |
| `RelocationLaws.BindingSucceeds` | loader/selfld.c:152-175 | relocation survives exactly when every row resolves and every slot is mapped writable, and each address ends with the byte of the last row that covers it |
| `RelocationLaws.OrderFree` | loader/selfld.c:148-151 | any reordering of disjoint relocations survives or dies alike and leaves the same memory |
| `RelocationLaws.RowOrder` | loader/selfld.c:148-151 | a reordering of an object's rows is a reordering of its relocations |
| `RelocationLaws.ObjectOrder` | loader/selfld.c:309-312 | a reordering of the objects is a reordering of all relocations |
| `BinderLaws.ObjectMapped` | loader/selfld.c:93-126 | a mapped object is intact and writable inside its own fresh hole, and nothing outside the hole changed |
| `BinderLaws.ObjectEntry` | loader/selfld.c:129 | an object's entry point is the file's, displaced, and runs the row's byte under the row's execute bit |
| `BinderLaws.ObjectsMapped` | loader/selfld.c:261-307 | after mapping a whole closure, every object is intact and no two holes meet |
| `BinderLaws.AllSlotsApart` | loader/selfld.c:157 | slots that are disjoint within each object are disjoint across the closure |
| `BinderLaws.RunBinds` | loader/selfld.c:261-312 | a mapped closure of bindable files survives its run exactly when every relocation resolves; every slot then holds its relocation's word, every other byte is segment content or zero, and nothing else changed |
| `BinderLaws.ResolvesExactly` | loader/selfld.c:131-173 | every relocation resolves if and only if each is of a known type and asks for a name that some file publishes |
| `BinderLaws.EndToEnd` | loader/selfld.c:261-312 | from files alone: the run survives if and only if every name asked for is published and every type known, and then memory is bound as above |
| `BinderLaws.NeverHardened` | loader/selfld.c:122-124 | when a run ends every page of every object is writable, and has its row's own protection exactly when the row asks for write |
| `BinderLaws.AnyBindingOrder` | loader/selfld.c:309-312 | the objects may be bound in any order |
| `BinderLaws.AnyRowOrder` | loader/selfld.c:148-151 | the result of a run does not depend on the order in which relocation rows are delivered, nor on the order of the symbol rows of files that publish no name with two values |
| `BinderLaws.PreloadBinding` | loader/selfld.c:291-307 | a relocation binds to the preloads if they export its name, and as without them otherwise |
| `BinderLaws.PreloadsComeLast` | loader/selfld.c:296-307 | the load list is the list without preloads followed by the preloaded files |
| `BinderLaws.PreloadRun` | loader/selfld.c:291-312 | preloading leaves the closure's objects where they were and changes bindings by override only |
| `BinderLaws.PsAbiAgreement` | loader/selfld.c:158-170 | the stored word is the psABI value if and only if a GLOB_DAT addend is zero |
| `BinderLaws.WordByNumber` | loader/selfld.c:158-174 | the word a relocation stores, by its raw type number and in 64-bit arithmetic |
| `BinderLaws.GlobDatAddsAddend` | loader/selfld.c:161-170 | a GLOB_DAT relocation with addend 8 stores 8 more than the psABI value |
| `SymbolRows.InsertSymbols` | selfconv/elf2self.py:54-71 | one numbered row per named symbol with all its columns, exported when defined and not local; OverflowError for numbers SQLite cannot hold |
| `SymbolRows.InsertedAre` | selfconv/elf2self.py:54-71 | the rows are the named symbols in order, numbered on, each with its own columns; defined and exported as the section index and the binding say |
| `SymbolRows.SymbolIdentity` | selfconv/elf2self.py:118-130 | whichever duplicate the id table keeps, the join gives a relocation back exactly its original name if dynsym has it, and none otherwise |
| `ElfBinding.AnsweredByElf` | selfconv/elf2self.py:115-130 | converted files answer each other's relocations if and only if every ELF relocation is of a known type and names a symbol of its own dynsym that some ELF file defines globally |
| `ElfBinding.ElfEndToEnd` | loader/selfld.c:250-312 | that condition on the ELF files decides whether the run of a mapped, converted closure survives; then every slot holds the little-endian word of its ELF relocation, symbols being bound to the last global definition of the last file that has one |
| `ClosurePack.ClosureDb.InsertObject` | selfconv/closure.py:123-184 | computes `AfterInsert`: adopt and promote a seen path, or add an object row with the object's own edges, segments and symbols |
| `ClosurePack.ClosureDb.BuildClosure` | selfconv/closure.py:208-216 | the loop over roots computes `AfterRoots`; the skipped list is the non-ELF roots in order |
| `ClosureLaws.InsertKeeps` | selfconv/closure.py:123-154 | every insertion keeps the table invariant: numbered rows, one row per path, and in every table own rows only |
| `ClosureLaws.PackIs` | selfconv/closure.py:208-216 | the pack holds exactly the reached paths, marks exactly the ELF roots, and fails exactly when a reached path is unreadable |
| `ClosureLaws.FactsAre` | selfconv/closure.py:135-182 | what the rows of a packed object say, column by column |
| `ClosureLaws.PackOrder` | selfconv/closure.py:208-216 | objects are numbered in the order of first visit: each root, then its libraries |
| `ClosureLaws.SkippedSplit` | selfconv/closure.py:209-212 | the skipped list keeps exactly the roots that are no ELF files, in order |
| `ClosureLaws.OrderIndependence` | selfconv/closure.py:187-193 | order and repetition of roots change no object, root, column, edge, segment or symbol, only row ids |
| `ClosureLaws.NonInterference` | selfconv/closure.py:82-90 | an object has the columns, edges, segments and symbols it gets when any one root that reaches it is packed alone |
| `ClosureLaws.DanglingExactly` | selfconv/closure.py:34-41 | no edge dangles if and only if the reached libraries resolve only to reached paths |
| `ClosureLaws.NestedResolutionsSuffice` | selfconv/closure.py:104-106 | it suffices that each library resolves inside the resolution map of a root that reaches it |
| `WorkerPool.InvHolds` | examples/server/server.c:828-875 | every step of the parent and of the kernel keeps the pool invariant |
| `WorkerPool.EveryFailureLosesASlot` | examples/server/server.c:829-861 | over all interleavings the lost slots are as many as the failed forks |
| `WorkerPool.PoolIsExact` | examples/server/server.c:839-862 | over all interleavings the positive pids are exactly the un-reaped children, and children and failed forks add up to four |
| `WorkerPool.PoolShrinks` | examples/server/server.c:836-838 | a run in which a dead worker is not replaced, after which the parent never again waits with four |
| `WorkerPool.RespawnRefills` | examples/server/server.c:852-861 | a reaped worker is replaced in its own slot, and no other slot changes |
| `WorkerPool.ScanFinds` | examples/server/server.c:852-861 | over all interleavings, the scan for a reaped pid never runs off the array: the pid is in exactly one slot, not yet passed |
| `WorkerPool.GoesOnServing` | examples/server/server.c:839-847 | without a SIGTERM the parent waits again and again; only having no children ends the loop |
| `WorkerPool.StopsForAReason` | examples/server/server.c:839-847 | the parent gives up serving only on a SIGTERM or without children |
| `WorkerPool.StoppingIsFinal` | examples/server/server.c:839-875 | back at the head of the loop after a SIGTERM it neither waits there nor forks again |
| `WorkerPool.KillsOnlyChildren` | examples/server/server.c:865-869 | shutdown never signals a reaped pid |
| `WorkerPool.ShutdownIsComplete` | examples/server/server.c:864-875 | shutdown signals every un-reaped child, and the parent leaves the final loop only when none is left |
| `WorkerPool.LostSlotsStayLost` | examples/server/server.c:852-861 | a slot whose fork failed is never filled again |
| `Template.Buffer.Append` | examples/server/server.c:94-111 | the buffer holds the exact concatenation, NUL-terminated; each growth moves the old block once, and all growth together fewer bytes than the final capacity |
| `Template.Render` | examples/server/server.c:254-290 | the scanning loop computes the rendering of the parsed page, each hole from the database's answer at that moment |
| `Template.NextHole` | examples/server/server.c:258-269 | the close lies at least two bytes behind the open, so the name length never underflows |
| `Template.ParseUnparses` | examples/server/server.c:258-288 | parsing loses nothing |
| `Template.ParseGrammatical` | examples/server/server.c:258-266 | every parsed hole is opened leftmost and closed first, and no hole is left in the tail |
| `Template.ParseUnique` | examples/server/server.c:258-266 | the scan's decomposition is the only grammatical one |
| `Template.RenderOfGrammatical` | examples/server/server.c:251-253 | on any page written in the grammar, each hole is filled once and values are not rescanned |
| `Template.RenderHole` | examples/server/server.c:258-286 | on bytes: the text before `{{` stays, the name is replaced by its value at this moment or left with its braces, and the rest is rendered on its own |
| `Template.RenderText` | examples/server/server.c:258-288 | a text without a hole is its own rendering |
| `Template.FirstVariable` | examples/server/server.c:271-277 | the first variable of a name decides |
| `Template.UnknownNamesStay` | examples/server/server.c:251-253 | when no name has a value the output is the input |
| `RequestReader.ReadHead` | examples/server/server.c:360-378 | the first loop computes `HeadRead` |
| `RequestReader.ReadBody` | examples/server/server.c:417-431 | the second loop delivers exactly the announced bytes, or fails when the stream ends early |
| `RequestReader.ReadRequest` | examples/server/server.c:358-434 | the reader computes `RequestFrom` of the stream and its fragmentation |
| `RequestGrammar.RequestIsRead` | examples/server/server.c:358-434 | a request written with a start line, a User-Agent and a Content-Length, in any letter case, is read back exactly, whatever follows it and however it is cut; it fails exactly on a head over 16384 bytes, a length over 4096 or a stream that ends too soon |
| `RequestGrammar.BareRequestIsRead` | examples/server/server.c:358-416 | a request without headers is read back without agent and body |
| `RequestGrammar.LineIsRead` | examples/server/server.c:381-383 | the verb is at most 7 bytes, what is left of it or the second word the path, at most 511 |
| `RequestGrammar.DecimalReads` | examples/server/server.c:405-409 | a decimal Content-Length is read as its number |
| `RequestLaws.FragmentationIndependence` | examples/server/server.c:364-414 | any two fragmentations of a settled stream give the same failure or the same request |
| `RequestLaws.FragmentationExactly` | examples/server/server.c:364-414 | for every stream, fragmentation does not matter if and only if the stream is settled: no blank line, no request line, or a request line before the blank line and a steady head |
| `RequestLaws.LateLineOutcome` | examples/server/server.c:364-383 | a request line that goes on behind the blank line fails read byte by byte and succeeds when a read ends in its second token |
| `RequestLaws.BodyIsExact` | examples/server/server.c:402-433 | the body is exactly the Content-Length bytes behind the blank line |
| `RequestLaws.EmptyLengthDepends` | examples/server/server.c:405-409 | a stream with an empty Content-Length on which two fragmentations differ |

## Left out

- SQLite itself: tables are sequences of rows in `id` order, or in any order where the query has no ORDER BY; page size,
  journaling, VACUUM and the limit on a blob's length do not appear.
- Real `mmap`, memfd, `execveat` and the jump into the program: the model stops at memory, stack pointer and entry.
- `map_interp` of loader/native.c: the same two passes as `map_program`, over an interpreter file's own headers.
- Allocation failure (MemoryError, NULL), the fixed array of 32 libraries, and integer overflow from rows no ELF file
  produces: the trusted row conditions `AddressSpace.WellFormed`, `ImageBuilder.SafeRows` and
  `InitialStack.StackBuf.Valid` state what is assumed.
- ALIGN_DOWN's bit mask is modelled as subtracting the remainder modulo 4096.
- LIEF's reading of the file, notes, sections and dynamic entries: no loader reads them.
- Relocation type names to numbers (`_reloc_name_and_num`): a fixed table; unknown names become -1, on which the binder
  dies.
- The statistics build_closure returns, and its VACUUM.
- ClosurePack.ClosureDb.BuildClosure: `ldd` and the ELF reader are deterministic answers to a path, listed in any order.
- WorkerPool.InvHolds: safety only; that a SIGTERM interrupts a blocking `wait` in time is not modelled.
- RequestReader.ReadRequest: a read error or timeout counts as the end of the stream.
- Template.Buffer.Append: a failed `realloc`, which truncates the response.
- Sockets, responses, routes, JSON, visit logging and `sanitize_button` of the example server.
- Command lines, `loader/audit.c`, `loader/self-exec.c`, the Nix files and the shell tests.
