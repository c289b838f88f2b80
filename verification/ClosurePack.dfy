/** selfconv/closure.py: packing several roots and their libraries into one database. */
module ClosurePack {
  import opened Wrappers
  import opened ElfImage
  import opened SelfRows
  import opened SymbolRows

  /** The descriptive columns of `objects`. */
  datatype About = About(soname: Option<string>, machine: string, buildId: Option<string>,
                         et: nat, em: nat, entry: nat, phoff: nat, phnum: nat)

  /** An ELF file as parse_image and LIEF report it. */
  datatype Elf = Elf(about: About, libraries: seq<string>, phdrs: seq<Phdr>, dynsym: seq<ElfSymbol>)

  /** The file system as build_closure asks it: `_is_elf`, the ELF file at a path (None when reading or storing it
      raises), `_ldd_map`, and `_ldd_closure`'s listing of the map's values. Each answer depends on the path alone.
      `withSegments` is build_closure's option. */
  datatype World = World(isElf: string -> bool, read: string -> Option<Elf>, ldd: string -> map<string, string>,
                         lddPaths: string -> seq<string>, withSegments: bool)

  ghost predicate Consistent(w: World) {
    forall p, q :: q in w.lddPaths(p) <==> q in w.ldd(p).Values
  }

  /** A row of `objects`; `exe` is kind='exe'. */
  datatype ObjectRow = ObjectRow(id: nat, path: string, exe: bool, isRoot: bool, about: About)

  /** A row of another table, with its object_id. */
  datatype Owned<T> = Owned(objectId: nat, row: T)

  datatype Edge = Edge(ord: nat, soname: string, resolved: Option<string>)

  /** A row of the closure's `symbols`; its version is always NULL. */
  datatype PackedSymbol = PackedSymbol(name: string, value: nat, size: nat, typ: string, bind: string, defined: bool,
                                       exported: bool)

  datatype Pack = Pack(objects: seq<ObjectRow>, needs: seq<Owned<Edge>>, segments: seq<Owned<Segment>>,
                       symbols: seq<Owned<PackedSymbol>>, seen: map<string, nat>)

  const EMPTY := Pack([], [], [], [], map[])

  function Resolve(ldd: map<string, string>, soname: string): Option<string> {
    if soname in ldd then Some(ldd[soname]) else None
  }

  /** An object's own edges: its NEEDED names in order, each resolved as this object sees it. */
  function EdgesOf(ldd: map<string, string>, libs: seq<string>): (es: seq<Edge>)
    ensures |es| == |libs|
    ensures forall i :: 0 <= i < |libs| ==> es[i] == Edge(i, libs[i], Resolve(ldd, libs[i]))
  {
    if libs == [] then [] else
      var n := |libs| - 1;
      EdgesOf(ldd, libs[..n]) + [Edge(n, libs[n], Resolve(ldd, libs[n]))]
  }

  /** The segment rows: those of a converted file, or none at all. */
  function SegmentsOf(w: World, elf: Elf): seq<Segment> {
    if w.withSegments then ToRows(elf.phdrs) else []
  }

  function PackSymbol(sym: ElfSymbol): PackedSymbol {
    PackedSymbol(sym.name, sym.value, sym.size, LowerCase(sym.typ), LowerCase(sym.binding), DefinedIn(sym),
                 ExportedBy(sym))
  }

  /** The named symbols; one whose section index is no integer counts as undefined. */
  function SymbolsOf(syms: seq<ElfSymbol>): seq<PackedSymbol> {
    if syms == [] then [] else
      var last := syms[|syms| - 1];
      SymbolsOf(syms[..|syms| - 1]) + if last.name == "" then [] else [PackSymbol(last)]
  }

  function OwnRows<T>(id: nat, rows: seq<T>): seq<Owned<T>> {
    if rows == [] then [] else OwnRows(id, rows[..|rows| - 1]) + [Owned(id, rows[|rows| - 1])]
  }

  /** UPDATE objects SET kind='exe', is_root=1 WHERE path=? */
  function Promote(rows: seq<ObjectRow>, path: string): (r: seq<ObjectRow>)
    ensures |r| == |rows|
    ensures forall i :: 0 <= i < |rows| ==>
      r[i] == if rows[i].path == path then rows[i].(exe := true, isRoot := true) else rows[i]
  {
    seq(|rows|, i requires 0 <= i < |rows| =>
      if rows[i].path == path then rows[i].(exe := true, isRoot := true) else rows[i])
  }

  /** _insert_object; None is an exception from the ELF reader. */
  function AfterInsert(pack: Pack, w: World, path: string, isRoot: bool): Option<Pack> {
    if path in pack.seen then
      Some(if isRoot then pack.(objects := Promote(pack.objects, path)) else pack)
    else
      var elf :- w.read(path);
      var id := |pack.objects| + 1;
      Some(Pack(pack.objects + [ObjectRow(id, path, isRoot, isRoot, elf.about)],
                pack.needs + OwnRows(id, EdgesOf(w.ldd(path), elf.libraries)),
                pack.segments + OwnRows(id, SegmentsOf(w, elf)),
                pack.symbols + OwnRows(id, SymbolsOf(elf.dynsym)),
                pack.seen[path := id]))
  }

  function AfterLibraries(pack: Pack, w: World, libs: seq<string>): Option<Pack> {
    if libs == [] then Some(pack) else
      var before :- AfterLibraries(pack, w, libs[..|libs| - 1]);
      AfterInsert(before, w, libs[|libs| - 1], false)
  }

  /** One turn of build_closure's loop: a root that is no ELF file is skipped. */
  function AfterRoot(pack: Pack, w: World, root: string): Option<Pack> {
    if !w.isElf(root) then Some(pack) else
      var rooted :- AfterInsert(pack, w, root, true);
      AfterLibraries(rooted, w, w.lddPaths(root))
  }

  function AfterRoots(w: World, roots: seq<string>): Option<Pack> {
    if roots == [] then Some(EMPTY) else
      var before :- AfterRoots(w, roots[..|roots| - 1]);
      AfterRoot(before, w, roots[|roots| - 1])
  }

  /** The roots that are no ELF files, in order and with their repetitions. */
  function SkippedRoots(w: World, roots: seq<string>): seq<string> {
    if roots == [] then [] else
      SkippedRoots(w, roots[..|roots| - 1]) + if w.isElf(roots[|roots| - 1]) then [] else [roots[|roots| - 1]]
  }

  /** The connection and the `seen` dictionary of build_closure. */
  class ClosureDb {
    var objects: seq<ObjectRow>
    var needs: seq<Owned<Edge>>
    var segments: seq<Owned<Segment>>
    var symbols: seq<Owned<PackedSymbol>>
    var seen: map<string, nat>

    function Contents(): Pack
      reads this
    {
      Pack(objects, needs, segments, symbols, seen)
    }

    constructor ()
      ensures Contents() == EMPTY
    {
      objects, needs, segments, symbols, seen := [], [], [], [], map[];
    }

    method InsertObject(w: World, path: string, isRoot: bool) returns (ok: bool)
      modifies this
      ensures AfterInsert(old(Contents()), w, path, isRoot) == if ok then Some(Contents()) else None
    {
      hide EdgesOf, SymbolsOf, OwnRows, ToRows, Promote;
      if path in seen {
        if isRoot {
          objects := Promote(objects, path);
        }
        return true;
      }
      var elf := w.read(path);
      if elf.None? {
        return false;
      }
      var id := |objects| + 1;
      objects := objects + [ObjectRow(id, path, isRoot, isRoot, elf.value.about)];
      InsertNeeds(id, w.ldd(path), elf.value.libraries);
      if w.withSegments {
        InsertSegments(id, elf.value.phdrs);
      } else {
        NothingOwned(segments, id);
      }
      InsertSymbols(id, elf.value.dynsym);
      seen := seen[path := id];
      return true;
    }

    method InsertNeeds(id: nat, ldd: map<string, string>, libs: seq<string>)
      modifies this`needs
      ensures needs == old(needs) + OwnRows(id, EdgesOf(ldd, libs))
    {
      hide Resolve;
      ghost var es := EdgesOf(ldd, libs);
      for i := 0 to |libs|
        invariant needs == old(needs) + OwnRows(id, es[..i])
      {
        assert es[..i + 1][..i] == es[..i];
        var edge := Edge(i, libs[i], Resolve(ldd, libs[i]));
        assert OwnRows(id, es[..i + 1]) == OwnRows(id, es[..i]) + [Owned(id, edge)];
        needs := needs + [Owned(id, edge)];
      }
      assert es[..|libs|] == es;
    }

    method InsertSegments(id: nat, phdrs: seq<Phdr>)
      modifies this`segments
      ensures segments == old(segments) + OwnRows(id, ToRows(phdrs))
    {
      hide ToRow;
      ghost var rows := ToRows(phdrs);
      for i := 0 to |phdrs|
        invariant segments == old(segments) + OwnRows(id, rows[..i])
      {
        assert rows[..i + 1][..i] == rows[..i];
        assert OwnRows(id, rows[..i + 1]) == OwnRows(id, rows[..i]) + [Owned(id, rows[i])];
        segments := segments + [Owned(id, ToRow(i, phdrs[i]))];
      }
      assert rows[..|phdrs|] == rows;
    }

    method InsertSymbols(id: nat, syms: seq<ElfSymbol>)
      modifies this`symbols
      ensures symbols == old(symbols) + OwnRows(id, SymbolsOf(syms))
    {
      hide PackSymbol;
      for i := 0 to |syms|
        invariant symbols == old(symbols) + OwnRows(id, SymbolsOf(syms[..i]))
      {
        assert syms[..i + 1][..i] == syms[..i];
        ghost var before := SymbolsOf(syms[..i]);
        if syms[i].name == "" {
          assert SymbolsOf(syms[..i + 1]) == before;
          continue;
        }
        assert SymbolsOf(syms[..i + 1]) == before + [PackSymbol(syms[i])];
        assert OwnRows(id, before + [PackSymbol(syms[i])]) == OwnRows(id, before) + [Owned(id, PackSymbol(syms[i]))];
        symbols := symbols + [Owned(id, PackSymbol(syms[i]))];
      }
      assert syms[..|syms|] == syms;
    }

    method BuildClosure(w: World, roots: seq<string>) returns (ok: bool, skipped: seq<string>)
      requires Contents() == EMPTY
      modifies this
      ensures AfterRoots(w, roots) == if ok then Some(Contents()) else None
      ensures ok ==> skipped == SkippedRoots(w, roots)
    {
      skipped := [];
      for i := 0 to |roots|
        invariant AfterRoots(w, roots[..i]) == Some(Contents())
        invariant skipped == SkippedRoots(w, roots[..i])
      {
        assert roots[..i + 1][..i] == roots[..i];
        if !w.isElf(roots[i]) {
          skipped := skipped + [roots[i]];
          continue;
        }
        ok := InsertRoot(w, roots[i]);
        if !ok {
          AfterRootsStops(w, roots, i + 1);
          return;
        }
      }
      assert roots[..|roots|] == roots;
      ok := true;
    }

    method InsertRoot(w: World, root: string) returns (ok: bool)
      requires w.isElf(root)
      modifies this
      ensures AfterRoot(old(Contents()), w, root) == if ok then Some(Contents()) else None
    {
      hide AfterInsert;
      ok := InsertObject(w, root, true);
      if !ok {
        return;
      }
      ghost var rooted := Contents();
      var libs := w.lddPaths(root);
      for i := 0 to |libs|
        invariant AfterLibraries(rooted, w, libs[..i]) == Some(Contents())
      {
        assert libs[..i + 1][..i] == libs[..i];
        ok := InsertObject(w, libs[i], false);
        if !ok {
          AfterLibrariesStops(rooted, w, libs, i + 1);
          return;
        }
      }
      assert libs[..|libs|] == libs;
    }
  }

  lemma {:induction false} NothingOwned<T>(table: seq<Owned<T>>, id: nat)
    ensures table + OwnRows(id, []) == table
  {
  }

  lemma {:induction false} AfterLibrariesStops(pack: Pack, w: World, libs: seq<string>, n: nat)
    requires n <= |libs| && AfterLibraries(pack, w, libs[..n]).None?
    ensures AfterLibraries(pack, w, libs).None?
    decreases |libs|
  {
    hide AfterInsert;
    if n < |libs| {
      assert libs[..|libs| - 1][..n] == libs[..n];
      AfterLibrariesStops(pack, w, libs[..|libs| - 1], n);
    } else {
      assert libs[..n] == libs;
    }
  }

  lemma {:induction false} AfterRootsStops(w: World, roots: seq<string>, n: nat)
    requires n <= |roots| && AfterRoots(w, roots[..n]).None?
    ensures AfterRoots(w, roots).None?
    decreases |roots|
  {
    hide AfterRoot;
    if n < |roots| {
      assert roots[..|roots| - 1][..n] == roots[..n];
      AfterRootsStops(w, roots[..|roots| - 1], n);
    } else {
      assert roots[..n] == roots;
    }
  }
}

/** The pack depends on the set of roots alone. */
module ClosureLaws {
  import opened Wrappers
  import opened ElfImage
  import opened SelfRows
  import opened SymbolRows
  import opened ClosurePack

  // ---- the graph a pack stands for ----

  ghost predicate HasPath(pack: Pack, path: string) {
    exists i :: 0 <= i < |pack.objects| && pack.objects[i].path == path
  }

  ghost predicate HasRoot(pack: Pack, path: string) {
    exists i :: 0 <= i < |pack.objects| && pack.objects[i].path == path && pack.objects[i].isRoot
  }

  /** The rows of a table that belong to one object, in order. */
  function RowsAt<T>(table: seq<Owned<T>>, id: nat): seq<T> {
    if table == [] then [] else
      RowsAt(table[..|table| - 1], id)
      + if table[|table| - 1].objectId == id then [table[|table| - 1].row] else []
  }

  /** All a pack says about an object but its row id and whether it is a root. */
  datatype Facts = Facts(about: About, edges: seq<Edge>, segments: seq<Segment>, symbols: seq<PackedSymbol>)

  function FactsAt(pack: Pack, id: nat): Option<Facts> {
    if 1 <= id <= |pack.objects|
    then Some(Facts(pack.objects[id - 1].about, RowsAt(pack.needs, id), RowsAt(pack.segments, id),
                    RowsAt(pack.symbols, id)))
    else None
  }

  /** What a pack says about a path, whatever its row id. */
  function FactsFrom(pack: Pack, path: string): Option<Facts> {
    if path in pack.seen then FactsAt(pack, pack.seen[path]) else None
  }

  /** What the file itself says. */
  function FactsOf(w: World, path: string, elf: Elf): Facts {
    Facts(elf.about, EdgesOf(w.ldd(path), elf.libraries), SegmentsOf(w, elf), SymbolsOf(elf.dynsym))
  }

  function EdgesFrom(pack: Pack, path: string): seq<Edge> {
    var facts := FactsFrom(pack, path);
    if facts.Some? then facts.value.edges else []
  }

  /** Row i is numbered, indexed by `seen`, consistent in kind, and has exactly the facts of its own file. */
  ghost predicate RowOk(pack: Pack, w: World, i: nat)
    requires i < |pack.objects|
  {
    var row := pack.objects[i];
    && row.id == i + 1 && row.exe == row.isRoot
    && row.path in pack.seen && pack.seen[row.path] == i + 1
    && w.read(row.path).Some?
    && FactsAt(pack, i + 1) == Some(FactsOf(w, row.path, w.read(row.path).value))
  }

  /** Every row of a table belongs to one of n objects. */
  ghost predicate OwnersOk<T>(table: seq<Owned<T>>, n: nat) {
    forall k :: 0 <= k < |table| ==> 1 <= table[k].objectId <= n
  }

  ghost predicate SeenOk(pack: Pack, path: string)
    requires path in pack.seen
  {
    1 <= pack.seen[path] <= |pack.objects| && pack.objects[pack.seen[path] - 1].path == path
  }

  /** What every step keeps; in particular no path has two rows. */
  ghost predicate Inv(pack: Pack, w: World) {
    && (forall i :: 0 <= i < |pack.objects| ==> RowOk(pack, w, i))
    && (forall path :: path in pack.seen ==> SeenOk(pack, path))
    && OwnersOk(pack.needs, |pack.objects|) && OwnersOk(pack.segments, |pack.objects|)
    && OwnersOk(pack.symbols, |pack.objects|)
  }

  lemma {:induction false} RowsOfOwner<T>(table: seq<Owned<T>>, id: nat, rows: seq<T>, at: nat)
    ensures RowsAt(table + OwnRows(id, rows), at) == RowsAt(table, at) + if at == id then rows else []
  {
    if rows == [] {
      assert table + OwnRows(id, rows) == table;
    } else {
      var own := OwnRows(id, rows);
      RowsOfOwner(table, id, rows[..|rows| - 1], at);
      assert (table + own)[..|table + own| - 1] == table + OwnRows(id, rows[..|rows| - 1]);
    }
  }

  lemma {:induction false} NoRowsYet<T>(table: seq<Owned<T>>, n: nat, id: nat)
    requires OwnersOk(table, n) && id > n
    ensures RowsAt(table, id) == []
  {
    if table != [] {
      NoRowsYet(table[..|table| - 1], n, id);
    }
  }

  lemma {:induction false} OwnersAppend<T>(table: seq<Owned<T>>, n: nat, rows: seq<T>)
    requires OwnersOk(table, n)
    ensures OwnersOk(table + OwnRows(n + 1, rows), n + 1)
  {
    if rows != [] {
      OwnersAppend(table, n, rows[..|rows| - 1]);
      var before := table + OwnRows(n + 1, rows[..|rows| - 1]);
      assert table + OwnRows(n + 1, rows) == before + [Owned(n + 1, rows[|rows| - 1])];
    }
  }

  /** Appending an object's rows to a table leaves the other objects' rows alone. */
  lemma {:induction false} TableKeeps<T>(table: seq<Owned<T>>, n: nat, rows: seq<T>)
    requires OwnersOk(table, n)
    ensures OwnersOk(table + OwnRows(n + 1, rows), n + 1)
    ensures RowsAt(table + OwnRows(n + 1, rows), n + 1) == rows
    ensures forall at: nat :: at <= n ==> RowsAt(table + OwnRows(n + 1, rows), at) == RowsAt(table, at)
  {
    hide RowsAt, OwnRows, OwnersOk;
    OwnersAppend(table, n, rows);
    NoRowsYet(table, n, n + 1);
    RowsOfOwner(table, n + 1, rows, n + 1);
    forall at: nat | at <= n
      ensures RowsAt(table + OwnRows(n + 1, rows), at) == RowsAt(table, at)
    {
      RowsOfOwner(table, n + 1, rows, at);
    }
  }

  lemma {:induction false} PromoteKeeps(pack: Pack, w: World, path: string)
    requires Inv(pack, w) && path in pack.seen
    ensures var r := pack.(objects := Promote(pack.objects, path));
      && Inv(r, w)
      && (forall p :: HasPath(r, p) <==> HasPath(pack, p))
      && (forall p :: HasRoot(r, p) <==> HasRoot(pack, p) || p == path)
  {
    hide RowsAt, FactsOf;
    var r := pack.(objects := Promote(pack.objects, path));
    forall i | 0 <= i < |r.objects|
      ensures RowOk(r, w, i)
    {
      assert RowOk(pack, w, i);
    }
    forall p | p in r.seen
      ensures SeenOk(r, p)
    {
      assert SeenOk(pack, p);
    }
    assert SeenOk(pack, path);
    assert r.objects[pack.seen[path] - 1].path == path;
    forall p
      ensures HasPath(r, p) <==> HasPath(pack, p)
      ensures HasRoot(r, p) <==> HasRoot(pack, p) || p == path
    {
      assert forall i :: 0 <= i < |r.objects| ==> r.objects[i].path == pack.objects[i].path;
    }
  }

  lemma {:induction false} AppendKeeps(pack: Pack, w: World, path: string, isRoot: bool)
    requires Inv(pack, w) && path !in pack.seen && w.read(path).Some?
    ensures Inv(AfterInsert(pack, w, path, isRoot).value, w)
  {
    hide RowsAt, EdgesOf, SegmentsOf, SymbolsOf, OwnRows, OwnersOk;
    var n, r, elf := |pack.objects|, AfterInsert(pack, w, path, isRoot).value, w.read(path).value;
    TableKeeps(pack.needs, n, EdgesOf(w.ldd(path), elf.libraries));
    TableKeeps(pack.segments, n, SegmentsOf(w, elf));
    TableKeeps(pack.symbols, n, SymbolsOf(elf.dynsym));
    forall i | 0 <= i <= n
      ensures RowOk(r, w, i)
    {
      if i < n {
        assert RowOk(pack, w, i);
      }
    }
    forall p | p in r.seen
      ensures SeenOk(r, p)
    {
      assert p != path ==> SeenOk(pack, p);
    }
  }

  /** _insert_object adds the path, promotes it when it is a root, and keeps everything else. */
  lemma {:induction false} InsertKeeps(pack: Pack, w: World, path: string, isRoot: bool)
    requires Inv(pack, w)
    ensures AfterInsert(pack, w, path, isRoot).Some? <==> path in pack.seen || w.read(path).Some?
    ensures AfterInsert(pack, w, path, isRoot).Some? ==>
      var r := AfterInsert(pack, w, path, isRoot).value;
      && Inv(r, w)
      && (forall p :: HasPath(r, p) <==> HasPath(pack, p) || p == path)
      && (forall p :: HasRoot(r, p) <==> HasRoot(pack, p) || (p == path && isRoot))
  {
    hide RowsAt, EdgesOf, OwnRows, RowOk, SegmentsOf, SymbolsOf;
    if path in pack.seen {
      assert SeenOk(pack, path);
      if isRoot {
        PromoteKeeps(pack, w, path);
      }
    } else if w.read(path).Some? {
      AppendKeeps(pack, w, path, isRoot);
      var n, r := |pack.objects|, AfterInsert(pack, w, path, isRoot).value;
      assert r.objects[n].path == path;
      assert forall i :: 0 <= i < n ==> r.objects[i] == pack.objects[i];
    }
  }

  // ---- whole packs ----

  /** The paths build_closure reaches. */
  ghost predicate ReachedFrom(w: World, root: string, path: string) {
    w.isElf(root) && (path == root || path in w.ldd(root).Values)
  }

  ghost predicate Reached(w: World, roots: seq<string>, path: string) {
    exists root :: root in roots && ReachedFrom(w, root, path)
  }

  ghost predicate Readable(w: World, roots: seq<string>) {
    forall path :: Reached(w, roots, path) ==> w.read(path).Some?
  }

  lemma {:induction false} SeenIsPaths(pack: Pack, w: World, path: string)
    requires Inv(pack, w)
    ensures path in pack.seen <==> HasPath(pack, path)
    ensures path in pack.seen ==> w.read(path).Some?
  {
    hide RowsAt, FactsOf;
    if path in pack.seen {
      assert SeenOk(pack, path) && RowOk(pack, w, pack.seen[path] - 1);
    }
    if i :| 0 <= i < |pack.objects| && pack.objects[i].path == path {
      assert RowOk(pack, w, i);
    }
  }

  lemma {:induction false} LibrariesKeep(pack: Pack, w: World, libs: seq<string>)
    requires Inv(pack, w)
    ensures AfterLibraries(pack, w, libs).Some? <==>
            forall p :: p in libs ==> HasPath(pack, p) || w.read(p).Some?
    ensures AfterLibraries(pack, w, libs).Some? ==>
      var r := AfterLibraries(pack, w, libs).value;
      && Inv(r, w)
      && (forall p :: HasPath(r, p) <==> HasPath(pack, p) || p in libs)
      && (forall p :: HasRoot(r, p) <==> HasRoot(pack, p))
  {
    hide AfterInsert, Inv, HasPath, HasRoot;
    if libs != [] {
      var n := |libs| - 1;
      LibrariesKeep(pack, w, libs[..n]);
      assert libs == libs[..n] + [libs[n]];
      var before := AfterLibraries(pack, w, libs[..n]);
      if before.Some? {
        InsertKeeps(before.value, w, libs[n], false);
        SeenIsPaths(before.value, w, libs[n]);
      }
    }
  }

  lemma {:induction false} RootKeeps(pack: Pack, w: World, root: string)
    requires Inv(pack, w) && Consistent(w)
    ensures AfterRoot(pack, w, root).Some? <==>
            forall p :: ReachedFrom(w, root, p) ==> HasPath(pack, p) || w.read(p).Some?
    ensures AfterRoot(pack, w, root).Some? ==>
      var r := AfterRoot(pack, w, root).value;
      && Inv(r, w)
      && (forall p :: HasPath(r, p) <==> HasPath(pack, p) || ReachedFrom(w, root, p))
      && (forall p :: HasRoot(r, p) <==> HasRoot(pack, p) || (p == root && w.isElf(root)))
  {
    hide AfterInsert, AfterLibraries, Inv, HasPath, HasRoot;
    if w.isElf(root) {
      InsertKeeps(pack, w, root, true);
      SeenIsPaths(pack, w, root);
      assert ReachedFrom(w, root, root);
      var rooted := AfterInsert(pack, w, root, true);
      if rooted.Some? {
        LibrariesKeep(rooted.value, w, w.lddPaths(root));
        SeenIsPaths(rooted.value, w, root);
      }
    }
  }

  /** build_closure packs exactly the reached paths, marks exactly the ELF roots, and fails exactly when some reached
      path cannot be read. */
  lemma {:induction false} PackIs(w: World, roots: seq<string>)
    requires Consistent(w)
    ensures AfterRoots(w, roots).Some? <==> Readable(w, roots)
    ensures AfterRoots(w, roots).Some? ==>
      var r := AfterRoots(w, roots).value;
      && Inv(r, w)
      && (forall p :: HasPath(r, p) <==> Reached(w, roots, p))
      && (forall p :: HasRoot(r, p) <==> p in roots && w.isElf(p))
  {
    hide AfterRoot, RowOk, SeenOk, ReachedFrom, Consistent;
    if roots != [] {
      var n := |roots| - 1;
      PackIs(w, roots[..n]);
      assert roots == roots[..n] + [roots[n]];
      forall p
        ensures Reached(w, roots, p) <==> Reached(w, roots[..n], p) || ReachedFrom(w, roots[n], p)
      {
        assert roots[n] in roots;
      }
      var before := AfterRoots(w, roots[..n]);
      if before.Some? {
        RootKeeps(before.value, w, roots[n]);
        PathsAreReadable(before.value, w);
      }
    }
  }

  lemma {:induction false} PathsAreReadable(pack: Pack, w: World)
    requires Inv(pack, w)
    ensures forall p :: HasPath(pack, p) ==> w.read(p).Some?
  {
    hide Inv, HasPath;
    forall p | HasPath(pack, p)
      ensures w.read(p).Some?
    {
      SeenIsPaths(pack, w, p);
    }
  }

  lemma {:induction false} FactsAreOwn(pack: Pack, w: World, path: string)
    requires Inv(pack, w) && HasPath(pack, path)
    ensures w.read(path).Some? && FactsFrom(pack, path) == Some(FactsOf(w, path, w.read(path).value))
  {
    hide RowsAt, FactsOf;
    SeenIsPaths(pack, w, path);
    assert SeenOk(pack, path) && RowOk(pack, w, pack.seen[path] - 1);
  }

  /** Packing does not depend on the order or the repetition of roots: same success, same objects, same roots, and
      of each object the same columns, edges, segments and symbols, up to row ids. */
  lemma {:induction false} OrderIndependence(w: World, roots: seq<string>, others: seq<string>)
    requires Consistent(w) && forall r :: r in roots <==> r in others
    ensures AfterRoots(w, roots).Some? <==> AfterRoots(w, others).Some?
    ensures AfterRoots(w, roots).Some? ==>
      var a, b := AfterRoots(w, roots).value, AfterRoots(w, others).value;
      && (forall p :: HasPath(a, p) <==> HasPath(b, p))
      && (forall p :: HasRoot(a, p) <==> HasRoot(b, p))
      && (forall p :: FactsFrom(a, p) == FactsFrom(b, p))
  {
    hide AfterRoots, Inv, HasPath, HasRoot, FactsFrom;
    PackIs(w, roots);
    PackIs(w, others);
    assert forall p :: Reached(w, roots, p) <==> Reached(w, others, p);
    if AfterRoots(w, roots).Some? {
      var a, b := AfterRoots(w, roots).value, AfterRoots(w, others).value;
      forall p
        ensures FactsFrom(a, p) == FactsFrom(b, p)
      {
        FactsFromCases(a, w, p);
        FactsFromCases(b, w, p);
      }
    }
  }

  lemma {:induction false} FactsFromCases(pack: Pack, w: World, path: string)
    requires Inv(pack, w)
    ensures HasPath(pack, path) ==>
      w.read(path).Some? && FactsFrom(pack, path) == Some(FactsOf(w, path, w.read(path).value))
    ensures !HasPath(pack, path) ==> FactsFrom(pack, path) == None
  {
    hide FactsAt, FactsOf, RowOk, SeenOk;
    SeenIsPaths(pack, w, path);
    if HasPath(pack, path) {
      FactsAreOwn(pack, w, path);
    }
  }

  /** Roots do not interfere: an object has the columns, edges, segments and symbols it gets when any one root that
      reaches it is packed alone. */
  lemma {:induction false} NonInterference(w: World, roots: seq<string>, root: string, path: string)
    requires Consistent(w) && AfterRoots(w, roots).Some? && root in roots && ReachedFrom(w, root, path)
    ensures AfterRoots(w, [root]).Some?
    ensures HasPath(AfterRoots(w, roots).value, path) && HasPath(AfterRoots(w, [root]).value, path)
    ensures FactsFrom(AfterRoots(w, roots).value, path) == FactsFrom(AfterRoots(w, [root]).value, path)
  {
    hide AfterRoots, Inv, HasPath, HasRoot, FactsFrom, ReachedFrom;
    PackIs(w, roots);
    PackIs(w, [root]);
    assert root in [root];
    assert forall p :: Reached(w, [root], p) ==> Reached(w, roots, p);
    FactsFromCases(AfterRoots(w, roots).value, w, path);
    FactsFromCases(AfterRoots(w, [root]).value, w, path);
  }

  // ---- dangling edges ----

  ghost predicate NoDangling(pack: Pack) {
    forall p, i :: HasPath(pack, p) && 0 <= i < |EdgesFrom(pack, p)| && EdgesFrom(pack, p)[i].resolved.Some? ==>
      HasPath(pack, EdgesFrom(pack, p)[i].resolved.value)
  }

  /** The file at p needs the name, and resolves it. */
  predicate Resolves(w: World, p: string, soname: string) {
    w.read(p).Some? && soname in w.read(p).value.libraries && soname in w.ldd(p)
  }

  /** Every NEEDED name of a reached path that resolves at all resolves to a reached path. */
  ghost predicate SelfContained(w: World, roots: seq<string>) {
    forall p, soname :: Reached(w, roots, p) && Resolves(w, p, soname) ==> Reached(w, roots, w.ldd(p)[soname])
  }

  /** A pack has no dangling edge exactly when the libraries' own resolutions stay within what the roots reach. */
  lemma {:induction false} DanglingExactly(w: World, roots: seq<string>)
    requires Consistent(w) && AfterRoots(w, roots).Some?
    ensures NoDangling(AfterRoots(w, roots).value) <==> SelfContained(w, roots)
  {
    hide AfterRoots, Inv, HasPath, HasRoot, FactsFrom, SegmentsOf, SymbolsOf, Reached;
    PackIs(w, roots);
    var pack := AfterRoots(w, roots).value;
    forall p | HasPath(pack, p)
      ensures w.read(p).Some? && EdgesFrom(pack, p) == EdgesOf(w.ldd(p), w.read(p).value.libraries)
    {
      FactsFromCases(pack, w, p);
    }
    if NoDangling(pack) {
      forall p, soname | Reached(w, roots, p) && Resolves(w, p, soname)
        ensures Reached(w, roots, w.ldd(p)[soname])
      {
        var i :| 0 <= i < |w.read(p).value.libraries| && w.read(p).value.libraries[i] == soname;
        assert EdgesFrom(pack, p)[i].resolved == Some(w.ldd(p)[soname]);
      }
    }
  }

  /** p's NEEDED names resolve, if at all, to paths in the resolution map of `root`. */
  ghost predicate NestedIn(w: World, root: string, p: string) {
    forall soname :: Resolves(w, p, soname) ==> w.ldd(p)[soname] in w.ldd(root).Values
  }

  /** In particular when every library resolves its names inside the resolution map of a root that reaches it. */
  lemma {:induction false} NestedResolutionsSuffice(w: World, roots: seq<string>)
    requires forall p :: Reached(w, roots, p) ==>
      exists root :: root in roots && ReachedFrom(w, root, p) && NestedIn(w, root, p)
    ensures SelfContained(w, roots)
  {
    forall p, soname | Reached(w, roots, p) && Resolves(w, p, soname)
      ensures Reached(w, roots, w.ldd(p)[soname])
    {
      var root :| root in roots && ReachedFrom(w, root, p) && NestedIn(w, root, p);
      assert ReachedFrom(w, root, w.ldd(p)[soname]);
    }
  }

  // ---- what the rows of a packed object say ----

  predicate ShowsPacked(row: PackedSymbol, sym: ElfSymbol) {
    && row.name == sym.name && row.value == sym.value && row.size == sym.size
    && LowerOf(row.typ, sym.typ) && LowerOf(row.bind, sym.binding)
    && row.defined == (sym.shndx != None && sym.shndx != Some(0))
    && row.exported == (sym.shndx != None && sym.shndx != Some(0) && sym.binding != "LOCAL")
  }

  /** Row i of the segments shows program header i: bits 2, 1 and 0 of its flags are r, w and x. */
  predicate ShowsSegment(row: Segment, i: nat, p: Phdr) {
    && row.id == i && row.typ == TypeName(p.ptype) && row.ptype == p.ptype && row.offset == p.offset
    && row.vaddr == p.vaddr && row.filesz == p.filesz && row.memsz == p.memsz && row.align == p.align
    && row.r == (p.flags / 4 % 2 == 1) && row.w == (p.flags / 2 % 2 == 1) && row.x == (p.flags % 2 == 1)
    && row.content == p.content
  }

  lemma {:induction false} PackSymbolShows(sym: ElfSymbol)
    ensures ShowsPacked(PackSymbol(sym), sym)
  {
  }

  lemma {:induction false} SymbolsAre(syms: seq<ElfSymbol>)
    ensures |SymbolsOf(syms)| == |NamedSymbols(syms)|
    ensures forall i :: 0 <= i < |SymbolsOf(syms)| ==> ShowsPacked(SymbolsOf(syms)[i], NamedSymbols(syms)[i])
  {
    hide PackSymbol, ShowsPacked;
    if syms != [] {
      var n := |syms| - 1;
      SymbolsAre(syms[..n]);
      NamedLast(syms[..n], syms[n]);
      PackSymbolShows(syms[n]);
      assert syms == syms[..n] + [syms[n]];
    }
  }

  /** The rows of a packed object, column by column: what the ELF file says about itself; its NEEDED names in order,
      each resolved as this object sees it; its program headers if segments are asked for; its named symbols in
      order. */
  lemma {:induction false} FactsAre(w: World, path: string, elf: Elf)
    ensures var facts, ldd := FactsOf(w, path, elf), w.ldd(path);
      && facts.about == elf.about
      && |facts.edges| == |elf.libraries|
      && (forall i :: 0 <= i < |elf.libraries| ==>
            facts.edges[i] == Edge(i, elf.libraries[i],
                                   if elf.libraries[i] in ldd then Some(ldd[elf.libraries[i]]) else None))
      && |facts.segments| == (if w.withSegments then |elf.phdrs| else 0)
      && (forall i :: 0 <= i < |facts.segments| ==> ShowsSegment(facts.segments[i], i, elf.phdrs[i]))
      && |facts.symbols| == |NamedSymbols(elf.dynsym)|
      && forall i :: 0 <= i < |facts.symbols| ==> ShowsPacked(facts.symbols[i], NamedSymbols(elf.dynsym)[i])
  {
    hide TypeName, SymbolsOf, NamedSymbols;
    SymbolsAre(elf.dynsym);
  }

  // ---- in which order objects are numbered ----

  /** The paths build_closure visits: every ELF root, then its libraries as ldd lists them. */
  function Visits(w: World, roots: seq<string>): seq<string> {
    if roots == [] then [] else
      (if w.isElf(roots[0]) then [roots[0]] + w.lddPaths(roots[0]) else []) + Visits(w, roots[1..])
  }

  /** `known`, then each further path at its first visit. */
  function Visited(known: seq<string>, visits: seq<string>): seq<string>
    decreases |visits|
  {
    if visits == [] then known
    else Visited(if visits[0] in known then known else known + [visits[0]], visits[1..])
  }

  function Paths(pack: Pack): seq<string> {
    seq(|pack.objects|, i requires 0 <= i < |pack.objects| => pack.objects[i].path)
  }

  lemma {:induction false} VisitedConcat(known: seq<string>, a: seq<string>, b: seq<string>)
    ensures Visited(known, a + b) == Visited(Visited(known, a), b)
    decreases |a|
  {
    if a == [] {
      assert a + b == b;
    } else {
      VisitedConcat(if a[0] in known then known else known + [a[0]], a[1..], b);
      assert (a + b)[1..] == a[1..] + b;
    }
  }

  lemma {:induction false} VisitsLast(w: World, roots: seq<string>, root: string)
    ensures Visits(w, roots + [root]) ==
            Visits(w, roots) + if w.isElf(root) then [root] + w.lddPaths(root) else []
  {
    if roots == [] {
      assert roots + [root] == [root] && [root][1..] == [];
    } else {
      VisitsLast(w, roots[1..], root);
      assert (roots + [root])[1..] == roots[1..] + [root];
    }
  }

  lemma {:induction false} InsertPaths(pack: Pack, w: World, path: string, isRoot: bool)
    requires Inv(pack, w) && AfterInsert(pack, w, path, isRoot).Some?
    ensures Paths(AfterInsert(pack, w, path, isRoot).value) == Visited(Paths(pack), [path])
  {
    hide Inv, RowsAt, FactsAt, EdgesOf, SegmentsOf, SymbolsOf, OwnRows;
    SeenIsPaths(pack, w, path);
    assert [path][1..] == [];
    assert path in Paths(pack) <==> HasPath(pack, path) by {
      if i :| 0 <= i < |pack.objects| && pack.objects[i].path == path {
        assert Paths(pack)[i] == path;
      }
    }
    var r := AfterInsert(pack, w, path, isRoot).value;
    assert Paths(r) == if path in pack.seen then Paths(pack) else Paths(pack) + [path];
  }

  lemma {:induction false} LibraryPaths(pack: Pack, w: World, libs: seq<string>)
    requires Inv(pack, w) && AfterLibraries(pack, w, libs).Some?
    ensures Paths(AfterLibraries(pack, w, libs).value) == Visited(Paths(pack), libs)
  {
    hide AfterInsert, Inv, Paths, HasPath, HasRoot;
    if libs != [] {
      var n := |libs| - 1;
      var before := AfterLibraries(pack, w, libs[..n]).value;
      LibraryPaths(pack, w, libs[..n]);
      LibrariesKeep(pack, w, libs[..n]);
      InsertPaths(before, w, libs[n], false);
      VisitedConcat(Paths(pack), libs[..n], [libs[n]]);
      assert libs == libs[..n] + [libs[n]];
    }
  }

  /** Objects are numbered in the order of first visit: each root, then its libraries, root by root. */
  lemma {:induction false} PackOrder(w: World, roots: seq<string>)
    requires Consistent(w) && AfterRoots(w, roots).Some?
    ensures Paths(AfterRoots(w, roots).value) == Visited([], Visits(w, roots))
  {
    hide AfterInsert, AfterLibraries, Inv, Paths, HasPath, HasRoot, Visited, Visits, Consistent;
    if roots == [] {
      NoPaths(w);
    } else {
      var n := |roots| - 1;
      var before, root := AfterRoots(w, roots[..n]).value, roots[n];
      PackOrder(w, roots[..n]);
      PackIs(w, roots[..n]);
      VisitsLast(w, roots[..n], root);
      assert roots == roots[..n] + [root];
      if w.isElf(root) {
        var rooted := AfterInsert(before, w, root, true).value;
        InsertPaths(before, w, root, true);
        InsertKeeps(before, w, root, true);
        LibraryPaths(rooted, w, w.lddPaths(root));
        VisitedConcat(Paths(before), [root], w.lddPaths(root));
        VisitedConcat([], Visits(w, roots[..n]), [root] + w.lddPaths(root));
      } else {
        assert Visits(w, roots[..n]) + [] == Visits(w, roots[..n]);
      }
    }
  }

  lemma {:induction false} NoPaths(w: World)
    ensures Paths(EMPTY) == Visited([], Visits(w, []))
  {
  }

  /** The skipped list keeps exactly the roots that are no ELF files, in order. */
  lemma {:induction false} SkippedSplit(w: World, roots: seq<string>, more: seq<string>)
    ensures SkippedRoots(w, roots + more) == SkippedRoots(w, roots) + SkippedRoots(w, more)
    ensures more == [] ==> SkippedRoots(w, more) == []
    ensures |more| == 1 ==> SkippedRoots(w, more) == if w.isElf(more[0]) then [] else more
  {
    if more == [] {
      assert roots + more == roots;
    } else {
      var n, both := |more| - 1, roots + more;
      SkippedSplit(w, roots, more[..n]);
      assert both[..|both| - 1] == roots + more[..n] && both[|both| - 1] == more[n];
    }
  }
}
