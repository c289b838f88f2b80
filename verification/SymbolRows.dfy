/** selfconv/elf2self.py: symbol rows, relocation rows, and the identity of a relocation's symbol across both. */
module SymbolRows {
  import opened Wrappers
  import opened ElfImage
  import opened SelfRows
  import opened Binder

  /** A symbol as LIEF reports it, enum members by name; `shndx` is None where the int() conversion fails. */
  datatype ElfSymbol = ElfSymbol(name: string, version: Option<string>, value: nat, size: nat, typ: string,
                                 binding: string, visibility: string, shndx: Option<nat>)

  /** A relocation as LIEF reports it: the raw type number, and the symbol's name if it has a symbol. */
  datatype ElfReloc = ElfReloc(address: nat, rtype: int, symbol: Option<string>, addend: int)

  function LowerChar(c: char): char {
    if 'A' <= c <= 'Z' then c + 32 as char else c
  }

  /** str.lower() on an enum member's name. */
  function LowerCase(s: string): (r: string)
    ensures |r| == |s| && forall i :: 0 <= i < |s| ==> r[i] == LowerChar(s[i])
  {
    seq(|s|, i requires 0 <= i < |s| => LowerChar(s[i]))
  }

  predicate DefinedIn(sym: ElfSymbol) {
    sym.shndx.Some? && sym.shndx.value != 0
  }

  /** Defined and not local. */
  predicate ExportedBy(sym: ElfSymbol) {
    DefinedIn(sym) && sym.binding != "LOCAL"
  }

  function SymbolRow(id: nat, sym: ElfSymbol, dynsym: bool): Symbol {
    Symbol(id, sym.name, Some(sym.value), ExportedBy(sym), dynsym,
           SymbolInfo(sym.version, sym.size, LowerCase(sym.typ), LowerCase(sym.binding), LowerCase(sym.visibility),
                      sym.shndx, DefinedIn(sym)))
  }

  /** A row for every named symbol; SQLite numbers rows consecutively. */
  function InsertedRows(rows: seq<Symbol>, syms: seq<ElfSymbol>, dynsym: bool): seq<Symbol> {
    if syms == [] then rows else
      var before := InsertedRows(rows, syms[..|syms| - 1], dynsym);
      var sym := syms[|syms| - 1];
      if sym.name == "" then before else before + [SymbolRow(|before| + 1, sym, dynsym)]
  }

  /** Unnamed, or with numbers that fit SQLite's integers. */
  predicate StorableSymbol(sym: ElfSymbol) {
    sym.name != "" ==> sym.value < SQLITE_LIMIT && sym.size < SQLITE_LIMIT
  }

  method InsertSymbols(rows: seq<Symbol>, syms: seq<ElfSymbol>, dynsym: bool) returns (r: Result<seq<Symbol>, Error>)
    ensures r == if forall i :: 0 <= i < |syms| ==> StorableSymbol(syms[i])
                 then Success(InsertedRows(rows, syms, dynsym)) else Failure(OverflowError)
  {
    var inserted := rows;
    for i := 0 to |syms|
      invariant inserted == InsertedRows(rows, syms[..i], dynsym)
      invariant forall j :: 0 <= j < i ==> StorableSymbol(syms[j])
    {
      assert syms[..i + 1][..i] == syms[..i];
      var sym := syms[i];
      if sym.name == "" {
        continue;
      }
      if sym.value >= SQLITE_LIMIT || sym.size >= SQLITE_LIMIT {
        assert !StorableSymbol(syms[i]);
        return Failure(OverflowError);
      }
      var defined := sym.shndx.Some? && sym.shndx.value != 0;
      var info := SymbolInfo(sym.version, sym.size, LowerCase(sym.typ), LowerCase(sym.binding),
                             LowerCase(sym.visibility), sym.shndx, defined);
      var exported := defined && sym.binding != "LOCAL";
      inserted := inserted + [Symbol(|inserted| + 1, sym.name, Some(sym.value), exported, dynsym, info)];
    }
    assert syms[..|syms|] == syms;
    return Success(inserted);
  }

  // ---- the rows, column by column ----

  function NamedSymbols(syms: seq<ElfSymbol>): seq<ElfSymbol> {
    if syms == [] then [] else (if syms[0].name == "" then [] else [syms[0]]) + NamedSymbols(syms[1..])
  }

  predicate LowerOf(lower: string, s: string) {
    |lower| == |s| && forall i :: 0 <= i < |s| ==>
      if 'A' <= s[i] <= 'Z' then lower[i] as int == s[i] as int + 32 else lower[i] == s[i]
  }

  /** The row shows the symbol: its own name, value, size, version and section index; lower-cased type, binding and
      visibility; defined when it has a section; exported when defined and its binding is not LOCAL. */
  predicate ShowsSymbol(row: Symbol, sym: ElfSymbol) {
    && row.name == sym.name && row.value == Some(sym.value) && row.info.size == sym.size
    && row.info.version == sym.version && row.info.shndx == sym.shndx
    && LowerOf(row.info.typ, sym.typ) && LowerOf(row.info.bind, sym.binding)
    && LowerOf(row.info.visibility, sym.visibility)
    && row.info.defined == (sym.shndx != None && sym.shndx != Some(0))
    && row.exported == (sym.shndx != None && sym.shndx != Some(0) && sym.binding != "LOCAL")
  }

  predicate IsRow(row: Symbol, id: nat, sym: ElfSymbol, dynsym: bool) {
    row.id == id && row.dynsym == dynsym && ShowsSymbol(row, sym)
  }

  lemma {:induction false} SymbolRowShows(id: nat, sym: ElfSymbol, dynsym: bool)
    ensures IsRow(SymbolRow(id, sym, dynsym), id, sym, dynsym)
  {
  }

  lemma {:induction false} NamedLast(syms: seq<ElfSymbol>, sym: ElfSymbol)
    ensures NamedSymbols(syms + [sym]) == NamedSymbols(syms) + if sym.name == "" then [] else [sym]
  {
    if syms == [] {
      assert syms + [sym] == [sym] && [sym][1..] == [];
    } else {
      NamedLast(syms[1..], sym);
      assert (syms + [sym])[1..] == syms[1..] + [sym];
    }
  }

  /** _insert_symbols appends one row for each named symbol, in order, numbered on from the rows before. */
  lemma {:induction false} InsertedAre(rows: seq<Symbol>, syms: seq<ElfSymbol>, dynsym: bool)
    ensures var r, named := InsertedRows(rows, syms, dynsym), NamedSymbols(syms);
      && |r| == |rows| + |named| && r[..|rows|] == rows
      && forall j :: 0 <= j < |named| ==>
           IsRow(r[|rows| + j], |rows| + j + 1, named[j], dynsym)
  {
    hide SymbolRow, IsRow;
    if syms != [] {
      var n := |syms| - 1;
      InsertedAre(rows, syms[..n], dynsym);
      NamedLast(syms[..n], syms[n]);
      assert syms == syms[..n] + [syms[n]];
      var before, r := InsertedRows(rows, syms[..n], dynsym), InsertedRows(rows, syms, dynsym);
      SymbolRowShows(|before| + 1, syms[n], dynsym);
      var olds, named := NamedSymbols(syms[..n]), NamedSymbols(syms);
      forall j | 0 <= j < |named|
        ensures IsRow(r[|rows| + j], |rows| + j + 1, named[j], dynsym)
      {
        assert j < |olds| ==> r[|rows| + j] == before[|rows| + j] && named[j] == olds[j];
      }
    }
  }

  /** First the dynamic symbols, then the static ones. */
  function SymbolTable(dynsym: seq<ElfSymbol>, symtab: seq<ElfSymbol>): seq<Symbol> {
    InsertedRows(InsertedRows([], dynsym, true), symtab, false)
  }

  /** sym_ids: of several dynsym rows with one name, the last one the query delivers wins. */
  function SymIds(rows: seq<Symbol>): map<string, nat> {
    if rows == [] then map[] else SymIds(rows[..|rows| - 1])[rows[|rows| - 1].name := rows[|rows| - 1].id]
  }

  /** The relocation row: the symbol id by name, if there is a named symbol and dynsym has the name. */
  function RelocRow(ids: map<string, nat>, r: ElfReloc): Reloc {
    Reloc(r.address, r.rtype,
          if r.symbol.Some? && r.symbol.value != "" && r.symbol.value in ids then Some(ids[r.symbol.value]) else None,
          r.addend)
  }

  // ---- identity ----

  ghost predicate Numbered(rows: seq<Symbol>) {
    forall i :: 0 <= i < |rows| ==> rows[i].id == i + 1
  }

  /** `rows` is what SELECT ... WHERE source='dynsym' may deliver, in any order. */
  ghost predicate DynsymRows(rows: seq<Symbol>, table: seq<Symbol>) {
    forall s :: s in rows <==> s in table && s.dynsym
  }

  predicate Named(syms: seq<ElfSymbol>, name: string) {
    exists i :: 0 <= i < |syms| && syms[i].name == name
  }

  lemma {:induction false} InsertedNumbered(rows: seq<Symbol>, syms: seq<ElfSymbol>, dynsym: bool)
    requires Numbered(rows)
    ensures Numbered(InsertedRows(rows, syms, dynsym))
  {
    if syms != [] {
      InsertedNumbered(rows, syms[..|syms| - 1], dynsym);
    }
  }

  lemma {:induction false} InsertedNames(rows: seq<Symbol>, syms: seq<ElfSymbol>, dynsym: bool, name: string)
    requires name != ""
    ensures (exists s :: s in InsertedRows(rows, syms, dynsym) && s.name == name && s.dynsym) <==>
            (exists s :: s in rows && s.name == name && s.dynsym) || (dynsym && Named(syms, name))
  {
    if syms != [] {
      var n := |syms| - 1;
      InsertedNames(rows, syms[..n], dynsym, name);
      var before, after := InsertedRows(rows, syms[..n], dynsym), InsertedRows(rows, syms, dynsym);
      assert Named(syms, name) <==> Named(syms[..n], name) || syms[n].name == name;
      if syms[n].name == name {
        assert after[|before|] in after;
      }
      assert forall s :: s in before ==> s in after;
      assert forall s :: s in after && s !in before ==> s.name == syms[n].name && s.dynsym == dynsym;
    }
  }

  lemma {:induction false} SymIdsNames(rows: seq<Symbol>, name: string)
    ensures name in SymIds(rows) <==> exists s :: s in rows && s.name == name
    ensures name in SymIds(rows) ==> exists s :: s in rows && s.name == name && s.id == SymIds(rows)[name]
  {
    if rows != [] {
      var n := |rows| - 1;
      SymIdsNames(rows[..n], name);
      assert rows[n] in rows;
      assert forall s :: s in rows[..n] ==> s in rows;
      assert forall s :: s in rows ==> s in rows[..n] || s == rows[n];
    }
  }

  lemma {:induction false} JoinFinds(table: seq<Symbol>, first: nat, i: nat)
    requires i < |table| && forall k :: 0 <= k < |table| ==> table[k].id == first + k
    ensures JoinedName(table, Some(first + i)) == Some(table[i].name)
  {
    if i > 0 {
      JoinFinds(table[1..], first + 1, i - 1);
    }
  }

  /** Binding by id is binding by name: whichever duplicate sym_ids kept, the join gives a relocation back exactly the
      name it had in the ELF file if dynsym has that name, and no name otherwise. */
  lemma {:induction false} SymbolIdentity(dynsym: seq<ElfSymbol>, symtab: seq<ElfSymbol>, rows: seq<Symbol>,
                                          r: ElfReloc)
    requires DynsymRows(rows, SymbolTable(dynsym, symtab))
    ensures JoinedName(SymbolTable(dynsym, symtab), RelocRow(SymIds(rows), r).symbol) ==
            if r.symbol.Some? && r.symbol.value != "" && Named(dynsym, r.symbol.value) then r.symbol else None
  {
    hide InsertedRows, SymIds, JoinedName;
    var dyn := InsertedRows([], dynsym, true);
    var table := SymbolTable(dynsym, symtab);
    InsertedNumbered([], dynsym, true);
    InsertedNumbered(dyn, symtab, false);
    if r.symbol.Some? && r.symbol.value != "" {
      var name := r.symbol.value;
      InsertedNames([], dynsym, true, name);
      InsertedNames(dyn, symtab, false, name);
      SymIdsNames(rows, name);
      if name in SymIds(rows) {
        var s :| s in rows && s.name == name && s.id == SymIds(rows)[name];
        var i :| 0 <= i < |table| && table[i] == s;
        JoinFinds(table, 1, i);
      } else {
        JoinNull(table);
      }
    } else {
      JoinNull(table);
    }
  }

  lemma {:induction false} JoinNull(table: seq<Symbol>)
    ensures JoinedName(table, None) == None
  {
  }
}
