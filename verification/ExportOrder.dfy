/** The export query of loader/selfld.c has no ORDER BY: which of several definitions of a name is published last, and
    when that matters. */
module ExportOrder {
  import opened Wrappers
  import opened AddressSpace
  import opened Exports
  import opened Binder

  predicate Defines(s: Symbol, name: string) {
    Published(s) && s.name == name
  }

  /** The value published last under a name; the table finds this one. */
  function LastValue(symbols: seq<Symbol>, name: string): Option<nat> {
    if symbols == [] then None else
      var last := symbols[|symbols| - 1];
      if Defines(last, name) then last.value else LastValue(symbols[..|symbols| - 1], name)
  }

  /** The value published first. */
  function FirstValue(symbols: seq<Symbol>, name: string): Option<nat> {
    if symbols == [] then None else
      var before := FirstValue(symbols[..|symbols| - 1], name);
      var last := symbols[|symbols| - 1];
      if before.Some? then before else if Defines(last, name) then last.value else None
  }

  lemma {:induction false} LastSymbol(symbols: seq<Symbol>, name: string) returns (i: nat)
    requires LastValue(symbols, name).Some?
    ensures i < |symbols| && Defines(symbols[i], name) && symbols[i].value == LastValue(symbols, name)
  {
    i := |symbols| - 1;
    if !Defines(symbols[i], name) {
      i := LastSymbol(symbols[..i], name);
    }
  }

  lemma {:induction false} FirstSymbol(symbols: seq<Symbol>, name: string) returns (i: nat)
    requires FirstValue(symbols, name).Some?
    ensures i < |symbols| && Defines(symbols[i], name) && symbols[i].value == FirstValue(symbols, name)
  {
    i := |symbols| - 1;
    if FirstValue(symbols[..i], name).Some? {
      i := FirstSymbol(symbols[..i], name);
    }
  }

  lemma {:induction false} DefinedHasLast(symbols: seq<Symbol>, name: string, i: nat)
    requires i < |symbols| && Defines(symbols[i], name)
    ensures LastValue(symbols, name).Some?
  {
    if i < |symbols| - 1 {
      DefinedHasLast(symbols[..|symbols| - 1], name, i);
    }
  }

  /** What one object contributes to the table, name by name. */
  lemma {:induction false} ObjectLookups(symbols: seq<Symbol>, bias: nat, name: string)
    ensures HasName(ExportsOf(symbols, bias), name) <==> LastValue(symbols, name).Some?
    ensures FirstValue(symbols, name).Some? <==> LastValue(symbols, name).Some?
    ensures LastValue(symbols, name).Some? ==>
      && Lookup(ExportsOf(symbols, bias), name) == Wrap(bias + LastValue(symbols, name).value)
      && ScopeLookup(ExportsOf(symbols, bias), name) == Wrap(bias + FirstValue(symbols, name).value)
  {
    hide Wrap, Lookup, ScopeLookup, HasName, ExportsOf;
    if symbols == [] {
      NoExports(bias, name);
    } else {
      var n := |symbols| - 1;
      ObjectLookups(symbols[..n], bias, name);
      LastExported(symbols, bias, name);
    }
  }

  /** The last symbol's share. */
  lemma {:induction false} LastExported(symbols: seq<Symbol>, bias: nat, name: string)
    requires symbols != []
    ensures var n := |symbols| - 1;
      var last, older, all := symbols[n], ExportsOf(symbols[..n], bias), ExportsOf(symbols, bias);
      && (HasName(all, name) <==> Defines(last, name) || HasName(older, name))
      && Lookup(all, name) == (if Defines(last, name) then Wrap(bias + last.value.value) else Lookup(older, name))
      && ScopeLookup(all, name) ==
         (if HasName(older, name) || !Defines(last, name) then ScopeLookup(older, name)
          else Wrap(bias + last.value.value))
  {
    hide Wrap, Lookup, ScopeLookup, HasName;
    var last, older := symbols[|symbols| - 1], ExportsOf(symbols[..|symbols| - 1], bias);
    if Published(last) {
      var e := Export(last.name, Wrap(bias + last.value.value));
      assert ExportsOf(symbols, bias) == [e] + older;
      hide ExportsOf;
      LookupConcat([e], older, name);
      ScopeConcat([e], older, name);
      HasNameConcat([e], older, name);
      OneExport(e, name);
      if !HasName(older, name) {
        NamelessLookup(older, name);
      }
    } else {
      assert ExportsOf(symbols, bias) == older;
    }
  }

  lemma {:induction false} NoExports(bias: nat, name: string)
    ensures ExportsOf([], bias) == [] && !HasName([], name)
  {
  }

  lemma {:induction false} OneExport(e: Export, name: string)
    ensures HasName([e], name) <==> e.name == name
    ensures Lookup([e], name) == ScopeLookup([e], name) == if e.name == name then e.addr else 0
  {
    assert e in [e];
  }

  // ---- any order ----

  predicate SameSymbols(symbols: seq<Symbol>, others: seq<Symbol>) {
    multiset(symbols) == multiset(others)
  }

  /** All definitions of the name have one address. */
  ghost predicate OneAddress(symbols: seq<Symbol>, bias: nat, name: string) {
    forall s, t :: s in symbols && t in symbols && Defines(s, name) && Defines(t, name) ==>
      Wrap(bias + s.value.value) == Wrap(bias + t.value.value)
  }

  lemma {:induction false} SameMembers(symbols: seq<Symbol>, others: seq<Symbol>)
    requires SameSymbols(symbols, others)
    ensures forall s :: s in symbols <==> s in others
  {
    assert forall s :: s in symbols <==> s in multiset(symbols);
    assert forall s :: s in others <==> s in multiset(others);
  }

  /** With one address for the name, what the table answers does not depend on the order of the symbol rows. */
  lemma {:induction false} OrderIrrelevant(symbols: seq<Symbol>, others: seq<Symbol>, bias: nat, older: seq<Export>,
                                           name: string)
    requires SameSymbols(symbols, others) && OneAddress(symbols, bias, name)
    ensures Lookup(ExportsOf(symbols, bias) + older, name) == Lookup(ExportsOf(others, bias) + older, name)
  {
    hide Wrap, Lookup, ExportsOf, LastValue, HasName, OneAddress;
    LookupConcat(ExportsOf(symbols, bias), older, name);
    LookupConcat(ExportsOf(others, bias), older, name);
    ObjectLookups(symbols, bias, name);
    ObjectLookups(others, bias, name);
    LastAgrees(symbols, others, bias, name);
  }

  lemma {:induction false} LastAgrees(symbols: seq<Symbol>, others: seq<Symbol>, bias: nat, name: string)
    requires SameSymbols(symbols, others) && OneAddress(symbols, bias, name)
    ensures LastValue(symbols, name).Some? <==> LastValue(others, name).Some?
    ensures LastValue(symbols, name).Some? ==>
      Wrap(bias + LastValue(symbols, name).value) == Wrap(bias + LastValue(others, name).value)
  {
    hide Wrap, LastValue, Published;
    SameMembers(symbols, others);
    if LastValue(symbols, name).Some? {
      var i := LastSymbol(symbols, name);
      assert symbols[i] in others;
      var j :| 0 <= j < |others| && others[j] == symbols[i];
      DefinedHasLast(others, name, j);
    }
    if LastValue(others, name).Some? {
      var i := LastSymbol(others, name);
      assert others[i] in symbols;
      var j :| 0 <= j < |symbols| && symbols[j] == others[i];
      DefinedHasLast(symbols, name, j);
    }
  }

  /** The rows with row i delivered last. */
  function MovedLast(symbols: seq<Symbol>, i: nat): (r: seq<Symbol>)
    requires i < |symbols|
    ensures SameSymbols(symbols, r)
  {
    assert symbols == symbols[..i] + [symbols[i]] + symbols[i + 1..];
    symbols[..i] + symbols[i + 1..] + [symbols[i]]
  }

  lemma {:induction false} LastDecides(symbols: seq<Symbol>, i: nat, bias: nat, older: seq<Export>, name: string)
    requires i < |symbols| && Defines(symbols[i], name)
    ensures Lookup(ExportsOf(MovedLast(symbols, i), bias) + older, name) == Wrap(bias + symbols[i].value.value)
  {
    hide Wrap, Lookup, ScopeLookup, ExportsOf, HasName, SameSymbols;
    var moved := MovedLast(symbols, i);
    ObjectLookups(moved, bias, name);
    LookupConcat(ExportsOf(moved, bias), older, name);
  }

  /** Exactly: the table's answer for a name is the same under all orders of an object's symbol rows if and only if the
      object publishes the name at one address. */
  lemma {:induction false} ExportOrderExactly(symbols: seq<Symbol>, bias: nat, older: seq<Export>, name: string)
    ensures OneAddress(symbols, bias, name) <==>
            forall others :: SameSymbols(symbols, others) ==>
              Lookup(ExportsOf(others, bias) + older, name) == Lookup(ExportsOf(symbols, bias) + older, name)
  {
    hide Lookup, ExportsOf, Wrap, MovedLast, Defines, SameSymbols;
    if OneAddress(symbols, bias, name) {
      forall others | SameSymbols(symbols, others)
        ensures Lookup(ExportsOf(others, bias) + older, name) == Lookup(ExportsOf(symbols, bias) + older, name)
      {
        OrderIrrelevant(symbols, others, bias, older, name);
      }
    } else {
      var i, j := TwoAddresses(symbols, bias, name);
      LastDecides(symbols, i, bias, older, name);
      LastDecides(symbols, j, bias, older, name);
      assert SameSymbols(symbols, MovedLast(symbols, i)) && SameSymbols(symbols, MovedLast(symbols, j));
    }
  }

  lemma {:induction false} TwoAddresses(symbols: seq<Symbol>, bias: nat, name: string) returns (i: nat, j: nat)
    requires !OneAddress(symbols, bias, name)
    ensures i < |symbols| && j < |symbols| && Defines(symbols[i], name) && Defines(symbols[j], name)
    ensures Wrap(bias + symbols[i].value.value) != Wrap(bias + symbols[j].value.value)
  {
    hide Wrap;
    var s, t :| s in symbols && t in symbols && Defines(s, name) && Defines(t, name)
      && Wrap(bias + s.value.value) != Wrap(bias + t.value.value);
    i :| 0 <= i < |symbols| && symbols[i] == s;
    j :| 0 <= j < |symbols| && symbols[j] == t;
  }
}
